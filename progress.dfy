/** The time-elapsed progress shown for a challenge: the share of its
    calendar days that have passed, clamped to [0, 100]. Dates are day
    numbers; floating point becomes `real`. */
module Progress {
  import opened Records

  function Clamp(x: real): real
  {
    if x < 0.0 then 0.0 else if x > 100.0 then 100.0 else x
  }

  /** `calculate_progress(start_dt, end_dt)` evaluated on the UTC date
      `today`. The window has `end - start + 1` days; a window of zero days
      divides by zero. */
  function CalculateProgress(start: int, end: int, today: int): (r: Result<real, Reason>)
    ensures r.Failure? <==> end - start + 1 == 0
    ensures r.Failure? ==> r.error == DivisionByZero
    ensures r.Success? ==> 0.0 <= r.value <= 100.0
  {
    var total := end - start + 1;
    var elapsed := today - start;
    if total == 0 then Failure(DivisionByZero)
    else Success(Clamp(elapsed as real / total as real * 100.0))
  }

  /** Before the first day nothing has elapsed. */
  lemma NothingBeforeStart(start: int, end: int, today: int)
    requires end - start + 1 > 0
    requires today < start
    ensures CalculateProgress(start, end, today) == Success(0.0)
  {
    var total := (end - start + 1) as real;
    var elapsed := (today - start) as real;
    assert elapsed / total < 0.0;
  }

  /** Once every day of the window has elapsed the progress is full. */
  lemma FullAfterWindow(start: int, end: int, today: int)
    requires end - start + 1 > 0
    requires today - start >= end - start + 1
    ensures CalculateProgress(start, end, today) == Success(100.0)
  {
    var total := (end - start + 1) as real;
    var elapsed := (today - start) as real;
    assert elapsed / total >= 1.0;
  }

  /** Inside the window the progress is the elapsed share, unclamped. */
  lemma ShareInsideWindow(start: int, end: int, today: int)
    requires end - start + 1 > 0
    requires 0 <= today - start <= end - start + 1
    ensures CalculateProgress(start, end, today)
         == Success((today - start) as real / (end - start + 1) as real * 100.0)
  {
    var total := (end - start + 1) as real;
    var elapsed := (today - start) as real;
    assert 0.0 <= elapsed / total <= 1.0;
  }

  /** For a fixed window of at least one day, progress never goes back as
      the date advances. */
  lemma Monotone(start: int, end: int, today: int, later: int)
    requires end - start + 1 > 0
    requires today <= later
    ensures CalculateProgress(start, end, today).value <= CalculateProgress(start, end, later).value
  {
    var total := (end - start + 1) as real;
    var a := (today - start) as real;
    var b := (later - start) as real;
    assert a / total <= b / total by {
      assert b / total - a / total == (b - a) / total;
    }
  }
}
