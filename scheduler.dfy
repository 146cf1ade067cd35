/** The selection made by the daily promotion job: the challenges that are
    PENDING, not deleted, and whose START_DT is not after today's UTC date.
    The column holds a timestamp and the date is compared as its midnight. */
module Scheduler {
  import opened Records

  predicate ShouldStart(c: Challenge, today: int)
  {
    c.start <= Midnight(today) && c.status == ChallengeStatus.Pending && !c.deleted
  }

  /** The numbers (positions) of the selected challenges, in table order. */
  function ToStart(challenges: seq<Challenge>, today: int): (r: seq<nat>)
    ensures forall k | 0 <= k < |r| :: r[k] < |challenges| && ShouldStart(challenges[r[k]], today)
    ensures forall i | 0 <= i < |challenges| && ShouldStart(challenges[i], today) :: i in r
    ensures forall k, l | 0 <= k < l < |r| :: r[k] < r[l]
  {
    if challenges == [] then []
    else
      var n := |challenges| - 1;
      var front := ToStart(challenges[..n], today);
      if ShouldStart(challenges[n], today) then front + [n] else front
  }
}
