/** The `not_empty` validator of ChallengeCreate: run on the raw value of
    every field before parsing, it rejects text that is empty or consists of
    whitespace only and passes everything else through untouched. */
module ChallengeSchema {
  import opened Records

  /** A raw request value: text, a number, or a list of numbers. */
  datatype Value = Text(s: string) | Number(n: int) | Numbers(ns: seq<int>)

  /** The characters Python's `str.strip()` removes (`str.isspace`). */
  predicate IsSpace(c: char)
  {
    c == ' ' || c == '\t' || c == '\n' || c == '\r'
    || c == '\U{0B}' || c == '\U{0C}'
    || ('\U{1C}' <= c <= '\U{1F}')
    || c == '\U{85}' || c == '\U{A0}' || c == '\U{1680}'
    || ('\U{2000}' <= c <= '\U{200A}')
    || c == '\U{2028}' || c == '\U{2029}' || c == '\U{202F}'
    || c == '\U{205F}' || c == '\U{3000}'
  }

  /** `s.strip()` from the left: `s` without its leading whitespace. */
  function StripLeft(s: string): (r: string)
    ensures |r| <= |s| && r == s[|s| - |r|..]
    ensures r == [] || !IsSpace(r[0])
    ensures forall i | 0 <= i < |s| - |r| :: IsSpace(s[i])
  {
    if s == [] || !IsSpace(s[0]) then s else StripLeft(s[1..])
  }

  /** `not s.strip()`: nothing is left once whitespace is stripped. */
  predicate Blank(s: string)
  {
    StripLeft(s) == []
  }

  /** Blank text is exactly text made of whitespace only. */
  lemma {:induction false} BlankIffAllSpace(s: string)
    ensures Blank(s) <==> forall i | 0 <= i < |s| :: IsSpace(s[i])
  {
    if s != [] && IsSpace(s[0]) {
      BlankIffAllSpace(s[1..]);
      assert forall i | 1 <= i < |s| :: s[i] == s[1..][i - 1];
    }
  }

  /** `ChallengeCreate.not_empty(value)`. */
  function NotEmpty(v: Value): (r: Result<Value, Reason>)
    ensures r.Failure? <==> v.Text? && Blank(v.s)
    ensures r.Failure? ==> r.error == BlankField
    ensures r.Success? ==> r.value == v
  {
    if v.Text? && StripLeft(v.s) == [] then Failure(BlankField) else Success(v)
  }

  /** The field `f` is rejected by the validator. */
  predicate Rejected(f: (string, Value))
  {
    NotEmpty(f.1).Failure?
  }

  /** The name of a field when the validator rejects it, else nothing. */
  function NameIfRejected(f: (string, Value)): seq<string>
  {
    if Rejected(f) then [f.0] else []
  }

  /** The names of the fields the validator rejects, in field order. */
  function RejectedNames(fields: seq<(string, Value)>): seq<string>
  {
    if fields == [] then []
    else RejectedNames(fields[..|fields| - 1]) + NameIfRejected(fields[|fields| - 1])
  }

  /** Rejected names can be collected from the front as well. */
  lemma {:induction false} RejectedNamesCons(x: (string, Value), rest: seq<(string, Value)>)
    ensures RejectedNames([x] + rest) == NameIfRejected(x) + RejectedNames(rest)
  {
    var s := [x] + rest;
    if rest == [] {
      assert s[..0] == [];
      assert s == [x];
    } else {
      var n := |rest| - 1;
      assert s[..|s| - 1] == [x] + rest[..n];
      assert s[|s| - 1] == rest[n];
      RejectedNamesCons(x, rest[..n]);
      calc {
        RejectedNames(s);
        RejectedNames([x] + rest[..n]) + NameIfRejected(rest[n]);
        NameIfRejected(x) + RejectedNames(rest[..n]) + NameIfRejected(rest[n]);
        NameIfRejected(x) + RejectedNames(rest);
      }
    }
  }

  /** Every rejected name stands for a rejected field. */
  lemma {:induction false} RejectedNamesSound(fields: seq<(string, Value)>, k: nat)
    requires k < |RejectedNames(fields)|
    ensures exists i | 0 <= i < |fields| :: fields[i].0 == RejectedNames(fields)[k] && Rejected(fields[i])
  {
    var n := |fields| - 1;
    var front := fields[..n];
    if k < |RejectedNames(front)| {
      RejectedNamesSound(front, k);
      var i :| 0 <= i < |front| && front[i].0 == RejectedNames(front)[k] && Rejected(front[i]);
      assert fields[i] == front[i];
    } else {
      assert fields[n].0 == RejectedNames(fields)[k] && Rejected(fields[n]);
    }
  }

  /** Every rejected field is named. */
  lemma {:induction false} RejectedNamesComplete(fields: seq<(string, Value)>, i: nat)
    requires i < |fields| && Rejected(fields[i])
    ensures fields[i].0 in RejectedNames(fields)
  {
    var n := |fields| - 1;
    if i < n {
      RejectedNamesComplete(fields[..n], i);
      assert fields[..n][i] == fields[i];
    }
  }

  /** No name is listed exactly when every field passes. */
  lemma RejectedNamesEmpty(fields: seq<(string, Value)>)
    ensures RejectedNames(fields) == [] <==> forall i | 0 <= i < |fields| :: !Rejected(fields[i])
  {
    if RejectedNames(fields) != [] {
      RejectedNamesSound(fields, 0);
    }
    forall i | 0 <= i < |fields| && Rejected(fields[i])
      ensures RejectedNames(fields) != []
    {
      RejectedNamesComplete(fields, i);
    }
  }

  /** At most one name per field. */
  lemma {:induction false} RejectedNamesFit(fields: seq<(string, Value)>)
    ensures |RejectedNames(fields)| <= |fields|
  {
    if fields != [] {
      RejectedNamesFit(fields[..|fields| - 1]);
    }
  }

  /** Validation of a whole ChallengeCreate body, given as its (name, raw
      value) fields: the validator runs on every field and the error lists
      the name of each field it rejected, in field order. */
  function ValidateAll(fields: seq<(string, Value)>): (r: Result<seq<(string, Value)>, seq<string>>)
    ensures r.Success? <==> forall i | 0 <= i < |fields| :: NotEmpty(fields[i].1).Success?
    ensures r.Success? ==> r.value == fields
    ensures r.Failure? ==> 0 < |r.error| <= |fields|
    ensures r.Failure? ==> forall i | 0 <= i < |fields| && NotEmpty(fields[i].1).Failure? ::
              fields[i].0 in r.error
    // and it names only rejected fields, each once per rejection, in order
    ensures r.Failure? ==> forall k | 0 <= k < |r.error| ::
              exists i | 0 <= i < |fields| :: fields[i].0 == r.error[k] && NotEmpty(fields[i].1).Failure?
    ensures r.Failure? ==> r.error == RejectedNames(fields)
  {
    RejectedNamesEmpty(fields);
    RejectedNamesFit(fields);
    forall k | 0 <= k < |RejectedNames(fields)|
      ensures exists i | 0 <= i < |fields| :: fields[i].0 == RejectedNames(fields)[k] && Rejected(fields[i])
    {
      RejectedNamesSound(fields, k);
    }
    forall i | 0 <= i < |fields| && Rejected(fields[i])
      ensures fields[i].0 in RejectedNames(fields)
    {
      RejectedNamesComplete(fields, i);
    }
    Validated(fields)
  }

  /** The validator from the first field on: a failure's error is the list
      of rejected names, and a success means there is none. */
  function Validated(fields: seq<(string, Value)>): (r: Result<seq<(string, Value)>, seq<string>>)
    ensures r.Failure? ==> r.error == RejectedNames(fields) && r.error != []
    ensures r.Success? ==> r.value == fields && RejectedNames(fields) == []
  {
    if fields == [] then Success([])
    else
      var rest := Validated(fields[1..]);
      assert fields == [fields[0]] + fields[1..];
      RejectedNamesCons(fields[0], fields[1..]);
      match NotEmpty(fields[0].1)
      case Failure(_) =>
        Failure([fields[0].0] + (if rest.Failure? then rest.error else []))
      case Success(_) =>
        if rest.Failure? then rest else Success(fields)
  }
}
