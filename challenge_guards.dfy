/** The pure guards of the challenge routes: the member cap and the
    active-challenge cap checked before a challenge is created, the cap
    checked again before an invitation is answered, and the page check of
    the membership listing. The number of the caller's challenges in
    progress comes from a listing query outside this model. */
module ChallengeGuards {
  import opened Records

  const MaxInvited: nat := 6
  const MaxActive: nat := 3

  /** `challenge_create` before the insert: the size of the invited-user
      list is checked first, then the caller's challenges in progress. */
  function CreateGuard(invited: seq<nat>, inProgress: nat): (r: Outcome<Reason>)
    ensures r.Pass? <==> |invited| <= MaxInvited && inProgress < MaxActive
    ensures |invited| > MaxInvited ==> r == Fail(TooManyMembers)
    ensures r == Fail(TooManyActive) <==> |invited| <= MaxInvited && inProgress >= MaxActive
  {
    if |invited| > MaxInvited then Fail(TooManyMembers)
    else if inProgress >= MaxActive then Fail(TooManyActive)
    else Pass
  }

  /** The PUT `challenge_invite` guard: the cap applies to every answer,
      a refusal as much as an acceptance. */
  function InviteAnswerGuard(decision: AcceptStatus, inProgress: nat): (r: Outcome<Reason>)
    ensures r.Pass? <==> inProgress < MaxActive
    ensures r.Fail? ==> r.error == TooManyActive
  {
    if inProgress >= MaxActive then Fail(TooManyActive) else Pass
  }

  /** `get_challenge_user_list`: pages are numbered from one. */
  function PageGuard(page: int): (r: Outcome<Reason>)
    ensures r.Pass? <==> page >= 1
    ensures r.Fail? ==> r.error == BadPage
  {
    if page < 1 then Fail(BadPage) else Pass
  }

  /** Six invited users are accepted and a seventh is refused. */
  lemma SixIsTheLimit(invited: seq<nat>, u: nat)
    requires |invited| == MaxInvited
    ensures CreateGuard(invited, 0).Pass?
    ensures CreateGuard(invited + [u], 0) == Fail(TooManyMembers)
  {
  }
}
