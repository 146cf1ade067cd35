/** The account rules that only read: the duplicate checks of sign-up and of
    profile update, the profile summary with its status counts, the
    rejection of soft-deleted users when a token is resolved, and the record
    a soft delete leaves behind. */
module Accounts {
  import opened Records

  // ---------------------------------------------------------------------
  // Sign-up

  /** The sign-up duplicate query `ID_TOKEN == token OR USER_EMAIL == email`;
      an absent column value equals nothing. */
  predicate SignUpMatch(u: User, token: string, email: string)
  {
    u.idToken == Some(token) || u.email == Some(email)
  }

  function SignUpClash(token: string, email: string): User -> bool
  {
    (u: User) => SignUpMatch(u, token, email)
  }

  /** The checks of `create_user` before anything is stored. A guest skips
      them; anyone else must give a token and an e-mail that no stored user
      carries. Only the first clashing user is examined, its token first. */
  function SignUpGuard(users: seq<User>, signType: SignType, token: Option<string>, email: Option<string>): (r: Outcome<Reason>)
    ensures signType == Guest ==> r.Pass?
    ensures signType != Guest && !(Truthy(token) && Truthy(email)) ==> r == Fail(MissingCredentials)
    ensures signType != Guest && Truthy(token) && Truthy(email) ==>
              (r.Pass? <==> forall i | 0 <= i < |users| :: !SignUpMatch(users[i], token.value, email.value))
    ensures r == Fail(TokenInUse) ==> exists i | 0 <= i < |users| :: users[i].idToken == token
    ensures r == Fail(EmailInUse) ==> exists i | 0 <= i < |users| :: users[i].email == email
    // with both values given, a clash is reported as one of the two, and the
    // first clashing user decides which: its token, else its e-mail
    ensures signType != Guest && Truthy(token) && Truthy(email) && r.Fail? ==>
              r.error == TokenInUse || r.error == EmailInUse
    ensures signType != Guest && Truthy(token) && Truthy(email) ==>
              var c := First(users, SignUpClash(token.value, email.value));
              c.Some? ==> (r == Fail(TokenInUse) <==> users[c.value].idToken == token)
  {
    if signType == Guest then Pass
    else if !Truthy(token) || !Truthy(email) then Fail(MissingCredentials)
    else
      match First(users, SignUpClash(token.value, email.value))
      case None => Pass
      case Some(i) =>
        // the row matched on one of the two columns
        if users[i].idToken == token then Fail(TokenInUse) else Fail(EmailInUse)
  }

  /** When the first clashing user holds both the token and the e-mail, the
      token is what is reported. */
  lemma TokenReportedFirst(users: seq<User>, signType: SignType, token: string, email: string, i: nat)
    requires signType != Guest && token != "" && email != ""
    requires i < |users| && users[i].idToken == Some(token) && users[i].email == Some(email)
    requires forall j | 0 <= j < i :: !SignUpMatch(users[j], token, email)
    ensures SignUpGuard(users, signType, Some(token), Some(email)) == Fail(TokenInUse)
  {
    var f := First(users, SignUpClash(token, email));
    assert SignUpClash(token, email)(users[i]);
    assert f == Some(i);
  }

  // ---------------------------------------------------------------------
  // Profile update

  /** The update duplicate query: each given value is compared with its
      column, and the caller's own row is excluded. */
  predicate UpdateMatch(u: User, email: Option<string>, token: Option<string>)
  {
    (email.Some? && u.email == email) || (token.Some? && u.idToken == token)
  }

  /** The first user from position `i` on, other than the caller `me`, that
      the update duplicate query finds. */
  function FirstOtherClash(users: seq<User>, me: nat, email: Option<string>, token: Option<string>, i: nat): (r: Option<nat>)
    requires i <= |users|
    decreases |users| - i
    ensures r.Some? ==> i <= r.value < |users| && r.value != me && UpdateMatch(users[r.value], email, token)
    ensures r.Some? ==> forall j | i <= j < r.value && j != me :: !UpdateMatch(users[j], email, token)
    ensures r.None? <==> forall j | i <= j < |users| && j != me :: !UpdateMatch(users[j], email, token)
  {
    if i == |users| then None
    else if i != me && UpdateMatch(users[i], email, token) then Some(i)
    else FirstOtherClash(users, me, email, token, i + 1)
  }

  /** The checks of `update_user`. A clash is only ever with another user;
      the first row found is reported as an e-mail clash before a token
      clash, and only for values that are non-empty. */
  function UpdateGuard(users: seq<User>, me: nat, email: Option<string>, token: Option<string>): (r: Outcome<Reason>)
    ensures r == Fail(EmailInUse) ==> exists j | 0 <= j < |users| && j != me :: users[j].email == email
    ensures r == Fail(TokenInUse) ==> exists j | 0 <= j < |users| && j != me :: users[j].idToken == token
    ensures r.Fail? ==> r.error == EmailInUse || r.error == TokenInUse
    ensures (forall j | 0 <= j < |users| && j != me :: !UpdateMatch(users[j], email, token)) ==> r.Pass?
    // values that are given are non-empty: any other user holding one refuses
    ensures (email.None? || Truthy(email)) && (token.None? || Truthy(token)) ==>
              (r.Fail? <==> exists j | 0 <= j < |users| && j != me :: UpdateMatch(users[j], email, token))
    // the verdict is read off the first other user found, e-mail first
    ensures var c := FirstOtherClash(users, me, email, token, 0);
            c.Some? ==>
              && (r == Fail(EmailInUse) <==> Truthy(email) && users[c.value].email == email)
              && (r == Fail(TokenInUse) <==> !(Truthy(email) && users[c.value].email == email)
                                             && Truthy(token) && users[c.value].idToken == token)
  {
    if email.None? && token.None? then Pass
    else
      match FirstOtherClash(users, me, email, token, 0)
      case None => Pass
      case Some(j) =>
        if Truthy(email) && users[j].email == email then Fail(EmailInUse)
        else if Truthy(token) && users[j].idToken == token then Fail(TokenInUse)
        else Pass
  }

  /** The caller's own row plays no part in the update check: replacing it
      by any record leaves the verdict unchanged. */
  lemma {:induction false} OwnRowIgnored(users: seq<User>, me: nat, email: Option<string>, token: Option<string>, u: User)
    requires me < |users|
    ensures UpdateGuard(users[me := u], me, email, token) == UpdateGuard(users, me, email, token)
  {
    OwnRowIgnoredFrom(users, me, email, token, u, 0);
  }

  lemma {:induction false} OwnRowIgnoredFrom(users: seq<User>, me: nat, email: Option<string>, token: Option<string>, u: User, i: nat)
    requires me < |users| && i <= |users|
    decreases |users| - i
    ensures FirstOtherClash(users[me := u], me, email, token, i) == FirstOtherClash(users, me, email, token, i)
  {
    if i < |users| {
      OwnRowIgnoredFrom(users, me, email, token, u, i + 1);
    }
  }

  // ---------------------------------------------------------------------
  // Profile summary

  datatype Profile = Profile(name: string, characterNo: nat, complete: nat, progress: nat, pending: nat)

  function Count(statuses: seq<ChallengeStatus>, s: ChallengeStatus): (n: nat)
    ensures n <= |statuses|
  {
    if statuses == [] then 0
    else (if statuses[0] == s then 1 else 0) + Count(statuses[1..], s)
  }

  /** Every challenge has exactly one of the four statuses. */
  lemma {:induction false} CountsAddUp(statuses: seq<ChallengeStatus>)
    ensures Count(statuses, ChallengeStatus.Complete) + Count(statuses, ChallengeStatus.Progress)
          + Count(statuses, ChallengeStatus.Pending) + Count(statuses, ChallengeStatus.Failed) == |statuses|
  {
    if statuses != [] {
      CountsAddUp(statuses[1..]);
    }
  }

  function Equipped(me: nat): AvatarUser -> bool
  {
    (a: AvatarUser) => a.user == me && a.equipped
  }

  /** `get_user`: the equipped avatar row of the caller (`avatars` position
      = AVATAR_USER_NO) and the counts of COMPLETE, PROGRESS and PENDING
      among the statuses of the caller's challenges. FAILED is not reported. */
  function GetUser(avatars: seq<AvatarUser>, me: nat, name: string, statuses: seq<ChallengeStatus>): (r: Result<Profile, Reason>)
    ensures r == Failure(NoEquippedAvatar)
        <==> forall i | 0 <= i < |avatars| :: !(avatars[i].user == me && avatars[i].equipped)
    ensures r == Failure(NoChallenges)
        <==> (exists i | 0 <= i < |avatars| :: avatars[i].user == me && avatars[i].equipped) && statuses == []
    ensures r.Success? ==>
              && r.value.characterNo < |avatars|
              && avatars[r.value.characterNo].user == me && avatars[r.value.characterNo].equipped
    ensures r.Success? ==> r.value.name == name
    ensures r.Success? ==> r.value.complete + r.value.progress + r.value.pending
                           + Count(statuses, ChallengeStatus.Failed) == |statuses|
    ensures r.Success? ==> r.value.complete + r.value.progress + r.value.pending <= |statuses|
    ensures r.Success? ==>
              && r.value.complete == Count(statuses, ChallengeStatus.Complete)
              && r.value.progress == Count(statuses, ChallengeStatus.Progress)
              && r.value.pending == Count(statuses, ChallengeStatus.Pending)
  {
    match First(avatars, Equipped(me))
    case None => Failure(NoEquippedAvatar)
    case Some(a) =>
      assert Equipped(me)(avatars[a]);
      if statuses == [] then Failure(NoChallenges)
      else
        CountsAddUp(statuses);
        Success(Profile(name, a,
                        Count(statuses, ChallengeStatus.Complete),
                        Count(statuses, ChallengeStatus.Progress),
                        Count(statuses, ChallengeStatus.Pending)))
  }

  // ---------------------------------------------------------------------
  // Token resolution

  function HasUid(uid: nat): User -> bool
  {
    (u: User) => u.uid == uid
  }

  /** `get_current_user` once the token is decoded: the first user with the
      UID, refused when absent and refused when soft-deleted. */
  function CurrentUser(users: seq<User>, uid: nat): (r: Result<nat, Reason>)
    ensures r.Success? ==> r.value < |users| && users[r.value].uid == uid && !users[r.value].disabled
    ensures r == Failure(InvalidCredentials) <==> forall i | 0 <= i < |users| :: users[i].uid != uid
    ensures r == Failure(DisabledUser) ==> exists i | 0 <= i < |users| :: users[i].uid == uid && users[i].disabled
    ensures r.Failure? ==> r.error == InvalidCredentials || r.error == DisabledUser
  {
    match First(users, HasUid(uid))
    case None => Failure(InvalidCredentials)
    case Some(i) =>
      assert HasUid(uid)(users[i]);
      if users[i].disabled then Failure(DisabledUser) else Success(i)
  }

  // ---------------------------------------------------------------------
  // Soft delete

  /** The record `delete_user` leaves: disabled at `now`, a non-empty
      e-mail suffixed with "#disabled", a non-empty token cleared. */
  function Scrubbed(u: User, now: Instant): User
  {
    u.(disabled := true,
       disabledAt := Some(now),
       email := if Truthy(u.email) then Some(u.email.value + "#disabled") else u.email,
       idToken := if Truthy(u.idToken) then None else u.idToken)
  }

  /** After a soft delete the old e-mail is free: a later sign-up with that
      e-mail and any token never clashes with the deleted record. */
  lemma ScrubbedNoLongerMatches(u: User, now: Instant, token: string)
    requires Truthy(u.email) && token != ""
    ensures !SignUpMatch(Scrubbed(u, now), token, u.email.value)
  {
    var e := u.email.value;
    assert |e + "#disabled"| > |e|;
  }
}
