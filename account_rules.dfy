/** The account and friendship handlers that write: sign-up, profile
    update, soft delete, friend invitation and the answer to one. The
    checks they run are the pure guards of the Accounts and Friends
    modules. */
module AccountRules {
  import opened Records
  import opened Database
  import opened Accounts
  import opened Friends

  /** The AVATAR_NO every new account starts with, equipped. */
  const StarterAvatar: nat := 1

  // ---------------------------------------------------------------------
  // Sign-up

  /** The USER row `create_user` stores: a guest gets no e-mail and no
      token even when some were sent. */
  function NewUser(signType: SignType, token: Option<string>, email: Option<string>, name: string, uid: nat): (u: User)
    ensures u.uid == uid && u.name == name && u.signType == signType
    ensures !u.disabled && u.disabledAt == None
    ensures signType == Guest ==> u.email == None && u.idToken == None
    ensures signType != Guest ==> u.email == email && u.idToken == token
  {
    if signType == Guest then User(uid, name, signType, None, None, false, None)
    else User(uid, name, signType, email, token, false, None)
  }

  /** `create_user`. `name` is the random nickname and `uid` the UID the
      database assigns; the answer is that UID. */
  function CreateUser(d: Db, signType: SignType, token: Option<string>, email: Option<string>, name: string, uid: nat)
    : (e: Effect<Result<nat, Reason>>)
    requires Consistent(d)
    ensures e.result.Success? <==> SignUpGuard(d.users, signType, token, email).Pass?
    ensures e.result.Failure? ==> e.db == d && e.result.error == SignUpGuard(d.users, signType, token, email).error
    ensures e.result.Success? ==>
              && e.result.value == uid
              && var no := |d.users|;
              && e.db.users == d.users + [NewUser(signType, token, email, name, uid)]
              && e.db.settings == d.settings + [no]
              && e.db.avatars == d.avatars + [AvatarUser(StarterAvatar, no, true)]
              && e.db == d.(users := e.db.users, settings := e.db.settings, avatars := e.db.avatars)
  {
    match SignUpGuard(d.users, signType, token, email)
    case Fail(reason) => Effect(d, Failure(reason))
    case Pass =>
      var no := |d.users|;
      Effect(d.(users := d.users + [NewUser(signType, token, email, name, uid)],
                settings := d.settings + [no],
                avatars := d.avatars + [AvatarUser(StarterAvatar, no, true)]),
             Success(uid))
  }

  lemma CreateUserKeepsConsistent(d: Db, signType: SignType, token: Option<string>, email: Option<string>, name: string, uid: nat)
    requires Consistent(d)
    ensures Consistent(CreateUser(d, signType, token, email, name, uid).db)
  {
    var e := CreateUser(d, signType, token, email, name, uid);
    if e.result.Success? {
      var d' := e.db;
      assert forall i | 0 <= i < |d.avatars| :: d'.avatars[i] == d.avatars[i];
      assert forall i | 0 <= i < |d.settings| :: d'.settings[i] == d.settings[i];
    }
  }

  /** A new account can be used at once: its UID resolves to it when no
      other account holds that UID, and its profile finds the starter
      avatar equipped, so `get_user` fails only for want of challenges. */
  lemma {:induction false} NewAccountUsable(d: Db, signType: SignType, token: Option<string>, email: Option<string>,
                                            name: string, uid: nat, statuses: seq<ChallengeStatus>)
    requires Consistent(d)
    requires CreateUser(d, signType, token, email, name, uid).result.Success?
    requires forall i | 0 <= i < |d.users| :: d.users[i].uid != uid
    ensures var d' := CreateUser(d, signType, token, email, name, uid).db;
            && CurrentUser(d'.users, uid) == Success(|d.users|)
            && GetUser(d'.avatars, |d.users|, name, statuses) != Failure(NoEquippedAvatar)
  {
    var d' := CreateUser(d, signType, token, email, name, uid).db;
    var no := |d.users|;
    assert d'.users[no].uid == uid;
    assert d'.avatars[|d.avatars|] == AvatarUser(StarterAvatar, no, true);
    assert forall i | 0 <= i < no :: d'.users[i] == d.users[i];
  }

  // ---------------------------------------------------------------------
  // Profile update

  /** The record `update_user` leaves: each field given replaces the
      stored one, each field left out (None) is kept. */
  function Updated(u: User, name: Option<string>, signType: Option<SignType>, email: Option<string>, token: Option<string>): (r: User)
    ensures r.name == (if name.Some? then name.value else u.name)
    ensures r.signType == (if signType.Some? then signType.value else u.signType)
    ensures r.email == (if email.Some? then email else u.email)
    ensures r.idToken == (if token.Some? then token else u.idToken)
    ensures r.uid == u.uid && r.disabled == u.disabled && r.disabledAt == u.disabledAt
  {
    var u1 := if name.Some? then u.(name := name.value) else u;
    var u2 := if signType.Some? then u1.(signType := signType.value) else u1;
    var u3 := if email.Some? then u2.(email := email) else u2;
    if token.Some? then u3.(idToken := token) else u3
  }

  /** `update_user` for the caller `me`. */
  function UpdateUser(d: Db, me: nat, name: Option<string>, signType: Option<SignType>, email: Option<string>, token: Option<string>)
    : (e: Effect<Outcome<Reason>>)
    requires Consistent(d) && me < |d.users|
    ensures e.result == UpdateGuard(d.users, me, email, token)
    ensures e.result.Fail? ==> e.db == d
    ensures e.result.Pass? ==> e.db == d.(users := d.users[me := Updated(d.users[me], name, signType, email, token)])
  {
    if UpdateGuard(d.users, me, email, token).Fail? then Effect(d, UpdateGuard(d.users, me, email, token))
    else Effect(d.(users := d.users[me := Updated(d.users[me], name, signType, email, token)]), Pass)
  }

  lemma UpdateUserKeepsConsistent(d: Db, me: nat, name: Option<string>, signType: Option<SignType>, email: Option<string>, token: Option<string>)
    requires Consistent(d) && me < |d.users|
    ensures Consistent(UpdateUser(d, me, name, signType, email, token).db)
  {
  }

  /** An update that gives no field changes nothing. */
  lemma EmptyUpdateChangesNothing(d: Db, me: nat)
    requires Consistent(d) && me < |d.users|
    ensures UpdateUser(d, me, None, None, None, None) == Effect(d, Pass)
  {
    assert d.users[me := d.users[me]] == d.users;
  }

  // ---------------------------------------------------------------------
  // Soft delete

  /** `delete_user` for the caller `me` at instant `now`: the record is
      kept and scrubbed, and its UID is the answer. */
  function DeleteUser(d: Db, me: nat, now: Instant): (e: Effect<nat>)
    requires Consistent(d) && me < |d.users|
    ensures e.result == d.users[me].uid
    ensures |e.db.users| == |d.users|
    ensures var u := e.db.users[me];
            && u.disabled && u.disabledAt == Some(now)
            && u.uid == d.users[me].uid && u.name == d.users[me].name && u.signType == d.users[me].signType
            && (Truthy(d.users[me].email) ==> u.email == Some(d.users[me].email.value + "#disabled"))
            && (!Truthy(d.users[me].email) ==> u.email == d.users[me].email)
            && !Truthy(u.idToken)
            // a live token is dropped; an absent or empty one is kept as it was
            && (Truthy(d.users[me].idToken) ==> u.idToken == None)
            && (!Truthy(d.users[me].idToken) ==> u.idToken == d.users[me].idToken)
    ensures e.db == d.(users := d.users[me := e.db.users[me]])
  {
    Effect(d.(users := d.users[me := Scrubbed(d.users[me], now)]), d.users[me].uid)
  }

  lemma DeleteUserKeepsConsistent(d: Db, me: nat, now: Instant)
    requires Consistent(d) && me < |d.users|
    ensures Consistent(DeleteUser(d, me, now).db)
  {
  }

  /** A deleted account can no longer sign in: its UID, when it is the
      first to carry it, now resolves to the disabled-user refusal. */
  lemma {:induction false} DeletedUserRejected(d: Db, me: nat, now: Instant)
    requires Consistent(d) && me < |d.users|
    requires forall i | 0 <= i < me :: d.users[i].uid != d.users[me].uid
    ensures CurrentUser(DeleteUser(d, me, now).db.users, d.users[me].uid) == Failure(DisabledUser)
  {
    var users' := DeleteUser(d, me, now).db.users;
    var uid := d.users[me].uid;
    assert forall i | 0 <= i < me :: users'[i] == d.users[i];
    assert HasUid(uid)(users'[me]);
    assert First(users', HasUid(uid)) == Some(me);
  }

  // ---------------------------------------------------------------------
  // Friend requests

  /** `invite_friend` by the caller `me` to the user with UID `uid`, with
      the duplicate check as intended (see InviteGuard): a pair without a
      live request gets a new PENDING request from the caller. */
  function InviteFriend(d: Db, me: nat, uid: nat): (e: Effect<Outcome<Reason>>)
    requires Consistent(d) && me < |d.users|
    ensures e.result.Fail? ==> e.db == d
    ensures e.result == Fail(NoneDereference) <==> forall i | 0 <= i < |d.users| :: d.users[i].uid != uid
    ensures e.result.Pass? ==>
              && First(d.users, HasUid(uid)).Some?
              && var them := First(d.users, HasUid(uid)).value;
              && d.users[them].uid == uid
              && InviteGuard(d.friends, me, them).Pass?
              && e.db == d.(friends := d.friends + [FriendRequest(me, them, AcceptStatus.Pending)])
    ensures e.result.Fail? && e.result != Fail(NoneDereference) ==>
              && First(d.users, HasUid(uid)).Some?
              && e.result == InviteGuard(d.friends, me, First(d.users, HasUid(uid)).value)
  {
    match First(d.users, HasUid(uid))
    case None => Effect(d, Fail(NoneDereference))
    case Some(them) =>
      assert HasUid(uid)(d.users[them]);
      if InviteGuard(d.friends, me, them).Fail? then Effect(d, InviteGuard(d.friends, me, them))
      else Effect(d.(friends := d.friends + [FriendRequest(me, them, AcceptStatus.Pending)]), Pass)
  }

  lemma InviteFriendKeepsConsistent(d: Db, me: nat, uid: nat)
    requires Consistent(d) && me < |d.users|
    ensures Consistent(InviteFriend(d, me, uid).db)
  {
    var e := InviteFriend(d, me, uid);
    if e.result.Pass? {
      assert forall i | 0 <= i < |d.friends| :: e.db.friends[i] == d.friends[i];
    }
  }

  /** Once an invitation is sent, a repeated one is refused as pending,
      and so is one in the opposite direction. */
  lemma {:induction false} NoDuplicateInvitation(d: Db, me: nat, uid: nat)
    requires Consistent(d) && me < |d.users|
    requires InviteFriend(d, me, uid).result.Pass?
    ensures var d' := InviteFriend(d, me, uid).db;
            var them := First(d.users, HasUid(uid)).value;
            && InviteFriend(d', me, uid) == Effect(d', Fail(RequestPending))
            && InviteGuard(d'.friends, them, me) == Fail(RequestPending)
  {
    var d' := InviteFriend(d, me, uid).db;
    var them := First(d.users, HasUid(uid)).value;
    InviteFriendKeepsConsistent(d, me, uid);
    var n := |d.friends|;
    assert d'.friends[n] == FriendRequest(me, them, AcceptStatus.Pending);
    assert forall i | 0 <= i < n :: d'.friends[i] == d.friends[i];
    assert Live(me, them)(d'.friends[n]);
    assert First(d'.friends, Live(me, them)) == Some(n);
    GuardSymmetric(d'.friends, me, them);
  }

  /** `update_friend`: a participant of request `friendNo` sets its status. */
  function UpdateFriend(d: Db, friendNo: nat, me: nat, status: AcceptStatus): (e: Effect<Outcome<Reason>>)
    requires Consistent(d)
    ensures e.result.Fail? ==> e.db == d
    ensures e.result == Fail(FriendNotFound) <==> friendNo >= |d.friends|
    ensures e.result == Fail(NotParticipant) <==> friendNo < |d.friends| && !Involves(d.friends[friendNo], me)
    ensures friendNo < |d.friends| && Involves(d.friends[friendNo], me) ==> e.result.Pass?
    ensures e.result.Pass? ==>
              && friendNo < |d.friends| && Involves(d.friends[friendNo], me)
              && e.db == d.(friends := d.friends[friendNo := d.friends[friendNo].(status := status)])
  {
    if friendNo >= |d.friends| then Effect(d, Fail(FriendNotFound))
    else if !Involves(d.friends[friendNo], me) then Effect(d, Fail(NotParticipant))
    else Effect(d.(friends := d.friends[friendNo := d.friends[friendNo].(status := status)]), Pass)
  }

  lemma UpdateFriendKeepsConsistent(d: Db, friendNo: nat, me: nat, status: AcceptStatus)
    requires Consistent(d)
    ensures Consistent(UpdateFriend(d, friendNo, me, status).db)
  {
  }

  /** Declining a request reopens the pair: once the only live request
      between two users is DECLINED, a new invitation passes the guard. */
  lemma {:induction false} DeclineReopens(d: Db, friendNo: nat, me: nat)
    requires Consistent(d) && friendNo < |d.friends| && Involves(d.friends[friendNo], me)
    requires var f := d.friends[friendNo];
             forall i | 0 <= i < |d.friends| && i != friendNo ::
               !(Between(d.friends[i], f.sender, f.recipient) && d.friends[i].status != AcceptStatus.Declined)
    ensures var f := d.friends[friendNo];
            InviteGuard(UpdateFriend(d, friendNo, me, AcceptStatus.Declined).db.friends, f.sender, f.recipient).Pass?
  {
    var f := d.friends[friendNo];
    var friends' := UpdateFriend(d, friendNo, me, AcceptStatus.Declined).db.friends;
    assert forall i | 0 <= i < |friends'| && i != friendNo :: friends'[i] == d.friends[i];
    assert friends'[friendNo].status == AcceptStatus.Declined;
  }
}
