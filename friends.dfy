/** Friend requests: the duplicate-request guard of an invitation, and the
    split of the caller's requests into pending and accepted friends. The
    insert and the status update are methods of the store. */
module Friends {
  import opened Records

  /** The request joins `a` and `b`, in either direction. */
  predicate Between(f: FriendRequest, a: nat, b: nat)
  {
    (f.sender == a && f.recipient == b) || (f.sender == b && f.recipient == a)
  }

  /** The filter of the duplicate-request query: joins the pair and is not
      DECLINED. */
  function Live(a: nat, b: nat): FriendRequest -> bool
  {
    (f: FriendRequest) => Between(f, a, b) && f.status != AcceptStatus.Declined
  }

  /** The guard of `invite_friend` as written: the first live request is
      read without a test for its absence, so a pair with no live request
      dereferences `None`, and a pair with one is refused. No invitation
      ever gets past it. */
  function InviteGuardAsWritten(friends: seq<FriendRequest>, me: nat, them: nat): (r: Outcome<Reason>)
    ensures r.Fail?
    ensures r == Fail(NoneDereference)
        <==> forall i | 0 <= i < |friends| :: !(Between(friends[i], me, them) && friends[i].status != AcceptStatus.Declined)
  {
    match First(friends, Live(me, them))
    case None => Fail(NoneDereference)
    case Some(i) =>
      assert Live(me, them)(friends[i]);
      if friends[i].status == AcceptStatus.Accepted then Fail(AlreadyFriends)
      else Fail(RequestPending)
  }

  /** Two users who never exchanged a request cannot become friends. */
  lemma FirstInvitationFails()
    ensures InviteGuardAsWritten([], 1, 2) == Fail(NoneDereference)
  {
  }

  /** The guard as intended: an invitation is admitted exactly when no
      ACCEPTED or PENDING request joins the pair in either direction. */
  function InviteGuard(friends: seq<FriendRequest>, me: nat, them: nat): (r: Outcome<Reason>)
    ensures r.Pass?
        <==> forall i | 0 <= i < |friends| :: !(Between(friends[i], me, them) && friends[i].status != AcceptStatus.Declined)
    ensures r == Fail(AlreadyFriends)
        ==> exists i | 0 <= i < |friends| :: Between(friends[i], me, them) && friends[i].status == AcceptStatus.Accepted
    ensures r == Fail(RequestPending)
        ==> exists i | 0 <= i < |friends| :: Between(friends[i], me, them) && friends[i].status == AcceptStatus.Pending
    ensures r.Fail? ==> r.error == AlreadyFriends || r.error == RequestPending
  {
    match First(friends, Live(me, them))
    case None => Pass
    case Some(i) =>
      assert Live(me, them)(friends[i]);
      if friends[i].status == AcceptStatus.Accepted then Fail(AlreadyFriends)
      else Fail(RequestPending)
  }

  /** The correction changes one verdict only: the first invitation. */
  lemma CorrectionOnlyAdmitsFirstInvitation(friends: seq<FriendRequest>, me: nat, them: nat)
    ensures InviteGuard(friends, me, them)
         == if InviteGuardAsWritten(friends, me, them) == Fail(NoneDereference) then Pass
            else InviteGuardAsWritten(friends, me, them)
  {
  }

  /** Who asks does not matter: the guard reads requests in both directions. */
  lemma {:induction false} GuardSymmetric(friends: seq<FriendRequest>, me: nat, them: nat)
    ensures InviteGuard(friends, me, them) == InviteGuard(friends, them, me)
  {
    FirstLiveSymmetric(friends, me, them);
  }

  lemma {:induction false} FirstLiveSymmetric(friends: seq<FriendRequest>, a: nat, b: nat)
    ensures First(friends, Live(a, b)) == First(friends, Live(b, a))
  {
    if friends != [] {
      FirstLiveSymmetric(friends[1..], a, b);
    }
  }

  // ---------------------------------------------------------------------
  // Listing

  predicate Involves(f: FriendRequest, me: nat)
  {
    f.sender == me || f.recipient == me
  }

  /** The other side of a request involving `me`. */
  function Counterpart(f: FriendRequest, me: nat): (r: nat)
    ensures Involves(f, me) && f.sender != f.recipient ==> r != me && (r == f.sender || r == f.recipient)
  {
    if f.recipient == me then f.sender else f.recipient
  }

  datatype FriendInfo = FriendInfo(uid: nat, name: string)

  /** The user lookup by USER_NO (position in `users`). */
  function Lookup(users: seq<User>, no: nat): Option<FriendInfo>
  {
    if no < |users| then Some(FriendInfo(users[no].uid, users[no].name)) else None
  }

  /** The listing query: the caller's requests in table order. */
  function Involving(friends: seq<FriendRequest>, me: nat): (r: seq<FriendRequest>)
    ensures |r| <= |friends|
    ensures forall k | 0 <= k < |r| :: Involves(r[k], me) && r[k] in friends
    ensures forall f | f in friends && Involves(f, me) :: f in r
  {
    if friends == [] then []
    else
      var n := |friends| - 1;
      Involving(friends[..n], me) + (if Involves(friends[n], me) then [friends[n]] else [])
  }

  /** The listing keeps table order: the requests of a table split in two
      are those of the first part followed by those of the second. */
  lemma {:induction false} InvolvingAppend(a: seq<FriendRequest>, b: seq<FriendRequest>, me: nat)
    ensures Involving(a + b, me) == Involving(a, me) + Involving(b, me)
  {
    if b == [] {
      assert a + b == a;
    } else {
      var n := |b| - 1;
      assert (a + b)[..|a + b| - 1] == a + b[..n];
      assert (a + b)[|a + b| - 1] == b[n];
      InvolvingAppend(a, b[..n], me);
    }
  }

  /** A single request is listed exactly when it involves the caller. */
  lemma InvolvingOne(f: FriendRequest, me: nat)
    ensures Involving([f], me) == if Involves(f, me) then [f] else []
  {
    assert [f][..0] == [];
  }

  /** `x` is the counterpart of some record with the given status. */
  predicate ListedFor(records: seq<FriendRequest>, users: seq<User>, me: nat, status: AcceptStatus, x: FriendInfo)
  {
    exists i | 0 <= i < |records| :: records[i].status == status && Lookup(users, Counterpart(records[i], me)) == Some(x)
  }

  /** The friends listed under `status`: for each record with that status
      whose counterpart exists, the counterpart's UID and name. */
  function Listed(records: seq<FriendRequest>, users: seq<User>, me: nat, status: AcceptStatus): (r: seq<FriendInfo>)
    ensures |r| <= |records|
    ensures forall k | 0 <= k < |r| :: ListedFor(records, users, me, status, r[k])
    // every record with the status whose counterpart exists is listed
    ensures forall i | 0 <= i < |records| && records[i].status == status
                       && Lookup(users, Counterpart(records[i], me)).Some? ::
              Lookup(users, Counterpart(records[i], me)).value in r
  {
    if records == [] then []
    else
      var n := |records| - 1;
      var front := Listed(records[..n], users, me, status);
      var info := Lookup(users, Counterpart(records[n], me));
      assert forall i | 0 <= i < n :: records[..n][i] == records[i];
      assert forall k | 0 <= k < |front| :: ListedFor(records, users, me, status, front[k]) by {
        forall k | 0 <= k < |front|
          ensures ListedFor(records, users, me, status, front[k])
        {
          assert ListedFor(records[..n], users, me, status, front[k]);
          var i :| 0 <= i < n && records[..n][i].status == status
                   && Lookup(users, Counterpart(records[..n][i], me)) == Some(front[k]);
          assert records[..n][i] == records[i];
        }
      }
      if records[n].status == status && info.Some? then front + [info.value] else front
  }

  /** A record is listed at most once: pending and accepted together never
      outnumber the records. */
  lemma {:induction false} ListsFitRecords(records: seq<FriendRequest>, users: seq<User>, me: nat)
    ensures |Listed(records, users, me, AcceptStatus.Pending)| + |Listed(records, users, me, AcceptStatus.Accepted)| <= |records|
  {
    if records != [] {
      ListsFitRecords(records[..|records| - 1], users, me);
    }
  }

  /** One more record adds its counterpart to the list of its status. */
  lemma ListedStep(records: seq<FriendRequest>, users: seq<User>, me: nat, status: AcceptStatus, i: nat)
    requires i < |records|
    ensures var info := Lookup(users, Counterpart(records[i], me));
            Listed(records[..i + 1], users, me, status)
            == Listed(records[..i], users, me, status)
               + (if records[i].status == status && info.Some? then [info.value] else [])
  {
    assert records[..i + 1][..i] == records[..i];
  }

  /** `get_friend_list`. */
  method FriendList(friends: seq<FriendRequest>, users: seq<User>, me: nat)
    returns (pending: seq<FriendInfo>, accepted: seq<FriendInfo>)
    ensures pending == Listed(Involving(friends, me), users, me, AcceptStatus.Pending)
    ensures accepted == Listed(Involving(friends, me), users, me, AcceptStatus.Accepted)
    ensures |pending| + |accepted| <= |Involving(friends, me)|
  {
    var records := Involving(friends, me);
    pending, accepted := [], [];
    var i := 0;
    while i < |records|
      invariant 0 <= i <= |records|
      invariant pending == Listed(records[..i], users, me, AcceptStatus.Pending)
      invariant accepted == Listed(records[..i], users, me, AcceptStatus.Accepted)
    {
      ListedStep(records, users, me, AcceptStatus.Pending, i);
      ListedStep(records, users, me, AcceptStatus.Accepted, i);
      var record := records[i];
      var friendNo := if record.recipient == me then record.sender else record.recipient;
      if friendNo < |users| {
        var info := FriendInfo(users[friendNo].uid, users[friendNo].name);
        if record.status == AcceptStatus.Pending {
          pending := pending + [info];
        } else if record.status == AcceptStatus.Accepted {
          accepted := accepted + [info];
        }
      }
      i := i + 1;
    }
    assert records[..i] == records;
    ListsFitRecords(records, users, me);
  }
}
