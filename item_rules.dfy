/** The item exchange: using an item on another member of the same
    challenge (`used_item` and its registered copy `use_item`), and the
    grant of an avatar or an item (`get_item`). The random draws are
    parameters; the handlers commit only at the end, so a handler that
    raises leaves the tables as they were. */
module ItemRules {
  import opened Records
  import opened Database

  /** The item whose use copies a goal to the recipient. */
  const GoalThief: nat := 1

  /** `name` is the name of one of the daily goals of `member`. */
  predicate GoalOf(goals: seq<DailyGoal>, member: nat, name: string)
  {
    exists i | 0 <= i < |goals| :: goals[i].member == member && goals[i].name == name
  }

  /** The names of the daily goals of `member`, in table order: the rows
      `order_by(func.random()).first()` chooses among. */
  function GoalNames(goals: seq<DailyGoal>, member: nat): (r: seq<string>)
    ensures |r| <= |goals|
    ensures forall k | 0 <= k < |r| :: GoalOf(goals, member, r[k])
    ensures r == [] <==> forall i | 0 <= i < |goals| :: goals[i].member != member
    // every goal of the member can be drawn
    ensures forall i | 0 <= i < |goals| && goals[i].member == member :: goals[i].name in r
  {
    if goals == [] then []
    else
      var n := |goals| - 1;
      var front := GoalNames(goals[..n], member);
      assert forall k | 0 <= k < |front| :: GoalOf(goals, member, front[k]) by {
        forall k | 0 <= k < |front|
          ensures GoalOf(goals, member, front[k])
        {
          var i :| 0 <= i < n && goals[..n][i].member == member && goals[..n][i].name == front[k];
          assert goals[..n][i] == goals[i];
        }
      }
      assert forall i | 0 <= i < n :: goals[..n][i] == goals[i];
      if goals[n].member == member then front + [goals[n].name] else front
  }

  /** The caller's membership in the challenge of membership `recipient`. */
  function Sender(d: Db, recipient: nat, me: nat): (r: Option<nat>)
    requires Consistent(d) && recipient < |d.memberships|
    ensures r.Some? ==> r.value < |d.memberships| && d.memberships[r.value].user == me
                        && d.memberships[r.value].challenge == d.memberships[recipient].challenge
  {
    MemberOf(d, d.memberships[recipient].challenge, me)
  }

  /** Time left, in microseconds, before the end of the challenge of
      membership `recipient`. */
  function Remaining(d: Db, recipient: nat, now: Instant): int
    requires Consistent(d) && recipient < |d.memberships|
  {
    d.challenges[d.memberships[recipient].challenge].end - now
  }

  /** `used_item` / `use_item`: membership `recipient` receives item `item`
      from the caller `me`'s membership in the same challenge. `goalPick`
      stands for the random choice among the sender's daily goals. */
  function UseItem(d: Db, item: nat, recipient: nat, me: nat, now: Instant, goalPick: nat): (e: Effect<Outcome<Reason>>)
    requires Consistent(d)
    // a refusal persists nothing
    ensures e.result.Fail? ==> e.db == d
    // an unknown recipient is dereferenced before any check
    ensures recipient >= |d.memberships| ==> e.result == Fail(NoneDereference)
    // the time check comes first and decides alone
    ensures recipient < |d.memberships| ==>
              (e.result == Fail(LessThanADayLeft) <==> Remaining(d, recipient, now) < MicrosPerDay)
    // past the time check: no membership of the caller there is a
    // dereference of None; then each check decides exactly when the ones
    // before it passed
    ensures recipient < |d.memberships| && Remaining(d, recipient, now) >= MicrosPerDay ==>
              && (Sender(d, recipient, me).None? ==> e.result == Fail(NoneDereference))
              && (Sender(d, recipient, me).Some? ==>
                    var s := Sender(d, recipient, me).value;
                    && (e.result == Fail(OwnMembership) <==> s == recipient)
                    && (s != recipient ==> (e.result == Fail(NoItemRow) <==> (s, item) !in d.inventory))
                    && (s != recipient && (s, item) in d.inventory ==>
                          (e.result == Fail(NoItemLeft) <==> d.inventory[(s, item)] == 0))
                    // every check passed: the use succeeds unless a goal
                    // thief finds no goal to copy
                    && (s != recipient && (s, item) in d.inventory && d.inventory[(s, item)] > 0 ==>
                          && (e.result.Pass? <==> (item == GoalThief ==> GoalNames(d.dailyGoals, s) != []))
                          && (e.result.Fail? ==> e.result == Fail(NoneDereference))))
    ensures e.result.Pass? ==>
              && recipient < |d.memberships|
              && Remaining(d, recipient, now) >= MicrosPerDay
              && Sender(d, recipient, me).Some?
              && var s := Sender(d, recipient, me).value;
              && s != recipient
              && (s, item) in d.inventory && d.inventory[(s, item)] > 0
              && e.db.inventory == d.inventory[(s, item) := d.inventory[(s, item)] - 1]
              && e.db.itemLogs == d.itemLogs + [ItemLog(s, recipient, item)]
              && (item != GoalThief ==> e.db.additionalGoals == d.additionalGoals)
              && (item == GoalThief ==>
                    && |e.db.additionalGoals| == |d.additionalGoals| + 1
                    && e.db.additionalGoals[..|d.additionalGoals|] == d.additionalGoals
                    && var g := e.db.additionalGoals[|d.additionalGoals|];
                    && g.member == recipient && !g.done && g.image == None
                    && GoalOf(d.dailyGoals, s, g.name))
              && e.db == d.(inventory := e.db.inventory, itemLogs := e.db.itemLogs,
                            additionalGoals := e.db.additionalGoals)
  {
    if recipient >= |d.memberships| then Effect(d, Fail(NoneDereference))
    else if Remaining(d, recipient, now) < MicrosPerDay then Effect(d, Fail(LessThanADayLeft))
    else
      match Sender(d, recipient, me)
      case None => Effect(d, Fail(NoneDereference))
      case Some(s) =>
        if s == recipient then Effect(d, Fail(OwnMembership))
        else if (s, item) !in d.inventory then Effect(d, Fail(NoItemRow))
        else if d.inventory[(s, item)] == 0 then Effect(d, Fail(NoItemLeft))
        else Spend(d, s, recipient, item, goalPick)
  }

  /** The part of `used_item` after its checks: membership `s` spends one
      `item` on `recipient`, and item 1 also copies one of the goals of `s`.
      A sender without goals makes the goal read raise before the commit,
      so nothing is kept. */
  function Spend(d: Db, s: nat, recipient: nat, item: nat, goalPick: nat): Effect<Outcome<Reason>>
    requires (s, item) in d.inventory && d.inventory[(s, item)] > 0
  {
    var spent := d.(inventory := d.inventory[(s, item) := d.inventory[(s, item)] - 1],
                    itemLogs := d.itemLogs + [ItemLog(s, recipient, item)]);
    if item != GoalThief then Effect(spent, Pass)
    else
      var names := GoalNames(d.dailyGoals, s);
      if names == [] then Effect(d, Fail(NoneDereference))
      else
        var name := names[goalPick % |names|];
        Effect(spent.(additionalGoals := d.additionalGoals + [AdditionalGoal(recipient, name, false, None)]), Pass)
  }

  lemma UseItemKeepsConsistent(d: Db, item: nat, recipient: nat, me: nat, now: Instant, goalPick: nat)
    requires Consistent(d)
    ensures Consistent(UseItem(d, item, recipient, me, now, goalPick).db)
  {
    var e := UseItem(d, item, recipient, me, now, goalPick);
    if e.result.Pass? {
      var d' := e.db;
      assert LogsLinked(d') by {
        forall i | 0 <= i < |d'.itemLogs|
          ensures d'.itemLogs[i].sender < |d'.memberships| && d'.itemLogs[i].recipient < |d'.memberships|
        {
          if i < |d.itemLogs| { assert d'.itemLogs[i] == d.itemLogs[i]; }
        }
      }
      assert GoalsLinked(d') by {
        forall i | 0 <= i < |d'.additionalGoals|
          ensures d'.additionalGoals[i].member < |d'.memberships|
        {
          if i < |d.additionalGoals| { assert d'.additionalGoals[i] == d.additionalGoals[i]; }
        }
      }
    }
  }

  /** `get_item`: a reward for membership `member` of the caller `me`.
      `draw` is the weighted draw, `avatar` the random avatar the caller
      does not own yet (absent when every avatar is owned) and `item` the
      random item. An AVATAR draw without an avatar falls through to the
      item grant and still reports AVATAR. */
  function GetItem(d: Db, member: nat, me: nat, draw: RewardType, avatar: Option<Pick>, item: Pick): (e: Effect<Result<(RewardType, nat), Reason>>)
    requires Consistent(d) && me < |d.users|
    requires avatar.Some? ==> !Owns(d, me, avatar.value.no)
    ensures draw == Avatar && avatar.Some? ==>
              && e.result == Success((Avatar, avatar.value.no))
              && e.db == d.(avatars := d.avatars + [AvatarUser(avatar.value.no, me, false)])
    ensures !(draw == Avatar && avatar.Some?) ==>
              && (e.result.Failure? <==> (member, item.no) !in d.inventory)
              && (e.result.Failure? ==> e.result.error == NoItemRow && e.db == d)
              && (e.result.Success? ==>
                    && e.result.value == (draw, item.no)
                    && e.db == d.(inventory := d.inventory[(member, item.no) := d.inventory[(member, item.no)] + 1]))
  {
    if draw == Avatar && avatar.Some? then
      Effect(d.(avatars := d.avatars + [AvatarUser(avatar.value.no, me, false)]), Success((Avatar, avatar.value.no)))
    else if (member, item.no) !in d.inventory then Effect(d, Failure(NoItemRow))
    else
      Effect(d.(inventory := d.inventory[(member, item.no) := d.inventory[(member, item.no)] + 1]), Success((draw, item.no)))
  }

  lemma GetItemKeepsConsistent(d: Db, member: nat, me: nat, draw: RewardType, avatar: Option<Pick>, item: Pick)
    requires Consistent(d) && me < |d.users|
    requires avatar.Some? ==> !Owns(d, me, avatar.value.no)
    ensures Consistent(GetItem(d, member, me, draw, avatar, item).db)
  {
    if draw == Avatar && avatar.Some? {
      GrantKeepsConsistent(d, me, avatar.value.no);
    }
  }

  /** Adding a non-equipped row for an avatar the user does not own keeps
      the avatar rows distinct. */
  lemma GrantKeepsConsistent(d: Db, me: nat, avatar: nat)
    requires Consistent(d) && me < |d.users| && !Owns(d, me, avatar)
    ensures Consistent(d.(avatars := d.avatars + [AvatarUser(avatar, me, false)]))
  {
    var d' := d.(avatars := d.avatars + [AvatarUser(avatar, me, false)]);
    assert forall i | 0 <= i < |d.avatars| :: d'.avatars[i] == d.avatars[i];
  }
}
