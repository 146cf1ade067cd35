/** The challenge handlers that change a row: the answer to an invitation,
    the comment of a membership, the completion of an additional goal, and
    the daily job that hands the due challenges to the start routine. */
module ChallengeRules {
  import opened Records
  import opened Database
  import opened ChallengeGuards
  import opened Scheduler

  /** Replacing a row by one the filter judges alike leaves `.first()`
      unchanged. */
  lemma {:induction false} FirstIgnoresUpdate<T>(rows: seq<T>, p: T -> bool, m: nat, x: T)
    requires m < |rows| && p(x) == p(rows[m])
    ensures First(rows[m := x], p) == First(rows, p)
  {
    if m == 0 {
      assert rows[m := x][1..] == rows[1..];
    } else {
      assert rows[m := x][1..] == rows[1..][m - 1 := x];
      FirstIgnoresUpdate(rows[1..], p, m - 1, x);
    }
  }

  // ---------------------------------------------------------------------
  // Invitation answer

  /** The PUT `challenge_invite` handler: the caller `me` answers the
      invitation to `challenge` with `decision`, having `inProgress`
      challenges in progress. The answer is stored as it is; a refusal
      keeps the membership. */
  function RespondToInvite(d: Db, challenge: nat, me: nat, decision: AcceptStatus, inProgress: nat): (e: Effect<Outcome<Reason>>)
    requires Consistent(d)
    ensures e.result.Fail? ==> e.db == d
    ensures inProgress >= MaxActive ==> e.result == Fail(TooManyActive)
    ensures inProgress < MaxActive ==> (e.result == Fail(NoneDereference) <==> MemberOf(d, challenge, me).None?)
    ensures inProgress < MaxActive && MemberOf(d, challenge, me).Some? ==> e.result.Pass?
    ensures e.result.Pass? ==>
              && inProgress < MaxActive && MemberOf(d, challenge, me).Some?
              && var m := MemberOf(d, challenge, me).value;
              && e.db == d.(memberships := d.memberships[m := d.memberships[m].(accept := decision)])
    ensures |e.db.memberships| == |d.memberships|
  {
    if InviteAnswerGuard(decision, inProgress).Fail? then Effect(d, Fail(TooManyActive))
    else
      match MemberOf(d, challenge, me)
      case None => Effect(d, Fail(NoneDereference))
      case Some(m) => Effect(d.(memberships := d.memberships[m := d.memberships[m].(accept := decision)]), Pass)
  }

  lemma RespondKeepsConsistent(d: Db, challenge: nat, me: nat, decision: AcceptStatus, inProgress: nat)
    requires Consistent(d)
    ensures Consistent(RespondToInvite(d, challenge, me, decision, inProgress).db)
  {
  }

  /** Answering twice is answering once with the second decision: the
      answer finds the same membership again and only overwrites its
      status. */
  lemma {:induction false} LastAnswerWins(d: Db, challenge: nat, me: nat, first: AcceptStatus, second: AcceptStatus, inProgress: nat)
    requires Consistent(d)
    requires RespondToInvite(d, challenge, me, first, inProgress).result.Pass?
    ensures var d1 := RespondToInvite(d, challenge, me, first, inProgress).db;
            Consistent(d1)
            && RespondToInvite(d1, challenge, me, second, inProgress) == RespondToInvite(d, challenge, me, second, inProgress)
  {
    RespondKeepsConsistent(d, challenge, me, first, inProgress);
    var m := MemberOf(d, challenge, me).value;
    var row := d.memberships[m].(accept := first);
    assert InChallenge(challenge, me)(row) == InChallenge(challenge, me)(d.memberships[m]);
    FirstIgnoresUpdate(d.memberships, InChallenge(challenge, me), m, row);
    assert d.memberships[m := row][m := d.memberships[m].(accept := second)]
        == d.memberships[m := d.memberships[m].(accept := second)];
  }

  // ---------------------------------------------------------------------
  // Comment

  /** `put_challenge_user_detail`: the owner of membership `member`
      replaces its COMMENT. */
  function EditComment(d: Db, member: nat, me: nat, comment: string): (e: Effect<Outcome<Reason>>)
    requires Consistent(d)
    ensures e.result.Fail? ==> e.db == d
    ensures member >= |d.memberships| ==> e.result == Fail(NoneDereference)
    ensures member < |d.memberships| ==> (e.result == Fail(NotYourMembership) <==> d.memberships[member].user != me)
    ensures member < |d.memberships| && d.memberships[member].user == me ==> e.result.Pass?
    ensures e.result.Pass? ==>
              && member < |d.memberships| && d.memberships[member].user == me
              && e.db == d.(memberships := d.memberships[member := d.memberships[member].(comment := comment)])
  {
    if member >= |d.memberships| then Effect(d, Fail(NoneDereference))
    else if d.memberships[member].user != me then Effect(d, Fail(NotYourMembership))
    else Effect(d.(memberships := d.memberships[member := d.memberships[member].(comment := comment)]), Pass)
  }

  lemma EditCommentKeepsConsistent(d: Db, member: nat, me: nat, comment: string)
    requires Consistent(d)
    ensures Consistent(EditComment(d, member, me, comment).db)
  {
  }

  /** An edit never changes who may edit next: a second edit by the same
      caller is decided as the first was, and the later comment stays. */
  lemma LastCommentWins(d: Db, member: nat, me: nat, first: string, second: string)
    requires Consistent(d)
    ensures var d1 := EditComment(d, member, me, first).db;
            Consistent(d1)
            && EditComment(d1, member, me, second).result == EditComment(d, member, me, second).result
            && EditComment(d1, member, me, second).db == EditComment(d, member, me, second).db
  {
    EditCommentKeepsConsistent(d, member, me, first);
    if member < |d.memberships| && d.memberships[member].user == me {
      assert d.memberships[member := d.memberships[member].(comment := first)][member := d.memberships[member].(comment := second)]
          == d.memberships[member := d.memberships[member].(comment := second)];
    }
  }

  // ---------------------------------------------------------------------
  // Additional goal

  /** `complete_additional_goal`: goal `goalNo` is marked done with image
      `image`, when it belongs to membership `member` and that membership
      is the caller's. The goal's owner is compared first, so the
      membership is only read for a goal that belongs to it. */
  function CompleteAdditionalGoal(d: Db, goalNo: nat, image: string, member: nat, me: nat): (e: Effect<Outcome<Reason>>)
    requires Consistent(d)
    ensures e.result.Fail? ==> e.db == d
    ensures e.result == Fail(GoalNotFound) <==> goalNo >= |d.additionalGoals|
    ensures e.result == Fail(NotYourMembership) <==>
              goalNo < |d.additionalGoals|
              && (d.additionalGoals[goalNo].member != member || d.memberships[member].user != me)
    ensures e.result.Fail? ==> e.result.error == GoalNotFound || e.result.error == NotYourMembership
    ensures e.result.Pass? ==>
              && goalNo < |d.additionalGoals| && |e.db.additionalGoals| == |d.additionalGoals|
              && var g := e.db.additionalGoals[goalNo];
              && g.done && g.image == Some(image)
              && g.member == d.additionalGoals[goalNo].member && g.name == d.additionalGoals[goalNo].name
              && e.db == d.(additionalGoals := d.additionalGoals[goalNo := g])
  {
    if goalNo >= |d.additionalGoals| then Effect(d, Fail(GoalNotFound))
    else
      var goal := d.additionalGoals[goalNo];
      if goal.member != member || d.memberships[member].user != me then Effect(d, Fail(NotYourMembership))
      else Effect(d.(additionalGoals := d.additionalGoals[goalNo := goal.(done := true, image := Some(image))]), Pass)
  }

  lemma CompleteGoalKeepsConsistent(d: Db, goalNo: nat, image: string, member: nat, me: nat)
    requires Consistent(d)
    ensures Consistent(CompleteAdditionalGoal(d, goalNo, image, member, me).db)
  {
  }

  /** Completing a goal again keeps it done and keeps the last image. */
  lemma {:induction false} CompleteTwice(d: Db, goalNo: nat, first: string, second: string, member: nat, me: nat)
    requires Consistent(d)
    requires CompleteAdditionalGoal(d, goalNo, first, member, me).result.Pass?
    ensures var d1 := CompleteAdditionalGoal(d, goalNo, first, member, me).db;
            Consistent(d1)
            && var e2 := CompleteAdditionalGoal(d1, goalNo, second, member, me);
            e2.result.Pass? && e2.db.additionalGoals[goalNo].done
            && e2.db.additionalGoals[goalNo].image == Some(second)
            && e2.db == CompleteAdditionalGoal(d, goalNo, second, member, me).db
  {
    CompleteGoalKeepsConsistent(d, goalNo, first, member, me);
    var g := d.additionalGoals[goalNo];
    assert d.additionalGoals[goalNo := g.(done := true, image := Some(first))][goalNo := g.(done := true, image := Some(second))]
        == d.additionalGoals[goalNo := g.(done := true, image := Some(second))];
  }

  // ---------------------------------------------------------------------
  // Daily start

  /** `check_and_start_challenges` at instant `now`. Each selected
      challenge is handed to the start routine, whose effect lies outside
      this model; the challenges in `failing` are those for which it
      raises. The run commits once, after the loop, so a raise anywhere
      leaves everything as it was. */
  function StartChallenges(d: Db, now: Instant, failing: set<nat>): (e: Effect<Outcome<Reason>>)
    requires Consistent(d)
    ensures e.result.Fail? ==> e == Effect(d, Fail(StartFailed))
    ensures e.result.Pass? <==>
              forall i | 0 <= i < |d.challenges| && ShouldStart(d.challenges[i], UtcDate(now)) :: i !in failing
    ensures e.result.Pass? ==>
              && e.db == d.(started := e.db.started)
              && |e.db.started| >= |d.started|
              && e.db.started[..|d.started|] == d.started
              && var run := e.db.started[|d.started|..];
              && (forall k | 0 <= k < |run| :: run[k] < |d.challenges|)
              && (forall i | 0 <= i < |d.challenges| :: i in run <==> ShouldStart(d.challenges[i], UtcDate(now)))
              && (forall k, l | 0 <= k < l < |run| :: run[k] < run[l])
  {
    var selected := ToStart(d.challenges, UtcDate(now));
    if exists k | 0 <= k < |selected| :: selected[k] in failing then Effect(d, Fail(StartFailed))
    else
      var e := Effect(d.(started := d.started + selected), Pass);
      assert e.db.started[|d.started|..] == selected;
      e
  }

  lemma StartKeepsConsistent(d: Db, now: Instant, failing: set<nat>)
    requires Consistent(d)
    ensures Consistent(StartChallenges(d, now, failing).db)
  {
    var d' := StartChallenges(d, now, failing).db;
    var selected := ToStart(d.challenges, UtcDate(now));
    assert forall i | 0 <= i < |d.started| :: d'.started[i] == d.started[i];
  }
}
