/** The database session the handlers work on, as an object whose tables
    the handlers update in place. Each method follows its handler step by
    step: it checks the same guards in the same order, and it changes the
    same rows. A handler that raises after changing rows rolls them back,
    as the session does when an exception escapes before the commit. Every
    method keeps the integrity of the tables (Valid) and is proved equal,
    in new state and answer, to the rule of the same name. */
module Store {
  import opened Records
  import opened Database
  import opened Scheduler
  import opened ChallengeGuards
  import opened Accounts
  import opened Friends
  import ItemRules
  import DiaryRules
  import ChallengeRules
  import AccountRules

  class Store {
    var challenges: seq<Challenge>
    var memberships: seq<Membership>
    var inventory: map<(nat, nat), nat>
    var itemLogs: seq<ItemLog>
    var dailyGoals: seq<DailyGoal>
    var additionalGoals: seq<AdditionalGoal>
    var diaries: seq<Diary>
    var reactions: seq<Reaction>
    var avatars: seq<AvatarUser>
    var users: seq<User>
    var settings: seq<nat>
    var friends: seq<FriendRequest>
    var started: seq<nat>

    /** The tables as one value. */
    function Snapshot(): Db
      reads this
    {
      Db(challenges, memberships, inventory, itemLogs, dailyGoals, additionalGoals,
         diaries, reactions, avatars, users, settings, friends, started)
    }

    predicate Valid()
      reads this
    {
      Consistent(Snapshot())
    }

    /** An empty database. */
    constructor ()
      ensures Valid()
      ensures Snapshot() == Db([], [], map[], [], [], [], [], [], [], [], [], [], [])
    {
      challenges, memberships, inventory, itemLogs := [], [], map[], [];
      dailyGoals, additionalGoals, diaries, reactions := [], [], [], [];
      avatars, users, settings, friends, started := [], [], [], [], [];
    }

    // -------------------------------------------------------------------
    // Items

    /** `get_item`. */
    method GetItem(member: nat, me: nat, draw: RewardType, avatar: Option<Pick>, item: Pick)
      returns (r: Result<(RewardType, nat), Reason>)
      requires Valid() && me < |users|
      requires avatar.Some? ==> !Owns(Snapshot(), me, avatar.value.no)
      modifies this
      ensures Valid()
      ensures Snapshot() == ItemRules.GetItem(old(Snapshot()), member, me, draw, avatar, item).db
      ensures r == ItemRules.GetItem(old(Snapshot()), member, me, draw, avatar, item).result
    {
      ItemRules.GetItemKeepsConsistent(Snapshot(), member, me, draw, avatar, item);
      if draw == Avatar && avatar.Some? {
        avatars := avatars + [AvatarUser(avatar.value.no, me, false)];
        return Success((Avatar, avatar.value.no));
      }
      var key := (member, item.no);
      if key !in inventory {
        return Failure(NoItemRow);
      }
      inventory := inventory[key := inventory[key] + 1];
      r := Success((draw, item.no));
    }

    /** `used_item` in the item crud module. */
    method UsedItem(item: nat, recipient: nat, me: nat, now: Instant, goalPick: nat) returns (r: Outcome<Reason>)
      requires Valid()
      modifies this
      ensures Valid()
      ensures Snapshot() == ItemRules.UseItem(old(Snapshot()), item, recipient, me, now, goalPick).db
      ensures r == ItemRules.UseItem(old(Snapshot()), item, recipient, me, now, goalPick).result
    {
      ItemRules.UseItemKeepsConsistent(Snapshot(), item, recipient, me, now, goalPick);
      if recipient >= |memberships| {
        return Fail(NoneDereference);
      }
      var target := memberships[recipient];
      var timeRemaining := challenges[target.challenge].end - now;
      if timeRemaining < MicrosPerDay {
        return Fail(LessThanADayLeft);
      }
      var usedUser := MemberOf(Snapshot(), target.challenge, me);
      if usedUser == Some(recipient) {
        return Fail(OwnMembership);
      }
      if usedUser.None? {
        return Fail(NoneDereference);
      }
      var sender := usedUser.value;
      var key := (sender, item);
      if key !in inventory {
        return Fail(NoItemRow);
      }
      if inventory[key] == 0 {
        return Fail(NoItemLeft);
      }
      r := Spend(sender, recipient, item, goalPick);
    }

    /** The writes of `used_item` once its checks have passed: the count
        goes down, the log is added, and item 1 adds a copied goal. A failed
        goal read undoes the first two. */
    method Spend(sender: nat, recipient: nat, item: nat, goalPick: nat) returns (r: Outcome<Reason>)
      requires (sender, item) in inventory && inventory[(sender, item)] > 0
      modifies this
      ensures Snapshot() == ItemRules.Spend(old(Snapshot()), sender, recipient, item, goalPick).db
      ensures r == ItemRules.Spend(old(Snapshot()), sender, recipient, item, goalPick).result
    {
      var key := (sender, item);
      var inventory0, itemLogs0 := inventory, itemLogs;
      inventory := inventory[key := inventory[key] - 1];
      itemLogs := itemLogs + [ItemLog(sender, recipient, item)];
      if item == ItemRules.GoalThief {
        var names := ItemRules.GoalNames(dailyGoals, sender);
        if names == [] {
          // the goal read raises before the commit
          inventory, itemLogs := inventory0, itemLogs0;
          return Fail(NoneDereference);
        }
        additionalGoals := additionalGoals + [AdditionalGoal(recipient, names[goalPick % |names|], false, None)];
      }
      r := Pass;
    }

    /** `use_item`, the registered route. Its body repeats `used_item`
        line for line, so it is given by that method; the shared contract
        is the equivalence of the two. */
    method UseItem(item: nat, recipient: nat, me: nat, now: Instant, goalPick: nat) returns (r: Outcome<Reason>)
      requires Valid()
      modifies this
      ensures Valid()
      ensures Snapshot() == ItemRules.UseItem(old(Snapshot()), item, recipient, me, now, goalPick).db
      ensures r == ItemRules.UseItem(old(Snapshot()), item, recipient, me, now, goalPick).result
    {
      r := UsedItem(item, recipient, me, now, goalPick);
    }

    // -------------------------------------------------------------------
    // Diaries

    /** `create_diary`. */
    method CreateDiary(member: nat, me: nat, image: string, comment: string, goals: seq<DiaryRules.GoalEntry>,
                       now: Instant, draw: RewardType, item: Pick, avatar: Option<Pick>)
      returns (r: Result<Option<string>, Reason>)
      requires Valid()
      requires avatar.Some? ==> !Owns(Snapshot(), me, avatar.value.no)
      modifies this
      ensures Valid()
      ensures Snapshot() == DiaryRules.CreateDiary(old(Snapshot()), member, me, image, comment, goals, now, draw, item, avatar).db
      ensures r == DiaryRules.CreateDiary(old(Snapshot()), member, me, image, comment, goals, now, draw, item, avatar).result
    {
      if member >= |memberships| {
        return Failure(NoneDereference);
      }
      if memberships[member].user != me {
        return Failure(NotYourMembership);
      }
      var today := UtcDate(now);
      if First(diaries, DiaryRules.SameDay(member, today)).Some? {
        return Failure(DiaryAlreadyToday);
      }
      r := Submit(member, me, image, comment, goals, now, draw, item, avatar);
      DiaryRules.CreateDiaryKeepsConsistent(old(Snapshot()), member, me, image, comment, goals, now, draw, item, avatar);
    }

    /** `create_diary` after its checks: the rows are added in the
        session, then the reward is drawn. */
    method Submit(member: nat, me: nat, image: string, comment: string, goals: seq<DiaryRules.GoalEntry>,
                  now: Instant, draw: RewardType, item: Pick, avatar: Option<Pick>)
      returns (r: Result<Option<string>, Reason>)
      modifies this
      ensures Snapshot() == DiaryRules.Submit(old(Snapshot()), member, me, image, comment, goals, now, draw, item, avatar).db
      ensures r == DiaryRules.Submit(old(Snapshot()), member, me, image, comment, goals, now, draw, item, avatar).result
    {
      var diaries0, dailyGoals0 := diaries, dailyGoals;
      diaries := diaries + [Diary(member, image, comment, now)];
      AddGoals(goals, member);
      assert Snapshot() == old(Snapshot()).(diaries := old(diaries) + [Diary(member, image, comment, now)],
                                            dailyGoals := old(dailyGoals) + DiaryRules.GoalRows(goals, member));
      if draw == Item {
        var key := (member, item.no);
        if key !in inventory {
          // the 404 escapes before the commit
          diaries, dailyGoals := diaries0, dailyGoals0;
          return Failure(NoItemRow);
        }
        inventory := inventory[key := inventory[key] + 1];
        return Success(Some(item.name));
      }
      if draw == Avatar && avatar.Some? {
        avatars := avatars + [AvatarUser(avatar.value.no, me, false)];
        return Success(Some(avatar.value.name));
      }
      // NOTHING, or AVATAR with every avatar owned: the diary alone is kept
      r := Success(None);
    }

    /** The loop of `create_diary` that adds one PersonDailyGoal row per
        submitted goal. */
    method AddGoals(goals: seq<DiaryRules.GoalEntry>, member: nat)
      modifies this
      ensures Snapshot() == old(Snapshot()).(dailyGoals := old(dailyGoals) + DiaryRules.GoalRows(goals, member))
    {
      var i := 0;
      while i < |goals|
        invariant 0 <= i <= |goals|
        invariant Snapshot() == old(Snapshot()).(dailyGoals := old(dailyGoals) + DiaryRules.GoalRows(goals[..i], member))
      {
        assert goals[..i + 1][..i] == goals[..i];
        dailyGoals := dailyGoals + [DailyGoal(member, goals[i].name, goals[i].done)];
        i := i + 1;
      }
      assert goals[..i] == goals;
    }

    /** `post_emoji`. */
    method PostEmoji(diaryNo: nat, me: nat, emoji: string) returns (r: Outcome<Reason>)
      requires Valid()
      modifies this
      ensures Valid()
      ensures Snapshot() == DiaryRules.PostEmoji(old(Snapshot()), diaryNo, me, emoji).db
      ensures r == DiaryRules.PostEmoji(old(Snapshot()), diaryNo, me, emoji).result
    {
      DiaryRules.PostEmojiKeepsConsistent(Snapshot(), diaryNo, me, emoji);
      if diaryNo >= |diaries| {
        return Fail(NoneDereference);
      }
      var member := diaries[diaryNo].member;
      var challengeUser := if memberships[member].user == me then Some(member) else None;
      reactions := reactions + [Reaction(diaryNo, emoji, challengeUser)];
      r := Pass;
    }

    // -------------------------------------------------------------------
    // Challenges

    /** The PUT `challenge_invite` route. */
    method RespondToInvite(challenge: nat, me: nat, decision: AcceptStatus, inProgress: nat) returns (r: Outcome<Reason>)
      requires Valid()
      modifies this
      ensures Valid()
      ensures Snapshot() == ChallengeRules.RespondToInvite(old(Snapshot()), challenge, me, decision, inProgress).db
      ensures r == ChallengeRules.RespondToInvite(old(Snapshot()), challenge, me, decision, inProgress).result
    {
      ChallengeRules.RespondKeepsConsistent(Snapshot(), challenge, me, decision, inProgress);
      if inProgress >= MaxActive {
        return Fail(TooManyActive);
      }
      var challengeUser := MemberOf(Snapshot(), challenge, me);
      if challengeUser.None? {
        return Fail(NoneDereference);
      }
      var m := challengeUser.value;
      memberships := memberships[m := memberships[m].(accept := decision)];
      r := Pass;
    }

    /** `put_challenge_user_detail`. */
    method EditComment(member: nat, me: nat, comment: string) returns (r: Outcome<Reason>)
      requires Valid()
      modifies this
      ensures Valid()
      ensures Snapshot() == ChallengeRules.EditComment(old(Snapshot()), member, me, comment).db
      ensures r == ChallengeRules.EditComment(old(Snapshot()), member, me, comment).result
    {
      ChallengeRules.EditCommentKeepsConsistent(Snapshot(), member, me, comment);
      if member >= |memberships| {
        return Fail(NoneDereference);
      }
      if memberships[member].user != me {
        return Fail(NotYourMembership);
      }
      memberships := memberships[member := memberships[member].(comment := comment)];
      r := Pass;
    }

    /** `complete_additional_goal`. */
    method CompleteAdditionalGoal(goalNo: nat, image: string, member: nat, me: nat) returns (r: Outcome<Reason>)
      requires Valid()
      modifies this
      ensures Valid()
      ensures Snapshot() == ChallengeRules.CompleteAdditionalGoal(old(Snapshot()), goalNo, image, member, me).db
      ensures r == ChallengeRules.CompleteAdditionalGoal(old(Snapshot()), goalNo, image, member, me).result
    {
      ChallengeRules.CompleteGoalKeepsConsistent(Snapshot(), goalNo, image, member, me);
      if goalNo >= |additionalGoals| {
        return Fail(GoalNotFound);
      }
      var goal := additionalGoals[goalNo];
      if goal.member != member || memberships[member].user != me {
        return Fail(NotYourMembership);
      }
      goal := goal.(done := true);
      goal := goal.(image := Some(image));
      additionalGoals := additionalGoals[goalNo := goal];
      r := Pass;
    }

    /** `check_and_start_challenges`: the selected challenges are handed to
        the start routine one by one; the run commits once at the end. */
    method CheckAndStartChallenges(now: Instant, failing: set<nat>) returns (r: Outcome<Reason>)
      requires Valid()
      modifies this
      ensures Valid()
      ensures Snapshot() == ChallengeRules.StartChallenges(old(Snapshot()), now, failing).db
      ensures r == ChallengeRules.StartChallenges(old(Snapshot()), now, failing).result
    {
      ChallengeRules.StartKeepsConsistent(Snapshot(), now, failing);
      var challengesToStart := ToStart(challenges, UtcDate(now));
      var handed: seq<nat> := [];
      var i := 0;
      while i < |challengesToStart|
        invariant 0 <= i <= |challengesToStart|
        invariant handed == challengesToStart[..i]
        invariant forall k | 0 <= k < i :: challengesToStart[k] !in failing
      {
        if challengesToStart[i] in failing {
          // the raise leaves the session uncommitted
          return Fail(StartFailed);
        }
        handed := handed + [challengesToStart[i]];
        i := i + 1;
      }
      assert handed == challengesToStart;
      started := started + handed;
      r := Pass;
    }

    // -------------------------------------------------------------------
    // Accounts

    /** `create_user`. */
    method CreateUser(signType: SignType, token: Option<string>, email: Option<string>, name: string, uid: nat)
      returns (r: Result<nat, Reason>)
      requires Valid()
      modifies this
      ensures Valid()
      ensures Snapshot() == AccountRules.CreateUser(old(Snapshot()), signType, token, email, name, uid).db
      ensures r == AccountRules.CreateUser(old(Snapshot()), signType, token, email, name, uid).result
    {
      AccountRules.CreateUserKeepsConsistent(Snapshot(), signType, token, email, name, uid);
      var guard := SignUpGuard(users, signType, token, email);
      if guard.Fail? {
        return Failure(guard.error);
      }
      var user := if signType == Guest then User(uid, name, signType, None, None, false, None)
                  else User(uid, name, signType, email, token, false, None);
      var userNo := |users|;
      users := users + [user];
      settings := settings + [userNo];
      avatars := avatars + [AvatarUser(AccountRules.StarterAvatar, userNo, true)];
      r := Success(uid);
    }

    /** `update_user` for the caller `me`. */
    method UpdateUser(me: nat, name: Option<string>, signType: Option<SignType>, email: Option<string>, token: Option<string>)
      returns (r: Outcome<Reason>)
      requires Valid() && me < |users|
      modifies this
      ensures Valid()
      ensures Snapshot() == AccountRules.UpdateUser(old(Snapshot()), me, name, signType, email, token).db
      ensures r == AccountRules.UpdateUser(old(Snapshot()), me, name, signType, email, token).result
    {
      AccountRules.UpdateUserKeepsConsistent(Snapshot(), me, name, signType, email, token);
      var guard := UpdateGuard(users, me, email, token);
      if guard.Fail? {
        return guard;
      }
      var user := users[me];
      if name.Some? {
        user := user.(name := name.value);
      }
      if signType.Some? {
        user := user.(signType := signType.value);
      }
      if email.Some? {
        user := user.(email := email);
      }
      if token.Some? {
        user := user.(idToken := token);
      }
      users := users[me := user];
      r := Pass;
    }

    /** `delete_user` for the caller `me`; the answer is the caller's UID. */
    method DeleteUser(me: nat, now: Instant) returns (uid: nat)
      requires Valid() && me < |users|
      modifies this
      ensures Valid()
      ensures Snapshot() == AccountRules.DeleteUser(old(Snapshot()), me, now).db
      ensures uid == AccountRules.DeleteUser(old(Snapshot()), me, now).result
    {
      AccountRules.DeleteUserKeepsConsistent(Snapshot(), me, now);
      var user := users[me];
      user := user.(disabled := true, disabledAt := Some(now));
      if Truthy(user.email) {
        user := user.(email := Some(user.email.value + "#disabled"));
      }
      if Truthy(user.idToken) {
        user := user.(idToken := None);
      }
      users := users[me := user];
      uid := user.uid;
    }

    // -------------------------------------------------------------------
    // Friends

    /** `invite_friend`, with the duplicate check as intended. */
    method InviteFriend(me: nat, uid: nat) returns (r: Outcome<Reason>)
      requires Valid() && me < |users|
      modifies this
      ensures Valid()
      ensures Snapshot() == AccountRules.InviteFriend(old(Snapshot()), me, uid).db
      ensures r == AccountRules.InviteFriend(old(Snapshot()), me, uid).result
    {
      AccountRules.InviteFriendKeepsConsistent(Snapshot(), me, uid);
      var recipientUser := First(users, HasUid(uid));
      if recipientUser.None? {
        return Fail(NoneDereference);
      }
      var them := recipientUser.value;
      var existing := InviteGuard(friends, me, them);
      if existing.Fail? {
        return existing;
      }
      friends := friends + [FriendRequest(me, them, AcceptStatus.Pending)];
      r := Pass;
    }

    /** `update_friend`. */
    method UpdateFriend(friendNo: nat, me: nat, status: AcceptStatus) returns (r: Outcome<Reason>)
      requires Valid()
      modifies this
      ensures Valid()
      ensures Snapshot() == AccountRules.UpdateFriend(old(Snapshot()), friendNo, me, status).db
      ensures r == AccountRules.UpdateFriend(old(Snapshot()), friendNo, me, status).result
    {
      AccountRules.UpdateFriendKeepsConsistent(Snapshot(), friendNo, me, status);
      if friendNo >= |friends| {
        return Fail(FriendNotFound);
      }
      if !(friends[friendNo].sender == me || friends[friendNo].recipient == me) {
        return Fail(NotParticipant);
      }
      friends := friends[friendNo := friends[friendNo].(status := status)];
      r := Pass;
    }
  }
}
