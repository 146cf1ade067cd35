/** Diary submission (`create_diary`) and emoji reactions (`post_emoji`).
    A diary is stored with its goals and a reward drawn at random; the
    draw, the random item and the random unowned avatar are parameters. */
module DiaryRules {
  import opened Records
  import opened Database

  /** One entry of the PERSON_GOAL list of a submission. */
  datatype GoalEntry = GoalEntry(name: string, done: bool)

  /** The PersonDailyGoal rows a submission adds: one per entry, in order,
      with the entry's name and IS_DONE, owned by the membership. */
  function GoalRows(goals: seq<GoalEntry>, member: nat): (r: seq<DailyGoal>)
    ensures |r| == |goals|
    ensures forall k | 0 <= k < |r| :: r[k] == DailyGoal(member, goals[k].name, goals[k].done)
  {
    if goals == [] then []
    else
      var n := |goals| - 1;
      var front := GoalRows(goals[..n], member);
      assert forall k | 0 <= k < n :: goals[..n][k] == goals[k];
      front + [DailyGoal(member, goals[n].name, goals[n].done)]
  }

  /** The filter of the existing-diary query. */
  function SameDay(member: nat, day: int): Diary -> bool
  {
    (x: Diary) => x.member == member && UtcDate(x.insertedAt) == day
  }

  /** A diary of `member` was stored on UTC date `day`. */
  predicate WroteOn(d: Db, member: nat, day: int)
  {
    exists i | 0 <= i < |d.diaries| :: d.diaries[i].member == member && UtcDate(d.diaries[i].insertedAt) == day
  }

  /** `create_diary` by the caller `me` at instant `now` for membership
      `member`. The answer is the name of the granted item or avatar, or
      None for NOTHING. */
  function CreateDiary(d: Db, member: nat, me: nat, image: string, comment: string, goals: seq<GoalEntry>,
                       now: Instant, draw: RewardType, item: Pick, avatar: Option<Pick>)
    : (e: Effect<Result<Option<string>, Reason>>)
    requires Consistent(d)
    requires avatar.Some? ==> !Owns(d, me, avatar.value.no)
    // a refusal persists nothing, not even the diary
    ensures e.result.Failure? ==> e.db == d
    ensures member >= |d.memberships| ==> e.result == Failure(NoneDereference)
    ensures member < |d.memberships| ==>
              (e.result == Failure(NotYourMembership) <==> d.memberships[member].user != me)
    ensures member < |d.memberships| && d.memberships[member].user == me ==>
              (e.result == Failure(DiaryAlreadyToday) <==> WroteOn(d, member, UtcDate(now)))
    // every check passed: the submission succeeds unless a drawn item has
    // no inventory row
    ensures member < |d.memberships| && d.memberships[member].user == me && !WroteOn(d, member, UtcDate(now)) ==>
              && (e.result.Success? <==> (draw == Item ==> (member, item.no) in d.inventory))
              && (e.result.Failure? ==> e.result == Failure(NoItemRow))
    ensures e.result.Success? ==>
              && member < |d.memberships| && d.memberships[member].user == me
              && !WroteOn(d, member, UtcDate(now))
              && e.db.diaries == d.diaries + [Diary(member, image, comment, now)]
              && e.db.dailyGoals == d.dailyGoals + GoalRows(goals, member)
              && e.db == d.(diaries := e.db.diaries, dailyGoals := e.db.dailyGoals,
                            inventory := e.db.inventory, avatars := e.db.avatars)
    ensures e.result.Success? && draw == Item ==>
              && e.result.value == Some(item.name)
              && (member, item.no) in d.inventory
              && e.db.inventory == d.inventory[(member, item.no) := d.inventory[(member, item.no)] + 1]
              && e.db.avatars == d.avatars
    ensures e.result.Success? && draw == Avatar && avatar.Some? ==>
              && e.result.value == Some(avatar.value.name)
              && e.db.avatars == d.avatars + [AvatarUser(avatar.value.no, me, false)]
              && e.db.inventory == d.inventory
    ensures e.result.Success? && (draw == Nothing || (draw == Avatar && avatar.None?)) ==>
              e.result.value == None && e.db.avatars == d.avatars && e.db.inventory == d.inventory
  {
    if member >= |d.memberships| then Effect(d, Failure(NoneDereference))
    else if d.memberships[member].user != me then Effect(d, Failure(NotYourMembership))
    else if First(d.diaries, SameDay(member, UtcDate(now))).Some? then
      var i := First(d.diaries, SameDay(member, UtcDate(now))).value;
      assert SameDay(member, UtcDate(now))(d.diaries[i]);
      Effect(d, Failure(DiaryAlreadyToday))
    else
      assert !WroteOn(d, member, UtcDate(now)) by {
        forall i | 0 <= i < |d.diaries|
          ensures !(d.diaries[i].member == member && UtcDate(d.diaries[i].insertedAt) == UtcDate(now))
        {
          assert !SameDay(member, UtcDate(now))(d.diaries[i]);
        }
      }
      Submit(d, member, me, image, comment, goals, now, draw, item, avatar)
  }

  /** The part of `create_diary` after its checks: the diary and its goals
      are added, then the reward is applied. A missing inventory row for a
      drawn item raises before the commit, so nothing is kept. */
  function Submit(d: Db, member: nat, me: nat, image: string, comment: string, goals: seq<GoalEntry>,
                  now: Instant, draw: RewardType, item: Pick, avatar: Option<Pick>)
    : Effect<Result<Option<string>, Reason>>
  {
    var written := d.(diaries := d.diaries + [Diary(member, image, comment, now)],
                      dailyGoals := d.dailyGoals + GoalRows(goals, member));
    match draw
    case Item =>
      if (member, item.no) !in d.inventory then Effect(d, Failure(NoItemRow))
      else
        Effect(written.(inventory := d.inventory[(member, item.no) := d.inventory[(member, item.no)] + 1]),
               Success(Some(item.name)))
    case Avatar =>
      if avatar.None? then Effect(written, Success(None))
      else Effect(written.(avatars := d.avatars + [AvatarUser(avatar.value.no, me, false)]),
                  Success(Some(avatar.value.name)))
    case Nothing => Effect(written, Success(None))
  }

  lemma CreateDiaryKeepsConsistent(d: Db, member: nat, me: nat, image: string, comment: string, goals: seq<GoalEntry>,
                                   now: Instant, draw: RewardType, item: Pick, avatar: Option<Pick>)
    requires Consistent(d)
    requires avatar.Some? ==> !Owns(d, me, avatar.value.no)
    ensures Consistent(CreateDiary(d, member, me, image, comment, goals, now, draw, item, avatar).db)
  {
    var e := CreateDiary(d, member, me, image, comment, goals, now, draw, item, avatar);
    if e.result.Success? {
      var d' := e.db;
      var rows := GoalRows(goals, member);
      assert forall i | 0 <= i < |d.diaries| :: d'.diaries[i] == d.diaries[i];
      assert GoalsLinked(d') by {
        forall i | 0 <= i < |d'.dailyGoals|
          ensures d'.dailyGoals[i].member < |d'.memberships|
        {
          if i < |d.dailyGoals| {
            assert d'.dailyGoals[i] == d.dailyGoals[i];
          } else {
            assert d'.dailyGoals[i] == rows[i - |d.dailyGoals|];
          }
        }
      }
      assert OneDiaryPerDay(d') by {
        forall i, j | 0 <= i < j < |d'.diaries| && d'.diaries[i].member == d'.diaries[j].member
          ensures UtcDate(d'.diaries[i].insertedAt) != UtcDate(d'.diaries[j].insertedAt)
        {
          if j == |d.diaries| {
            assert d'.diaries[j] == Diary(member, image, comment, now);
            assert !(d.diaries[i].member == member && UtcDate(d.diaries[i].insertedAt) == UtcDate(now));
          }
        }
      }
      if draw == Avatar && avatar.Some? {
        assert forall i | 0 <= i < |d.avatars| :: d'.avatars[i] == d.avatars[i];
        assert AvatarsDistinct(d') by {
          forall i, j | 0 <= i < j < |d'.avatars|
            ensures !(d'.avatars[i].user == d'.avatars[j].user && d'.avatars[i].avatar == d'.avatars[j].avatar)
          {
            if j == |d.avatars| {
              assert !(d.avatars[i].user == me && d.avatars[i].avatar == avatar.value.no);
            }
          }
        }
      }
    }
  }

  /** A membership writes at most one diary per UTC date: once a diary is
      stored, a second submission on the same date is refused, whatever
      its contents and draws. */
  lemma {:induction false} SecondDiarySameDayRefused(
    d: Db, member: nat, me: nat, image: string, comment: string, goals: seq<GoalEntry>,
    now: Instant, draw: RewardType, item: Pick, avatar: Option<Pick>,
    later: Instant, image': string, comment': string, goals': seq<GoalEntry>,
    draw': RewardType, item': Pick, avatar': Option<Pick>)
    requires Consistent(d)
    requires avatar.Some? ==> !Owns(d, me, avatar.value.no)
    requires CreateDiary(d, member, me, image, comment, goals, now, draw, item, avatar).result.Success?
    requires UtcDate(later) == UtcDate(now)
    requires var d1 := CreateDiary(d, member, me, image, comment, goals, now, draw, item, avatar).db;
             avatar'.Some? ==> !Owns(d1, me, avatar'.value.no)
    ensures var d1 := CreateDiary(d, member, me, image, comment, goals, now, draw, item, avatar).db;
            Consistent(d1)
            && CreateDiary(d1, member, me, image', comment', goals', later, draw', item', avatar').result
               == Failure(DiaryAlreadyToday)
  {
    CreateDiaryKeepsConsistent(d, member, me, image, comment, goals, now, draw, item, avatar);
    var d1 := CreateDiary(d, member, me, image, comment, goals, now, draw, item, avatar).db;
    assert d1.diaries[|d.diaries|] == Diary(member, image, comment, now);
    assert WroteOn(d1, member, UtcDate(later));
  }

  /** `post_emoji`: a reaction to diary `diaryNo` by the caller `me`. The
      reaction records the caller's membership only when the diary is the
      caller's own; no membership check refuses the call. */
  function PostEmoji(d: Db, diaryNo: nat, me: nat, emoji: string): (e: Effect<Outcome<Reason>>)
    requires Consistent(d)
    ensures diaryNo >= |d.diaries| ==> e == Effect(d, Fail(NoneDereference))
    ensures diaryNo < |d.diaries| ==>
              && e.result.Pass?
              && |e.db.reactions| == |d.reactions| + 1
              && e.db.reactions[..|d.reactions|] == d.reactions
              && var x := e.db.reactions[|d.reactions|];
              && x.diary == diaryNo && x.emoji == emoji
              && (x.reactor.Some? <==> d.memberships[d.diaries[diaryNo].member].user == me)
              && (x.reactor.Some? ==> x.reactor.value == d.diaries[diaryNo].member)
              && e.db == d.(reactions := e.db.reactions)
  {
    if diaryNo >= |d.diaries| then Effect(d, Fail(NoneDereference))
    else
      var member := d.diaries[diaryNo].member;
      var reactor := if d.memberships[member].user == me then Some(member) else None;
      Effect(d.(reactions := d.reactions + [Reaction(diaryNo, emoji, reactor)]), Pass)
  }

  lemma PostEmojiKeepsConsistent(d: Db, diaryNo: nat, me: nat, emoji: string)
    requires Consistent(d)
    ensures Consistent(PostEmoji(d, diaryNo, me, emoji).db)
  {
    var d' := PostEmoji(d, diaryNo, me, emoji).db;
    assert forall i | 0 <= i < |d.reactions| :: d'.reactions[i] == d.reactions[i];
  }
}
