/** The tables the handlers read and write, as one value, and the integrity
    the database keeps for them: every row points at rows that exist, a
    membership keeps at most one diary per UTC date, and no user owns the
    same avatar twice. Row numbers (CHALLENGE_USER_NO, USER_NO, ...) are
    positions in the sequences; the autoincrement key of a new row is the
    length of its table before the insert. */
module Database {
  import opened Records

  datatype Db = Db(
    challenges: seq<Challenge>,
    memberships: seq<Membership>,
    inventory: map<(nat, nat), nat>,    // ITEM_USER: (CHALLENGE_USER_NO, ITEM_NO) -> COUNT
    itemLogs: seq<ItemLog>,
    dailyGoals: seq<DailyGoal>,
    additionalGoals: seq<AdditionalGoal>,
    diaries: seq<Diary>,
    reactions: seq<Reaction>,
    avatars: seq<AvatarUser>,
    users: seq<User>,
    settings: seq<nat>,                 // USER_SETTING: USER_NO
    friends: seq<FriendRequest>,
    started: seq<nat>)                  // challenges handed to the start routine, in order

  /** What a handler leaves behind: the committed tables and its answer. */
  datatype Effect<+T> = Effect(db: Db, result: T)

  // ---------------------------------------------------------------------
  // Integrity

  predicate MembershipsLinked(d: Db)
  {
    forall i | 0 <= i < |d.memberships| ::
      d.memberships[i].user < |d.users| && d.memberships[i].challenge < |d.challenges|
  }

  predicate InventoryLinked(d: Db)
  {
    forall k | k in d.inventory :: k.0 < |d.memberships|
  }

  predicate LogsLinked(d: Db)
  {
    forall i | 0 <= i < |d.itemLogs| ::
      d.itemLogs[i].sender < |d.memberships| && d.itemLogs[i].recipient < |d.memberships|
  }

  predicate GoalsLinked(d: Db)
  {
    && (forall i | 0 <= i < |d.dailyGoals| :: d.dailyGoals[i].member < |d.memberships|)
    && (forall i | 0 <= i < |d.additionalGoals| :: d.additionalGoals[i].member < |d.memberships|)
  }

  predicate DiariesLinked(d: Db)
  {
    forall i | 0 <= i < |d.diaries| :: d.diaries[i].member < |d.memberships|
  }

  /** The rule `create_diary` enforces: one diary per membership per UTC date. */
  predicate OneDiaryPerDay(d: Db)
  {
    forall i, j | 0 <= i < j < |d.diaries| && d.diaries[i].member == d.diaries[j].member ::
      UtcDate(d.diaries[i].insertedAt) != UtcDate(d.diaries[j].insertedAt)
  }

  predicate ReactionsLinked(d: Db)
  {
    forall i | 0 <= i < |d.reactions| ::
      d.reactions[i].diary < |d.diaries|
      && (d.reactions[i].reactor.Some? ==> d.reactions[i].reactor.value < |d.memberships|)
  }

  predicate AvatarsLinked(d: Db)
  {
    forall i | 0 <= i < |d.avatars| :: d.avatars[i].user < |d.users|
  }

  /** Avatars are only ever granted when not yet owned. */
  predicate AvatarsDistinct(d: Db)
  {
    forall i, j | 0 <= i < j < |d.avatars| ::
      !(d.avatars[i].user == d.avatars[j].user && d.avatars[i].avatar == d.avatars[j].avatar)
  }

  predicate UsersLinked(d: Db)
  {
    && (forall i | 0 <= i < |d.settings| :: d.settings[i] < |d.users|)
    && (forall i | 0 <= i < |d.friends| :: d.friends[i].sender < |d.users| && d.friends[i].recipient < |d.users|)
  }

  predicate StartedLinked(d: Db)
  {
    forall i | 0 <= i < |d.started| :: d.started[i] < |d.challenges|
  }

  predicate Consistent(d: Db)
  {
    && MembershipsLinked(d) && InventoryLinked(d) && LogsLinked(d) && GoalsLinked(d)
    && DiariesLinked(d) && OneDiaryPerDay(d) && ReactionsLinked(d)
    && AvatarsLinked(d) && AvatarsDistinct(d) && UsersLinked(d) && StartedLinked(d)
  }

  // ---------------------------------------------------------------------
  // Lookups shared by the handlers

  /** The filter of `get_challenge_user_by_user_no`: the membership of a
      user in a challenge. */
  function InChallenge(challenge: nat, user: nat): Membership -> bool
  {
    (m: Membership) => m.challenge == challenge && m.user == user
  }

  /** `get_challenge_user_by_user_no`: the first membership of `user` in
      `challenge`, if any. */
  function MemberOf(d: Db, challenge: nat, user: nat): (r: Option<nat>)
    ensures r.Some? ==> r.value < |d.memberships|
                        && d.memberships[r.value].challenge == challenge
                        && d.memberships[r.value].user == user
    ensures r.None? <==> forall i | 0 <= i < |d.memberships| ::
                           !(d.memberships[i].challenge == challenge && d.memberships[i].user == user)
  {
    var r := First(d.memberships, InChallenge(challenge, user));
    if r.Some? then
      assert InChallenge(challenge, user)(d.memberships[r.value]);
      r
    else r
  }

  /** The user holds an AvatarUser row for the avatar. */
  predicate Owns(d: Db, user: nat, avatar: nat)
  {
    exists i | 0 <= i < |d.avatars| :: d.avatars[i].user == user && d.avatars[i].avatar == avatar
  }
}
