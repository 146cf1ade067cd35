/** The rows the challenge backend reads and writes, the error outcomes its
    handlers raise, the clock arithmetic they use, and the `.first()` lookup
    every query in the core ends with. */
module Records {

  datatype Option<+T> = None | Some(value: T)

  datatype Result<+T, +E> = Success(value: T) | Failure(error: E)

  datatype Outcome<+E> = Pass | Fail(error: E)

  /** One constructor per distinct `raise` of the modelled handlers. */
  datatype Reason =
    | LessThanADayLeft    // item use within 24 h of the challenge end
    | OwnMembership       // item used on one's own membership
    | NoItemRow           // no inventory row for (membership, item)
    | NoItemLeft          // inventory row with COUNT 0
    | NotYourMembership   // the membership belongs to another user
    | DiaryAlreadyToday   // a diary for this UTC date exists
    | TooManyMembers      // more than six invited users
    | TooManyActive       // three or more challenges in progress
    | BadPage             // page number below one
    | GoalNotFound        // unknown additional goal
    | MissingCredentials  // sign-up without token or e-mail
    | TokenInUse          // ID_TOKEN held by another account
    | EmailInUse          // USER_EMAIL held by another account
    | NoEquippedAvatar    // profile without an equipped avatar
    | NoChallenges        // profile without any challenge
    | InvalidCredentials  // no user carries the decoded UID
    | DisabledUser        // the account was soft-deleted
    | AlreadyFriends      // an ACCEPTED request joins the pair
    | RequestPending      // a PENDING request joins the pair
    | FriendNotFound      // unknown friend request
    | NotParticipant      // caller is neither sender nor recipient
    | UnsupportedType     // upload that is not JPEG or PNG
    | FileTooLarge        // upload above 5 MiB
    | BlankField          // a text field that is empty or whitespace
    | NoneDereference     // an attribute read on a lookup that found nothing
    | DivisionByZero      // a zero divisor
    | StartFailed         // starting a challenge raised

  // ---------------------------------------------------------------------
  // Clock

  /** A UTC timestamp in microseconds since the Unix epoch, the resolution
      of Python's `datetime`. */
  type Instant = int

  const MicrosPerSecond: int := 1_000_000
  const SecondsPerDay: int := 86_400
  const MicrosPerDay: int := SecondsPerDay * MicrosPerSecond

  /** `t.date()` as a day number since 1970-01-01 (flooring, as Python does
      for instants before the epoch). */
  function UtcDate(t: Instant): int
  {
    t / MicrosPerDay
  }

  /** The instant a calendar date denotes when compared with a timestamp
      column: its midnight. */
  function Midnight(day: int): Instant
  {
    day * MicrosPerDay
  }

  // ---------------------------------------------------------------------
  // Rows

  datatype ChallengeStatus = Pending | Progress | Complete | Failed

  datatype AcceptStatus = Pending | Accepted | Declined

  /** CHALLENGE_MST: START_DT, END_DT, CHALLENGE_STATUS, DELETE_YN. */
  datatype Challenge = Challenge(start: Instant, end: Instant, status: ChallengeStatus, deleted: bool)

  /** CHALLENGE_USER: USER_NO, CHALLENGE_MST_NO, ACCEPT_STATUS, COMMENT. */
  datatype Membership = Membership(user: nat, challenge: nat, accept: AcceptStatus, comment: string)

  /** ITEM_LOG: SENDER_NO, RECIPIENT_NO, ITEM_NO (memberships and an item). */
  datatype ItemLog = ItemLog(sender: nat, recipient: nat, item: nat)

  /** PERSON_DAILY_GOAL: CHALLENGE_USER_NO, PERSON_NM, IS_DONE. */
  datatype DailyGoal = DailyGoal(member: nat, name: string, done: bool)

  /** ADDITIONAL_GOAL: CHALLENGE_USER_NO, ADDITIONAL_NM, IS_DONE, IMAGE_FILE_NM. */
  datatype AdditionalGoal = AdditionalGoal(member: nat, name: string, done: bool, image: Option<string>)

  /** PERSON_DAILY_GOAL_COMPLETE (a diary): CHALLENGE_USER_NO, IMAGE_FILE_NM,
      COMMENT and the INSERT_DT the row receives when it is stored. */
  datatype Diary = Diary(member: nat, image: string, comment: string, insertedAt: Instant)

  /** DAILY_COMPLETE_USER (a reaction): DAILY_COMPLETE_NO, EMOJI and the
      reacting membership, absent when the reacting user has none. */
  datatype Reaction = Reaction(diary: nat, emoji: string, reactor: Option<nat>)

  /** AVATAR_USER: AVATAR_NO, USER_NO, IS_EQUIP. */
  datatype AvatarUser = AvatarUser(avatar: nat, user: nat, equipped: bool)

  datatype SignType = Kakao | Apple | Guest

  /** USER: UID, USER_NM, SIGN_TYPE, USER_EMAIL, ID_TOKEN, DISABLE_YN, DISABLE_DT. */
  datatype User = User(
    uid: nat,
    name: string,
    signType: SignType,
    email: Option<string>,
    idToken: Option<string>,
    disabled: bool,
    disabledAt: Option<Instant>)

  /** FRIEND: SENDER_NO, RECIPIENT_NO (users) and ACCEPT_STATUS. */
  datatype FriendRequest = FriendRequest(sender: nat, recipient: nat, status: AcceptStatus)

  /** The outcome of the weighted reward draw. */
  datatype RewardType = Avatar | Item | Nothing

  /** A catalogue entry picked at random: ITEM_NO/ITEM_NM or AVATAR_NO/AVATAR_NM. */
  datatype Pick = Pick(no: nat, name: string)

  /** Python truthiness of an optional string: present and non-empty. */
  predicate Truthy(s: Option<string>)
  {
    s.Some? && s.value != ""
  }

  // ---------------------------------------------------------------------
  // Queries

  /** `query.filter(p).first()`: the position of the first row, in table
      order, that satisfies `p`. */
  function First<T>(rows: seq<T>, p: T -> bool): (r: Option<nat>)
    ensures r.Some? ==> r.value < |rows| && p(rows[r.value])
    ensures r.Some? ==> forall j | 0 <= j < r.value :: !p(rows[j])
    ensures r.None? <==> forall j | 0 <= j < |rows| :: !p(rows[j])
  {
    if |rows| == 0 then None
    else if p(rows[0]) then Some(0)
    else
      match First(rows[1..], p)
      case None => None
      case Some(k) => Some(k + 1)
  }
}
