# DoRun rule layer in Dafny

DoRun is a habit-challenge service: users sign up, form challenges with up to six
invited friends, write one diary a day per
challenge, earn random rewards (items and avatars) for it, use items on the
other members of a challenge, react to diaries with emoji, and manage friend
requests. A daily job promotes the challenges whose start date has come.

This project models the request handlers that decide and change the stored
rows, and proves what they guarantee.

- **Records** (`records.dfy`) holds the row types of the tables and the
  refusal reasons. It also holds the UTC clock in microseconds, and `First`,
  the model of `query.filter(p).first()`.
- **Database** (`database.dfy`) holds the `Db` snapshot of every table. A row
  number is its position. The item inventory is a map keyed by
  (membership, item). `Consistent` is the integrity invariant:
  - every reference points at an existing row;
  - a membership has at most one diary per UTC date;
  - no user holds the same avatar twice.
- **Rule modules** are pure functions `Db -> Effect(db, result)`, one per
  handler, each with the partner lemma `…KeepsConsistent`. There are four:
  ItemRules, DiaryRules, ChallengeRules and AccountRules. AccountRules holds
  the account handlers and also the friend-request handlers (`invite_friend`,
  `update_friend`). The pure checks and queries they use live in their own
  modules: Accounts, Friends (the invitation guard and the friend list),
  ChallengeGuards, ChallengeSchema, Upload, Progress and Scheduler.
- **Store** (`store.dfy`) is the database session as a class whose fields are
  the tables. Each handler is a method that changes the fields step by step,
  in the order of the source. Each is proved to leave exactly the state its
  rule function computes and to keep `Valid()`. A handler that raises after a
  change undoes it, because an uncommitted session persists nothing.

Where the documentation and the code differ, the model follows the code:
- a DECLINED answer to a challenge invitation is stored as given and keeps the
  membership;
- the "one diary a day" check compares the UTC date of INSERT_DT with today's
  UTC date;
- an empty ID_TOKEN is left as it is by the soft delete (only a non-empty one
  is cleared);
- the daily job commits once, after the loop over every challenge to start,
  and not once per challenge: a start that raises for one challenge loses the
  starts of all of them.

## Model

| member | source | states |
|---|---|---|
| Records.First | domain/user/user_crud.py:121-122 | the first row in table order that satisfies the filter; none exactly when no row does |
| Progress.CalculateProgress | domain/desc/utils.py:4-7 | the window has end-start+1 days; a zero-day window divides by zero; otherwise the value lies in [0, 100] |
| Progress.NothingBeforeStart | domain/desc/utils.py:6-7 | before the first day the progress is 0 |
| Progress.FullAfterWindow | domain/desc/utils.py:5-7 | once the whole window has elapsed the progress is 100 |
| Progress.ShareInsideWindow | domain/desc/utils.py:5-7 | inside the window the progress is elapsed/total*100, unclamped |
| Progress.Monotone | domain/desc/utils.py:4-7 | for a fixed window, progress never decreases as the date advances |
| ChallengeSchema.StripLeft | domain/challenge/challenge_schema.py:35 | removes exactly the leading whitespace |
| ChallengeSchema.BlankIffAllSpace | domain/challenge/challenge_schema.py:35 | `not value.strip()` holds exactly for text made only of whitespace |
| ChallengeSchema.NotEmpty | domain/challenge/challenge_schema.py:33-37 | rejects exactly blank text; any other value passes unchanged |
| ChallengeSchema.ValidateAll | domain/challenge/challenge_schema.py:24-37 | a body passes exactly when every field passes; otherwise the error is RejectedNames: every rejected field is named, every name is a rejected field's, in field order |
| ChallengeSchema.RejectedNamesCons | domain/challenge/challenge_schema.py:33-37 | the rejected names of a body are those of its first field followed by those of the rest |
| ChallengeSchema.RejectedNamesSound | domain/challenge/challenge_schema.py:33-37 | each rejected name is the name of a field the validator rejects |
| ChallengeSchema.RejectedNamesComplete | domain/challenge/challenge_schema.py:33-37 | each field the validator rejects is named |
| ChallengeSchema.RejectedNamesEmpty | domain/challenge/challenge_schema.py:33-37 | no name is listed exactly when every field passes |
| Upload.CheckUpload | domain/desc/desc_router.py:19-32 | passes exactly JPEG or PNG up to 5 MiB; any other type is UnsupportedType (400), and a JPEG or PNG over 5 MiB is FileTooLarge (413) |
| Upload.Extension | domain/desc/desc_router.py:36 | the extension never contains a '.' |
| Upload.ExtensionIsSuffix | domain/desc/desc_router.py:36 | the extension is the suffix after the last '.', or the whole name when there is none |
| Upload.Decimal | domain/desc/desc_router.py:37 | the UID printed as a non-empty, dot-free string of decimal digits whose value is the UID, with no leading zero |
| Upload.StoredName | domain/desc/desc_router.py:19-37 | a name is produced exactly when the upload checks pass, otherwise their error (its layout is stated by StoredNameKeepsExtension) |
| Upload.ExtensionAfterDot | domain/desc/desc_router.py:36-37 | the extension of `prefix.ext` is `ext` for a dot-free `ext` |
| Upload.StoredNameKeepsExtension | domain/desc/desc_router.py:35-37 | the stored name is exactly `<UID>_<stamp>.` followed by the uploaded file's extension, and its own extension is that extension |
| ChallengeGuards.CreateGuard | domain/challenge/challenge_router.py:41-47 | passes exactly with at most 6 invited users and fewer than 3 challenges in progress; more than 6 is refused for that alone, and TooManyActive exactly when the member cap passes and at least 3 are in progress |
| ChallengeGuards.SixIsTheLimit | domain/challenge/challenge_router.py:41-42 | six invited users pass and a seventh is refused |
| ChallengeGuards.InviteAnswerGuard | domain/challenge/challenge_router.py:121-124 | any answer passes exactly when fewer than 3 challenges are in progress |
| ChallengeGuards.PageGuard | domain/challenge/challenge_router.py:80-81 | pages from 1 on pass; the others are refused |
| Scheduler.ToStart | main.py:48-53 | exactly the PENDING, undeleted challenges whose start is not after today's midnight, in increasing order |
| Accounts.SignUpGuard | domain/user/user_crud.py:29-41 | guests pass; others need a token and an e-mail, and pass exactly when no user carries either; a clash is TokenInUse or EmailInUse, TokenInUse exactly when the first clashing user holds the token; each has a witness |
| Accounts.TokenReportedFirst | domain/user/user_crud.py:37-41 | a first clashing user holding both values is reported as a token clash |
| Accounts.FirstOtherClash | domain/user/user_crud.py:77-81 | the first user other than the caller that the update query finds; none exactly when no other user matches |
| Accounts.UpdateGuard | domain/user/user_crud.py:70-87 | with every given value non-empty, refused exactly when another user carries the e-mail or the token; the first such user decides: its e-mail match gives EmailInUse, otherwise its token match TokenInUse |
| Accounts.OwnRowIgnored | domain/user/user_crud.py:78-81 | the caller's own row never changes the update verdict |
| Accounts.Count | domain/user/user_crud.py:111 | a status count is at most the number of challenges |
| Accounts.CountsAddUp | domain/user/user_crud.py:111-118 | the counts of the four statuses add up to the number of challenges |
| Accounts.GetUser | domain/user/user_crud.py:102-118 | refused exactly with no equipped avatar or with no challenge; otherwise the equipped row, and each count equals the number of challenges with that status |
| Accounts.CurrentUser | domain/user/user_crud.py:152-157 | resolves a UID to an existing, enabled user; refused exactly when the UID is unknown, or when the user is disabled |
| Accounts.ScrubbedNoLongerMatches | domain/user/user_router.py:94-95 | after a soft delete, the freed e-mail no longer clashes at sign-up |
| Friends.InviteGuardAsWritten | domain/user/friend_router.py:23-35 | as written the guard always refuses; it dereferences None exactly when no live request joins the pair |
| Friends.FirstInvitationFails | domain/user/friend_router.py:23-31 | two users with no request between them cannot send a first invitation |
| Friends.InviteGuard | domain/user/friend_router.py:23-35 | passes exactly when no ACCEPTED or PENDING request joins the pair in either direction; each refusal has a witness |
| Friends.CorrectionOnlyAdmitsFirstInvitation | domain/user/friend_router.py:31-35 | the corrected guard differs from the written one only by admitting the no-request case |
| Friends.GuardSymmetric | domain/user/friend_router.py:23-29 | the verdict does not depend on who invites whom |
| Friends.Counterpart | domain/user/friend_router.py:57 | the other party of a request that involves the caller |
| Friends.Involving | domain/user/friend_router.py:48-50 | every request sent or received by the caller and no other; with InvolvingAppend and InvolvingOne it is the filter that keeps table order |
| Friends.InvolvingAppend | domain/user/friend_router.py:48-50 | the filter of a concatenation is the concatenation of the filters, so order is kept |
| Friends.InvolvingOne | domain/user/friend_router.py:48-50 | a single request is kept exactly when it involves the caller |
| Friends.Listed | domain/user/friend_router.py:56-65 | every entry is the (UID, name) of an existing counterpart of a request with the given status, and every such counterpart is listed |
| Friends.ListsFitRecords | domain/user/friend_router.py:53-65 | the pending and accepted lists together are no longer than the records |
| Friends.FriendList | domain/user/friend_router.py:45-67 | the loop builds exactly the pending and accepted lists of the caller's requests |
| Database.MemberOf | domain/challenge/item/item_crud.py:54 | the membership of a user in a challenge; none exactly when there is none |
| ItemRules.GoalNames | domain/challenge/item/item_crud.py:73-75 | only names of the sender's daily goals, every one of them listed; empty exactly when the sender has none |
| ItemRules.Sender | domain/challenge/item/item_crud.py:54 | the caller's membership in the recipient's challenge |
| ItemRules.UseItem | domain/challenge/item/item_crud.py:38-80 | an unknown recipient or sender dereferences None; past it, each refusal (less than a day left, own membership, no inventory row, none left) holds exactly when the checks before it passed and its own fails; with all passed the use succeeds unless item 1 finds no goal of the sender; on success one item is spent, one log added, and for item 1 a goal of the sender is copied to the recipient; a refusal changes nothing |
| ItemRules.UseItemKeepsConsistent | domain/challenge/item/item_crud.py:68-80 | using an item keeps the tables consistent |
| ItemRules.GetItem | domain/challenge/item/item_crud.py:13-35 | a drawn unowned avatar is granted unequipped; otherwise the item count goes up by one, refused exactly when the inventory row is missing |
| ItemRules.GetItemKeepsConsistent | domain/challenge/item/item_crud.py:13-35 | a reward keeps the tables consistent |
| ItemRules.GrantKeepsConsistent | domain/challenge/item/item_crud.py:18-22 | granting an unowned avatar keeps avatar rows distinct |
| DiaryRules.GoalRows | domain/challenge/diary/diary_router.py:76-82 | one goal row per submitted goal, in order, with its name and done flag |
| DiaryRules.CreateDiary | domain/challenge/diary/diary_router.py:49-111 | refused exactly for another user's membership or an existing diary on today's UTC date; past those checks it succeeds exactly unless a drawn item has no inventory row; on success the diary, its goals and the drawn reward are stored; a refusal keeps nothing |
| DiaryRules.CreateDiaryKeepsConsistent | domain/challenge/diary/diary_router.py:69-109 | a diary submission keeps one diary per membership per UTC date |
| DiaryRules.SecondDiarySameDayRefused | domain/challenge/diary/diary_router.py:57-66 | after a successful diary, a second one on the same UTC date is refused |
| DiaryRules.PostEmoji | domain/challenge/diary/diary_router.py:24-39 | a reaction is appended to an existing diary, naming the caller's membership exactly when the diary is the caller's |
| DiaryRules.PostEmojiKeepsConsistent | domain/challenge/diary/diary_router.py:34-37 | a reaction keeps the tables consistent |
| ChallengeRules.FirstIgnoresUpdate | domain/challenge/challenge_router.py:126-127 | updating a row the filter judges alike leaves `.first()` unchanged |
| ChallengeRules.RespondToInvite | domain/challenge/challenge_router.py:118-132 | refused with 3 challenges in progress, else exactly with no membership; with both checks passed it succeeds, and only the membership's status changes, to the given answer |
| ChallengeRules.RespondKeepsConsistent | domain/challenge/challenge_router.py:126-128 | answering keeps the tables consistent |
| ChallengeRules.LastAnswerWins | domain/challenge/challenge_router.py:126-128 | answering twice equals answering once with the second answer |
| ChallengeRules.EditComment | domain/challenge/challenge_router.py:95-107 | refused exactly for an unknown membership or another user's; the owner's edit succeeds, changing only that comment |
| ChallengeRules.EditCommentKeepsConsistent | domain/challenge/challenge_router.py:103-104 | an edit keeps the tables consistent |
| ChallengeRules.LastCommentWins | domain/challenge/challenge_router.py:100-104 | a second edit is decided as the first and leaves the second comment |
| ChallengeRules.CompleteAdditionalGoal | domain/challenge/additional/additional_router.py:15-33 | refused exactly for an unknown goal, or for a goal or membership not the caller's; otherwise only that goal becomes done with the image |
| ChallengeRules.CompleteGoalKeepsConsistent | domain/challenge/additional/additional_router.py:28-31 | completing a goal keeps the tables consistent |
| ChallengeRules.CompleteTwice | domain/challenge/additional/additional_router.py:28-29 | completing again keeps the goal done with the last image |
| ChallengeRules.StartChallenges | main.py:45-69 | one commit after the loop: a failing start keeps nothing; otherwise exactly the eligible challenges are handed on, in increasing order |
| ChallengeRules.StartKeepsConsistent | main.py:55-67 | the daily job keeps the tables consistent |
| AccountRules.NewUser | domain/user/user_crud.py:43-47 | a guest record has no e-mail and no token; any other keeps what was given |
| AccountRules.CreateUser | domain/user/user_crud.py:28-65 | succeeds exactly when the sign-up checks pass; it adds the user, its settings row and starter avatar 1 equipped, and answers the UID |
| AccountRules.CreateUserKeepsConsistent | domain/user/user_crud.py:43-63 | sign-up keeps the tables consistent |
| AccountRules.NewAccountUsable | domain/user/user_crud.py:56-63 | a new account's UID resolves to it and its profile finds an equipped avatar |
| AccountRules.Updated | domain/user/user_crud.py:90-97 | every given field replaces the stored one; every absent field is kept |
| AccountRules.UpdateUser | domain/user/user_crud.py:68-99 | the verdict is the update check; on success only the caller's record changes |
| AccountRules.UpdateUserKeepsConsistent | domain/user/user_crud.py:90-99 | an update keeps the tables consistent |
| AccountRules.EmptyUpdateChangesNothing | domain/user/user_crud.py:70-97 | an update giving no field changes nothing |
| AccountRules.DeleteUser | domain/user/user_router.py:89-105 | the record is kept, disabled at now; a non-empty e-mail gets "#disabled" appended; a non-empty token is cleared, and an absent or empty one is kept as it was; the answer is the UID |
| AccountRules.DeleteUserKeepsConsistent | domain/user/user_router.py:91-100 | a soft delete keeps the tables consistent |
| AccountRules.DeletedUserRejected | domain/user/user_crud.py:156-157 | a deleted account's UID now resolves to the disabled-user refusal |
| AccountRules.InviteFriend | domain/user/friend_router.py:17-42 | an unknown UID is dereferenced; otherwise a PENDING request is added exactly when the corrected guard passes |
| AccountRules.InviteFriendKeepsConsistent | domain/user/friend_router.py:38-40 | an invitation keeps the tables consistent |
| AccountRules.NoDuplicateInvitation | domain/user/friend_router.py:23-35 | after an invitation, a repeat in either direction is refused as pending |
| AccountRules.UpdateFriend | domain/user/friend_router.py:70-85 | refused exactly for an unknown request or a caller not party to it; a party's change succeeds, changing only its status |
| AccountRules.UpdateFriendKeepsConsistent | domain/user/friend_router.py:81-83 | a status change keeps the tables consistent |
| AccountRules.DeclineReopens | domain/user/friend_router.py:28 | declining the only live request lets the pair invite again |
| Store.Store.GetItem | domain/challenge/item/item_crud.py:13-35 | the new state and answer are those of ItemRules.GetItem, and consistency is kept |
| Store.Store.UsedItem | domain/challenge/item/item_crud.py:38-84 | step-by-step updates, undone when the goal lookup fails, leave the state of ItemRules.UseItem |
| Store.Store.Spend | domain/challenge/item/item_crud.py:68-78 | the count, log and copied-goal writes, undone when the goal read fails, leave the state of ItemRules.Spend |
| Store.Store.UseItem | domain/challenge/item/item_router.py:19-67 | the route repeats `used_item`, with the same state and answer |
| Store.Store.CreateDiary | domain/challenge/diary/diary_router.py:49-111 | the state and answer of DiaryRules.CreateDiary, and consistency is kept |
| Store.Store.Submit | domain/challenge/diary/diary_router.py:69-111 | diary, goals and reward are written, and undone on a missing item row |
| Store.Store.AddGoals | domain/challenge/diary/diary_router.py:76-82 | the loop appends exactly the goal rows of the submission |
| Store.Store.PostEmoji | domain/challenge/diary/diary_router.py:24-39 | the state and answer of DiaryRules.PostEmoji |
| Store.Store.RespondToInvite | domain/challenge/challenge_router.py:118-132 | the state and answer of ChallengeRules.RespondToInvite |
| Store.Store.EditComment | domain/challenge/challenge_router.py:95-107 | the state and answer of ChallengeRules.EditComment |
| Store.Store.CompleteAdditionalGoal | domain/challenge/additional/additional_router.py:15-33 | the state and answer of ChallengeRules.CompleteAdditionalGoal |
| Store.Store.CheckAndStartChallenges | main.py:45-69 | the loop over selected challenges leaves the state of ChallengeRules.StartChallenges |
| Store.Store.CreateUser | domain/user/user_crud.py:28-65 | the state and answer of AccountRules.CreateUser |
| Store.Store.UpdateUser | domain/user/user_crud.py:68-99 | the field-by-field update leaves the state of AccountRules.UpdateUser |
| Store.Store.DeleteUser | domain/user/user_router.py:89-105 | the state and answer of AccountRules.DeleteUser |
| Store.Store.InviteFriend | domain/user/friend_router.py:17-42 | the state and answer of AccountRules.InviteFriend |
| Store.Store.UpdateFriend | domain/user/friend_router.py:70-85 | the state and answer of AccountRules.UpdateFriend |

## Left out

- The JWT encoding and decoding, the OAuth form and the login routes are left out. `CurrentUser` starts from a decoded UID, and a token that fails to decode is only the `InvalidCredentials` reason.
- Randomness is not modelled. The reward draw, the random item, the random unowned avatar and the random daily goal are parameters. The goal is `names[goalPick % |names|]`.
- The random nickname and the UID of a new user are parameters. So is the caller's count of challenges in progress, which comes from a listing query.
- The route `use_item` also answers `character_no`, the AVATAR_NO of the caller's equipped CHARACTER avatar, read after the commit. Avatar types are not modelled, so this read is left out. A caller with no equipped CHARACTER gets a server error from it after the commit, with the item already spent; the model answers Pass there. The stored effect is modelled in full.
- The effect of `start_challenge_server` is not part of this model. The daily job only records which challenges it handed on (`started`). The set of challenges for which it raises is a parameter.
- The challenge insert (`post_create_challenge`) and the listing queries (`get_challenge_list`, `get_challenge_user_list` and the detail queries) are not part of this model. Only their guards are modelled.
- The upload to object storage, the local clock and the file-size measurement are I/O. They are left out or taken as parameters (`size`, `stamp`).
- Upload.StoredName: the timestamp is taken as an already formatted string. Its `%Y%m%d%H%M%S` layout is not checked.
- Progress.CalculateProgress: floating-point division is modelled with `real`, so rounding is not captured. The dates are day numbers, and the clock is the `today` parameter.
- Concurrent requests are not modelled. Each handler runs alone on a snapshot of the tables.
- The invitation and friend statuses are taken to be PENDING, ACCEPTED and DECLINED. The enum `InviteAcceptType` is not part of this model.
- INSERT_DT of a diary is taken to be the UTC instant of the request. `func.date` is the UTC date of that instant.
- The user settings row is reduced to its USER_NO.
- Records.First: `.first()` without `order_by` returns a row in no defined order; the model takes the first in row order. That choice decides which clash SignUpGuard and UpdateGuard report and underlies ChallengeRules.FirstIgnoresUpdate.
- The ItemUser table is a map keyed by (membership, item), so two rows for the same pair cannot be represented; the handlers read only the first such row.
- `get_diary`, `get_challenge_user_by_challenge_user_no` and `get_challenge_user_by_user_no` are not part of this model. Each is taken to return the row with that number (or the first matching row), or None.
- The daily and weekly goal routes, and the second friend router under `domain/friend`, are not part of this model.
- ChallengeSchema.StripLeft: `strip()` removes whitespace at both ends. Only the left end matters for blankness, which is all the validator tests.

## Findings

| source | as written | input that shows it | evidently intended | confidence | as-written member | corrected member |
|---|---|---|---|---|---|---|
| domain/user/friend_router.py:23-35 | the first non-DECLINED request between the two users is read with `.first()`, and its ACCEPT_STATUS is read without checking for None | two users with no request between them: `existing_request` is None, and reading `.ACCEPT_STATUS` raises, so no first invitation can be sent (lemma Friends.FirstInvitationFails); the corrected guard is used by AccountRules.InviteFriend and Store.Store.InviteFriend | refuse only when an ACCEPTED or PENDING request exists; otherwise insert a PENDING request | high, not executed | Friends.InviteGuardAsWritten | Friends.InviteGuard |
