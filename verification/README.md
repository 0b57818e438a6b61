# Treasure hunt quest state, modelled in Dafny

This project models the state-keeping core of a browser treasure-hunt app.
An administrator edits a master quest template. Every player holds their own
copy of that quest, with completion flags, a cursor on the current task and a
list of unlock notifications. The app keeps all of this in `localStorage`,
together with the user directory, unlock requests, SOS alerts, photo assets,
activity records and last-known locations.

The model treats all of `localStorage` as one immutable record,
`Storage.Store`:

- There is one field per storage key.
- Per-player data is a map keyed by the full storage key (prefix plus
  username).
- Every service becomes a pure function from store to store.
- Wherever the app reads the clock or builds an id from `Date.now()`, the
  reading is a `now` parameter.
- JSON deep copies are Dafny value semantics.

Modules follow the program:

- `MasterTemplate` and `Propagation`: the template service and its
  propagation to players.
- `QuestService`, `UserService`, `Auth`, `UnlockRequestService`,
  `SosService`, `AssetService`, `ActivityService`, `LocationService`: the
  services and the login context.
- `TreasureHuntGame`, `AdminActions`, `AdminHelpers`, `TaskCard`,
  `QuestEditor`: the state-changing handlers of the pages and components.
- Shared helpers:
  - `Types`, `Wrappers`, `Storage`;
  - `Text`: ECMAScript `trim`, ASCII `toLowerCase`, decimal digits;
  - `Sorting`: a stable newest-first sort;
  - `QuestTree`: `find`/`findIndex` on tasks and subtasks;
  - `Progress`: flag updates and notification filtering;
  - `Calendar`: `Date` arithmetic for the age rule;
  - `IdNumbers`: identity-number examples and round trips.

The propagation's cursor rule is read from the code as it stands. The
"still exists" test is meant to keep the cursor only when the same task is
still at the same index. But `oldUserQuest` is the very object whose `tasks`
were just overwritten (services/masterQuestService.ts lines 104 and 134), so
the test compares the synced list with itself:

- the cursor is kept whenever it is in range;
- otherwise it moves to the first incomplete task.

`Propagation.CursorReduces` states this reduction. As a consequence, when a
completed task is pushed forward by an insertion at the front, the cursor
stays at its old index, now on the completed task, while the task the player
was on is still open one place further on.
`Propagation.FrontInsertionKeepsCursorOnCompletedTask` computes such a case.

A username listed twice in the directory is possible: `updateUser` replaces
an entry wholesale and does not check the new name. The propagation writes
such a player's key once per entry, and the model says so exactly
(`Propagation.PlayerEntries`, `Propagation.PropagatedTimes`).

## Model

| member | source | states |
|---|---|---|
| MasterTemplate.InitializeMasterQuest | services/masterQuestService.ts:66-75 | An existing template is returned and the store is left as it was; otherwise the default template is stored and returned. Only the template key changes. |
| MasterTemplate.InitializeIdempotent | services/masterQuestService.ts:66-75 | A second initialization returns the same template and the same store as the first. |
| MasterTemplate.DefaultHasUniqueIds | services/masterQuestService.ts:7-54 | The default template's task ids are distinct, and so are the subtask ids within each task. |
| Propagation.SyncTasks | services/masterQuestService.ts:105-130 | The synced list has the master's ids and content in master order. Each task's flag is the old first same-id task's flag, or false. Each subtask's flag is the old first same-id subtask's flag within that task, or false. |
| Propagation.FirstIncomplete | services/masterQuestService.ts:137-138 | The result is the first index holding an incomplete task, or the length when every task is complete. |
| Propagation.CursorReduces | services/masterQuestService.ts:137-149 | The existence test as written holds exactly when the cursor is in range, and the second branch is unreachable. The cursor as written is the old one when in range, else the first incomplete task. |
| Propagation.FreshState | services/masterQuestService.ts:90-100 | A player without a state gets the master with the same ids and content and every flag false. The cursor is 0 and there is no notification list. |
| Propagation.SyncState | services/masterQuestService.ts:103-149 | Title and description come from the master, and the quest id and notifications are kept. The tasks are `SyncTasks` of the old tasks. The cursor is kept if in range, else moved to the first incomplete task; it always ends in 0..length. |
| Propagation.PropagateToUser | services/masterQuestService.ts:84-150 | An administrator's entry changes nothing. A player's state becomes the propagated state, and no other player's state or other key changes. |
| Propagation.PropagateToUsers | services/masterQuestService.ts:83-151 | Every name's state is the old state propagated once per non-administrator entry carrying that name, archived entries included. Names with no such entry keep their state. With distinct names, each listed player's state is the propagated state. |
| Propagation.UpdateMasterQuestAndPropagate | services/masterQuestService.ts:77-153 | The template is stored, and only template and quest-state keys change. Every name's state is propagated once per player entry carrying it; administrators and unknown names keep their state. When the template's ids are distinct, or the names are, every listed player ends with the propagated state. |
| Propagation.IterateShift | services/masterQuestService.ts:83-151 | One write followed by n more is n + 1 writes: the loop's repeated writes to one key compose in order. |
| Propagation.PlayerEntriesPositive | services/masterQuestService.ts:81-84 | A listed non-administrator is written at least once by the loop. |
| Propagation.RepeatedPropagationIsOnce | services/masterQuestService.ts:83-151 | With distinct template ids, propagating the same template several times in a row gives the same state as propagating it once. |
| Propagation.PlayersPropagatedOnce | services/masterQuestService.ts:83-151 | With distinct template ids, every name written at least once ends with the old state propagated once, however many entries carry it. |
| Propagation.ProgressCarriedOver | services/masterQuestService.ts:108-123 | When old task ids are distinct, a task the player had keeps its flag, and each of its subtasks keeps the old same-id subtask's flag. |
| Propagation.NewContentStartsClean | services/masterQuestService.ts:124-129 | A task new to the player starts with every flag false. A subtask new to an existing task starts unticked. |
| Propagation.DroppedTasksRemoved | services/masterQuestService.ts:107-130 | A task id the master no longer lists does not appear in the synced list. |
| Propagation.ResyncIsIdentity | services/masterQuestService.ts:105-130 | Merging a master into a list that already has its content, with distinct master ids, returns that list unchanged. |
| Propagation.PropagatedIsFixpoint | services/masterQuestService.ts:103-149 | With distinct template task ids, a state produced by propagation is left unchanged by a second propagation of the same master. |
| Propagation.RepropagateIsNoOp | services/masterQuestService.ts:77-153 | With distinct template task ids, saving the same template twice leaves every player's state as the first save left it. |
| Propagation.CursorAsWritten | services/masterQuestService.ts:137-149 | The cursor choice as the code makes it: keep the cursor when the "still exists" test passes, otherwise take the first incomplete task. Its reduction is stated by CursorReduces. |
| Propagation.FrontInsertionKeepsCursorOnCompletedTask | services/masterQuestService.ts:137-149 | When a task is inserted at the front and the player stands on index 1 with the task before it completed, the cursor stays at index 1, now on the completed task, while the task at index 2 is still incomplete. |
| QuestService.GetQuestState | services/questService.ts:11-14 | A player's stored state, or none when the key is absent; read back after saving by SaveThenGet. |
| QuestService.SaveQuestState | services/questService.ts:16-18 | The saved state is read back for that player, and no other player's state or other key changes. |
| QuestService.SaveThenGet | services/questService.ts:11-18 | Reading after saving returns the saved state. A name never saved reads as absent. |
| QuestService.CreateNewQuestState | services/questService.ts:20-37 | The template is ensured first: the stored one, or the default when none is stored. The new state has that template's fields and content with every flag false, cursor 0 and an empty notification list. It is stored, and other players' states are unchanged. |
| QuestService.CreatePreservesTemplate | services/questService.ts:24-32 | The new state's task ids equal the template's, and its tasks are exactly the template's tasks with flags cleared. |
| QuestService.ResetQuestState | services/questService.ts:39-43 | The player's state reads as absent and their activity record is gone. Every other state and record is unchanged. |
| QuestTree.ClearedCopyUnique | services/questService.ts:24-32 | A list with the template's content and no progress is the cleared copy. |
| Storage.PrefixedKeyInjective | services/questService.ts:9-17 | Keys built from one prefix name different users apart. |
| UserService.InitializeUsers | services/userService.ts:52-74 | An empty store gets the two default users. Otherwise every entry has a missing height or weight filled with its role's default and everything else kept. It writes only when something was missing. |
| UserService.InitializeUsersIdempotent | services/userService.ts:52-74 | Initializing twice gives the same store as once. |
| UserService.CheckNewUser | services/userService.ts:86-104 | The verdicts follow the source's order. A blank username is reported first, then a blank first or last name, then a blank master key, then a taken sanitized username, then a taken trimmed key. Pass holds exactly when none applies. |
| UserService.AddUser | services/userService.ts:85-119 | On failure the store is unchanged. On success exactly one entry is appended: the sanitized username, role user, not archived, and the key as typed. The new player gets a fresh quest state on the stored or default template: its content with no progress, cursor 0 and no notifications. Other states are unchanged, and only the directory, the template and the new player's quest state are written. |
| UserService.UpdateUser | services/userService.ts:121-137 | An unknown name fails. A trimmed key held by another name fails. It passes exactly when neither applies, and then the first entry with that name is replaced wholesale and nothing else changes. |
| UserService.UpdateThenRead | services/userService.ts:121-137 | After a successful update the first entry that had the name is the new record, every other entry is as before, and when the name is kept a later lookup finds the same place. |
| Auth.UpdateThenLogin | context/AuthContext.tsx:24-31 | After a successful update with an already trimmed key, signing in with that key selects the updated entry. |
| UserService.SoftDeleteUser | services/userService.ts:140-152 | An unknown name or an administrator changes nothing. Otherwise only the first match's archived flag becomes true. |
| UserService.SoftDeleteFrame | services/userService.ts:140-152 | Archiving changes at most one entry, only its flag, and never an administrator's. |
| UserService.RestoreUser | services/userService.ts:154-161 | The first match is un-archived whatever its role, and an unknown name changes nothing. |
| UserService.RestoreUndoesSoftDelete | services/userService.ts:140-161 | Archiving and then restoring a player that was not archived gives back the original directory. |
| UserService.PermanentlyDeleteUser | services/userService.ts:163-172 | When the first match is an administrator nothing changes. Otherwise every entry with that name is removed and the list is written. |
| UserService.WithoutUsername | services/userService.ts:170 | The result holds exactly the entries whose name differs, each as often as before, and none with the name. |
| UserService.WithoutUsernameAppend | services/userService.ts:170 | Filtering two lists joined is joining the filtered lists, so kept entries keep their order. |
| UserService.PermanentlyDeleteThenGone | services/userService.ts:163-172 | After a deletion that was not refused, no entry has the name, and every other entry is kept as often as it was there. |
| Auth.DeletedUserCannotLogIn | context/AuthContext.tsx:24-31 | After a deletion that was not refused, no key signs in as a user of that name. |
| Auth.Login | context/AuthContext.tsx:24-35 | Login succeeds exactly when some stored key equals the trimmed typed key. The first holder becomes the current and persisted user, archived or not. A failure changes neither. |
| Auth.Logout | context/AuthContext.tsx:37-40 | Both the current user and the persisted user are cleared, and nothing else changes. |
| Auth.Mount | context/AuthContext.tsx:16-22 | The directory is seeded or migrated, and the current user is taken from storage. |
| Auth.LogoutThenLogin | context/AuthContext.tsx:24-40 | Signing in after signing out with the same key succeeds and fails as before, and picks the same user. |
| Auth.PaddedKeyNeverMatches | context/AuthContext.tsx:26 | An entry whose stored key has surrounding whitespace is never selected. |
| Auth.ArchivedPlayerCanStillLogIn | context/AuthContext.tsx:25-31 | A key that signed in before archiving still signs in after it. |
| Auth.AddUserPaddedKeyLocksOut | services/userService.ts:106-116 | A user added with a padded key can never be selected by sign-in, whatever is typed. |
| Auth.PaddedKeyExample | services/userService.ts:85-116 | The player "bob" with key " k1" passes every check, is stored, and typing " k1" is refused. |
| Auth.AddUserTrimmedKey | services/userService.ts:85-119 | The corrected addUser gives the same verdicts and stores the entry with the trimmed key. |
| Auth.AddUserTrimmedKeyCanLogIn | context/AuthContext.tsx:24-31 | With the trimmed key stored, the key typed at creation signs the new user in. |
| UnlockRequestService.GetUnlockRequests | services/unlockRequestService.ts:9-14 | The result is a permutation of the stored list with non-increasing timestamps. Requests with equal timestamps keep their stored order. |
| Sorting.SortDesc | services/unlockRequestService.ts:13 | The stable newest-first sort yields a permutation with non-increasing keys, and each key's entries keep their order. |
| Sorting.SortedUnique | services/unlockRequestService.ts:13 | Two sorted lists with the same entries per key in the same order are equal, so the stable sort has one result. |
| UnlockRequestService.NewRequest | services/unlockRequestService.ts:28-35 | The new request is Pending, stamped `now`, with id `unlock-req-<now>`, and carries the caller's fields. |
| UnlockRequestService.AddUnlockRequest | services/unlockRequestService.ts:28-38 | The stored list is the sorted old list followed by the new request, and it is one longer. |
| UnlockRequestService.AddThenGet | services/unlockRequestService.ts:28-38 | A request newer than all stored ones is read back first, followed by the old reading. |
| UnlockRequestService.UpdateRequestStatus | services/unlockRequestService.ts:45-52 | An unknown id writes nothing. Otherwise only the status of the first match in sorted order changes, and the stored list is sorted. |
| UnlockRequestService.UpdateThenGet | services/unlockRequestService.ts:45-52 | After an update the reader sees exactly the stored list, and the id finds the request with its new status. |
| UnlockRequestService.GetIsIdempotent | services/unlockRequestService.ts:9-14 | Sorting an already sorted reading returns it unchanged. |
| SosService.GetSOSAlerts | services/sosService.ts:5-10 | The result is a permutation of the stored alerts, newest first and stable. |
| SosService.NewAlert | services/sosService.ts:15-26 | The username serves as both user id and username, the names are copied, and only latitude and longitude are kept. |
| SosService.SendSOSAlert | services/sosService.ts:12-32 | The new alert is stored in front of the sorted old alerts, and the list grows by one. |
| SosService.SendKeepsNewestFirst | services/sosService.ts:28-31 | If the clock has not gone backwards, the stored list is sorted and read back unchanged. |
| SosService.SendAfterClockSkew | services/sosService.ts:28-31 | With a clock that went backwards, the stored list is out of order. |
| AssetService.SaveUserAsset | services/assetService.ts:15-19 | Exactly one asset is appended, and earlier assets are unchanged. |
| AssetService.GetUserAssets | services/assetService.ts:21-26 | The result holds exactly the user's assets, with multiplicities, in non-increasing timestamp order; assets with equal timestamps keep their stored order. |
| AssetService.SaveShowsToOwner | services/assetService.ts:15-26 | A saved asset appears in its owner's reading. |
| AssetService.SaveHiddenFromOthers | services/assetService.ts:15-26 | A saved asset leaves every other user's reading unchanged. |
| ActivityService.GetActivityData | services/activityService.ts:5-37 | With no record, the result is zeros with start time `now`. Otherwise only missing fields are filled: elevation loss, active and rest time with 0, start time with `now`. The result has no elevation profile field and the store is not written. |
| ActivityService.SaveThenGet | services/activityService.ts:5-41 | Reading a saved record returns it, with the start time filled only when it was missing. |
| ActivityService.ResetThenGet | services/activityService.ts:5-45 | After a reset the reading is the default record. |
| ActivityService.SaveActivityData | services/activityService.ts:39-41 | The player's record is stored field by field, with no elevation profile; every other record and every other key is unchanged. |
| ActivityService.ResetActivityData | services/activityService.ts:43-45 | The player's record is removed; every other record and every other key is unchanged. |
| ActivityService.OtherPlayersUnaffected | services/activityService.ts:39-45 | Saving or resetting one player's record leaves every other player's reading unchanged. |
| LocationService.SaveUserLocation | services/locationService.ts:7-14 | The player's record becomes latitude, longitude and timestamp, and every other player's record is unchanged. |
| LocationService.ActiveWithinTwentySeconds | services/locationService.ts:29-30 | A location is active exactly when it is less than 20000 ms old, future timestamps included. |
| LocationService.GetAllUsersLocations | services/locationService.ts:21-42 | The entries follow directory order, one per listed player with a stored location. Every entry is a listed, non-archived player with a stored location, and every such player has an entry. With distinct names there is one entry per name. |
| LocationService.CollectAppend | services/locationService.ts:21-42 | Listing a directory in two parts lists the parts one after the other. |
| LocationService.NameShownIff | services/locationService.ts:21-42 | A name is on the map exactly when some listed, non-archived player entry carries it and a location is stored under it. |
| LocationService.UnlistedNeverShown | services/locationService.ts:22 | With distinct usernames, archived users and administrators never appear. |
| AdminHelpers.FormatTime | pages/AdminDashboard.tsx:17-22 | The output is H:MM:SS with H*3600 + M*60 + S equal to the input and M, S < 60. Minutes and seconds are two digits, and hours are never cut short. |
| AdminHelpers.FormatTimeRoundTrip | pages/AdminDashboard.tsx:17-22 | Parsing the formatted duration gives back the seconds. |
| AdminHelpers.FormatTimeInjective | pages/AdminDashboard.tsx:17-22 | Different durations are shown differently. |
| AdminHelpers.CheckedBirth | pages/AdminDashboard.tsx:51-65 | The date is kept exactly when `new Date(year, 0, day)` stays in `year`, and it is then that day of the year. |
| AdminHelpers.BirthDateOf | pages/AdminDashboard.tsx:41-65 | A birth date comes only from a cleaned all-digit id of 12 or 9 digits. Its year and day of the year are read from the fields, by the form's rule. |
| AdminHelpers.AgeOn | pages/AdminDashboard.tsx:66-70 | The age is present exactly when the birth date is not after today. It is the number of birthdays reached by today. |
| AdminHelpers.CalculateAge | pages/AdminDashboard.tsx:41-71 | The result is present exactly when the id decodes to a birth date not after today. It is then the number of completed years. |
| AdminHelpers.CalculateAgeCorrected | pages/AdminDashboard.tsx:41-71 | Same as CalculateAge, with the 500 offset for women removed in the 12-digit form too. |
| Calendar.JanuaryDay | pages/AdminDashboard.tsx:51 | `new Date(y, 0, d)` gives day d of the full year. Day 366 of a common year rolls into January 1 of the next year, and years 0-99 mean 1900-1999. |
| Calendar.FromDayOfYearInverse | pages/AdminDashboard.tsx:63 | Day numbering is a bijection between the dates of a year and 1..its length. |
| Calendar.AgeIsCompletedYears | pages/AdminDashboard.tsx:67-69 | The birthday `age` years on has been reached and the next one has not. |
| Calendar.AgeNegativeIffFuture | pages/AdminDashboard.tsx:67-70 | The raw age is negative exactly when the birth date is after today. |
| IdNumbers.NewFormRoundTrip | pages/AdminDashboard.tsx:46-51 | For years 100-9999, a 12-digit id built from a year and a valid day decodes to that date. |
| IdNumbers.OldFormRoundTrip | pages/AdminDashboard.tsx:53-61 | A 9-digit id with a trailing V, for a man or a woman, decodes to that day in the pivot year. |
| IdNumbers.PivotYearWindow | pages/AdminDashboard.tsx:58-59 | For a current year in 2000-2099, the two-digit year lands in the hundred years ending with the current year. |
| IdNumbers.Day366OnlyInLeapYears | pages/AdminDashboard.tsx:49-65 | For years 100-9999, day 366 of the 12-digit form gives a date exactly in leap years. |
| IdNumbers.SeededAdventurerHasNoAge | services/userService.ts:39 | The default player's number "9001015000V" has no age: ten digits remain after stripping. |
| IdNumbers.NewFormWomenRefused | pages/AdminDashboard.tsx:46-49 | A 12-digit id with the 500 offset added gives no age. |
| IdNumbers.NewFormWomanExample | pages/AdminDashboard.tsx:46-49 | "199050100000" gives no age. |
| IdNumbers.NewFormCorrectedGenderNeutral | pages/AdminDashboard.tsx:46-61 | In the corrected rule, a woman's 12-digit id gives the same date and age as the man's. |
| IdNumbers.CorrectionOnlyAffectsWomen | pages/AdminDashboard.tsx:41-71 | The corrected and original ages agree on every id except 12-digit ones with a day field above 500. |
| AdminActions.HandleUnlockTask | pages/AdminDashboard.tsx:405-413 | Without a state nothing changes. Otherwise only the cursor changes, set to the given index, and no other player changes. |
| AdminActions.UnlockTaskLastWins | pages/AdminDashboard.tsx:405-413 | Of two unlocks in a row only the second counts. |
| AdminActions.UnlockCurrentTaskKeepsState | pages/AdminDashboard.tsx:405-413 | Unlocking the current task stores the same state. |
| AdminActions.HandleUnlockSubtask | pages/AdminDashboard.tsx:415-435 | Without a state nothing changes. Otherwise exactly the matching subtasks become complete, and task flags, cursor, notifications and quest fields stay. |
| AdminActions.UnlockSubtaskReadBack | pages/AdminDashboard.tsx:415-435 | After the unlock the looked-up subtask reads as complete. |
| AdminActions.UnlockSubtaskIdempotent | pages/AdminDashboard.tsx:415-435 | Unlocking the same subtask again changes nothing. |
| AdminActions.ApproveState | pages/AdminDashboard.tsx:438-470 | The named subtask is completed if it exists and is incomplete. The approval is posted whenever a subtask is named, and the state counts as updated exactly then. |
| AdminActions.HandleApproveRequest | pages/AdminDashboard.tsx:438-478 | Without a state the request is not touched. Otherwise the state is written as ApproveState gives it and the request is marked Approved; other players are unchanged. |
| AdminActions.ApproveChangesStateIffSubtaskNamed | pages/AdminDashboard.tsx:438-478 | The player's state changes exactly when the request names a subtask, found or not. |
| AdminActions.ApprovalCompletesSubtask | pages/AdminDashboard.tsx:445-455 | When the subtask exists, it reads as complete after approval. |
| AdminActions.ApprovalNoticeShown | pages/AdminDashboard.tsx:458-469 | The approval is shown under the subtask unless an older notice about it is still there. |
| AdminActions.ApproveTwiceSameTasks | pages/AdminDashboard.tsx:438-478 | A second approval leaves the quest as the first left it. |
| AdminActions.ApprovalMarksRequest | pages/AdminDashboard.tsx:472-477 | A stored request reads back as Approved after approval. |
| AdminActions.HandleRejectRequest | pages/AdminDashboard.tsx:480-499 | Without a state nothing changes. Otherwise a rejection notice is posted when a subtask is named and the request is marked Rejected. |
| AdminActions.RejectKeepsProgress | pages/AdminDashboard.tsx:480-499 | A rejection never changes the quest or the cursor. |
| TreasureHuntGame.LoadQuest | pages/TreasureHuntGame.tsx:212-229 | The stored state is shown if present, and the store is unchanged. Otherwise a fresh state on the stored or default template is created, stored and shown: its content with no progress, cursor 0 and no notifications. The player's assets are loaded, and other players are unchanged. |
| TreasureHuntGame.LoadQuestIdempotent | pages/TreasureHuntGame.tsx:212-229 | Loading twice gives the same session as loading once. |
| TreasureHuntGame.MergeLaws | pages/TreasureHuntGame.tsx:240 | An empty patch changes nothing, and a later patch wins field by field. |
| TreasureHuntGame.UpdateQuestState | pages/TreasureHuntGame.tsx:235-244 | The patch is merged into the shown state, and the result is shown and stored; other players are unchanged. |
| TreasureHuntGame.HandleCompleteSubtask | pages/TreasureHuntGame.tsx:246-302 | The matching subtasks take the flag `data !== false`, and nothing else in the quest changes. A photo is saved as an asset, and it is shown on the map only with a position. |
| TreasureHuntGame.WrongAnswerClearsSubtask | pages/TreasureHuntGame.tsx:285-301 | A wrong riddle answer un-completes the subtask, even one completed before. |
| TreasureHuntGame.HandleCompleteTask | pages/TreasureHuntGame.tsx:304-337 | The task at the cursor is completed with the position (none when geolocation failed), and the cursor moves one on. The other tasks are unchanged. |
| TreasureHuntGame.CompletionIgnoresGate | pages/TreasureHuntGame.tsx:312-320 | The task is completed even when its subtasks are not, because the handler does not check them. |
| TreasureHuntGame.HandleDismissNotification | pages/TreasureHuntGame.tsx:350-354 | The list becomes the filter of the old one: notifications with that id are removed, and the rest keep their order and multiplicity. A missing list becomes empty. |
| Progress.RemoveNotificationAppend | pages/TreasureHuntGame.tsx:352 | Filtering two lists joined is joining the filtered lists, so the kept notifications keep their order. |
| TreasureHuntGame.DismissedNeverShown | pages/TreasureHuntGame.tsx:350-354 | A dismissed notification is not shown under any subtask afterwards. |
| TreasureHuntGame.CurrentView | pages/TreasureHuntGame.tsx:381-386 | The completion screen is shown exactly when the cursor is at or past the end. Otherwise the card shows the task at the cursor. |
| TreasureHuntGame.CompletingAdvancesView | pages/TreasureHuntGame.tsx:304-337 | Completing the last task leads to the completion screen; completing an earlier one shows the next task. |
| TreasureHuntGame.UnlockedTaskShown | pages/AdminDashboard.tsx:405-413 | After an administrator's unlock, the player's next load shows that task. |
| TreasureHuntGame.PropagatedStateRenders | services/masterQuestService.ts:137-149 | A propagated state always renders the completion screen or a card. |
| TaskCard.RiddleIsCorrect | components/TaskCard.tsx:20-24 | An answer is accepted only when the stored answer exists and is trimmed. |
| TaskCard.MissingAnswerNeverCorrect | components/TaskCard.tsx:21 | Without a stored answer, no input is correct. |
| TaskCard.PaddedAnswerNeverCorrect | components/TaskCard.tsx:21 | A stored answer with surrounding whitespace is never matched. |
| TaskCard.InputNormalised | components/TaskCard.tsx:21 | Trimming or lower-casing the input does not change the verdict. |
| TaskCard.StoredAnswerAccepted | components/TaskCard.tsx:21 | Typing the stored answer is accepted exactly when it is trimmed. |
| TaskCard.SubmitEnabled | components/TaskCard.tsx:38 | Submit is enabled exactly when the answer is not yet correct and the input is non-empty. |
| TaskCard.BlankInputSubmittable | components/TaskCard.tsx:21-38 | A whitespace-only input can be submitted, and it is correct only for an empty stored answer. |
| TaskCard.AllSubtasksCompleted | components/TaskCard.tsx:62 | The result holds exactly when every subtask is complete. |
| TaskCard.CompleteIffNoHelp | components/TaskCard.tsx:62-123 | Complete Task is enabled exactly when no Help button shows, and always for a task without subtasks. |
| TaskCard.GateStaysOpen | components/TaskCard.tsx:62 | Progress never closes an open gate. |
| TaskCard.UntickClosesGate | components/TaskCard.tsx:62 | Un-completing a subtask closes its task's gate. |
| TaskCard.NotificationFor | components/TaskCard.tsx:115 | The shown notification is the first one about the subtask, or none when no notification mentions it. |
| TaskCard.AppendedNotificationShown | components/TaskCard.tsx:115 | A notification added at the end is shown unless an older one about the same subtask exists. |
| Progress.SetSubTaskFlag | pages/TreasureHuntGame.tsx:287-299 | Content and task flags stay. Exactly the subtasks with the given ids take the flag. |
| Progress.SetSubTaskFlagLastWins | pages/TreasureHuntGame.tsx:287-299 | Of two flag settings only the second counts. |
| Progress.CompleteFirstMatch | pages/AdminDashboard.tsx:446-456 | Only the first matching subtask can change, and only to complete. The result reports a change exactly when it existed and was incomplete. |
| Progress.CompleteFirstMatchIdempotent | pages/AdminDashboard.tsx:446-456 | A second completion changes nothing and reports no change. |
| Progress.RemoveNotificationCounts | pages/TreasureHuntGame.tsx:352 | Filtering removes every notification with the id and keeps the count of each other one. |
| QuestEditor.AddTask | components/MasterQuestManager.tsx:41-51 | One task is appended, `task-<now>` titled "New Task" with no subtasks, and existing tasks are unchanged. |
| QuestEditor.RemoveTask | components/MasterQuestManager.tsx:68-70 | Exactly index i is removed and the order is kept. An index outside the list removes nothing. |
| QuestEditor.AddThenRemoveTask | components/MasterQuestManager.tsx:41-70 | Removing the task just added gives back the quest. |
| QuestEditor.AddSubtask | components/MasterQuestManager.tsx:53-66 | One incomplete checkbox subtask `subtask-<taskId>-<now>` is appended to task i only. |
| QuestEditor.RemoveSubtask | components/MasterQuestManager.tsx:72-78 | Index j of task i only is removed. |
| QuestEditor.AddThenRemoveSubtask | components/MasterQuestManager.tsx:53-78 | Removing the subtask just added gives back the quest. |
| QuestEditor.SetQuestField | components/MasterQuestManager.tsx:19-21 | Only the chosen quest field changes. |
| QuestEditor.SetTaskField | components/MasterQuestManager.tsx:23-29 | Only the chosen field of task i changes. |
| QuestEditor.SetSubTaskField | components/MasterQuestManager.tsx:31-39 | Only the chosen field of subtask j of task i changes. |
| QuestEditor.TaskFieldLaws | components/MasterQuestManager.tsx:23-29 | Writing back the current value changes nothing, and of two edits only the second counts. |
| QuestEditor.SubTaskFieldLastWins | components/MasterQuestManager.tsx:31-39 | Of two subtask edits of the same field only the second counts. |
| QuestEditor.EditsKeepFlags | components/MasterQuestManager.tsx:23-39 | No editor edit changes any completion flag. |
| QuestEditor.LoadManager | components/MasterQuestManager.tsx:153-158 | The editor shows the stored template. If none exists, the default template is stored and shown. Only the template key is written. |
| QuestEditor.HandleSave | components/MasterQuestManager.tsx:164-175 | The edited quest is stored as template and propagated, and that same quest is shown. |
| QuestEditor.HandleCancel | components/MasterQuestManager.tsx:177-182 | Cancelling shows the stored template; after a save it is the saved quest (SaveThenReload). |
| QuestEditor.SaveThenReload | components/MasterQuestManager.tsx:153-182 | After a save, reloading or cancelling shows exactly the saved quest. |
| QuestEditor.SavedQuestReachesPlayers | components/MasterQuestManager.tsx:164-175 | After a save, every player in the directory holds the saved title, description and task ids, with a cursor that renders, whatever the directory holds. |
| QuestEditor.LastWriteTo | services/masterQuestService.ts:83-151 | A listed player's state after a save is the saved quest propagated onto what the earlier writes left. |
| QuestEditor.PropagatedCarriesTemplate | services/masterQuestService.ts:103-149 | Whatever a player held, the propagated state carries the template's title, description and task ids, with a cursor in range. |
| Text.Trim | services/userService.ts:86 | The result is the input with only whitespace cut off before and after it, and it has no whitespace at either end. A trimmed input is returned unchanged, and the result is empty exactly for a whitespace-only input. |
| Text.TrimLower | components/TaskCard.tsx:21 | Trimming and lower-casing commute. |

## Left out

- Browser I/O is not modelled:
  - geolocation requests (the reading is a parameter);
  - camera and file capture;
  - audio playback;
  - the Gemini chat client;
  - Firebase imports, which are never used.
- Rendering and maps are not modelled: Leaflet icons, markers, map views, modals and the completion screen beyond the choice between it and the card.
- Floating-point health and activity numerics are not modelled (distance, calories, BMR, BMI). Activity records carry `real` fields and are only stored and read back.
- Timers and polling are not modelled: the admin dashboard's polling, the editor's save delay and the toast timers. A save is modelled as taking effect at once.
- The clock is a parameter. Where a handler reads it twice, the model uses one reading. Ids built from `Date.now()` are not assumed unique, since two in the same millisecond collide.
- `toLowerCase` is modelled for ASCII letters only.
- `trim` uses the ECMAScript whitespace and line-terminator set.
- Values read from `localStorage` are assumed well-formed JSON of the declared types. Malformed data and `JSON.parse` exceptions are not modelled.
- The editor's field handlers, addSubtask and removeSubtask take a task index that names a task, because the editor only offers existing rows. Out-of-range indices there are not modelled. removeTask and removeSubtask's subtask index may be anything.
- QuestEditor.AddSubtask: the development-mode double invocation of the state updater (React StrictMode), which could append two subtasks, is not modelled.
- QuestEditor.RemoveSubtask: the same double invocation is not modelled. The updater assigns the filtered list to the shared task object, so a second call would filter the already-filtered list and remove a second subtask.
- TreasureHuntGame.HandleCompleteTask: the handler is modelled as atomic. In the app the task is completed in the geolocation callback, up to 10 seconds after the click, from the quest and cursor captured at the click, and the result is merged into the state of that later moment. A change made in between, such as a subtask un-ticked while the position request is pending, is overwritten by the old quest; this overwrite is not modelled.
- UserService.UpdateUser: like addUser, it stores the master key untrimmed. The same lock-out applies but is only recorded here, not proved separately.
- The request/SOS dialogs, the admin user forms, `parseUserFormState` and `generatedKey` are not modelled beyond the service calls they make.
- LocationService.GetAllUsersLocations: "one entry per name" is stated only for directories with distinct usernames, which addUser's check maintains. NameShownIff states, for any directory, when a name appears.
- UnlistedNeverShown: holds only when usernames are distinct. An archived "bob" beside a listed "bob" with a stored location does show the name "bob", through the listed entry; NameShownIff states the exact condition.
- PropagateToUsers: the clause "each listed player ends with the propagated state" is stated under distinct names; the clause with PropagatedTimes covers every directory, and UpdateMasterQuestAndPropagate adds the same result for templates with distinct ids.
- Propagation.PropagatedIsFixpoint: stated only for templates whose task ids are distinct. With two template tasks sharing the id "x", with subtasks [a] and [b], and a player task "x" whose subtasks are all true, the first pass sets b to true and the second sets it back to false, because the lookup by id finds the first template task.
- Propagation.RepropagateIsNoOp: the same condition and the same counterexample apply.
- IdNumbers.NewFormRoundTrip: stated for years 100-9999. For a year below 100 the app's `new Date(year, 0, day)` maps it to 19yy, so the check at pages/AdminDashboard.tsx:65 rejects the id and no age is computed.
- IdNumbers.Day366OnlyInLeapYears: stated for years 100-9999, for the same reason.
- IdNumbers.PivotYearWindow: stated for a current year in 2000-2099. The pivot rule at pages/AdminDashboard.tsx:58-59 only adds 1900 or 2000, so from 2100 on the result falls outside the hundred years ending with the current year.
- TreasureHuntGame.CurrentView: a negative cursor gives NoTask. In the app the card then reads fields of an undefined task (components/TaskCard.tsx:62) and rendering fails; the failure itself is not modelled.

## Findings

| source | as written | input that shows it | evidently intended | confidence | as-written member | corrected member |
|---|---|---|---|---|---|---|
| services/userService.ts:106-116 | addUser stores the master key as typed, while login compares stored keys with the trimmed typed key | a new player with master key " k1": every check passes, and signing in with " k1" looks up "k1", which no entry holds | store the trimmed key, the form it is checked and compared in | not executed | Auth.AddUserPaddedKeyLocksOut, Auth.PaddedKeyExample | Auth.AddUserTrimmedKey, Auth.AddUserTrimmedKeyCanLogIn |
| pages/AdminDashboard.tsx:46-49 | the 12-digit form takes the day field as it is, so a woman's day (day + 500) is over 366 and the age is null | "199050100000" (year 1990, day field 501) gives no age | subtract 500 from a day field above 500, as the 9-digit form does | not executed | IdNumbers.NewFormWomenRefused, IdNumbers.NewFormWomanExample | AdminHelpers.CalculateAgeCorrected, IdNumbers.NewFormCorrectedGenderNeutral |
