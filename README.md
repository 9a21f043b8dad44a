# Activity Planner: task store, priority policy and alarm bookkeeping in Dafny

This project models the logic of the Activity Planner Android app: a task planner where users
sign up, log in, create tasks with a start time, deadline, priority label and category, and get
reminders as deadlines approach.

The model covers these parts of the app:

- **`Task` data class.** Its default arguments, `copy`, and the `fromCursor` column mapping.
- **Task and user tables.** `TaskDatabaseHelper` keeps them as maps from primary key to row,
  each with an AUTOINCREMENT counter. Task rows store `completed` as an INTEGER.
- **Priority policy.** `calculatePriority`, `shouldUpdatePriority` and the candidate filter of
  `AutoPriorityManager`.
- **Batch updater.** `updatePriorities` / `updateSingleTaskPriority` relabel stale rows, then
  cancel and re-arm their alarms.
- **Alarm table.** The `AlarmManager` as `NotificationScheduler` uses it: a map from
  `(receiver class, request code)` to `(fire time, extras)`. Each task owns two alarms:
  - the deadline reminder, at `deadline − 1 h` under request code `id`;
  - the priority check, at `deadline − 24 h` under `id + 1000`.

  An alarm is registered only when its time is still ahead. Registering a key replaces what was
  there, and cancelling removes it.
- **Priority-check receiver.** It relabels a task by its own, different threshold table.
- **Screens.** The handlers of the task list, add, edit and calendar screens, from form fields
  to the writes, deletes and alarm changes they make. The calendar's day-overlap test is part
  of this.
- **Accounts and session.** The signup and login handlers, the `SharedPreferences` session
  store, and the hex encoding in `hashPassword`.

Wall-clock time is a parameter `now`, read once per operation. Days are fixed 86 400 000 ms
periods counted from the epoch.

Stateful objects are classes:

- `TaskDatabaseHelper`, `AlarmManager` and `SessionManager`;
- the activities, with their form fields.

Each method that changes state is specified by a function of the old state, such as
`TaskUpdated`, `Scheduled`, `Cancelled`, `RecalculatedAll` or `Rechecked`. The lemmas about
those functions state what the app promises: idempotence of a second priority pass, exact
alarm placement after cancel-then-schedule, round trips through the session store and the hex
encoding, and so on.

Module layout: `Wrappers` (Option), `Text` (Kotlin's `trim`, `Long` division, `toInt`),
`TaskModel`, `TaskLists`, `TaskDatabase`, `PriorityPolicy`, `Alarms`, `NotificationScheduler`,
`AutoPriority`, `PriorityReceiver`, `Session`, `PasswordUtils`, `Auth`, `AddTaskScreen`,
`EditTaskScreen`, `TaskListScreen`, `CalendarScreen`.

## Model

| member | source | states |
|---|---|---|
| TaskModel.NewTaskDefaults | app/src/main/java/com/example/activityplanner/model/Task.kt:5-14 | A task built without the optional arguments has id 0 and is not completed |
| TaskModel.WithPriority | app/src/main/java/com/example/activityplanner/model/Task.kt:5-14 | `copy(priority = p)` carries `p` and equals the original in every other field |
| TaskModel.FromCursor | app/src/main/java/com/example/activityplanner/model/Task.kt:16-36 | Every column goes unchanged to the field of the same name; `completed` is true iff the stored integer is 1 |
| TaskModel.CompletedColumn | app/src/main/java/com/example/activityplanner/db/TaskDatabaseHelper.kt:238-240 | The completion flag is stored as 1 or 0 |
| TaskModel.FromCursorReadsCompletedColumn | app/src/main/java/com/example/activityplanner/model/Task.kt:24 | Reading back a stored flag with `fromCursor` yields the flag written |
| Text.Trim | app/src/main/java/com/example/activityplanner/ui/tasks/AddTaskActivity.kt:144-146 | `String.trim()`: the result is no longer than the input and neither starts nor ends with whitespace |
| Text.TrimKeepsMiddle | app/src/main/java/com/example/activityplanner/ui/tasks/AddTaskActivity.kt:144-146 | The trimmed text is a slice of the input with only whitespace before and after it: nothing but outer whitespace is removed |
| Text.TrimEmptyIffBlank | app/src/main/java/com/example/activityplanner/ui/tasks/AddTaskActivity.kt:144-153 | A trimmed field is empty exactly when the typed text is all whitespace |
| Text.TrimIdempotent | app/src/main/java/com/example/activityplanner/ui/auth/SignupActivity.kt:49-51 | Trimming twice is trimming once |
| Text.TruncDiv | app/src/main/java/com/example/activityplanner/logic/AutoPriorityManager.kt:151 | `Long` division by a positive divisor: the remainder has the dividend's sign and is smaller than the divisor, so the quotient rounds toward zero |
| Text.TruncDivUnique | app/src/main/java/com/example/activityplanner/logic/AutoPriorityManager.kt:151 | The remainder law determines the quotient: any quotient meeting it is `TruncDiv`'s |
| Text.TruncDivNegate | app/src/main/java/com/example/activityplanner/logic/AutoPriorityManager.kt:151 | Negating the dividend negates the quotient, unlike Euclidean division |
| Text.ToInt32 | app/src/main/java/com/example/activityplanner/ui/notifications/PriorityChangeReceiver.kt:50 | `toInt()` keeps the value modulo 2^32 in the 32-bit range, and is the identity on values that fit |
| Text.Utf16Length | app/src/main/java/com/example/activityplanner/ui/auth/SignupActivity.kt:57 | `String.length` counts UTF-16 code units: between the number of characters and twice it, equal to it exactly when every character is in the Basic Multilingual Plane, zero only for the empty string |
| Text.Utf16LengthAppend | app/src/main/java/com/example/activityplanner/ui/auth/SignupActivity.kt:57 | Code-unit lengths add up over concatenation |
| PriorityPolicy.CalculatePriority | app/src/main/java/com/example/activityplanner/logic/AutoPriorityManager.kt:60-77 | Always one of the three labels; High iff fewer than 3 full days remain (past deadlines included), Medium iff 3 to 5 full days, Low iff 6 or more |
| PriorityPolicy.CalculatePriorityMonotone | app/src/main/java/com/example/activityplanner/logic/AutoPriorityManager.kt:64-76 | For a fixed `now`, a later deadline never earns a more urgent label |
| PriorityPolicy.CalculatePriorityIgnoresLabel | app/src/main/java/com/example/activityplanner/logic/AutoPriorityManager.kt:29-34 | The label computed for `copy(priority = p)` is the label computed for the original |
| PriorityPolicy.ShouldUpdatePriority | app/src/main/java/com/example/activityplanner/logic/AutoPriorityManager.kt:144-161 | False for completed tasks; otherwise true iff fewer than 25 hours remain (any label), or fewer than 73 hours remain and the label is not Medium |
| PriorityPolicy.ShouldUpdateFlagsSettledTasks | app/src/main/java/com/example/activityplanner/logic/AutoPriorityManager.kt:156-158 | A High task due within a day already carries its computed label yet is still flagged |
| PriorityPolicy.TasksNeedingPriorityUpdate | app/src/main/java/com/example/activityplanner/logic/AutoPriorityManager.kt:128-137 | Exactly the listed tasks that are not completed and whose deadline is ahead; a deadline-sorted list stays sorted |
| TaskLists.Filter | app/src/main/java/com/example/activityplanner/logic/AutoPriorityManager.kt:133-136 | Kotlin's `filter`: the kept elements are exactly those satisfying the test |
| TaskLists.FilterKeepsDistinctIds | app/src/main/java/com/example/activityplanner/logic/AutoPriorityManager.kt:133-136 | Filtering a list without repeated ids yields a list without repeated ids |
| TaskDatabase.FilterListsRows | app/src/main/java/com/example/activityplanner/logic/AutoPriorityManager.kt:133-136 | Filtering a full listing by a predicate on tasks lists exactly the rows whose stored task satisfies it |
| TaskLists.FilterKeepsDeadlineOrder | app/src/main/java/com/example/activityplanner/ui/calendar/CalendarActivity.kt:114-118 | Filtering a deadline-ordered list keeps it deadline-ordered |
| Alarms.AlarmManager.Set | app/src/main/java/com/example/activityplanner/ui/notifications/NotificationScheduler.kt:40-60 | Setting an alarm replaces whatever was pending under the same identity |
| Alarms.AlarmManager.Cancel | app/src/main/java/com/example/activityplanner/ui/notifications/NotificationScheduler.kt:117-123 | Cancelling removes that identity and nothing else; a no-op when absent |
| NotificationScheduler.DeadlineKey | app/src/main/java/com/example/activityplanner/ui/notifications/NotificationScheduler.kt:34-45 | The reminder's identity is (deadline receiver, `id`) and belongs to task `id` |
| NotificationScheduler.PriorityKey | app/src/main/java/com/example/activityplanner/ui/notifications/NotificationScheduler.kt:80-89 | The check's identity is (priority receiver, `id + 1000`) and belongs to task `id` |
| NotificationScheduler.OwnedKeys | app/src/main/java/com/example/activityplanner/ui/notifications/NotificationScheduler.kt:84-89 | Every identity belongs to exactly one task, and a task owns exactly its two identities, so keys never collide |
| NotificationScheduler.DeadlineAlarm | app/src/main/java/com/example/activityplanner/ui/notifications/NotificationScheduler.kt:27-38 | The reminder fires at `deadline − 3 600 000` with extras {id, title, deadline} |
| NotificationScheduler.PriorityAlarm | app/src/main/java/com/example/activityplanner/ui/notifications/NotificationScheduler.kt:73-82 | The check fires at `deadline − 86 400 000` with the id as its only extra |
| NotificationScheduler.Scheduled | app/src/main/java/com/example/activityplanner/ui/notifications/NotificationScheduler.kt:17-20 | Only the task's two identities change; a due alarm is placed, one not due leaves the old entry; a registered check implies a registered reminder |
| NotificationScheduler.Cancelled | app/src/main/java/com/example/activityplanner/ui/notifications/NotificationScheduler.kt:111-139 | Both identities of the id are gone and every other identity is untouched |
| NotificationScheduler.ScheduledIdempotent | app/src/main/java/com/example/activityplanner/ui/notifications/NotificationScheduler.kt:17-20 | Scheduling a task twice at the same instant equals scheduling it once |
| NotificationScheduler.CancelThenSchedule | app/src/main/java/com/example/activityplanner/logic/AutoPriorityManager.kt:43-44 | Cancel followed by schedule leaves exactly the task's due alarms at their derived times, whatever was pending |
| NotificationScheduler.CancelAbsentIsNoOp | app/src/main/java/com/example/activityplanner/ui/notifications/NotificationScheduler.kt:111-139 | Cancelling a task with nothing pending changes nothing |
| NotificationScheduler.ScheduledAll | app/src/main/java/com/example/activityplanner/ui/notifications/NotificationScheduler.kt:146-148 | Scheduling a list in order leaves the alarms of unlisted tasks untouched |
| NotificationScheduler.ScheduledAllPlaces | app/src/main/java/com/example/activityplanner/ui/notifications/NotificationScheduler.kt:146-148 | With distinct ids, each listed task's alarms are placed as scheduling it alone would place them |
| NotificationScheduler.ScheduledListing | app/src/main/java/com/example/activityplanner/ui/notifications/NotificationScheduler.kt:141-149 | Scheduling a full listing places every stored task's alarms and leaves ids not in the table untouched |
| NotificationScheduler.DeletedTaskStaysSilent | app/src/main/java/com/example/activityplanner/ui/notifications/NotificationScheduler.kt:141-149 | A deleted task whose alarms were cancelled gets none back from a reschedule |
| NotificationScheduler.CancelledAll | app/src/main/java/com/example/activityplanner/ui/tasks/TaskListActivity.kt:165-167 | Cancelling a list removes every identity of a listed task and nothing else |
| NotificationScheduler.CancelledThenScheduledListing | app/src/main/java/com/example/activityplanner/ui/tasks/TaskListActivity.kt:160-175 | Cancelling then scheduling a full listing leaves every stored task with exactly its due alarms |
| NotificationScheduler.ScheduleTaskNotifications | app/src/main/java/com/example/activityplanner/ui/notifications/NotificationScheduler.kt:17-20 | The alarm table becomes `Scheduled` of the old one |
| NotificationScheduler.ScheduleDeadlineNotification | app/src/main/java/com/example/activityplanner/ui/notifications/NotificationScheduler.kt:22-66 | Registers the reminder only when its time is after `now` |
| NotificationScheduler.SchedulePriorityCheckNotification | app/src/main/java/com/example/activityplanner/ui/notifications/NotificationScheduler.kt:68-109 | Registers the check only when its time is after `now` |
| NotificationScheduler.CancelTaskNotifications | app/src/main/java/com/example/activityplanner/ui/notifications/NotificationScheduler.kt:111-139 | The alarm table becomes `Cancelled` of the old one |
| NotificationScheduler.RescheduleAllAlarms | app/src/main/java/com/example/activityplanner/ui/notifications/NotificationScheduler.kt:141-154 | Nothing is cancelled first: every stored task's due alarms are registered at their derived times, any it has that are not due are left as they were, and ids not in the table are untouched |
| TaskDatabase.ReadTask | app/src/main/java/com/example/activityplanner/db/TaskDatabaseHelper.kt:126-135 | A row read by `getAllTasks`/`getTaskById` is `fromCursor` of it with `completed` forced to false |
| TaskDatabase.InsertedRow | app/src/main/java/com/example/activityplanner/db/TaskDatabaseHelper.kt:83-94 | The inserted row holds the six content columns, the fresh key and `completed` 0 |
| TaskDatabase.UpdatedRow | app/src/main/java/com/example/activityplanner/db/TaskDatabaseHelper.kt:96-107 | An update overwrites the six content columns and keeps the key and `completed` |
| TaskDatabase.TaskUpdated | app/src/main/java/com/example/activityplanner/db/TaskDatabaseHelper.kt:96-107 | Only the row keyed `task.id` changes, and only when it exists |
| TaskDatabase.CompletionSet | app/src/main/java/com/example/activityplanner/db/TaskDatabaseHelper.kt:236-242 | Only that row's `completed` column changes |
| TaskDatabase.LookupTask | app/src/main/java/com/example/activityplanner/db/TaskDatabaseHelper.kt:142-159 | A task exactly when the id is stored, read without `completed` |
| TaskDatabase.UpdateThenLookup | app/src/main/java/com/example/activityplanner/db/TaskDatabaseHelper.kt:96-159 | Reading back an updated task gives the task written, with `completed` false, or nothing if the id was absent |
| TaskDatabase.CompletionIsInvisible | app/src/main/java/com/example/activityplanner/db/TaskDatabaseHelper.kt:147-155 | `getTaskById` returns the same before and after `updateTaskCompletion` |
| TaskDatabase.CompletionIsStored | app/src/main/java/com/example/activityplanner/db/TaskDatabaseHelper.kt:236-242 | The stored column does hold the flag written, as `fromCursor` would read it |
| TaskDatabase.TaskDatabaseHelper.constructor | app/src/main/java/com/example/activityplanner/db/TaskDatabaseHelper.kt:43-69 | A fresh database has two empty tables |
| TaskDatabase.TaskDatabaseHelper.InsertTask | app/src/main/java/com/example/activityplanner/db/TaskDatabaseHelper.kt:83-94 | Returns a fresh key and stores the six columns under it with `completed` 0, ignoring `task.id` and `task.completed` |
| TaskDatabase.TaskDatabaseHelper.UpdateTask | app/src/main/java/com/example/activityplanner/db/TaskDatabaseHelper.kt:96-107 | Returns 1 iff the id is stored, else 0; the table becomes `TaskUpdated` |
| TaskDatabase.TaskDatabaseHelper.DeleteTask | app/src/main/java/com/example/activityplanner/db/TaskDatabaseHelper.kt:109-112 | Removes only that key and returns how many rows went |
| TaskDatabase.TaskDatabaseHelper.DeleteTasks | app/src/main/java/com/example/activityplanner/db/TaskDatabaseHelper.kt:114-118 | Removes exactly the listed keys and returns how many stored rows went |
| TaskDatabase.TaskDatabaseHelper.GetAllTasks | app/src/main/java/com/example/activityplanner/db/TaskDatabaseHelper.kt:120-140 | Every row exactly once, ascending by deadline, each with `completed` false |
| TaskDatabase.TaskDatabaseHelper.GetTaskById | app/src/main/java/com/example/activityplanner/db/TaskDatabaseHelper.kt:142-159 | The row keyed `id` as read without `completed`, or null |
| TaskDatabase.TaskDatabaseHelper.UpdateTaskCompletion | app/src/main/java/com/example/activityplanner/db/TaskDatabaseHelper.kt:236-242 | Sets only that row's `completed` column, to 1 or 0 |
| TaskDatabase.TaskDatabaseHelper.InsertUser | app/src/main/java/com/example/activityplanner/db/TaskDatabaseHelper.kt:167-175 | −1 iff the email is already stored (UNIQUE), with the table unchanged; otherwise a fresh key holding the given row |
| TaskDatabase.TaskDatabaseHelper.ValidateUser | app/src/main/java/com/example/activityplanner/db/TaskDatabaseHelper.kt:181-193 | True iff some user row matches both email and password |
| TaskDatabase.TaskDatabaseHelper.GetUserByEmail | app/src/main/java/com/example/activityplanner/db/TaskDatabaseHelper.kt:198-217 | Some exactly when a user has that email; then the stored row's id, its email (the one asked for) and its name |
| AutoPriority.Recalculated | app/src/main/java/com/example/activityplanner/logic/AutoPriorityManager.kt:28-49 | A stale stored task gets its computed label in its row (other columns kept) and exactly its due alarms; otherwise nothing changes; the flag is set iff a row was written |
| AutoPriority.RecalculatedAll | app/src/main/java/com/example/activityplanner/logic/AutoPriorityManager.kt:24-53 | Keys, ids, `completed` columns, unlisted rows and unlisted alarms are kept; the flag is set iff some listed task was stale and stored |
| AutoPriority.Relabelled | app/src/main/java/com/example/activityplanner/logic/AutoPriorityManager.kt:29-34 | A relabelled row differs from the original only in `priority`, which is the computed label |
| AutoPriority.RecalculatedAllRelabels | app/src/main/java/com/example/activityplanner/logic/AutoPriorityManager.kt:28-37 | A pass over rows read from the table, with distinct ids, relabels exactly the listed rows |
| AutoPriority.RecalculatedAllRearms | app/src/main/java/com/example/activityplanner/logic/AutoPriorityManager.kt:37-48 | A listed task that was stale and stored ends with exactly its due alarms; any other listed task's alarms are untouched |
| AutoPriority.FullPassNormalizes | app/src/main/java/com/example/activityplanner/logic/AutoPriorityManager.kt:24-53 | A pass over a full listing gives every row the label its deadline earns |
| AutoPriority.NormalizedIdempotent | app/src/main/java/com/example/activityplanner/logic/AutoPriorityManager.kt:60-77 | Relabelling a relabelled table at the same instant changes nothing |
| AutoPriority.SecondPassChangesNothing | app/src/main/java/com/example/activityplanner/logic/AutoPriorityManager.kt:29-34 | At the same instant, a pass over tasks that all carry the label they earn writes nothing, touches no alarm and reports false; this covers a repeated periodic check, whose past-deadline rows stay as they were |
| AutoPriority.UpdatePriorities | app/src/main/java/com/example/activityplanner/logic/AutoPriorityManager.kt:24-53 | Tables and the reported flag are `RecalculatedAll` of the old state; the flag is reported once, at the end |
| AutoPriority.RecalculateOne | app/src/main/java/com/example/activityplanner/logic/AutoPriorityManager.kt:28-50 | One pass of the loop body: the tables and flag become `Recalculated` of the previous ones for that task, and the table stays well-formed |
| AutoPriority.UpdateSingleTaskPriority | app/src/main/java/com/example/activityplanner/logic/AutoPriorityManager.kt:85-106 | Tables and the result are `Recalculated` of the old state |
| AutoPriority.CandidatesListOpenRows | app/src/main/java/com/example/activityplanner/logic/AutoPriorityManager.kt:128-137 | Filtering a full listing gives every row whose deadline is ahead, completed ones included |
| AutoPriority.CompletedRowIsCandidate | app/src/main/java/com/example/activityplanner/logic/AutoPriorityManager.kt:133-136 | A completed row with a future deadline is a candidate all the same |
| AutoPriority.OpenIncompleteRows | app/src/main/java/com/example/activityplanner/logic/AutoPriorityManager.kt:133-136 | The rows with a future deadline whose `completed` column is not 1 |
| AutoPriority.CandidatesFromFullRowsSkipCompleted | app/src/main/java/com/example/activityplanner/logic/AutoPriorityManager.kt:133-136 | Over a listing read with `fromCursor`, the same filter selects exactly the open rows that are not completed |
| AutoPriority.GetTasksNeedingPriorityUpdate | app/src/main/java/com/example/activityplanner/logic/AutoPriorityManager.kt:128-137 | Lists every row whose deadline is ahead, once each, in deadline order |
| AutoPriority.RunPeriodicPriorityCheck | app/src/main/java/com/example/activityplanner/logic/AutoPriorityManager.kt:167-181 | Exactly the rows with a future deadline are relabelled; those whose label changed are re-armed, those whose label was right keep both alarms, and alarms of other ids are untouched |
| PriorityReceiver.DaysRemaining | app/src/main/java/com/example/activityplanner/ui/notifications/PriorityChangeReceiver.kt:50 | Whole days left, rounded toward zero, narrowed to 32 bits and exact when it fits |
| PriorityReceiver.RecheckPriority | app/src/main/java/com/example/activityplanner/ui/notifications/PriorityChangeReceiver.kt:53-57 | High iff at most 1 day, Medium iff 2 or 3 days, Low iff 4 or more |
| PriorityReceiver.Rechecked | app/src/main/java/com/example/activityplanner/ui/notifications/PriorityChangeReceiver.kt:45-68 | A missing id writes nothing; otherwise only that row's `priority` changes, to the receiver's label |
| PriorityReceiver.RecheckPastDeadlineIsHigh | app/src/main/java/com/example/activityplanner/ui/notifications/PriorityChangeReceiver.kt:50-54 | Any past deadline (within 2^31 days) gets a day count of at most 0 and so High |
| PriorityReceiver.RulesDisagree | app/src/main/java/com/example/activityplanner/ui/notifications/PriorityChangeReceiver.kt:53-57 | The receiver's table and `calculatePriority` disagree exactly when 2, 4 or 5 whole days remain |
| PriorityReceiver.RulesDisagreeAtTwoDays | app/src/main/java/com/example/activityplanner/ui/notifications/PriorityChangeReceiver.kt:53-57 | With 2.5 days left `calculatePriority` says High and the receiver says Medium |
| PriorityReceiver.RulesAgreeWhenAlarmFires | app/src/main/java/com/example/activityplanner/ui/notifications/PriorityChangeReceiver.kt:50-57 | At the check alarm's own fire time both tables say High |
| PriorityReceiver.RecheckedCanonical | app/src/main/java/com/example/activityplanner/ui/notifications/PriorityChangeReceiver.kt:45-68 | The receiver with `calculatePriority` as its rule: only that row's label changes, to the computed label |
| PriorityReceiver.RecheckedCanonicalAgrees | app/src/main/java/com/example/activityplanner/ui/notifications/PriorityChangeReceiver.kt:45-68 | With one rule, the label written is already the one a later recalculation computes |
| PriorityReceiver.CheckAndNotifyPriorityChange | app/src/main/java/com/example/activityplanner/ui/notifications/PriorityChangeReceiver.kt:45-68 | The table becomes `Rechecked`; a notice with the old and new labels and the day count is produced iff the label changed; no alarm is touched |
| PriorityReceiver.OnReceive | app/src/main/java/com/example/activityplanner/ui/notifications/PriorityChangeReceiver.kt:22-27 | A missing `task_id` extra reads as 0; with no such task nothing is written |
| Session.UserIdOf | app/src/main/java/com/example/activityplanner/session/SessionManager.kt:31-34 | The stored id, with both an absent key and the value −1 read as null |
| Session.EmailOf | app/src/main/java/com/example/activityplanner/session/SessionManager.kt:36 | The stored email, or null when absent |
| Session.SessionSaved | app/src/main/java/com/example/activityplanner/session/SessionManager.kt:23-29 | Both session keys are written and every other entry is kept |
| Session.SavedSessionReadsBack | app/src/main/java/com/example/activityplanner/session/SessionManager.kt:23-36 | After a save, the id reads back (null if it was −1) and the email reads back |
| Session.LastSaveWins | app/src/main/java/com/example/activityplanner/session/SessionManager.kt:23-29 | Two saves in a row equal the second one alone |
| Session.EmptyStoreIsLoggedOut | app/src/main/java/com/example/activityplanner/session/SessionManager.kt:31-42 | A fresh or cleared store has no user id and no email |
| Session.SessionManager.SaveUserSession | app/src/main/java/com/example/activityplanner/session/SessionManager.kt:23-29 | The store becomes `SessionSaved` of the old one |
| Session.SessionManager.GetUserId | app/src/main/java/com/example/activityplanner/session/SessionManager.kt:31-34 | Some id exactly when an id other than −1 is stored, and then that id; never −1 |
| Session.SessionManager.GetUserEmail | app/src/main/java/com/example/activityplanner/session/SessionManager.kt:36 | The stored email exactly when one is stored, otherwise null |
| Session.SessionManager.IsLoggedIn | app/src/main/java/com/example/activityplanner/session/SessionManager.kt:38 | True iff a user id other than −1 is stored, i.e. iff `getUserId` is non-null |
| Session.SessionManager.ClearSession | app/src/main/java/com/example/activityplanner/session/SessionManager.kt:40-42 | Empties the store, so no user is logged in |
| PasswordUtils.Unsigned | app/src/main/java/com/example/activityplanner/PasswordUtils.kt:14 | A signed byte formats as its unsigned value 0..255 (negative bytes as 80..ff) |
| PasswordUtils.HexByte | app/src/main/java/com/example/activityplanner/PasswordUtils.kt:14 | `%02x`: exactly two lowercase hex digits whose value is the unsigned byte |
| PasswordUtils.HexEncode | app/src/main/java/com/example/activityplanner/PasswordUtils.kt:14 | Twice as many characters as bytes, all in [0-9a-f] |
| PasswordUtils.DecodeEncode | app/src/main/java/com/example/activityplanner/PasswordUtils.kt:14 | Decoding the hex string gives back the bytes in order |
| PasswordUtils.EncodeInjective | app/src/main/java/com/example/activityplanner/PasswordUtils.kt:11-15 | Two byte strings encode alike iff they are equal |
| PasswordUtils.HashPassword | app/src/main/java/com/example/activityplanner/PasswordUtils.kt:11-15 | The hex encoding of the digest: twice its length, all lowercase hex |
| PasswordUtils.HashesMatchIffDigestsMatch | app/src/main/java/com/example/activityplanner/PasswordUtils.kt:11-15 | Two passwords hash alike iff their digests are equal |
| PasswordUtils.Sha256HashLength | app/src/main/java/com/example/activityplanner/PasswordUtils.kt:12-14 | A 32-byte digest gives 64 lowercase hex characters |
| Auth.SignupRejection | app/src/main/java/com/example/activityplanner/ui/auth/SignupActivity.kt:53-60 | Empty email or password is rejected first, then a password shorter than 6 UTF-16 code units; otherwise accepted |
| Auth.ThreeEmojiPasswordAccepted | app/src/main/java/com/example/activityplanner/ui/auth/SignupActivity.kt:57-60 | A password of three characters outside the Basic Multilingual Plane is six code units long and passes the length check |
| Auth.CreateAccount | app/src/main/java/com/example/activityplanner/ui/auth/SignupActivity.kt:48-70 | A rejected form inserts nothing; an accepted one either fails, exactly when the email is taken, leaving the table as it was, or creates the account under a key not used before, with the trimmed email and name and the hash of the trimmed password |
| Auth.Login | app/src/main/java/com/example/activityplanner/ui/auth/LoginActivity.kt:47-71 | Empty fields do no lookup; success iff `validateUser(email, hash(password))`; on success the matching user's id and the email are saved; otherwise the session is untouched |
| Auth.SignupThenLogin | app/src/main/java/com/example/activityplanner/ui/auth/LoginActivity.kt:56-57 | Logging in with the fields just accepted at signup succeeds and stores the new account's id |
| AddTaskScreen.EditingId | app/src/main/java/com/example/activityplanner/ui/tasks/AddTaskActivity.kt:204 | Null iff the "TASK_ID" extra is absent or −1 |
| AddTaskScreen.SaveRescheduled | app/src/main/java/com/example/activityplanner/ui/tasks/AddTaskActivity.kt:189-197 | After a save, only the alarms of the task stored under `result.toInt()` change, as scheduling it would place them |
| AddTaskScreen.SaveRescheduledIntended | app/src/main/java/com/example/activityplanner/ui/tasks/EditTaskActivity.kt:143-148 | Cancelling and scheduling the saved task's stored row leaves it with exactly its due alarms |
| AddTaskScreen.InsertSaveSchedulesNewTask | app/src/main/java/com/example/activityplanner/ui/tasks/AddTaskActivity.kt:183-197 | For an insert, the task scheduled is the new row |
| AddTaskScreen.EditSaveMissesEditedTask | app/src/main/java/com/example/activityplanner/ui/tasks/AddTaskActivity.kt:183-197 | For an edit, the task looked up is id 1 (the row count), so the edited task's alarms are left as they were |
| AddTaskScreen.AddTaskActivity.constructor | app/src/main/java/com/example/activityplanner/ui/tasks/AddTaskActivity.kt:34-48 | An empty form, no date picked, "Medium" selected, not editing |
| AddTaskScreen.AddTaskActivity.LoadTaskIfEditing | app/src/main/java/com/example/activityplanner/ui/tasks/AddTaskActivity.kt:203-227 | Sets the editing id from the extra; a stored task fills the form, picks both dates and selects its label when listed |
| AddTaskScreen.AddTaskActivity.EnterText | app/src/main/java/com/example/activityplanner/ui/tasks/AddTaskActivity.kt:144-146 | The three text fields hold what was typed |
| AddTaskScreen.AddTaskActivity.PickStart | app/src/main/java/com/example/activityplanner/ui/tasks/AddTaskActivity.kt:107-116 | The start time is set and marked picked |
| AddTaskScreen.AddTaskActivity.PickDeadline | app/src/main/java/com/example/activityplanner/ui/tasks/AddTaskActivity.kt:119-128 | The deadline is set and marked picked |
| AddTaskScreen.AddTaskActivity.SelectPriority | app/src/main/java/com/example/activityplanner/ui/tasks/AddTaskActivity.kt:94-97 | The selected label is the spinner's entry at that position |
| AddTaskScreen.AddTaskActivity.SelectNothing | app/src/main/java/com/example/activityplanner/ui/tasks/AddTaskActivity.kt:99-101 | Nothing selected means "Medium" |
| AddTaskScreen.AddTaskActivity.Rejection | app/src/main/java/com/example/activityplanner/ui/tasks/AddTaskActivity.kt:148-170 | The first failing check in order: empty trimmed title, start not picked, deadline not picked, deadline ≤ start; none iff all pass |
| AddTaskScreen.AddTaskActivity.FormTask | app/src/main/java/com/example/activityplanner/ui/tasks/AddTaskActivity.kt:172-181 | Id `editingTaskId ?: 0`, trimmed texts, picked times, the selected label, not completed |
| AddTaskScreen.AddTaskActivity.SaveTask | app/src/main/java/com/example/activityplanner/ui/tasks/AddTaskActivity.kt:143-201 | A rejected form writes nothing and touches no alarm; otherwise inserts (fresh key) or updates (row count), finishes, and schedules the task read back under the result |
| AddTaskScreen.AddTaskActivity.Store | app/src/main/java/com/example/activityplanner/ui/tasks/AddTaskActivity.kt:183-200 | Insert when not editing, update when editing; only −1 would be a failure |
| EditTaskScreen.TaskIdFrom | app/src/main/java/com/example/activityplanner/ui/tasks/EditTaskActivity.kt:101 | The "task_id" extra, or −1 when absent |
| EditTaskScreen.LaunchExtras | app/src/main/java/com/example/activityplanner/ui/tasks/EditTaskActivity.kt:166-170 | `launch` puts the id where the screen reads it |
| EditTaskScreen.EditTaskActivity.constructor | app/src/main/java/com/example/activityplanner/ui/tasks/EditTaskActivity.kt:40-120 | Id −1 finishes the screen with no save handler; a stored task fills the form and its label is selected |
| EditTaskScreen.EditTaskActivity.EnterText | app/src/main/java/com/example/activityplanner/ui/tasks/EditTaskActivity.kt:123-125 | The three text fields hold what was typed |
| EditTaskScreen.EditTaskActivity.PickStart | app/src/main/java/com/example/activityplanner/ui/tasks/EditTaskActivity.kt:81-89 | The start time is set |
| EditTaskScreen.EditTaskActivity.PickDeadline | app/src/main/java/com/example/activityplanner/ui/tasks/EditTaskActivity.kt:91-99 | The deadline is set, with no comparison against the start |
| EditTaskScreen.EditTaskActivity.SelectPriority | app/src/main/java/com/example/activityplanner/ui/tasks/EditTaskActivity.kt:74-79 | The selected label is the entry at that position |
| EditTaskScreen.EditTaskActivity.UpdatedTask | app/src/main/java/com/example/activityplanner/ui/tasks/EditTaskActivity.kt:132-140 | The screen's id, trimmed texts, the form's dates unchecked, the selected label, not completed |
| EditTaskScreen.EditTaskActivity.Save | app/src/main/java/com/example/activityplanner/ui/tasks/EditTaskActivity.kt:122-152 | No handler or empty title: no write; otherwise the update is attempted whatever the dates; only when a row is updated does the screen finish and re-arm exactly the updated task's due alarms |
| EditTaskScreen.EditTaskActivity.Apply | app/src/main/java/com/example/activityplanner/ui/tasks/EditTaskActivity.kt:142-151 | A 0-row update leaves the alarms alone; otherwise cancel then schedule from `updatedTask` |
| TaskListScreen.Reprioritized | app/src/main/java/com/example/activityplanner/ui/tasks/TaskListActivity.kt:115-120 | Every stored selected id gets the new label and keeps its other columns; the rest is untouched |
| TaskListScreen.QuietPassMeansNormalized | app/src/main/java/com/example/activityplanner/ui/tasks/TaskListActivity.kt:106-109 | A pass over a full listing that reports no change found the table already relabelled |
| TaskListScreen.ManualLabelIsRecomputed | app/src/main/java/com/example/activityplanner/ui/tasks/TaskListActivity.kt:115-122 | The reload after a bulk change relabels the table as if the change had not happened |
| TaskListScreen.CancelEach | app/src/main/java/com/example/activityplanner/ui/tasks/TaskListActivity.kt:165-167 | The alarm table becomes `CancelledAll` of the listing |
| TaskListScreen.ScheduleEach | app/src/main/java/com/example/activityplanner/ui/tasks/TaskListActivity.kt:170-172 | The alarm table becomes `ScheduledAll` of the listing |
| TaskListScreen.TaskListActivity.OnCreate | app/src/main/java/com/example/activityplanner/ui/tasks/TaskListActivity.kt:38-97 | After start-up every stored task has exactly its due alarms, every row carries its computed label, and the list shows the table |
| TaskListScreen.TaskListActivity.LoadTasks | app/src/main/java/com/example/activityplanner/ui/tasks/TaskListActivity.kt:102-110 | Runs the pass over all stored tasks, past deadlines included, so every row gets its computed label; stale rows are re-armed, other alarms kept |
| TaskListScreen.TaskListActivity.OnComplete | app/src/main/java/com/example/activityplanner/ui/tasks/TaskListActivity.kt:62-64 | Writes only the `completed` column |
| TaskListScreen.TaskListActivity.OnDeleteConfirmed | app/src/main/java/com/example/activityplanner/ui/tasks/TaskListActivity.kt:69-79 | Cancels both alarms, then deletes; reloads only if a row was removed, and then the list is the remaining rows relabelled in deadline order, the other stale tasks are re-armed, the others keep their alarms and ids not stored are untouched; the deleted task has no alarm left |
| TaskListScreen.TaskListActivity.ChangePriority | app/src/main/java/com/example/activityplanner/ui/tasks/TaskListActivity.kt:115-122 | Stored selected ids are relabelled and missing ids skipped, then the reload recomputes every label, lists the table in deadline order, re-arms the tasks whose manual label is stale, keeps the others' alarms and leaves ids not stored untouched |
| TaskListScreen.TaskListActivity.ScheduleNotificationsForExistingTasks | app/src/main/java/com/example/activityplanner/ui/tasks/TaskListActivity.kt:160-175 | Every stored task ends with exactly its due alarms; ids not in the table are untouched |
| CalendarScreen.StartOfDay | app/src/main/java/com/example/activityplanner/ui/calendar/CalendarActivity.kt:135-141 | Midnight of the instant's day: at most the instant, less than a day before it |
| CalendarScreen.EndOfDay | app/src/main/java/com/example/activityplanner/ui/calendar/CalendarActivity.kt:168-174 | The last millisecond of the instant's day |
| CalendarScreen.OnDateIffWithinSpan | app/src/main/java/com/example/activityplanner/ui/calendar/CalendarActivity.kt:160-176 | A task shows exactly on the days from its start day to its deadline day, never before or after |
| CalendarScreen.OnlyTheDayMatters | app/src/main/java/com/example/activityplanner/ui/calendar/CalendarActivity.kt:136-149 | Two instants on the same day give the same answer; the end of the selected day plays no part |
| CalendarScreen.ShownThroughoutItsSpan | app/src/main/java/com/example/activityplanner/ui/calendar/CalendarActivity.kt:160-176 | Every instant from start to deadline lies on a day the task shows on |
| CalendarScreen.TasksForDate | app/src/main/java/com/example/activityplanner/ui/calendar/CalendarActivity.kt:114-118 | Exactly the listed tasks on that day, keeping deadline order and distinct ids |
| CalendarScreen.DayListingListsRowsOnDate | app/src/main/java/com/example/activityplanner/ui/calendar/CalendarActivity.kt:113-121 | Filtering a full listing lists exactly the rows on that day |
| CalendarScreen.CalendarEditExtras | app/src/main/java/com/example/activityplanner/ui/calendar/CalendarActivity.kt:85-91 | The edit handler puts the id under "TASK_ID" |
| CalendarScreen.CalendarEditOpensNoTask | app/src/main/java/com/example/activityplanner/ui/calendar/CalendarActivity.kt:87-89 | The edit screen reads "task_id", so it opens on −1 whatever task was tapped |
| CalendarScreen.CalendarEditExtrasIntended | app/src/main/java/com/example/activityplanner/ui/tasks/EditTaskActivity.kt:166-170 | Extras built as `launch` builds them carry the tapped id to the edit screen |
| CalendarScreen.CalendarActivity.constructor | app/src/main/java/com/example/activityplanner/ui/calendar/CalendarActivity.kt:36-44 | Today is selected and its tasks are listed in deadline order |
| CalendarScreen.CalendarActivity.LoadTasksForSelectedDate | app/src/main/java/com/example/activityplanner/ui/calendar/CalendarActivity.kt:113-130 | Shows exactly the rows on the selected day, in deadline order |
| CalendarScreen.CalendarActivity.OnDateChange | app/src/main/java/com/example/activityplanner/ui/calendar/CalendarActivity.kt:63-71 | The picked day's midnight is selected and its tasks listed |
| CalendarScreen.CalendarActivity.OnEdit | app/src/main/java/com/example/activityplanner/ui/calendar/CalendarActivity.kt:85-91 | Launches the edit screen with extras that it reads as −1 |
| CalendarScreen.CalendarActivity.OnDelete | app/src/main/java/com/example/activityplanner/ui/calendar/CalendarActivity.kt:92-99 | Id 0 is ignored; otherwise only that row is deleted and the day reloaded, listing its rows in deadline order; no alarm is cancelled |
| CalendarScreen.CalendarActivity.OnComplete | app/src/main/java/com/example/activityplanner/ui/calendar/CalendarActivity.kt:100-108 | Writes only the `completed` column |

## Left out

- Alarm delivery, `PendingIntent`s, notification channels and notification display are not modelled. This includes `DeadlineReminderReceiver` and the notification built at PriorityChangeReceiver.kt:70-94. The priority receiver's notice is returned as a value instead.
- `BootReceiver` only calls `rescheduleAllAlarms`, which is modelled. `NotificationChannels` is platform setup.
- The SQLite engine, cursors and `onUpgrade` are not modelled; the tables are maps.
- TaskModel.FromCursor models the column-to-field mapping that `fromCursor` intends. As written, it asks for columns named `startDateTime` and `deadlineDateTime`, but the schema names them `start_datetime` and `deadline_datetime`, so on a stored row the lookup would throw. Its only caller is `getTasksBetween`.
- `getTasksBetween` is left out: it queries a column `startDateTime` that the schema does not define, and nothing calls it.
- TaskDatabase.TaskDatabaseHelper.InsertTask never returns −1: only an engine failure could make it fail, and no constraint of the schema can reject the row it builds.
- TaskDatabase.TaskDatabaseHelper.GetAllTasks: rows with equal deadlines come back in an unspecified order, since ORDER BY does not fix one.
- SHA-256 is not modelled: the digest is a function parameter, taken from the password to bytes.
- Wall-clock reads are replaced by the parameter `now`, read once per operation. The app reads the clock separately in each call, so two reads within one handler may differ.
- Time zones, daylight saving and calendar formatting are not modelled. Days are fixed 86 400 000 ms periods from the epoch, and the day-overlap test uses that fixed offset.
- Pure UI is not modelled: toolbars, navigation, the about screen, the list adapter's binding and diffing, picker dialogs, toasts and permission requests.
- Asynchrony is not modelled. Receivers firing on their own and the asynchronous `apply()` of SharedPreferences are treated as immediate, sequential writes.
- The `priorities_array` resource behind the add screen's spinner is not part of this model. It is taken as High, Medium, Low: the list the edit screen builds, and consistent with `setSelection(1)` defaulting to Medium.
- Logging and the catch-all `try/catch` blocks are treated as no-ops.
- `task.id + 1000` is taken not to overflow `Int`.
- AddTaskScreen.AddTaskActivity.LoadTaskIfEditing: the spinner's `setSelection` is taken to fire `onItemSelected` at once. On the device the listener runs later.
- EditTaskScreen.EditTaskActivity.constructor: the spinner's initial `onItemSelected` callback, which the platform may deliver after `onCreate`, is not modelled. The stored label stays selected.

## Findings

| source | as written | input that shows it | evidently intended | confidence | as-written member | corrected member |
|---|---|---|---|---|---|---|
| app/src/main/java/com/example/activityplanner/ui/tasks/AddTaskActivity.kt:183-197 | When editing, `result` is the update's row count, and `getTaskById(result.toInt())` schedules task 1 | editing task 5, whose row exists: `result` is 1, so task 1's alarms are scheduled and task 5 keeps its old-deadline alarms. The edit path is reached only through `AddTaskActivity.launchForEdit` (AddTaskActivity.kt:237), which none of the modelled screens calls: they open `EditTaskActivity` | cancel and schedule the alarms of the saved task itself | high for the code, but the path is dormant; not executed | AddTaskScreen.EditSaveMissesEditedTask | AddTaskScreen.SaveRescheduledIntended |
| app/src/main/java/com/example/activityplanner/ui/calendar/CalendarActivity.kt:87-89 | The calendar's edit handler puts the id under "TASK_ID", but the edit screen reads "task_id" | tapping edit on any task: the edit screen reads −1 and finishes | pass the id as `EditTaskActivity.launch` does | high, not executed | CalendarScreen.CalendarEditOpensNoTask | CalendarScreen.CalendarEditExtrasIntended |
| app/src/main/java/com/example/activityplanner/logic/AutoPriorityManager.kt:133-136 | `getAllTasks` never reads `completed`, so `!task.completed` is always true and completed tasks are relabelled | a row with `completed` 1 and a deadline next week is a candidate | read `completed` as `fromCursor` does, so that completed rows are skipped | high, not executed | AutoPriority.CompletedRowIsCandidate | AutoPriority.CandidatesFromFullRowsSkipCompleted |
| app/src/main/java/com/example/activityplanner/ui/notifications/PriorityChangeReceiver.kt:53-57 | The receiver's thresholds (≤1 High, ≤3 Medium) differ from `calculatePriority`'s (≤2 High, ≤5 Medium) | a deadline 2.5 days ahead when a check alarm fires: the batch pass writes High, the receiver writes Medium. The check alarm is set for deadline − 24 h, when both rules say High (`RulesAgreeWhenAlarmFires`), so this needs a check alarm left over from an earlier, closer deadline, such as the one the edit path of the first row leaves in place | one rule for both paths | low, not executed | PriorityReceiver.RulesDisagreeAtTwoDays | PriorityReceiver.RecheckedCanonicalAgrees |
