# To-do list: a verified model of its task logic

The application (`main.py`, a PySide6 desktop to-do list over an sqlite file) keeps two tables:

- `tasks`: title, text_content and time_limit, addressed by rowid;
- `finished_tasks`: title, text_content and time_done.

It has two screens. The task screen shows active tasks in deadline order. Each row carries:

- a relative-time label ("3 hours left", "12 minutes late!");
- finish, edit and delete buttons; finish and edit are withdrawn once the task is late.

The task screen also has a session: at most one row is edited (`editedId`, -1 for none) or a new task is being added (`addingNewTask`). The archive screen shows finished tasks with "N … ago" labels.

This project models that logic in Dafny and proves its properties:

| module | file | models |
|---|---|---|
| `Numerals` | numerals.dfy | `str()` of a non-negative integer |
| `TimeLabels` | time_labels.dfy | Python's half-to-even `round`; both `generateTimeLabel` functions as structured labels plus their text |
| `Display` | display.dfy | description truncation; both `calcHeight` formulas; the 200-pixel clamp of `SwitchSize` |
| `Validation` | validation.dfy | the input checks shared by `addTask` and `acceptEditing` |
| `Session` | session.dfy | the two session fields, the modes they stand for, their transitions |
| `Store` | store.dfy | the tables as a map and a sequence; the deadline-ordered listing; rowid allocation |
| `Views` | views.dfy | what `updateData` and `finishedTasks.generateData` derive: rows, late flag, enabled actions, footer. `BuildRows` is `updateData`'s loop with its `lastindex` |
| `App` | todo_app.dfy | class `TodoApp`: the session fields, both tables, both screens' contents, the current screen and the window size. The handlers are methods that update them in place |

Modelling conventions:

- Time is whole seconds. The current instant `now` is a parameter of every operation that reads the clock.
- The label delta is the deadline minus `now` (or `now` minus the finishing time).
- The refresh timers are not modelled. Calling `UpdateIfNotEditing` or `RefreshArchive` stands for one timer tick.

Where the documented behaviour of the application differs from `main.py`, the model follows `main.py`. The one exception is the archive label's plural, a defect recorded under "## Findings":

- The deadline check refuses every deadline strictly before `now` (`secsTo(now) > 0`). The deadline editors themselves allow one hour into the past.
- `deleteTask` leaves the session as it is.
- `finishTask` does not resize the window.
- An accepted edit of a rowid that no longer exists writes nothing and raises no error.
- The window height is recomputed only where `SwitchSize` is called: start-up, `addTask`, `deleteTask` and a screen switch. It is not recomputed on every refresh.

## Model

| member | source | states |
|---|---|---|
| Numerals.NatToString | main.py:452 | `str(n)`: at least one digit, only digits, no leading zero, "0" exactly for 0 |
| Numerals.NatToStringRoundTrip | main.py:452 | reading the rendered digits back gives n (inductive proof) |
| Numerals.NatToStringInjective | main.py:452 | different counts never render alike |
| TimeLabels.RoundHalfEven | main.py:452 | `round(n/d)`: within half a unit of n/d, and on a tie the even neighbour |
| TimeLabels.RoundHalfEvenUnique | main.py:452 | those two conditions determine the rounded value |
| TimeLabels.RoundHalfEvenNegate | main.py:467 | `abs(round(delta/60))` equals `round(abs(delta)/60)`: rounding is symmetric about zero |
| TimeLabels.RoundHalfEvenMonotone | main.py:452-463 | rounding preserves order |
| TimeLabels.RoundHalfEvenExact | main.py:452 | an exact multiple of the unit rounds to its count |
| TimeLabels.Counted | main.py:452-454 | the count is shown as at least 1, and the plural word exactly when the rounded count is 2 or more |
| TimeLabels.DeadlineBadge | main.py:449-483 | all six buckets. Direction is left for delta > 0, else late. Urgency is overdue iff delta <= 0 and warning iff 0 < delta <= 3600. The unit is days iff delta > 86400 or delta <= -86400, minutes iff -3600 < delta <= 3600. The amount is max(1, round(abs(delta)/unit)); plural iff amount >= 2 |
| TimeLabels.DeadlineAmountBounds | main.py:455-467 | a minutes label never exceeds 60 and an hours label never exceeds 24 |
| TimeLabels.DeadlineTextExamples | main.py:450-469 | "2 days left" (normal), "30 minutes late!" (overdue), delta 0 gives "1 minute late!", 30 s gives "1 minute left" (warning) |
| TimeLabels.ArchiveLabelAsWritten | main.py:149-159 | the archive label as written: always "ago". Days iff delta > 86400, minutes iff delta <= 3600. Above 60 s the count is round(delta/unit) and the word is always plural; up to 60 s it is exactly "1 minute" |
| TimeLabels.ArchiveLabelAsWrittenSaysOneMinutes | main.py:152-157 | as written, 61 s, 3601 s and 86401 s read "1 minutes ago", "1 hours ago", "1 days ago" |
| TimeLabels.ArchiveLabel | main.py:149-159 | the corrected archive label: same unit and count as written, plural exactly when the count is 2 or more. It differs from the label as written exactly when delta > 60 and the count is 1 |
| TimeLabels.ArchiveLabelGrammatical | main.py:149-159 | the corrected text uses the singular word exactly for a count of 1 |
| Display.Truncate | main.py:141-142 | at most 43 characters. Shorter descriptions are unchanged. Longer ones keep their first 40 characters and end in "..." |
| Display.TruncateIdempotent | main.py:262-264 | truncating a displayed description changes nothing |
| Display.WindowSize | main.py:78-84 | width 1000 or 800 by screen; height equal to `calcHeight` when that reaches 200, and exactly 200 otherwise |
| Display.WindowSizeMonotone | main.py:78-84 | more rows never shrink the window |
| Display.WindowClampedExactly | main.py:78-84 | the clamp applies to the task list exactly when it is empty, and to the archive exactly when it holds at most 3 entries |
| Validation.CheckInput | main.py:388-394 | accepted iff title and description are non-empty and deadline >= now. Otherwise the title error, then the description error, then the deadline error, each iff its predecessors passed |
| Validation.MessagesDistinguishErrors | main.py:389-394 | the three error boxes carry different texts, so each names the one check that failed |
| Validation.EditorMinimumLooserThanCheck | main.py:346 | among the deadlines the editor allows (from now - 3600), exactly those from now on are accepted |
| Session.ModeOf | main.py:176-177 | an exclusive pair of fields stands for idle (-1, False), creating (adding) or editing a rowid |
| Session.ModeFieldsRoundTrip | main.py:176-177 | modes and exclusive field pairs correspond one to one |
| Session.Step | main.py:403-429 | the transitions yield a well-formed mode. Editing results exactly from the edit button on a real rowid, and then for that rowid. Creating results exactly from the add button outside creating, or from cancel-edit while creating |
| Store.FirstExists | main.py:208-209 | a non-empty table has a first row in deadline order |
| Store.ListingCons | main.py:208-209 | the first row followed by a sorted listing of the rest is a sorted listing of the whole table |
| Store.ListActive | main.py:208-209 | `ORDER BY time_limit`: every row exactly once with its own fields, ascending by deadline |
| Store.NewRowid | main.py:396-398 | the rowid an insert receives is positive |
| Store.NewRowidIsFresh | main.py:396-398 | that rowid exceeds every rowid in use, so it names no existing row |
| Views.RowFor | main.py:211-303 | The edited row shows its stored fields and the editor minimum now - 3600. Any other row has the truncated description and `generateTimeLabel(deadline - now)`. It is late iff deadline < now; delete is always offered; finish and edit are offered iff it is not late; a late row is overdue |
| Views.BuildRows | main.py:207-210 | the loop produces one row per listed task, in order, and ends with lastindex the index of the last row, -1 for none |
| Views.RowsFollowListing | main.py:208-209 | rows carry distinct rowids of existing tasks with their titles and deadlines, in ascending deadline order |
| Views.ViewListsEachTaskOnce | main.py:208-210 | the task screen lists every active task exactly once, in deadline order |
| Views.SingleEditingRow | main.py:212 | only the row whose rowid is `editedId` shows editors; such a row exists iff that rowid is in the table |
| Views.FooterFollowsMode | main.py:309-333 | add buttons iff idle, with "No Tasks" iff the table is empty; the new-task form iff creating; nothing while editing; the "EDITING..." header iff editing |
| Views.NewTaskFormDeadlines | main.py:345-346 | the form's preset deadline (now + 2 days) passes the check; the editor's minimum (now - 3600) fails it |
| Views.AcceptedTaskIsActionable | main.py:250-252 | in whole seconds, a task saved at some instant is not late at that instant: finish and edit are offered |
| Views.DeadlineInstantLabelledLateButActionable | main.py:250-252 | at delta 0 (whole seconds) the label reads "1 minute late!" in the overdue style, yet the row is not late and keeps finish and edit |
| Views.ArchiveRowFor | main.py:137-143 | an archive row: the title, the truncated description, and the corrected "ago" label bucketed by now - time_done. Above 60 s its count is round((now - time_done)/unit); up to 60 s it is 1 |
| App.TodoApp.constructor | main.py:29-60 | start-up: task screen, idle session, both screens built, window sized for the task list |
| App.TodoApp.UpdateData | main.py:189-386 | the task screen becomes the view of the current table and session |
| App.TodoApp.UpdateIfNotEditing | main.py:186-187 | the timer refresh rebuilds the view when idle and leaves it untouched otherwise; nothing else changes |
| App.TodoApp.RefreshArchive | main.py:102-147 | the archive screen becomes one row per finished task, in table order |
| App.TodoApp.SwitchSize | main.py:78-84 | the window takes the clamped size of the given screen |
| App.TodoApp.SwitchScreen | main.py:62-76 | the target screen is refreshed and shown, the other left as it was; the window is resized for the target |
| App.TodoApp.CancelEditing | main.py:422-424 | editedId becomes -1; from a valid state this is the cancel-edit transition |
| App.TodoApp.SwitchAdding | main.py:403-406 | adding flips; starting to add abandons an edit; the invariant is kept and the mode follows the toggle transition |
| App.TodoApp.SetEditedId | main.py:426-429 | adding is switched off first, then the row becomes the edited one, following the edit transition |
| App.TodoApp.AddTask | main.py:388-401 | Rejected input changes nothing. Accepted input inserts the task under a fresh rowid (one row more) and resizes the window. It then closes the form, flipping adding, with the toggle transition |
| App.TodoApp.AcceptEditing | main.py:408-420 | Rejected input changes nothing. Accepted input overwrites the row if it still exists and ends editing, with the cancel-edit transition |
| App.TodoApp.FinishTask | main.py:431-437 | found iff the rowid exists. Then the row leaves `tasks` and exactly (title, text, now) is appended to `finished_tasks`. Otherwise nothing changes |
| App.TodoApp.DeleteTask | main.py:442-446 | the rowid leaves the table (nothing else changes); the window is resized; the session is untouched |
| App.InsertAddsOneRow | main.py:396-398 | an insert adds exactly one key and keeps every other row |
| App.FinishMovesOneTask | main.py:431-437 | finishing removes exactly that row, keeps every other row and appends one archive entry; the tables together hold as many tasks as before |
| App.DeleteAbsentIsNoOp | main.py:442-446 | deleting an absent rowid changes nothing; deleting twice equals deleting once |
| App.FinishTwice | main.py:431-437 | finishing the same row twice archives it once; the second call finds nothing |

## Left out

- Qt presentation: widgets, layout positions, column stretches, style sheets, icons, cursors, message boxes and window titles. Only the content of each row, the urgency, the late flag and the enabled actions are kept.
- The two 5-second `QTimer`s. A tick is a call to `UpdateIfNotEditing` or `RefreshArchive`.
- sqlite I/O: the connection, the SQL text and commits. The tables are a map and a sequence.
- The f-string SQL building in `addTask`, `acceptEditing` and `finishTask`. A quote in a title or description breaks the statement, and can inject SQL. Such a failing INSERT in `finishTask` leaves its DELETE pending for the next commit. Text is modelled as stored verbatim.
- Clock reads, `strptime`, `QDateTime.fromString` and the `[:19]` cut. Instants are integer seconds passed in as `now`.
- `total_seconds()` returns a float with microseconds, and `secsTo` truncates to whole seconds. Deltas are whole seconds. Because of this, Views.AcceptedTaskIsActionable and Views.DeadlineInstantLabelledLateButActionable hold only for whole-second instants.
- `threading`, `app.exec()` and `con.close()`.
- Store.ListActive: sqlite leaves the order of rows with equal `time_limit` unspecified; the model orders them by rowid.
- Store.NewRowid: sqlite picks a random unused rowid once the largest rowid reaches 2^63 - 1. The model always takes one past the largest.
- TimeLabels.DeadlineBadge: the days bucket's dark-grey colour and the hours bucket's default colour are both `Normal`.
- Views.ArchiveRowFor: shows the corrected archive label, not the one main.py:152-157 prints. The archive screen is modelled as intended, so it does not reproduce "1 minutes ago" and the like. The as-written label and its texts are stated by TimeLabels.ArchiveLabelAsWritten and TimeLabels.ArchiveLabelAsWrittenSaysOneMinutes. TimeLabels.ArchiveLabel proves the two differ exactly when more than 60 s have passed and the count is 1.
- App.TodoApp.SwitchScreen: the source takes an integer screen number and ignores values other than 0 and 1. The model takes a `Screen`, so those values do not arise.
- App.TodoApp.FinishTask: the source does not stop a row from being finished while another row is being edited, and neither does the model.
- App.TodoApp.AcceptEditing: the source passes the `editedId` read when the button is clicked; the model takes that rowid as a parameter.
- App.TodoApp.constructor: requires the loaded rowids to be positive, as sqlite allocates them.
- `finishedTasks.cancel` and `switchScreenToFinishedTasks` are only `SwitchScreen` calls and have no members of their own.

## Findings

| source | as written | input that shows it | evidently intended | confidence | as-written member | corrected member |
|---|---|---|---|---|---|---|
| main.py:152-157 | the "days", "hours" and "minutes" archive buckets always use the plural word, with no singular correction | a task finished 61 s, 3601 s or 86401 s ago reads "1 minutes ago", "1 hours ago" or "1 days ago" | the singular word for a count of 1, as the deadline labels at main.py:453-454 do | not executed | TimeLabels.ArchiveLabelAsWrittenSaysOneMinutes | TimeLabels.ArchiveLabelGrammatical |
