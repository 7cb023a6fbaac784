# Task manager core in Dafny

This project models the engine underneath the prompts of `task_manager.py`. That engine is a small command-line task manager.

**Task file.** `tasks.txt` is an ordered list of lines. Each line joins six fields with `", "`: assignee, title, description, assigned date, due date, and `Yes`/`No`. A task has no identifier; its identity is its position in the list.

**User file.** `user.txt` holds `username, password` records.

**Operations modelled:**
- registering a user;
- adding a task;
- numbering the current user's tasks;
- choosing a task by its number;
- marking a task complete;
- editing its assignee or due date;
- deleting a task;
- counting the reports;
- matching a login.

Modules, in dependency order:

| module | file | what it holds |
|---|---|---|
| `Wrappers` | `wrappers.dfy` | `Option` |
| `Text` | `text.dfy` | ASCII `lower`, `strip`, `isalpha`, `isdigit`, `int()` of digits, and `split`/`join` on `", "` |
| `FileText` | `file_text.dfy` | a file's text as `readlines()` sees it, and the rule "write a newline first if the old text does not end with one, then append the record" |
| `Dates` | `dates.dfy` | the calendar as an abstract parse/format pair, and "midnight of the due date lies before now" |
| `TaskLine` | `task_line.dfy` | the line format: parsing, serialising, rewriting one field, and the new entry |
| `Prompts` | `prompts.dfy` | `cancel_operation`, what a prompt does with one answer (a `Step`), and the prompt loop over the answers (`Run`) |
| `Users` | `users.dfy` | existing usernames, the registration dialogue, registration as a class over the user file's text, and the login match |
| `Selection` | `selection.dfy` | the display-number map of `view_mine` and `get_valid_task_number` |
| `Tasks` | `tasks.dfy` | the dialogues of add, mark, edit and delete, and the task file as a class `TaskList` that runs them |
| `Session` | `session.dfy` | the `view_mine` menu as a function `Menu` of the typed lines, and the menu loop as methods, with the map built once (as written) and rebuilt per action |
| `Reports` | `reports.dfy` | the counting loops of `generate_reports` |

**User input.** The typed lines are a scripted `seq<string>`. Each prompt is a `Step` function from one answer to retry, cancel or take a value, and `Prompts.Run` is the loop over those steps. A dialogue function (`RegistrationDialogue`, `NewTaskDialogue`, `MarkDialogue`, `EditDialogue`, `DeleteDialogue`, `Menu`) chains the prompts of one operation. It returns the outcome and the position of the first line not read. Each method that reads input is proved equal to its dialogue function. Running out of input is an outcome of its own (`Exhausted`, `…InputEnded`); the program would raise `EOFError` there.

**Dates.** "Today" and "now" are parameters. Date parsing and formatting are the two functions of a `Calendar` value.

**Files.** Each write of a file is the whole new list, or the new text. Dafny's `string` is a sequence of characters, so the case and digit rules are ASCII.

## Model

| member | source | states |
|---|---|---|
| `Text.LowerIsX` | task_manager.py:28-31 | the cancel test `lower() == "x"` of `cancel_operation` (`Prompts.IsCancel`) holds exactly for the inputs `x` and `X` |
| `Text.JoinSplit` | task_manager.py:327-332 | joining the pieces of `split(", ")` gives back the text, so rewriting one field leaves the others' text intact |
| `Text.SplitJoin` | task_manager.py:195-198 | splitting a join of pieces that contain no `", "` gives back exactly those pieces |
| `Text.StripIsTrimmed` | task_manager.py:159 | `strip()` leaves no whitespace at either end |
| `FileText.ConcatSplitLines` | task_manager.py:46-48 | concatenating the lines `readlines()` returns gives back the file's text |
| `FileText.AppendAddsOneLine` | task_manager.py:108-113 | appending a record after the trailing-newline check makes the file exactly one line longer: the old lines, the last one newline-terminated, then the record |
| `FileText.SplitLinesAppendLine` | task_manager.py:201-208 | appending a line to text that is empty or ends in a newline adds exactly that line |
| `FileText.LastLineEndsWithNewline` | task_manager.py:111 | the text ends with a newline exactly when its last line does |
| `Dates.MidnightBeforeByDate` | task_manager.py:659-670 | a due date before today's date is overdue, a later one is not, and one equal to today's date is overdue at every moment after midnight |
| `TaskLine.ParseSerialise` | task_manager.py:195-198 | parsing a serialised line gives back its fields when no field holds `", "` and the ends carry no whitespace |
| `TaskLine.SerialiseFields` | task_manager.py:327-332 | re-serialising a parsed line gives the stripped line plus a newline |
| `TaskLine.WithFieldReadsBack` | task_manager.py:331-332 | after one field is rewritten, the line parses to the old fields with only that field replaced |
| `TaskLine.MarkedComplete` | task_manager.py:327-332 | the marked line parses to the old fields with the last one `Yes`, is complete, and keeps its shape |
| `TaskLine.ReassignChangesOnlyAssignee` | task_manager.py:394-402 | reassigning changes only field 0 and keeps status and shape; the new owner is the new name, lowercased |
| `TaskLine.RedateChangesOnlyDueDate` | task_manager.py:414-417 | re-dating changes only field 4 and keeps status, shape and owner |
| `TaskLine.NewEntry` | task_manager.py:192-198 | a new entry is incomplete, and it reads back as its six fields when the fields are clean |
| `TaskLine.NewEntryIsIncomplete` | task_manager.py:193-197 | a line ending in `, No` and a newline is never complete |
| `Prompts.Run` | task_manager.py:76-90 | the prompt loop reads at least one answer when there is one; it ends for lack of input only at the end of the lines; a cancel or a value comes from the last answer read |
| `Prompts.RunSkipsRetries` | task_manager.py:76-90 | every answer the loop passes over is one it asks again for, and a value it takes comes from the first answer it can take |
| `Prompts.RunTakesFirst` | task_manager.py:76-90 | after answers it asks again for, the first answer it can take ends the loop with that value, and nothing after it is read |
| `Prompts.RunCancelsAt` | task_manager.py:76-90 | after answers it asks again for, a cancel key ends the loop there |
| `Users.GetExistingUsernames` | task_manager.py:34-55 | the loop collects field 0 of every line, lowercased, in file order |
| `Users.UsernameIsCanonical` | task_manager.py:49-54 | an existing username is lowercase and fits as field 0 of a task line |
| `Users.ExistingUserFits` | task_manager.py:388-402 | a registered username can be written as the assignee field of a task line |
| `Users.NewUsernameAnswer` | task_manager.py:76-90 | the username prompt cancels exactly on `x`/`X`, takes exactly the answers whose lowercase is all letters and not taken, and takes them lowercased |
| `Users.ReadNewUsername` | task_manager.py:76-90 | the username loop returns what the prompt loop over the username answers returns, and stops where it stops |
| `Users.PasswordsOnwards` | task_manager.py:93-104 | after the username, the next two answers are the password and its confirmation; `x` at either cancels; they must be equal, and with the check on the password must also be storable |
| `Users.RegistrationDialogue` | task_manager.py:58-113 | registration reads the username loop, then the two passwords; a cancel comes from an `x`; a mismatch holds exactly when the two answers differ; a registration holds the taken name and the confirmed password |
| `Users.RegistrationCancelledByX` | task_manager.py:78-99 | registration is cancelled only by an answer that is `x` or `X` |
| `Users.RegisteredWasAnswered` | task_manager.py:76-113 | a registered user is the first valid answer to the username prompt, lowercased, and a new name; the password is the two answers after it, which are equal |
| `Users.AnsweredRegistration` | task_manager.py:76-113 | conversely, a first valid username followed by two equal answers that are not `x` registers that name with that password, and reads nothing further |
| `Users.UserStore.Register` | task_manager.py:58-116 | registration as written: the outcome is the registration dialogue's; the file gains `name, password` after the newline check exactly when the outcome is a registration; every other outcome leaves it unchanged |
| `Users.UserStore.RegisterChecked` | task_manager.py:58-116 | registration that also refuses a password that cannot be read back; otherwise the same as `Register` |
| `Users.StoredRecordReadsBack` | task_manager.py:106-113 | a stored record parses to `[name, password]` and becomes the file's last line |
| `Users.RegistrationAddsUsername` | task_manager.py:106-113 | after registration the usernames are the old ones plus the new name, and stay free of duplicates |
| `Users.BlankPasswordLosesUsername` | task_manager.py:93-113 | a blank password stores a record that parses to one field, so the name does not read back |
| `Users.FindLogin` | task_manager.py:764-772 | login finds the first record whose username matches the typed name case-insensitively and whose password matches exactly, every record before it having unpacked; it finds none iff every record unpacks and none matches |
| `Users.ScanStopsAtMatch` | task_manager.py:764-772 | the scan reads nothing after the first match: two-field records up to a matching one let the login succeed, whatever records follow |
| `Users.TwoFieldRecordsScan` | task_manager.py:764-772 | in a file of two-field records every login can be scanned |
| `Users.RegisteredUserCanLogIn` | task_manager.py:106-113 | a user registered with a readable password can log in afterwards with the name in any case |
| `Selection.TaskNumberAnswer` | task_manager.py:285-299 | the task-number prompt cancels exactly on `x`/`X`, re-asks on non-digits and on numbers that are not in the map, and takes the mapped index of a displayed number |
| `Selection.GetValidTaskNumber` | task_manager.py:275-299 | the loop returns what the prompt loop over the task-number answers returns; an index it returns is one of the map's |
| `Selection.Positions` | task_manager.py:451-458 | the positions are strictly increasing, in range, and all owned by the user |
| `Selection.PositionsComplete` | task_manager.py:451-458 | every line owned by the user is among the positions |
| `Selection.NumberPositions` | task_manager.py:449-458 | the loop numbers the positions 1..N with no gaps |
| `Selection.PositionsMakeDisplayMap` | task_manager.py:449-458 | numbering the owned positions 1..N gives a display map: keys 1..N, increasing values, and index i present iff line i is the user's |
| `Selection.BuildUserTasks` | task_manager.py:449-458 | the map built is a display map of the lines for the user |
| `Tasks.RemoveAt` | task_manager.py:562 | `pop` keeps the elements before and after the index in order and removes exactly that one |
| `Tasks.ReadAssignee` | task_manager.py:136-151 | the assignee loop returns what the prompt loop over the assignee answers returns |
| `Tasks.ReadNonBlank` | task_manager.py:153-172 | the title and description loops return what the prompt loop over the non-blank answers returns |
| `Tasks.ReadDueDate` | task_manager.py:173-190 | the due-date loop returns what the prompt loop over the due-date answers returns |
| `Tasks.AssigneeTaken` | task_manager.py:136-151 | the assignee prompt takes an answer only when its lowercased, stripped form is an existing username, and takes that form |
| `Tasks.NonBlankTaken` | task_manager.py:153-172 | the title and description prompts take an answer only when it is not `x` and not blank after `strip()`, and take it as typed |
| `Tasks.DueDateTaken` | task_manager.py:173-190 | the due-date prompt takes an answer only when it is not `x` and parses, and takes the parsed date |
| `Tasks.AddPromptsCancel` | task_manager.py:141-181 | each of the four prompts of `add_task` cancels only on an `x` answer |
| `Tasks.NewTaskDialogue` | task_manager.py:133-190 | the four prompts run in order; the first that takes no value stops the dialogue; an added task's due date is the value of the last answer read |
| `Tasks.NewTaskCancelled` | task_manager.py:141-181 | adding a task is cancelled only by an answer that is `x` (after lowercasing and stripping, at the assignee prompt) |
| `Tasks.AnsweredTaskIsAdded` | task_manager.py:133-198 | the first answer each prompt takes gives the task added: the assignee lowercased and stripped, the title and description as typed, the due date as parsed; nothing after is read |
| `Tasks.AddedTaskWasAnswered` | task_manager.py:133-198 | conversely, an added task comes from such four answers, and any four such answers give exactly it |
| `Tasks.AddedTaskIsValid` | task_manager.py:136-190 | an added task has an existing assignee, a non-blank title and description that are not `x`, and a due date that parses from the last answer |
| `Tasks.ReadNewTask` | task_manager.py:133-190 | the four loops together end exactly as the add dialogue does |
| `Tasks.TaskList.AddTask` | task_manager.py:119-212 | the outcome is the add dialogue's; the task file gains `assignee, title, description, today, due, No` after the newline check exactly when a task is added; otherwise it is unchanged |
| `Tasks.AddedTaskIsLast` | task_manager.py:192-208 | the appended entry becomes the last line, reads back as its six fields, and is incomplete |
| `Tasks.MarkDialogue` | task_manager.py:321-336 | marking reads one task number; a marked or already complete task is the first displayed number answered, and it is already complete exactly when its line is complete |
| `Tasks.MarkOfAnsweredTask` | task_manager.py:321-336 | the first answer naming a task decides: that task is marked, or reported complete if its line is complete; nothing after is read |
| `Tasks.TaskList.MarkTaskComplete` | task_manager.py:302-336 | the outcome is the mark dialogue's; a mark changes only the chosen line, to its marked form; every other outcome leaves the list unchanged |
| `Tasks.EditOptionAnswer` | task_manager.py:371-381 | the edit menu, which lowercases its answer but does not strip it, cancels exactly on `x`/`X`, takes `1` as the assignee and `2` as the due date, and asks again on anything else (so ` 1` is asked again) |
| `Tasks.ReadEditOption` | task_manager.py:371-425 | the option loop returns what the prompt loop over the option answers returns |
| `Tasks.AssigneeEdit` | task_manager.py:382-406 | a reassignment happens exactly when the lowercased answer is not `x`, is an existing username and differs from the owner; every refusal says which check failed |
| `Tasks.DueDateEdit` | task_manager.py:408-423 | a new due date is set exactly when the answer is not `x` and parses; a parse failure is not asked again |
| `Tasks.OpenEditDialogue` | task_manager.py:371-425 | for an open task the first option taken and the answer after it decide the edit, by `AssigneeEdit` or `DueDateEdit`; cancel at the options changes nothing |
| `Tasks.EditDialogue` | task_manager.py:359-426 | editing reads one task number; a completed task is refused; a reassignment goes to an existing user other than the owner, and never of a completed task |
| `Tasks.EditOfAnsweredTask` | task_manager.py:359-426 | the first answer naming a task decides which task is edited: a completed one is refused at once, an open one goes on to the options |
| `Tasks.OpenEditOfAnsweredOption` | task_manager.py:371-425 | the first option taken and the answer right after it make the edit; with no answer after it, the edit ends for lack of input |
| `Tasks.EditedTaskWasAnswered` | task_manager.py:359-426 | conversely, a task that is edited or refused is the first displayed number answered |
| `Tasks.TaskList.ChangeAssignee` | task_manager.py:382-406 | the outcome is `AssigneeEdit`'s; a reassignment rewrites only the chosen line; a refusal changes nothing |
| `Tasks.TaskList.ChangeDueDate` | task_manager.py:408-423 | the outcome is `DueDateEdit`'s; a new due date rewrites only the chosen line; a refusal changes nothing |
| `Tasks.TaskList.EditOpenTask` | task_manager.py:371-425 | the outcome is the open-task edit dialogue's; the list changes at most at the chosen line, by that reassignment or re-dating |
| `Tasks.TaskList.EditTask` | task_manager.py:339-426 | the outcome is the edit dialogue's; the list changes at most at the chosen line, by that reassignment or re-dating; every other outcome leaves it unchanged |
| `Tasks.ReadDeleteNumber` | task_manager.py:538-549 | the task-number loop of deletion returns what the prompt loop over its answers returns; a number it returns is below the count |
| `Tasks.DeleteNumberTaken` | task_manager.py:538-549 | the number prompt takes exactly digits naming 1..N, and takes the number minus one |
| `Tasks.ConfirmNeverCancels` | task_manager.py:556-572 | the confirmation prompt has no cancel key |
| `Tasks.ConfirmTaken` | task_manager.py:556-572 | the confirmation prompt takes `yes` and `no` after lowercasing and stripping, and nothing else |
| `Tasks.ReadConfirm` | task_manager.py:556-572 | the confirmation loop returns what the prompt loop over its answers returns |
| `Tasks.DeleteDialogue` | task_manager.py:522-572 | an empty file reads nothing; a deletion or a refusal names a task below the count; it is a deletion exactly when the confirmation taken is `yes` |
| `Tasks.DeleteNumberGoesToConfirmation` | task_manager.py:538-572 | the first valid task number leads straight to the confirmation of that task |
| `Tasks.AnsweredDeleteIsDone` | task_manager.py:538-572 | the first valid number and the first `yes`/`no` after it decide: that task is deleted on `yes` and kept on `no`; nothing after is read |
| `Tasks.DeleteWasAnswered` | task_manager.py:538-572 | conversely, a deletion or a refusal comes from such a pair of answers |
| `Tasks.TaskList.DeleteTask` | task_manager.py:512-575 | on a file whose every line can be shown, the outcome is the delete dialogue's; on `yes` the list loses exactly the chosen line, the rest in order; otherwise it is unchanged |
| `Session.MenuAnswer` | task_manager.py:465-480 | the menu prompt, which lowercases its answer but does not strip it, leaves exactly on `x`/`X`, takes `1` as mark and `2` as edit, and asks again on anything else (so ` 1` is asked again) |
| `Session.Menu` | task_manager.py:464-480 | the menu ends only by `x` or for lack of input, and keeps the number of lines |
| `Session.MenuLeavesOnX` | task_manager.py:472-473 | `x` at the menu leaves with the lines and marks as they are |
| `Session.MenuAsksAgain` | task_manager.py:479-480 | any other answer than `1`, `2` or `x` is ignored and the menu asks again |
| `Session.MenuMarksAnsweredTask` | task_manager.py:475-476 | `1` and then the first answer naming a task: that task is marked (unless already complete), and the menu goes on right after that answer with the new lines |
| `Session.MenuEditsAnsweredTask` | task_manager.py:477-478 | `2` and then the first answer naming a task: a completed one is refused and the menu goes on after the answer; for an open one the edit reads on, and the menu goes on where it stopped with the edited lines |
| `Session.EditEffect` | task_manager.py:394-417 | an edit keeps the edited line's fields (at least six) and its completion status; a new due date keeps its owner |
| `Session.MarkKeepsFrame` | task_manager.py:327-336 | marking one of the user's open tasks changes only lines the user owned at the start, keeps every completed line complete and every changed line at six fields or more, gains the user no task, and leaves the marked line complete with its owner |
| `Session.EditKeepsFrame` | task_manager.py:394-417 | an edit of one of the user's open tasks changes only lines the user owned at the start, keeps every completed line complete and every changed line at six fields or more |
| `Session.ChooseMark` | task_manager.py:475-476 | choice `1` runs the mark dialogue on the current lines; the new lines are what its outcome leaves; at most one line is marked, it is now complete and was the user's when the map was built, and the user gains no task |
| `Session.ChooseEdit` | task_manager.py:477-478 | choice `2` runs the edit dialogue on the current lines; the new lines are what its outcome leaves; only lines the user owned at the start change, and a completed line stays complete |
| `Session.MenuRound` | task_manager.py:465-480 | one round of the menu, with the map built at the start, reads at least one answer, moves on exactly as `Menu` does, and keeps the session's frame (only lines owned at the start change, completed lines stay complete, marked lines are complete and were the user's) |
| `Session.MenuLoop` | task_manager.py:464-480 | the menu loop ends exactly as `Menu` says, with the lines and marks it gives, and keeps the session's frame |
| `Session.ViewMine` | task_manager.py:449-480 | the session as written: it ends at once iff the user owns no task; otherwise it ends as `Menu` with the map built at the start says; only lines owned at the start change, completed lines stay complete, and every line it marked is complete and was the user's |
| `Session.StaleEntryAfterReassign` | task_manager.py:464-480 | after a reassignment the map built at the start still names the reassigned task, which is no longer the user's |
| `Session.FreshMenuRound` | task_manager.py:465-480 | one round of the menu with the map rebuilt first reads at least one answer, moves on exactly as `Menu` with rebuilding does, and keeps that session's frame |
| `Session.FreshMenuLoop` | task_manager.py:464-480 | the menu loop with rebuilding ends exactly as `Menu` with rebuilding says, and keeps that session's frame |
| `Session.ViewMineFresh` | task_manager.py:449-480 | with the map rebuilt before each action, the same guarantees hold, the user gains no task, and every line marked is still the user's |
| `Reports.CountsAddUp` | task_manager.py:654-671 | completed plus uncompleted is the total, and overdue is at most uncompleted, so a completed task is never counted overdue |
| `Reports.UserCountsAddUp` | task_manager.py:704-724 | per user, completed plus uncompleted is that user's count, and overdue is at most uncompleted |
| `Reports.UserCountIsOwnedCount` | task_manager.py:710-715 | a user's task count equals the number of lines that the user owns |
| `Reports.MarkMovesCount` | task_manager.py:661-671 | marking a task moves it from uncompleted to completed and out of overdue; the total is unchanged |
| `Reports.DeleteDropsCount` | task_manager.py:661-671 | deleting a line removes exactly its own contribution from each counter |
| `Reports.CountTasks` | task_manager.py:654-671 | the counting loop computes the overview tally of the task lines |
| `Reports.CountUserTasks` | task_manager.py:704-724 | the per-user loop computes that user's tally |
| `Reports.GenerateReports` | task_manager.py:618-747 | there is one report per user line, in order, each with that user's tally; percentages appear exactly when the file and the user's share are non-empty |

## Left out

- File I/O: every `open`/`read`/`write` and every `FileNotFoundError`/`IOError` handler. A file is its text, or its list of lines, and a write replaces it.
- Printing and menus: the output of `display_task` (its field reads are the preconditions below), `view_all`, `view_completed`, `display_statistics` and the top-level menu loops are presentation and dispatch.
- Percentages: the `:.2f` lines are floating-point formatting. `Reports.GenerateReports` states only when they are written.
- Dates: `strptime`/`strftime` with `"%d %b %Y"` are an abstract `Calendar` (a partial `parse` and a `format`). `Session.FormatsCleanly` assumes that `format` never writes `", "`.
- The clock: `date.today()` and `datetime.today()` are parameters. "Now" is a date plus the microseconds since midnight.
- Unicode: `lower`, `isalpha`, `isdigit` and `strip` follow their ASCII meaning.
- Crashes on malformed lines are preconditions instead of exceptions. `display_task` reads `task_parts[0]` to `task_parts[5]` (task_manager.py:233-238), so a line it shows must have at least six fields; a title or description holding `", "` gives more, and the code handles those. `Tasks.TaskList.DeleteTask` requires this of every line, since `delete_task` shows all of them before its first prompt (:532-535). `Session.ViewMine` and `Session.ViewMineFresh` require it of the current user's lines, which `view_mine` shows (:451-456). `Tasks.TaskList.EditTask` requires it of the lines the map names, which are lines `view_mine` has shown. `Reports.CountTasks` and `Reports.GenerateReports` require every due date to parse (`strptime` at :663). `Reports.CountUserTasks` requires this of the user's own lines (:717). `Users.FindLogin` requires two fields of the records the scan unpacks (:765): those up to the first match, or every record when none matches.
- Input ending (`EOFError`) becomes an outcome of its own instead of an exception.
- `get_existing_usernames` is read again inside `edit_task` (:388); the model passes the user file's lines in once, since nothing in the session writes that file.
- `Tasks.ReadConfirm`: the code has no `x` cancel at the delete confirmation; only `yes` and `no` end the loop.
- `Reports.CountTasks`: a task due today counts as overdue after midnight, because the code compares the due date's midnight with the current time.

## Findings

| source | as written | input that shows it | evidently intended | confidence | as-written member | corrected member |
|---|---|---|---|---|---|---|
| task_manager.py:93-113 | any password that matches its confirmation is stored, including a blank one | password and confirmation both `" "`: the record `bob,  \n` strips to `bob,`. It splits into one field, so the name no longer reads back. The login unpacking at :765 raises for every login that reaches this record: the user's own, a later user's, or a failed attempt | refuse a password that is blank, has whitespace at an end, or holds `", "` or a newline, so every stored record reads back as `[name, password]` | not executed | `Users.UserStore.Register`, `Users.BlankPasswordLosesUsername` | `Users.UserStore.RegisterChecked`, `Users.RegistrationAddsUsername`, `Users.RegisteredUserCanLogIn` |
| task_manager.py:449-480 | the display-number map is built once, before the menu loop, and reused after every edit | a user with one open task reassigns it to another user (option 2, then 1). Number 1 still maps to that line, so option 1 then marks another user's task complete | rebuild the map from the current lines before each action, so a number always names one of the user's tasks | not executed | `Session.ViewMine`, `Session.StaleEntryAfterReassign` | `Session.ViewMineFresh` |
