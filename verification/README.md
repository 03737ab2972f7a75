# task_manager.py in Dafny

A model of `task_manager.py`, a console task manager for a small team. It
keeps two flat text files:

- `user.txt` holds one `username, password` line per account;
- `tasks.txt` holds one `assigned_to, title, description, assigned_date, due_date, completed` line per task.

The program loads the users, asks for a username and password until a pair
matches, and then runs a menu loop. In the loop, the admin can register
users and see statistics, and everyone can add tasks, list all tasks, list
their own tasks, or exit.

The model is pure Dafny. The two files are their full text (`string`), and
the operator's console input is a finite sequence of answers. Each `input()`
call consumes one answer, and running out of answers is the `EOFError` the
program would raise. The clock is a `today: Date` parameter. Results and
options come from `Results`.

| module | file | models |
|---|---|---|
| `Text` | `text.dfy` | `str.strip()`, `str.split(', ')`, `", ".join`, iterating a file line by line, and `readlines()` counts |
| `Records` | `records.dfy` | the credential and task line formats, parsing a line by unpacking into a fixed number of names, and reading a store strictly |
| `Users` | `users.dfy` | `load_users`, the login test and the `login` retry loop, `register_user` and its append to `user.txt` |
| `Tasks` | `tasks.dfy` | `add_task` (with `strftime("%d %b %Y")`), `view_all_tasks`, `view_my_tasks` |
| `Statistics` | `stats.dfy` | `display_statistics` |
| `Menu` | `menu.dfy` | the start-up (`load_users` then `login`) and the `while True` menu loop |

Behaviours of the program that the model keeps as they are:

- **Reading is strict.** Every line is unpacked, and a `ValueError` from a
  malformed line ends the whole program (`task_manager_EH.py` skips such
  lines instead). `Users.LoadUsers`, `Tasks.ViewAllTasks` and
  `Tasks.ViewMyTasks` fail at the first line that does not split into the
  expected number of fields, and `Menu.Step` turns that failure into a crash.
- **The first record written to an empty store cannot be read back.** The
  program always writes `"\n" + line`. In an empty file, or one that ends in
  `'\n'`, that leaves a blank line, and the blank line splits into one
  field. `Tasks.AddTaskToTerminatedStore` and
  `Users.RegisterIntoTerminatedStore` prove that the next strict read then
  fails. `Tasks.AddTaskThenView` and `Users.RegisterThenLogin` prove the
  round trip for the case that does work: a store whose last line is
  unterminated.
- **Statistics count lines, not records.** Blank, malformed and duplicate
  lines all count (`Statistics.UserTotalBoundsUsers`).
- **`completed` is the literal text `"No"`.** The program never writes any
  other value, and the model keeps the text.

## Model

| member | source | states |
|---|---|---|
| Text.Strip | task_manager.py:9 | `strip()` returns the part of the input between a whitespace-only prefix and a whitespace-only suffix (Python's `isspace` set); the result neither starts nor ends with whitespace, and it is empty exactly when the input is all whitespace |
| Text.StripIgnoresTrailingSpace | task_manager.py:9 | a trailing whitespace character, such as a line's `'\n'`, never changes what `strip()` returns |
| Text.Split | task_manager.py:9 | `split(', ')` returns at least one field; joining the fields with `", "` gives the input back, and no field contains the separator |
| Text.SplitJoin | task_manager.py:34 | fields free of `", "` come back from `split(', ')` exactly as they were joined |
| Text.Lines | task_manager.py:8 | iterating a file yields non-empty lines that concatenate to the text; every line but the last ends in `'\n'`, and no line contains `'\n'` before its end |
| Text.LinesAppendLine | task_manager.py:33-34 | appending `"\n" + s` terminates the file's last line (or adds a blank line when there is none) and adds `s` as the new last line |
| Text.LineCount | task_manager.py:92-93 | the number of lines is the number of `'\n'` characters, plus one for an unterminated final piece |
| Records.ParseCredential | task_manager.py:9 | a line parses exactly when its stripped text splits into two fields; the credential is then written back as exactly the stripped line, and otherwise the error is the number of fields |
| Records.ParseTask | task_manager.py:61-62 | a line parses exactly when its stripped text splits into six fields; the task is then written back as exactly the stripped line, and otherwise the error is the number of fields |
| Records.ParseLines | task_manager.py:7-10 | a strict read gives one record per line in file order, or the index and field count of the first line that fails, with every line before it parsing |
| Records.ParseLinesSnoc | task_manager.py:8-10 | reading one more line at the end of a store adds that line's record, or fails at that line |
| Records.ReadAfterAppend | task_manager.py:33-34 | after `"\n" + line` is appended to a store that reads cleanly, the read gives the new record last; when the store was empty or ended in `'\n'`, it fails at the blank line with one field |
| Records.CredentialLineLayout | task_manager.py:34 | the credential line is the username, `", "`, then the password, character for character |
| Records.TaskLineLayout | task_manager.py:50-52 | the task line is assigned_to, title, description, assigned_date, due_date and task_complete in that order, separated by `", "` |
| Records.CredentialRoundTrip | task_manager.py:34 | a storable credential's written line parses back to the same credential, with or without a trailing `'\n'` |
| Records.TaskRoundTrip | task_manager.py:50-53 | a storable task's written line parses back to the same task, with or without a trailing `'\n'` |
| Records.ParseIgnoresLineEnd | task_manager.py:9 | a line parses to the same result with or without an added `'\n'` |
| Records.BlankLineIsMalformed | task_manager.py:9 | a blank line is a one-field line for both formats |
| Records.EmptyPasswordUnreadable | task_manager.py:30-34 | the line written for an empty password strips to a single field, so it does not parse |
| Users.Insert | task_manager.py:10 | after the assignments, the keys are the old keys plus every username assigned |
| Users.InsertLast | task_manager.py:10 | the last assignment to a username decides its password |
| Users.InsertUntouched | task_manager.py:10 | a key that no assignment names keeps its value |
| Users.InsertSnoc | task_manager.py:10 | one more assignment at the end is one more map update |
| Users.InsertSize | task_manager.py:10 | each assignment adds at most one key |
| Users.LoadUsers | task_manager.py:5-11 | the load succeeds exactly when every line parses, and otherwise reports the first bad line; the keys are exactly the usernames that some line names, each mapped to the password on the last line that names it |
| Users.Authenticate | task_manager.py:18 | a pair authenticates exactly when it is one of the (username, password) entries of `users` |
| Users.Login | task_manager.py:14-22 | the user who logs in is the username of the first pair that authenticates, and every earlier pair was rejected; with no such pair, input runs out |
| Users.LoginAgainstStore | task_manager.py:18 | against a freshly loaded store, a login succeeds exactly when the last line naming the username carries the typed password |
| Users.RegisterUser | task_manager.py:25-37 | a taken username is refused after one answer; otherwise the registration succeeds exactly when the password and its confirmation are equal, and registers those answers |
| Users.Written | task_manager.py:32-34 | `user.txt` only grows, and changes exactly when a credential is registered |
| Users.LoadAfterAppend | task_manager.py:128-129 | reloading after an append adds the credential as the last update, or fails at the blank line when the store was empty or ended in `'\n'` |
| Users.RegisterThenLogin | task_manager.py:126-129 | after a registration and reload, the new user logs in with the chosen password, and every other user logs in exactly as before |
| Users.RegisterTwiceIsRefused | task_manager.py:26-29 | after a reload, registering the same username again is refused after one answer and writes nothing |
| Users.RegisterIntoTerminatedStore | task_manager.py:33-34 | a registration written to an empty store, or to one ending in `'\n'`, makes the reload fail at the blank line |
| Users.EmptyPasswordBreaksReload | task_manager.py:30-34 | a confirmed empty password is accepted and written, and the reload then fails on that line |
| Tasks.DateText | task_manager.py:46 | the date stamp is 11 characters long, contains no `','` and no line break, and its first and last characters are digits, so it is a safe task field |
| Tasks.DateTextLayout | task_manager.py:46 | the stamp is laid out as `%d %b %Y`: two digits of the day, a space, the month's abbreviation, a space and four digits of the year |
| Tasks.DateRoundTrip | task_manager.py:46 | the stamp reads back as the date it was made from, so distinct dates give distinct stamps |
| Tasks.NewTask | task_manager.py:41-47 | a task is made exactly when four answers remain; it holds them as assignee, title, description and due date in the order asked, its date stamp reads back as today, and its completion is "No" |
| Tasks.AppendTask | task_manager.py:49-53 | `tasks.txt` only grows, and the appended text starts with `'\n'` |
| Tasks.NewTaskIsStorable | task_manager.py:41-53 | answers free of separators and line breaks give a task whose single written line reads back unchanged |
| Tasks.ViewAllTasks | task_manager.py:57-62 | every line is listed as the task it parses to, in file order, or the listing fails at the first line that does not split into six fields |
| Tasks.Scan | task_manager.py:75-79 | a scan keeps only records the test accepts and fails at the first bad line |
| Tasks.Keep | task_manager.py:79 | the kept records are those the test accepts, each as often as it occurs, and nothing else |
| Tasks.ScanIsKeep | task_manager.py:73-79 | scanning with a test is a strict read followed by keeping what the test accepts, with the same failure at the same line |
| Tasks.ViewMyTasks | task_manager.py:73-79 | only tasks assigned exactly to the user are listed, and the listing fails at the first line that does not parse |
| Tasks.Filter | task_manager.py:79 | the user's tasks, each as often as it occurs, and no task of another user |
| Tasks.ViewMineIsFilterOfAll | task_manager.py:73-79 | "view my tasks" is "view all tasks" restricted to the user's tasks in file order, and fails at the same line |
| Tasks.AddTaskThenView | task_manager.py:49-53 | on a store whose last line is unterminated, the added task appears last in both listings, exactly as entered |
| Tasks.AppendStorableTask | task_manager.py:49-53 | a task whose line reads back unchanged, appended to an unterminated store that lists cleanly, becomes the last task of both listings |
| Tasks.FilterSnoc | task_manager.py:79 | a task added at the end is the last of its assignee's tasks, after the ones already there |
| Tasks.AddTaskToTerminatedStore | task_manager.py:49-53 | a task added to an empty store, or to one ending in `'\n'`, makes both listings fail at the blank line |
| Statistics.DisplayStatistics | task_manager.py:90-97 | each total is the file's number of `'\n'` characters, plus one for an unterminated last line; blank and malformed lines count too |
| Statistics.TaskTotalIsListed | task_manager.py:91-93 | on a task store that lists cleanly, the task total is the number of tasks listed |
| Statistics.UserTotalBoundsUsers | task_manager.py:95-97 | on a user store that loads, the user total is at least the number of distinct users |
| Statistics.AddTaskCount | task_manager.py:91-93 | adding a task raises the task total by one, or by two when the store was empty or ended in `'\n'` |
| Statistics.RegisterCount | task_manager.py:95-97 | a registration raises the user total by one, or by two when the store was empty or ended in `'\n'` |
| Menu.Lower | task_manager.py:117 | the lowered choice has the same length, with each ASCII capital replaced by its small letter |
| Menu.Dispatch | task_manager.py:126-150 | each action is chosen exactly by its menu letters; "r" and "ds" act only for the admin, and "r" from anyone else is refused |
| Menu.MenuOptions | task_manager.py:109-124 | every user is offered "a", "va", "vm" and "e", and "r" and "ds" are offered exactly to the admin |
| Menu.MenuMatchesDispatch | task_manager.py:109-150 | every option the prompt lists is acted on, an unlisted choice other than "r" is invalid, and only the admin can register users or see statistics |
| Menu.Step | task_manager.py:108-150 | a pass consumes input, keeps the logged-in user, and only appends to the files; a non-admin pass never changes `user.txt` or `users`, and an admin pass that changes them leaves `users` equal to what `user.txt` reloads to; the pass stops exactly on a choice that lowers to "e" |
| Menu.StepFrame | task_manager.py:126-150 | refusing "r", listing, showing statistics and rejecting an invalid choice leave the session unchanged and read one answer; adding a task only appends its line to `tasks.txt`; only the register action can change `user.txt` or `users`, and only adding a task can change `tasks.txt` |
| Menu.RunLoop | task_manager.py:108-150 | over a whole run the user never changes, both files only grow, and a non-admin run never changes `user.txt` or `users` |
| Menu.RunKeepsCoherent | task_manager.py:126-129 | `users` stays equal to what `user.txt` loads to, unless a reload crashed the run |
| Menu.RunLeavesSuffix | task_manager.py:108-147 | a run that finishes leaves unread a proper suffix of its input |
| Menu.RunEndsAtExit | task_manager.py:145-147 | a run that finishes stopped at the answer just before the input it leaves unread, and that answer is a menu choice that dispatches to exit, that is, it lowers to "e" |
| Menu.RunProgram | task_manager.py:105-108 | the program reports an unreadable store exactly when `user.txt` does not load; it never logs in exactly when no (username, password) pair of the answers authenticates; otherwise it logs in the username of the first pair that does, and the loop runs on the answers after that pair, starting from the loaded users |
| Menu.ProgramKeepsCoherent | task_manager.py:105-129 | from start-up on, `users` is what `user.txt` loads to, unless a reload crashed the run |

## Left out

- File I/O: the files are their text. A missing `user.txt` or `tasks.txt` (`FileNotFoundError`) and a failing write are not modelled.
- Universal newlines: Python's text mode also ends lines at `"\r\n"` and a lone `'\r'`. The model ends lines only at `'\n'`. A `'\r'` is an ordinary character here, which `strip()` removes at the ends of a line. Because Python would split a stored line at a `'\r'` inside an answer, `Tasks.StorableAnswers` and `Users.Registrable` exclude `'\r'` as well as `'\n'`, so the round-trip results claim nothing for such answers.
- Character decoding: files are sequences of characters, so encodings and decoding errors are not modelled.
- Console output: prompts and the printed task blocks are not modelled; `Menu.Event` records what was shown. Tasks that `view_all_tasks` prints before it reaches a bad line are not part of the crash outcome.
- The clock: `datetime.now()` is the `today` parameter, so the model uses one date for the whole run.
- Tasks.DateText: covers years 1000–9999 only (`Tasks.ValidDate`), because `%Y` pads other years differently from platform to platform.
- Menu.Lower: lowers ASCII letters only, whereas `str.lower()` also lowers non-ASCII letters. The two differ only on a choice containing a non-ASCII character that lowers to one of the option letters.
- Menu.RunLoop: the `while True` loop and the `login` loop run over finite input, so an endless session is not modelled. Running out of input is the `EOFError` crash (`Menu.Fault.EndOfInput`), and `KeyboardInterrupt` is not modelled.
- Concurrency: the model assumes no other process writes the files during a run.
- `Capstone Project - Files/task_manager_EH.py`, the lenient variant of the program, is not part of this model.
