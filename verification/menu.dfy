/** The main loop of task_manager.py after login: each pass reads a menu
    choice, lower-cases it, and runs the matching action against the two
    stores, until the choice is "e". Every input() consumes one line of the
    operator's input; running out of input raises EOFError. */
module Menu {
  import opened Results
  import opened Records
  import opened Users
  import opened Tasks
  import opened Statistics

  /** The one username that gets the full menu. */
  const Admin: string := "admin"

  // ---------------------------------------------------------------------
  // Reading the choice

  function LowerChar(c: char): char
  {
    if 'A' <= c <= 'Z' then (c as int - 'A' as int + 'a' as int) as char else c
  }

  /** str.lower() on the choice, for the ASCII letters. */
  function Lower(s: string): (r: string)
    ensures |r| == |s|
    ensures forall i :: 0 <= i < |s| ==> r[i] == LowerChar(s[i])
  {
    if s == [] then [] else [LowerChar(s[0])] + Lower(s[1..])
  }

  /** What one pass of the loop does with the lowered choice. */
  datatype Action =
    | Register        // r, as admin: register_user then reload user.txt
    | Refuse          // r, as anyone else
    | AddTask         // a
    | ViewAll         // va
    | ViewMine        // vm
    | ShowStatistics  // ds, as admin
    | Exit            // e
    | Invalid         // anything else, including ds for a non-admin

  /** The if/elif chain on the lowered choice. */
  function Dispatch(choice: string, user: string): (a: Action)
    ensures a == Register <==> choice == "r" && user == Admin
    ensures a == Refuse <==> choice == "r" && user != Admin
    ensures a == AddTask <==> choice == "a"
    ensures a == ViewAll <==> choice == "va"
    ensures a == ViewMine <==> choice == "vm"
    ensures a == ShowStatistics <==> choice == "ds" && user == Admin
    ensures a == Exit <==> choice == "e"
  {
    if choice == "r" then (if user == Admin then Register else Refuse)
    else if choice == "a" then AddTask
    else if choice == "va" then ViewAll
    else if choice == "vm" then ViewMine
    else if choice == "ds" && user == Admin then ShowStatistics
    else if choice == "e" then Exit
    else Invalid
  }

  /** The options the prompt lists: the admin menu, or the shorter one. */
  function MenuOptions(user: string): (r: seq<string>)
    ensures "e" in r && "a" in r && "va" in r && "vm" in r
    ensures "r" in r <==> user == Admin
    ensures "ds" in r <==> user == Admin
  {
    if user == Admin then ["r", "a", "va", "vm", "ds", "e"] else ["a", "va", "vm", "e"]
  }

  /** The prompt and the dispatch agree: every listed option is acted on,
      a choice that is not listed is rejected as invalid (except "r",
      which a non-admin is told is reserved for the admin), and only the
      admin can register users or see statistics. */
  lemma MenuMatchesDispatch(choice: string, user: string)
    ensures choice in MenuOptions(user) ==> Dispatch(choice, user) !in {Invalid, Refuse}
    ensures choice !in MenuOptions(user) && choice != "r" ==> Dispatch(choice, user) == Invalid
    ensures user != Admin ==> Dispatch(choice, user) !in {Register, ShowStatistics}
  {
  }

  // ---------------------------------------------------------------------
  // One pass of the loop

  /** The program state between passes: who is logged in, the `users`
      dictionary, and the contents of user.txt and tasks.txt. */
  datatype Session = Session(user: string, users: map<string, string>, userFile: string, taskFile: string)

  /** `users` is what user.txt loads to, as right after load_users(). */
  predicate Coherent(s: Session)
  {
    LoadUsers(s.userFile) == Ok(s.users)
  }

  /** An uncaught exception that ends the program. */
  datatype Fault =
    | EndOfInput                   // EOFError from input()
    | BadUserStore(at: Malformed)  // ValueError in load_users()
    | BadTaskStore(at: Malformed)  // ValueError while listing tasks

  /** What a pass shows the operator. */
  datatype Event =
    | Registering(outcome: Registration)
    | Refused
    | TaskAdded(task: Task)
    | Listed(tasks: seq<Task>)
    | Shown(counts: Counts)
    | InvalidChoice

  datatype Outcome =
    | Continue(next: Session, event: Event, rest: seq<string>)
    | Stop(rest: seq<string>)
    | Crash(last: Session, fault: Fault)

  /** One pass of `while True`, reading from `input`; `today` is the date
      add_task stamps. A pass that continues has read at least the
      choice, keeps the logged-in user, and only ever appends to the two
      files; only the admin's register action touches user.txt, and after
      it `users` is what user.txt reloads to. */
  function Step(s: Session, input: seq<string>, today: Date): (o: Outcome)
    requires ValidDate(today)
    ensures o.Continue? ==> |o.rest| < |input| && o.rest == input[|input| - |o.rest|..]
    ensures o.Continue? ==> o.next.user == s.user
                            && s.userFile <= o.next.userFile && s.taskFile <= o.next.taskFile
    ensures o.Crash? ==> o.last.user == s.user
                         && s.userFile <= o.last.userFile && s.taskFile <= o.last.taskFile
    ensures s.user != Admin && o.Continue? ==> o.next.userFile == s.userFile && o.next.users == s.users
    ensures s.user != Admin && o.Crash? ==> o.last.userFile == s.userFile
    ensures o.Continue? ==> (o.next.userFile == s.userFile && o.next.users == s.users)
                            || LoadUsers(o.next.userFile) == Ok(o.next.users)
    ensures o.Crash? ==> (o.last.userFile == s.userFile && o.last.users == s.users)
                         || o.fault.BadUserStore?
    ensures input != [] && Dispatch(Lower(input[0]), s.user) == Exit <==> o.Stop?
    ensures o.Stop? ==> o.rest == input[1..]
  {
    if input == [] then Crash(s, EndOfInput)
    else
      var rest := input[1..];
      match Dispatch(Lower(input[0]), s.user)
      case Register =>
        (match RegisterUser(s.users, rest)
         case None => Crash(s, EndOfInput)
         case Some((reg, n)) =>
           var file := Written(s.userFile, reg);
           match LoadUsers(file)
           case Err(e) => Crash(s.(userFile := file), BadUserStore(e))
           case Ok(users) => Continue(s.(users := users, userFile := file), Registering(reg), rest[n..]))
      case Refuse => Continue(s, Refused, rest)
      case AddTask =>
        (match NewTask(rest, today)
         case None => Crash(s, EndOfInput)
         case Some(t) => Continue(s.(taskFile := AppendTask(s.taskFile, t)), TaskAdded(t), rest[4..]))
      case ViewAll =>
        (match ViewAllTasks(s.taskFile)
         case Err(e) => Crash(s, BadTaskStore(e))
         case Ok(all) => Continue(s, Listed(all), rest))
      case ViewMine =>
        (match ViewMyTasks(s.taskFile, s.user)
         case Err(e) => Crash(s, BadTaskStore(e))
         case Ok(mine) => Continue(s, Listed(mine), rest))
      case ShowStatistics => Continue(s, Shown(DisplayStatistics(s.taskFile, s.userFile)), rest)
      case Exit => Stop(rest)
      case Invalid => Continue(s, InvalidChoice, rest)
  }

  /** What a pass leaves alone: refusing, listing, showing statistics and
      rejecting a choice change nothing; adding a task only appends its
      line to tasks.txt; and only the admin's register action can touch
      user.txt or `users`. */
  lemma StepFrame(s: Session, input: seq<string>, today: Date)
    requires ValidDate(today)
    ensures var o := Step(s, input, today);
            input != [] && o.Continue?
            && Dispatch(Lower(input[0]), s.user) in {Refuse, ViewAll, ViewMine, ShowStatistics, Invalid} ==>
              o.next == s && o.rest == input[1..]
    ensures var o := Step(s, input, today);
            input != [] && o.Continue? && Dispatch(Lower(input[0]), s.user) == AddTask ==>
              && o.event.TaskAdded? && |input| >= 5 && o.rest == input[5..]
              && o.next == s.(taskFile := AppendTask(s.taskFile, o.event.task))
    ensures var o := Step(s, input, today);
            input == [] || Dispatch(Lower(input[0]), s.user) != Register ==>
              && (o.Continue? ==> o.next.userFile == s.userFile && o.next.users == s.users)
              && (o.Crash? ==> o.last.userFile == s.userFile && o.last.users == s.users)
    ensures var o := Step(s, input, today);
            input == [] || Dispatch(Lower(input[0]), s.user) != AddTask ==>
              && (o.Continue? ==> o.next.taskFile == s.taskFile)
              && (o.Crash? ==> o.last.taskFile == s.taskFile)
  {
    if input != [] {
      match Dispatch(Lower(input[0]), s.user)
      case Register =>
      case AddTask =>
      case Exit =>
      case _ =>
    }
  }

  // ---------------------------------------------------------------------
  // The whole loop

  datatype Run =
    | Finished(final: Session, events: seq<Event>, rest: seq<string>)  // rest: the answers after the "e"
    | Crashed(final: Session, events: seq<Event>, fault: Fault)

  /** The loop run to its end on the operator's whole input: it finishes
      at the first "e" choice, or crashes. The logged-in user never
      changes, both files only grow, and a non-admin session never changes
      user.txt or `users`. */
  function RunLoop(s: Session, input: seq<string>, today: Date): (r: Run)
    requires ValidDate(today)
    ensures r.final.user == s.user
    ensures s.userFile <= r.final.userFile && s.taskFile <= r.final.taskFile
    ensures s.user != Admin ==> r.final.userFile == s.userFile && r.final.users == s.users
    ensures |r.events| <= |input|
    decreases |input|
  {
    match Step(s, input, today)
    case Stop(after) => Finished(s, [], after)
    case Crash(last, fault) => Crashed(last, [], fault)
    case Continue(next, event, rest) =>
      match RunLoop(next, rest, today)
      case Finished(final, events, after) => Finished(final, [event] + events, after)
      case Crashed(final, events, fault) => Crashed(final, [event] + events, fault)
  }

  /** `users` stays in step with user.txt for the whole run, unless a
      reload of user.txt is what crashed it. */
  lemma {:induction false} RunKeepsCoherent(s: Session, input: seq<string>, today: Date)
    requires ValidDate(today) && Coherent(s)
    ensures var r := RunLoop(s, input, today);
            !(r.Crashed? && r.fault.BadUserStore?) ==> Coherent(r.final)
    decreases |input|
  {
    match Step(s, input, today)
    case Stop(_) =>
    case Crash(last, fault) =>
    case Continue(next, event, rest) =>
      RunKeepsCoherent(next, rest, today);
  }

  /** A finished run leaves unread a proper suffix of its input. */
  lemma {:induction false} RunLeavesSuffix(s: Session, input: seq<string>, today: Date)
    requires ValidDate(today)
    ensures var r := RunLoop(s, input, today);
            r.Finished? ==> |r.rest| < |input| && r.rest == input[|input| - |r.rest|..]
    decreases |input|
  {
    var o := Step(s, input, today);
    if o.Continue? {
      RunLeavesSuffix(o.next, o.rest, today);
      var r := RunLoop(o.next, o.rest, today);
      if r.Finished? {
        SuffixOfSuffix(input, o.rest, r.rest);
      }
    }
  }

  /** The answer right before the last `|rest|` answers of `input` is a
      menu choice that dispatches to Exit, so it lowers to "e". */
  predicate ExitBefore(input: seq<string>, rest: seq<string>, user: string)
  {
    |rest| < |input| && Dispatch(Lower(input[|input| - |rest| - 1]), user) == Exit
  }

  /** A run that finishes stopped at a menu choice that dispatches to
      Exit (so it lowers to "e"): the answer right before the input it
      leaves unread. */
  lemma {:induction false} RunEndsAtExit(s: Session, input: seq<string>, today: Date)
    requires ValidDate(today)
    ensures var r := RunLoop(s, input, today);
            r.Finished? ==> ExitBefore(input, r.rest, s.user)
    decreases |input|
  {
    match Step(s, input, today)
    case Stop(_) =>
    case Crash(_, _) =>
    case Continue(next, _, rest) =>
      RunEndsAtExit(next, rest, today);
      var r := RunLoop(next, rest, today);
      if r.Finished? {
        ExitIndexShifts(input, rest, r.rest, s.user);
      }
  }

  /** The answer at an index counted from the end of a suffix of `input` is
      the answer at that index counted from the end of `input`. */
  lemma ExitIndexShifts(input: seq<string>, rest: seq<string>, tail: seq<string>, user: string)
    requires |rest| < |input| && rest == input[|input| - |rest|..]
    requires ExitBefore(rest, tail, user)
    ensures ExitBefore(input, tail, user)
  {
    assert rest[|rest| - |tail| - 1] == input[|input| - |tail| - 1];
  }

  /** A suffix of a suffix of `input` is a suffix of `input`, and the
      element before it is the same in both. */
  lemma SuffixOfSuffix(input: seq<string>, rest: seq<string>, tail: seq<string>)
    requires |rest| <= |input| && rest == input[|input| - |rest|..]
    requires |tail| < |rest| && tail == rest[|rest| - |tail|..]
    ensures tail == input[|input| - |tail|..]
    ensures rest[|rest| - |tail| - 1] == input[|input| - |tail| - 1]
  {
  }

  // ---------------------------------------------------------------------
  // The program from start-up

  /** How the program goes from its start: load_users() on user.txt,
      login() on the first answers, then the loop on the rest. */
  datatype Program =
    | StoreUnreadable(at: Malformed)             // load_users() raised ValueError
    | NeverLoggedIn                              // input ran out at the login prompts
    | LoggedIn(user: string, read: nat, run: Run)  // read: answers login() consumed

  /** The program on the two files it starts from and the operator's whole
      input. It reports an unreadable store exactly when user.txt does not
      load; otherwise it logs in the username of the first (username,
      password) pair that authenticates, and never logs in when no pair
      does. The loop then runs on the answers after that pair, starting
      from the loaded users. */
  function RunProgram(userFile: string, taskFile: string, input: seq<string>, today: Date): (p: Program)
    requires ValidDate(today)
    ensures p.StoreUnreadable? <==> LoadUsers(userFile).Err?
    ensures p.StoreUnreadable? ==> LoadUsers(userFile) == Err(p.at)
    ensures p.NeverLoggedIn? <==>
              && LoadUsers(userFile).Ok?
              && forall j :: 0 <= j < |input| / 2 ==>
                   !Authenticate(LoadUsers(userFile).value, input[2 * j], input[2 * j + 1])
    ensures p.LoggedIn? ==>
              && LoadUsers(userFile).Ok?
              && 2 <= p.read <= |input| && p.read % 2 == 0
              && input[p.read - 2] == p.user
              && Authenticate(LoadUsers(userFile).value, input[p.read - 2], input[p.read - 1])
              && forall j :: 0 <= j < p.read / 2 - 1 ==>
                   !Authenticate(LoadUsers(userFile).value, input[2 * j], input[2 * j + 1])
    ensures p.LoggedIn? ==>
              p.run == RunLoop(Session(p.user, LoadUsers(userFile).value, userFile, taskFile), input[p.read..], today)
    ensures p.LoggedIn? ==> p.run.final.user == p.user
                            && userFile <= p.run.final.userFile && taskFile <= p.run.final.taskFile
  {
    match LoadUsers(userFile)
    case Err(e) => StoreUnreadable(e)
    case Ok(users) =>
      match Login(users, input)
      case None => NeverLoggedIn
      case Some((user, n)) =>
        assert 2 * ((n - 2) / 2) == n - 2 && (n - 2) / 2 < |input| / 2;
        LoggedIn(user, n, RunLoop(Session(user, users, userFile, taskFile), input[n..], today))
  }

  /** From start-up on, `users` stays in step with user.txt, unless a
      reload of user.txt is what crashed the run. */
  lemma ProgramKeepsCoherent(userFile: string, taskFile: string, input: seq<string>, today: Date)
    requires ValidDate(today)
    ensures var p := RunProgram(userFile, taskFile, input, today);
            p.LoggedIn? && !(p.run.Crashed? && p.run.fault.BadUserStore?) ==> Coherent(p.run.final)
  {
    match LoadUsers(userFile)
    case Err(e) =>
    case Ok(users) =>
      match Login(users, input)
      case None =>
      case Some((user, n)) =>
        RunKeepsCoherent(Session(user, users, userFile, taskFile), input[n..], today);
  }
}
