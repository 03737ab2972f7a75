/** The task store of task_manager.py: the line add_task appends to
    tasks.txt, and the two strict readers view_all_tasks and
    view_my_tasks. */
module Tasks {
  import opened Results
  import opened Text
  import opened Records

  // ---------------------------------------------------------------------
  // The assigned-date stamp

  /** A calendar date as datetime.now() supplies it. */
  datatype Date = Date(day: nat, month: nat, year: nat)

  /** A date the clock can report: day of month, month 1..12, and a
      four-digit year. */
  predicate ValidDate(d: Date)
  {
    1 <= d.day <= 31 && 1 <= d.month <= 12 && 1000 <= d.year <= 9999
  }

  /** strftime's "%b" in the C locale. */
  const MonthAbbreviations: seq<string> :=
    ["Jan", "Feb", "Mar", "Apr", "May", "Jun", "Jul", "Aug", "Sep", "Oct", "Nov", "Dec"]

  function DigitChar(n: nat): (c: char)
    requires n < 10
    ensures '0' <= c <= '9' && DigitValue(c) == n
  {
    ('0' as int + n) as char
  }

  function DigitValue(c: char): int
  {
    c as int - '0' as int
  }

  /** `strftime("%d %b %Y")`: two-digit day, month abbreviation, four-digit
      year, separated by single spaces. The stamp is one field of a task
      line: it holds no ", " and no line break, and it starts and ends
      with a digit. */
  function DateText(d: Date): (r: string)
    requires ValidDate(d)
    ensures |r| == 11
    ensures ',' !in r && '\n' !in r
    ensures !HasSep(r) && CleanStart(r) && CleanEnd(r)
    ensures '0' <= r[0] <= '9' && '0' <= r[10] <= '9'
  {
    var month := MonthAbbreviations[d.month - 1];
    assert ',' !in month && '\n' !in month && |month| == 3;
    var r := [DigitChar(d.day / 10), DigitChar(d.day % 10), ' ']
             + month
             + [' ', DigitChar(d.year / 1000), DigitChar(d.year / 100 % 10),
                DigitChar(d.year / 10 % 10), DigitChar(d.year % 10)];
    assert !HasSep(r) by {
      forall i | 0 <= i < |r| ensures !SepAt(r, i) {
        assert r[i] in r;
      }
    }
    r
  }

  /** The stamp has the "%d %b %Y" layout that ReadDate accepts, and each
      part holds the digits or the month of the date. */
  lemma DateTextLayout(d: Date)
    requires ValidDate(d)
    ensures StampLayout(DateText(d))
    ensures MonthNumber(DateText(d)[3..6]) == d.month
    ensures var r := DateText(d);
            && DigitValue(r[0]) == d.day / 10 && DigitValue(r[1]) == d.day % 10
            && DigitValue(r[7]) == d.year / 1000 && DigitValue(r[8]) == d.year / 100 % 10
            && DigitValue(r[9]) == d.year / 10 % 10 && DigitValue(r[10]) == d.year % 10
  {
    var r := DateText(d);
    MonthRoundTrip(d.month);
    assert r[3..6] == MonthAbbreviations[d.month - 1];
  }

  /** 1..12 for a month abbreviation, 0 for anything else. */
  function MonthNumber(name: string): (m: nat)
    ensures m <= 12
    ensures m != 0 ==> MonthAbbreviations[m - 1] == name
  {
    if name == "Jan" then 1 else if name == "Feb" then 2 else if name == "Mar" then 3
    else if name == "Apr" then 4 else if name == "May" then 5 else if name == "Jun" then 6
    else if name == "Jul" then 7 else if name == "Aug" then 8 else if name == "Sep" then 9
    else if name == "Oct" then 10 else if name == "Nov" then 11 else if name == "Dec" then 12
    else 0
  }

  predicate IsDigit(c: char)
  {
    '0' <= c <= '9'
  }

  /** The "%d %b %Y" layout: two digits, a space, a month abbreviation, a
      space, four digits. */
  predicate StampLayout(s: string)
  {
    && |s| == 11
    && IsDigit(s[0]) && IsDigit(s[1]) && s[2] == ' '
    && MonthNumber(s[3..6]) != 0
    && s[6] == ' ' && IsDigit(s[7]) && IsDigit(s[8]) && IsDigit(s[9]) && IsDigit(s[10])
  }

  lemma MonthRoundTrip(m: nat)
    requires 1 <= m <= 12
    ensures MonthNumber(MonthAbbreviations[m - 1]) == m
  {
  }

  /** Reads a "%d %b %Y" stamp back; None when the text is not one. */
  function ReadDate(s: string): (r: Option<Date>)
    ensures r.Some? <==> StampLayout(s)
    ensures r.Some? ==> r.value.month == MonthNumber(s[3..6]) && r.value.day <= 99 && r.value.year <= 9999
  {
    if !StampLayout(s) then None
    else
      var day := 10 * DigitValue(s[0]) + DigitValue(s[1]);
      var year := 1000 * DigitValue(s[7]) + 100 * DigitValue(s[8]) + 10 * DigitValue(s[9]) + DigitValue(s[10]);
      Some(Date(day, MonthNumber(s[3..6]), year))
  }

  /** The stamp names the date it was made from: distinct dates give
      distinct stamps. */
  lemma DateRoundTrip(d: Date)
    requires ValidDate(d)
    ensures ReadDate(DateText(d)) == Some(d)
  {
    var r := DateText(d);
    DateTextLayout(d);
    assert 10 * DigitValue(r[0]) + DigitValue(r[1]) == d.day by {
      TwoDigits(d.day);
    }
    assert 1000 * DigitValue(r[7]) + 100 * DigitValue(r[8]) + 10 * DigitValue(r[9]) + DigitValue(r[10]) == d.year by {
      FourDigits(d.year);
    }
  }

  lemma TwoDigits(n: nat)
    requires n < 100
    ensures 10 * (n / 10) + n % 10 == n
  {
  }

  lemma FourDigits(n: nat)
    requires n < 10000
    ensures 1000 * (n / 1000) + 100 * (n / 100 % 10) + 10 * (n / 10 % 10) + n % 10 == n
  {
    assert n / 100 == 10 * (n / 1000) + n / 100 % 10;
    assert n / 10 == 10 * (n / 100) + n / 10 % 10;
  }

  // ---------------------------------------------------------------------
  // add_task

  /** add_task fed the operator's answers in order (assignee, title,
      description, due date): the four answers are kept as typed, the
      assigned date is a stamp that reads back as today, and the task is
      not complete. None means input ran out before the fourth answer. */
  function NewTask(answers: seq<string>, today: Date): (r: Option<Task>)
    requires ValidDate(today)
    ensures r.Some? <==> |answers| >= 4
    ensures r.Some? ==> [r.value.assignedTo, r.value.title, r.value.description, r.value.dueDate] == answers[..4]
    ensures r.Some? ==> ReadDate(r.value.assignedDate) == Some(today)
    ensures r.Some? ==> r.value.complete == "No"
  {
    if |answers| < 4 then None
    else
      DateRoundTrip(today);
      Some(Task(answers[0], answers[1], answers[2], DateText(today), answers[3], "No"))
  }

  /** tasks.txt after add_task: the line "\n{fields joined by ', '}"
      appended at the end. */
  function AppendTask(file: string, t: Task): (r: string)
    ensures file < r && r[|file|] == '\n'
  {
    file + "\n" + TaskLine(t)
  }

  /** Answers that add_task writes as a line which reads back unchanged:
      none holds ", " or a line break ('\n', or the '\r' that Python's
      text mode also ends a line at), and the assignee does not start
      with a space. */
  predicate StorableAnswers(answers: seq<string>)
  {
    && |answers| >= 4
    && (forall i :: 0 <= i < 4 ==> !HasSep(answers[i]) && '\n' !in answers[i] && '\r' !in answers[i])
    && CleanStart(answers[0])
  }

  lemma NewTaskIsStorable(answers: seq<string>, today: Date)
    requires ValidDate(today) && StorableAnswers(answers)
    ensures StorableTask(NewTask(answers, today).value)
    ensures TaskLine(NewTask(answers, today).value) != []
    ensures '\n' !in TaskLine(NewTask(answers, today).value)
  {
    var t := NewTask(answers, today).value;
    var fields := TaskFields(t);
    assert !HasSep("No") by {
      assert !SepAt("No", 0) && !SepAt("No", 1);
    }
    assert forall i :: 0 <= i < 6 ==> '\n' !in fields[i];
    JoinIsOneLine(fields);
    assert TaskLine(t) == fields[0] + ", " + Join(fields[1..]);
  }

  // ---------------------------------------------------------------------
  // Reading tasks.txt

  /** view_all_tasks: every line unpacked into six fields, in file order;
      the first line that does not split into six aborts the listing. */
  function ViewAllTasks(text: string): (r: Result<seq<Task>, Malformed>)
    ensures var lines := Lines(text);
            r.Ok? ==> |r.value| == |lines|
                      && forall i :: 0 <= i < |lines| ==> ParseTask(lines[i]) == Ok(r.value[i])
    ensures var lines := Lines(text);
            r.Err? ==> r.error.index < |lines|
                       && ParseTask(lines[r.error.index]) == Err(r.error.fields)
                       && forall i :: 0 <= i < r.error.index ==> ParseTask(lines[i]).Ok?
  {
    ParseLines(Lines(text), ParseTask)
  }

  /** The loop of view_my_tasks, for any line format and any test on
      records: each line is unpacked in turn (a bad line aborts, reported
      by its index) and the record is kept when `keep` accepts it. */
  function Scan<T>(lines: seq<string>, parse: string -> Result<T, nat>, keep: T -> bool): (r: Result<seq<T>, Malformed>)
    ensures r.Ok? ==> forall i :: 0 <= i < |lines| ==> parse(lines[i]).Ok?
    ensures r.Ok? ==> |r.value| <= |lines| && forall i :: 0 <= i < |r.value| ==> keep(r.value[i])
    ensures r.Err? ==> r.error.index < |lines|
                       && parse(lines[r.error.index]) == Err(r.error.fields)
                       && forall i :: 0 <= i < r.error.index ==> parse(lines[i]).Ok?
    decreases |lines|
  {
    if lines == [] then Ok([])
    else
      var init := lines[..|lines| - 1];
      assert forall i :: 0 <= i < |init| ==> init[i] == lines[i];
      match Scan(init, parse, keep)
      case Err(e) => Err(e)
      case Ok(kept) =>
        match parse(lines[|lines| - 1])
        case Err(n) => Err(Malformed(|lines| - 1, n))
        case Ok(v) => Ok(if keep(v) then kept + [v] else kept)
  }

  /** The records `keep` accepts, in their order. */
  function Keep<T(!new)>(all: seq<T>, keep: T -> bool): (r: seq<T>)
    ensures forall i :: 0 <= i < |r| ==> keep(r[i])
    ensures forall x :: keep(x) ==> multiset(r)[x] == multiset(all)[x]
    ensures forall x :: !keep(x) ==> multiset(r)[x] == 0
    decreases |all|
  {
    if all == [] then []
    else
      var init := all[..|all| - 1];
      var last := all[|all| - 1];
      assert all == init + [last];
      if keep(last) then Keep(init, keep) + [last] else Keep(init, keep)
  }

  /** Scanning with a test is reading strictly and then keeping what the
      test accepts: the same records in the same order, and the same
      failure at the same line. */
  lemma {:induction false} ScanIsKeep<T(!new)>(lines: seq<string>, parse: string -> Result<T, nat>, keep: T -> bool)
    ensures ParseLines(lines, parse).Err? ==> Scan(lines, parse, keep) == Err(ParseLines(lines, parse).error)
    ensures ParseLines(lines, parse).Ok? ==> Scan(lines, parse, keep) == Ok(Keep(ParseLines(lines, parse).value, keep))
    decreases |lines|
  {
    if lines != [] {
      var init := lines[..|lines| - 1];
      var last := lines[|lines| - 1];
      assert lines == init + [last];
      ScanIsKeep(init, parse, keep);
      ParseLinesSnoc(init, last, parse);
      match ParseLines(init, parse)
      case Err(e) =>
        assert ParseLines(lines, parse) == Err(e);
        assert Scan(lines, parse, keep) == Err(e);
      case Ok(vs) =>
        match parse(last)
        case Err(n) =>
          assert ParseLines(lines, parse) == Err(Malformed(|init|, n));
          assert Scan(lines, parse, keep) == Err(Malformed(|init|, n));
        case Ok(v) =>
          var kept := Keep(vs, keep);
          assert Scan(init, parse, keep) == Ok(kept);
          assert Keep(vs + [v], keep) == (if keep(v) then kept + [v] else kept) by {
            assert (vs + [v])[..|vs|] == vs;
          }
          assert Scan(lines, parse, keep) == Ok(if keep(v) then kept + [v] else kept);
          assert ParseLines(lines, parse) == Ok(vs + [v]);
    } else {
      assert ParseLines(lines, parse) == Ok([]);
      assert Scan(lines, parse, keep) == Ok([]);
      assert Keep([], keep) == [];
    }
  }

  /** view_my_tasks' test `user == logged_in_user`. */
  function IsAssignedTo(user: string): Task -> bool
  {
    (t: Task) => t.assignedTo == user
  }

  /** view_my_tasks(logged_in_user): only tasks whose assignee is exactly
      the user are listed, and it fails exactly when view_all_tasks does. */
  function ViewMyTasks(text: string, user: string): (r: Result<seq<Task>, Malformed>)
    ensures r.Ok? ==> forall i :: 0 <= i < |r.value| ==> r.value[i].assignedTo == user
    ensures r.Err? ==> var lines := Lines(text);
                       && r.error.index < |lines| && ParseTask(lines[r.error.index]) == Err(r.error.fields)
                       && forall i :: 0 <= i < r.error.index ==> ParseTask(lines[i]).Ok?
  {
    Scan(Lines(text), ParseTask, IsAssignedTo(user))
  }

  /** The tasks of `all` assigned to `user`, in their order: each of them,
      as many times as it occurs, and nothing else. */
  function Filter(all: seq<Task>, user: string): (r: seq<Task>)
    ensures forall i :: 0 <= i < |r| ==> r[i].assignedTo == user
    ensures forall t: Task :: t.assignedTo == user ==> multiset(r)[t] == multiset(all)[t]
    ensures forall t: Task :: t.assignedTo != user ==> multiset(r)[t] == 0
  {
    Keep(all, IsAssignedTo(user))
  }

  /** view_my_tasks shows what view_all_tasks shows, restricted to the
      tasks whose assignee is the logged-in user, in file order, and it
      fails at the same line when the store is malformed. */
  lemma ViewMineIsFilterOfAll(text: string, user: string)
    ensures ViewAllTasks(text).Err? ==> ViewMyTasks(text, user) == Err(ViewAllTasks(text).error)
    ensures ViewAllTasks(text).Ok? ==> ViewMyTasks(text, user) == Ok(Filter(ViewAllTasks(text).value, user))
  {
    ScanIsKeep(Lines(text), ParseTask, IsAssignedTo(user));
  }

  lemma TaskParseFacts()
    ensures forall x :: ParseTask(x + "\n") == ParseTask(x)
    ensures ParseTask("\n") == Err(1)
  {
    forall x ensures ParseTask(x + "\n") == ParseTask(x) {
      ParseIgnoresLineEnd(x);
    }
    BlankLineIsMalformed();
  }

  /** A task added to a tasks.txt whose last line is unterminated appears
      last in view_all_tasks, exactly as entered, and last among the
      assignee's own tasks in view_my_tasks. */
  lemma AddTaskThenView(file: string, answers: seq<string>, today: Date)
    requires ViewAllTasks(file).Ok?
    requires file != [] && file[|file| - 1] != '\n'
    requires ValidDate(today) && StorableAnswers(answers)
    ensures var t := NewTask(answers, today).value;
            var after := AppendTask(file, t);
            && ViewAllTasks(after) == Ok(ViewAllTasks(file).value + [t])
            && ViewMyTasks(after, t.assignedTo) == Ok(Filter(ViewAllTasks(file).value, t.assignedTo) + [t])
  {
    NewTaskIsStorable(answers, today);
    AppendStorableTask(file, NewTask(answers, today).value);
  }

  /** Any storable one-line task appended to a tasks.txt whose last line is
      unterminated is listed last by both views. */
  lemma AppendStorableTask(file: string, t: Task)
    requires ViewAllTasks(file).Ok?
    requires file != [] && file[|file| - 1] != '\n'
    requires StorableTask(t) && TaskLine(t) != [] && '\n' !in TaskLine(t)
    ensures var after := AppendTask(file, t);
            && ViewAllTasks(after) == Ok(ViewAllTasks(file).value + [t])
            && ViewMyTasks(after, t.assignedTo) == Ok(Filter(ViewAllTasks(file).value, t.assignedTo) + [t])
  {
    TaskRoundTrip(t);
    AppendedTaskListed(file, t);
    ViewMineIsFilterOfAll(AppendTask(file, t), t.assignedTo);
    FilterSnoc(ViewAllTasks(file).value, t);
  }

  lemma AppendedTaskListed(file: string, t: Task)
    requires ViewAllTasks(file).Ok?
    requires file != [] && file[|file| - 1] != '\n'
    requires ParseTask(TaskLine(t)) == Ok(t) && TaskLine(t) != [] && '\n' !in TaskLine(t)
    ensures ViewAllTasks(AppendTask(file, t)) == Ok(ViewAllTasks(file).value + [t])
  {
    TaskParseFacts();
    ReadAfterAppend(file, TaskLine(t), ParseTask);
  }

  /** A task appended to a list is kept last among its assignee's tasks. */
  lemma FilterSnoc(all: seq<Task>, t: Task)
    ensures Filter(all + [t], t.assignedTo) == Filter(all, t.assignedTo) + [t]
  {
    assert (all + [t])[..|all|] == all;
  }

  /** The first task added to an empty tasks.txt, or any task added after
      a final '\n', leaves a blank line before it, and both listings then
      fail at that line. */
  lemma AddTaskToTerminatedStore(file: string, t: Task)
    requires ViewAllTasks(file).Ok?
    requires file == [] || file[|file| - 1] == '\n'
    requires TaskLine(t) != [] && '\n' !in TaskLine(t)
    ensures ViewAllTasks(AppendTask(file, t)) == Err(Malformed(|Lines(file)|, 1))
    ensures forall user :: ViewMyTasks(AppendTask(file, t), user) == Err(Malformed(|Lines(file)|, 1))
  {
    TaskParseFacts();
    ReadAfterAppend(file, TaskLine(t), ParseTask);
    forall user ensures ViewMyTasks(AppendTask(file, t), user) == Err(Malformed(|Lines(file)|, 1)) {
      ViewMineIsFilterOfAll(AppendTask(file, t), user);
    }
  }
}
