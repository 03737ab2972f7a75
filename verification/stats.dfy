/** display_statistics of task_manager.py: the two totals it prints are
    raw line counts of tasks.txt and user.txt, taken without parsing. */
module Statistics {
  import opened Text
  import opened Records
  import opened Users
  import opened Tasks

  /** The two totals display_statistics prints. */
  datatype Counts = Counts(tasks: nat, users: nat)

  /** The number of lines readlines() returns, read off the text: one per
      '\n', plus one for an unterminated last line. */
  function LineTotal(t: string): nat
  {
    multiset(t)['\n'] + (if t != [] && t[|t| - 1] != '\n' then 1 else 0)
  }

  /** display_statistics: `len(readlines())` of tasks.txt and of
      user.txt. Blank and malformed lines are counted like any other, so
      each total is the file's number of '\n' characters, plus one when
      the file ends in an unterminated line. */
  function DisplayStatistics(taskText: string, userText: string): (r: Counts)
    ensures r.tasks == LineTotal(taskText)
    ensures r.users == LineTotal(userText)
  {
    ReadlinesTotal(taskText);
    ReadlinesTotal(userText);
    Counts(|Lines(taskText)|, |Lines(userText)|)
  }

  lemma ReadlinesTotal(t: string)
    ensures |Lines(t)| == LineTotal(t)
  {
    LineCount(t);
  }

  /** On a tasks.txt that view_all_tasks lists in full, the task total is
      the number of tasks listed. */
  lemma TaskTotalIsListed(taskText: string, userText: string)
    requires ViewAllTasks(taskText).Ok?
    ensures DisplayStatistics(taskText, userText).tasks == |ViewAllTasks(taskText).value|
  {
  }

  /** The user total counts lines, not users: on a user.txt that loads, it
      is at least the number of distinct usernames (a username on several
      lines is counted once per line). */
  lemma UserTotalBoundsUsers(taskText: string, userText: string)
    requires LoadUsers(userText).Ok?
    ensures |LoadUsers(userText).value| <= DisplayStatistics(taskText, userText).users
  {
    var creds := ParseLines(Lines(userText), ParseCredential).value;
    InsertSize(map[], creds);
  }

  /** One add_task raises the task total by one, or by two when tasks.txt
      was empty or ended in '\n' (the blank line is counted too). */
  lemma AddTaskCount(taskText: string, userText: string, t: Task)
    requires '\n' !in TaskLine(t)
    ensures var before := DisplayStatistics(taskText, userText).tasks;
            var after := DisplayStatistics(AppendTask(taskText, t), userText).tasks;
            after == before + (if taskText == [] || taskText[|taskText| - 1] == '\n' then 2 else 1)
  {
    assert TaskLine(t) == t.assignedTo + ", " + Join(TaskFields(t)[1..]);
    AppendCount(taskText, TaskLine(t));
  }

  /** One registration raises the user total by one, or by two when
      user.txt was empty or ended in '\n'. */
  lemma RegisterCount(taskText: string, userText: string, c: Credential)
    requires '\n' !in c.username && '\n' !in c.password
    ensures var before := DisplayStatistics(taskText, userText).users;
            var after := DisplayStatistics(taskText, Written(userText, Registered(c))).users;
            after == before + (if userText == [] || userText[|userText| - 1] == '\n' then 2 else 1)
  {
    CredentialLineIsOneLine(c);
    AppendCount(userText, CredentialLine(c));
  }

  lemma AppendCount(text: string, line: string)
    requires line != [] && '\n' !in line
    ensures LineTotal(text + "\n" + line) ==
              LineTotal(text) + (if text == [] || text[|text| - 1] == '\n' then 2 else 1)
  {
    var after := text + "\n" + line;
    assert multiset(after) == multiset(text) + multiset{'\n'} + multiset(line);
    assert after[|after| - 1] == line[|line| - 1];
    assert line[|line| - 1] in line;
  }
}
