/** The two record formats of task_manager.py and the strict line-by-line
    reading shared by both stores: a line is stripped, split on ", ", and
    unpacked into a fixed number of names; any other field count raises
    ValueError, which nothing catches. */
module Records {
  import opened Results
  import opened Text

  /** One line of user.txt. */
  datatype Credential = Credential(username: string, password: string)

  /** One line of tasks.txt; every field is kept as the text on file
      (completion is the literal "Yes" or "No"). */
  datatype Task = Task(
    assignedTo: string,
    title: string,
    description: string,
    assignedDate: string,
    dueDate: string,
    complete: string)

  /** Line `index` (counted from 0) of a store unpacked into the wrong
      number of names: it split into `fields` fields. */
  datatype Malformed = Malformed(index: nat, fields: nat)

  function CredentialFields(c: Credential): seq<string>
  {
    [c.username, c.password]
  }

  function TaskFields(t: Task): seq<string>
  {
    [t.assignedTo, t.title, t.description, t.assignedDate, t.dueDate, t.complete]
  }

  /** The f-string "{username}, {password}" that register_user writes after
      its leading "\n". */
  function CredentialLine(c: Credential): string
  {
    Join(CredentialFields(c))
  }

  /** The f-string add_task writes after its leading "\n": the six fields
      in the order assigned_to, title, description, assigned_date,
      due_date, task_complete. */
  function TaskLine(t: Task): string
  {
    Join(TaskFields(t))
  }

  /** The credential line is "{username}, {password}", character for
      character. */
  lemma CredentialLineLayout(c: Credential)
    ensures CredentialLine(c) == c.username + ", " + c.password
  {
    var f := CredentialFields(c);
    assert f[1..] == [c.password];
    assert Join(f[1..]) == c.password;
  }

  /** The task line is the six fields in the order assigned_to, title,
      description, assigned_date, due_date, task_complete, each pair
      separated by ", ". */
  lemma TaskLineLayout(t: Task)
    ensures TaskLine(t) == t.assignedTo + ", " + t.title + ", " + t.description + ", "
                           + t.assignedDate + ", " + t.dueDate + ", " + t.complete
  {
    var f := TaskFields(t);
    assert f[5..] == [t.complete];
    assert Join(f[5..]) == t.complete;
    JoinStep(f, 4);
    JoinStep(f, 3);
    JoinStep(f, 2);
    JoinStep(f, 1);
    JoinStep(f, 0);
  }

  lemma JoinStep(f: seq<string>, k: nat)
    requires k + 1 < |f|
    ensures Join(f[k..]) == f[k] + ", " + Join(f[k + 1..])
  {
    assert f[k..][1..] == f[k + 1..];
  }

  /** `username, password = line.strip().split(', ')`: the error is the
      number of fields when it is not two. A parsed credential is written
      back as exactly the stripped line, and neither of its fields holds
      a separator. */
  function ParseCredential(line: string): (r: Result<Credential, nat>)
    ensures r.Ok? <==> |Split(Strip(line))| == 2
    ensures r.Ok? ==> CredentialLine(r.value) == Strip(line)
    ensures r.Ok? ==> !HasSep(r.value.username) && !HasSep(r.value.password)
    ensures r.Err? ==> r.error == |Split(Strip(line))|
  {
    var fields := Split(Strip(line));
    if |fields| == 2 then
      assert fields[1..] == [fields[1]];
      Ok(Credential(fields[0], fields[1]))
    else
      Err(|fields|)
  }

  /** `user, title, desc, assigned, due, complete = line.strip().split(", ")`.
      A parsed task is written back as exactly the stripped line. */
  function ParseTask(line: string): (r: Result<Task, nat>)
    ensures r.Ok? <==> |Split(Strip(line))| == 6
    ensures r.Ok? ==> TaskLine(r.value) == Strip(line)
    ensures r.Ok? ==> NoSepInFields(r.value)
    ensures r.Err? ==> r.error == |Split(Strip(line))|
  {
    var f := Split(Strip(line));
    if |f| == 6 then
      var t := Task(f[0], f[1], f[2], f[3], f[4], f[5]);
      assert TaskFields(t) == f;
      Ok(t)
    else
      Err(|f|)
  }

  /** Reading a store strictly: every line is parsed in file order, and the
      first line that does not parse aborts the whole read. */
  function ParseLines<T>(lines: seq<string>, parse: string -> Result<T, nat>): (r: Result<seq<T>, Malformed>)
    ensures r.Ok? ==> |r.value| == |lines|
    ensures r.Ok? ==> forall i :: 0 <= i < |lines| ==> parse(lines[i]) == Ok(r.value[i])
    ensures r.Err? ==> r.error.index < |lines| && parse(lines[r.error.index]) == Err(r.error.fields)
    ensures r.Err? ==> forall i :: 0 <= i < r.error.index ==> parse(lines[i]).Ok?
  {
    if lines == [] then Ok([])
    else
      match parse(lines[0])
      case Err(n) => Err(Malformed(0, n))
      case Ok(v) =>
        match ParseLines(lines[1..], parse)
        case Err(e) => Err(Malformed(e.index + 1, e.fields))
        case Ok(vs) => Ok([v] + vs)
  }

  lemma {:induction false} ParseLinesSame<T>(a: seq<string>, b: seq<string>, parse: string -> Result<T, nat>)
    requires |a| == |b|
    requires forall i :: 0 <= i < |a| ==> parse(a[i]) == parse(b[i])
    ensures ParseLines(a, parse) == ParseLines(b, parse)
  {
    if a != [] {
      ParseLinesSame(a[1..], b[1..], parse);
    }
  }

  /** Reading one more line at the end of a store. */
  lemma {:induction false} ParseLinesSnoc<T>(lines: seq<string>, line: string, parse: string -> Result<T, nat>)
    ensures ParseLines(lines + [line], parse) ==
              match ParseLines(lines, parse)
              case Err(e) => Err(e)
              case Ok(vs) =>
                match parse(line)
                case Ok(v) => Ok(vs + [v])
                case Err(n) => Err(Malformed(|lines|, n))
  {
    if lines != [] {
      assert (lines + [line])[1..] == lines[1..] + [line];
      ParseLinesSnoc(lines[1..], line, parse);
      assert (lines + [line])[0] == lines[0];
      match parse(lines[0])
      case Err(n) =>
      case Ok(v0) =>
        match ParseLines(lines[1..], parse)
        case Err(e) =>
        case Ok(vs) =>
          match parse(line)
          case Err(n) =>
          case Ok(v) =>
            assert [v0] + (vs + [v]) == ([v0] + vs) + [v];
    } else {
      assert [] + [line] == [line];
      assert ParseLines([line][1..], parse) == Ok([]);
      match parse(line)
      case Err(n) =>
      case Ok(v) =>
        assert [v] + [] == [] + [v];
    }
  }

  /** What a strict read returns after "\n" + line is appended to a store
      that read cleanly: the new record last, or, when the store was empty
      or already ended in '\n', a failure at the blank line this leaves. */
  lemma ReadAfterAppend<T>(file: string, line: string, parse: string -> Result<T, nat>)
    requires line != [] && '\n' !in line
    requires forall x :: parse(x + "\n") == parse(x)
    requires parse("\n") == Err(1)
    requires ParseLines(Lines(file), parse).Ok?
    ensures file == [] || file[|file| - 1] == '\n' ==>
              ParseLines(Lines(file + "\n" + line), parse) == Err(Malformed(|Lines(file)|, 1))
    ensures file != [] && file[|file| - 1] != '\n' ==>
              ParseLines(Lines(file + "\n" + line), parse) ==
                match parse(line)
                case Ok(v) => Ok(ParseLines(Lines(file), parse).value + [v])
                case Err(n) => Err(Malformed(|Lines(file)|, n))
  {
    var ls := Lines(file);
    var before := ParseLines(ls, parse);
    LinesAppendLine(file, line);
    var t := Terminated(ls);
    if file == [] || file[|file| - 1] == '\n' {
      if file != [] {
        LastLineEnd(file);
      }
      assert t == ls + ["\n"];
      ParseLinesSnoc(ls, "\n", parse);
      ParseLinesSnoc(t, line, parse);
    } else {
      LastLineEnd(file);
      var last := ls[|ls| - 1];
      assert t == ls[..|ls| - 1] + [last + "\n"];
      assert ParseLines(t, parse) == before by {
        assert parse(last + "\n") == parse(last);
        assert forall i :: 0 <= i < |ls| ==> parse(t[i]) == parse(ls[i]) by {
          forall i | 0 <= i < |ls| ensures parse(t[i]) == parse(ls[i]) {
            if i < |ls| - 1 {
              assert t[i] == ls[i];
            }
          }
        }
        ParseLinesSame(t, ls, parse);
      }
      ParseLinesSnoc(t, line, parse);
    }
  }

  /** A line that parses contributes the same record whatever its line
      terminator: the '\n' the next append puts after it is stripped. */
  lemma ParseIgnoresLineEnd(line: string)
    ensures ParseCredential(line + "\n") == ParseCredential(line)
    ensures ParseTask(line + "\n") == ParseTask(line)
  {
    StripIgnoresTrailingSpace(line, '\n');
  }

  /** A blank line, such as the one left by appending "\n…" to an empty
      store, splits into the single field "". */
  lemma BlankLineIsMalformed()
    ensures ParseCredential("\n") == Err(1)
    ensures ParseTask("\n") == Err(1)
  {
    assert Strip("\n") == [] by {
      StripIgnoresTrailingSpace([], '\n');
      assert [] + ['\n'] == "\n";
    }
  }

  // ---------------------------------------------------------------------
  // Round trips

  /** A field written at the start of a line survives strip(). */
  predicate CleanStart(s: string)
  {
    s == [] || !IsSpace(s[0])
  }

  /** A field written at the end of a line survives strip(): it is not
      empty, since the ", " before it would then end the line. */
  predicate CleanEnd(s: string)
  {
    s != [] && !IsSpace(s[|s| - 1])
  }

  /** A credential that comes back unchanged from its written line. */
  predicate StorableCredential(c: Credential)
  {
    && !HasSep(c.username) && !HasSep(c.password)
    && CleanStart(c.username) && CleanEnd(c.password)
  }

  /** No field of the task holds the ", " separator. */
  predicate NoSepInFields(t: Task)
  {
    forall i :: 0 <= i < 6 ==> !HasSep(TaskFields(t)[i])
  }

  /** A task that comes back unchanged from its written line. */
  predicate StorableTask(t: Task)
  {
    && NoSepInFields(t)
    && CleanStart(t.assignedTo) && CleanEnd(t.complete)
  }

  lemma JoinIsClean(fields: seq<string>)
    requires |fields| >= 2
    requires CleanStart(fields[0]) && CleanEnd(fields[|fields| - 1])
    ensures Strip(Join(fields)) == Join(fields)
  {
    var s := Join(fields);
    assert s == fields[0] + ", " + Join(fields[1..]);
    JoinEnd(fields[1..]);
    StripOfClean(s);
  }

  lemma {:induction false} JoinEnd(fields: seq<string>)
    requires |fields| >= 1 && CleanEnd(fields[|fields| - 1])
    ensures CleanEnd(Join(fields))
  {
    if |fields| > 1 {
      JoinEnd(fields[1..]);
    }
  }

  /** Round trip of a credential line, read back with or without the
      terminator a later append gives it. */
  lemma CredentialRoundTrip(c: Credential)
    requires StorableCredential(c)
    ensures ParseCredential(CredentialLine(c)) == Ok(c)
    ensures ParseCredential(CredentialLine(c) + "\n") == Ok(c)
  {
    var line := CredentialLine(c);
    assert Split(Strip(line)) == [c.username, c.password] by {
      JoinSplitsBack(CredentialFields(c));
    }
    ParseIgnoresLineEnd(line);
  }

  /** Round trip of a task line, read back with or without the terminator
      a later append gives it. */
  lemma TaskRoundTrip(t: Task)
    requires StorableTask(t)
    ensures ParseTask(TaskLine(t)) == Ok(t)
    ensures ParseTask(TaskLine(t) + "\n") == Ok(t)
  {
    var line := TaskLine(t);
    assert Split(Strip(line)) == TaskFields(t) by {
      JoinSplitsBack(TaskFields(t));
    }
    ParseIgnoresLineEnd(line);
  }

  /** Fields free of '\n' are written on a single line. */
  lemma {:induction false} JoinIsOneLine(fields: seq<string>)
    requires |fields| >= 1
    requires forall i :: 0 <= i < |fields| ==> '\n' !in fields[i]
    ensures '\n' !in Join(fields)
  {
    if |fields| > 1 {
      JoinIsOneLine(fields[1..]);
      assert Join(fields) == fields[0] + ", " + Join(fields[1..]);
    }
  }

  lemma JoinSplitsBack(fields: seq<string>)
    requires |fields| >= 2
    requires CleanStart(fields[0]) && CleanEnd(fields[|fields| - 1])
    requires forall i :: 0 <= i < |fields| ==> !HasSep(fields[i])
    ensures Split(Strip(Join(fields))) == fields
  {
    JoinIsClean(fields);
    SplitJoin(fields);
  }

  /** An empty password is written as "{username}, ", which strip() turns
      into "{username},": a single field, so the line no longer parses. */
  lemma EmptyPasswordUnreadable(username: string)
    requires !HasSep(username)
    ensures ParseCredential(CredentialLine(Credential(username, ""))) == Err(1)
  {
    var line := CredentialLine(Credential(username, ""));
    assert line == username + ", " by {
      var fields := [username, ""];
      assert fields[1..] == [""];
      assert Join(fields) == username + ", " + Join([""]);
      assert username + ", " + "" == username + ", ";
    }
    TrailingCommaIsOneField(username);
  }

  lemma TrailingCommaIsOneField(username: string)
    requires !HasSep(username)
    ensures |Split(Strip(username + ", "))| == 1
  {
    var x := username + ",";
    assert username + ", " == x + [' '];
    StripIgnoresTrailingSpace(x, ' ');
    StripOfUnspacedEnd(x);
    var k := StripStart(x);
    assert !HasSep(x[k..]) by {
      assert !HasSep(x) by {
        forall i | 0 <= i < |x| ensures !SepAt(x, i) {
          if i + 1 < |username| {
            assert !SepAt(username, i);
          }
        }
      }
      NoSepInSuffix(x, k);
    }
    SplitOfField(x[k..]);
  }
}
