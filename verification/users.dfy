/** The credential store of task_manager.py: user.txt read strictly into
    the `users` dictionary (load_users), the login check, and the
    registration decision that may append one line (register_user). */
module Users {
  import opened Results
  import opened Text
  import opened Records

  /** The line reads as a credential for `username`. */
  predicate Names(line: string, username: string)
  {
    ParseCredential(line).Ok? && ParseCredential(line).value.username == username
  }

  /** Credential i is the last one for its username. */
  predicate LastFor(creds: seq<Credential>, i: int)
    requires 0 <= i < |creds|
  {
    forall j :: i < j < |creds| ==> creds[j].username != creds[i].username
  }

  /** Line i is the last line of the store that names `username`. */
  predicate LastNaming(lines: seq<string>, i: int, username: string)
    requires 0 <= i < |lines|
  {
    Names(lines[i], username) && forall j :: i < j < |lines| ==> !Names(lines[j], username)
  }

  /** `users` is what load_users builds from `lines`: its keys are exactly
      the usernames some line names, and each maps to the password on the
      last line naming it. */
  ghost predicate Describes(users: map<string, string>, lines: seq<string>)
  {
    && (forall u :: u in users <==> exists i :: 0 <= i < |lines| && Names(lines[i], u))
    && (forall i, u :: 0 <= i < |lines| && LastNaming(lines, i, u) ==>
          u in users && users[u] == ParseCredential(lines[i]).value.password)
  }

  /** `users[username] = password` for each credential in order: the keys
      are those already present plus every username met. */
  function Insert(users: map<string, string>, creds: seq<Credential>): (r: map<string, string>)
    ensures forall u :: u in r <==> (u in users || exists i :: 0 <= i < |creds| && creds[i].username == u)
    decreases |creds|
  {
    if creds == [] then users
    else
      var c := creds[0];
      assert forall i :: 0 < i < |creds| ==> creds[1..][i - 1] == creds[i];
      Insert(users[c.username := c.password], creds[1..])
  }

  /** A key that no credential names keeps its value. */
  lemma {:induction false} InsertUntouched(users: map<string, string>, creds: seq<Credential>, u: string)
    requires u in users
    requires forall i :: 0 <= i < |creds| ==> creds[i].username != u
    ensures Insert(users, creds)[u] == users[u]
    decreases |creds|
  {
    if creds != [] {
      var c := creds[0];
      assert forall i :: 0 <= i < |creds[1..]| ==> creds[1..][i] == creds[i + 1];
      InsertUntouched(users[c.username := c.password], creds[1..], u);
    }
  }

  /** The last credential for a username decides its password. */
  lemma {:induction false} InsertLast(users: map<string, string>, creds: seq<Credential>, i: nat)
    requires i < |creds| && LastFor(creds, i)
    ensures Insert(users, creds)[creds[i].username] == creds[i].password
    decreases |creds|
  {
    var c := creds[0];
    var rest := creds[1..];
    assert forall j :: 0 <= j < |rest| ==> rest[j] == creds[j + 1];
    if i == 0 {
      InsertUntouched(users[c.username := c.password], rest, c.username);
    } else {
      assert LastFor(rest, i - 1);
      InsertLast(users[c.username := c.password], rest, i - 1);
    }
  }

  /** Each credential adds at most one key. */
  lemma {:induction false} InsertSize(users: map<string, string>, creds: seq<Credential>)
    ensures |Insert(users, creds)| <= |users| + |creds|
    decreases |creds|
  {
    if creds != [] {
      var c := creds[0];
      var next := users[c.username := c.password];
      assert next.Keys == users.Keys + {c.username};
      assert |next| <= |users| + 1 by {
        assert |next.Keys| <= |users.Keys| + |{c.username}|;
      }
      InsertSize(next, creds[1..]);
    }
  }

  /** load_users(): every line of user.txt parsed in order, any line that
      does not split into two fields failing the whole load (the first such
      line is reported); on success a username maps to the password of
      the last line naming it. */
  function LoadUsers(text: string): (r: Result<map<string, string>, Malformed>)
    ensures var lines := Lines(text);
            r.Ok? <==> forall i :: 0 <= i < |lines| ==> ParseCredential(lines[i]).Ok?
    ensures var lines := Lines(text);
            r.Err? ==> r.error.index < |lines|
                       && ParseCredential(lines[r.error.index]) == Err(r.error.fields)
                       && forall i :: 0 <= i < r.error.index ==> ParseCredential(lines[i]).Ok?
    ensures r.Ok? ==> Describes(r.value, Lines(text))
  {
    match ParseLines(Lines(text), ParseCredential)
    case Err(e) => Err(e)
    case Ok(creds) =>
      InsertLines(Lines(text), creds);
      Ok(Insert(map[], creds))
  }

  /** The map built from the parsed lines of a store, stated line by line. */
  lemma InsertLines(lines: seq<string>, creds: seq<Credential>)
    requires |creds| == |lines|
    requires forall i :: 0 <= i < |lines| ==> ParseCredential(lines[i]) == Ok(creds[i])
    ensures Describes(Insert(map[], creds), lines)
  {
    forall u ensures u in Insert(map[], creds) <==> exists i :: 0 <= i < |lines| && Names(lines[i], u) {
      InsertedKey(lines, creds, u);
    }
    forall i, u | 0 <= i < |lines| && LastNaming(lines, i, u)
      ensures u in Insert(map[], creds) && Insert(map[], creds)[u] == ParseCredential(lines[i]).value.password
    {
      InsertedKey(lines, creds, u);
      InsertedLast(lines, creds, i, u);
    }
  }

  lemma InsertedKey(lines: seq<string>, creds: seq<Credential>, u: string)
    requires |creds| == |lines|
    requires forall i :: 0 <= i < |lines| ==> ParseCredential(lines[i]) == Ok(creds[i])
    ensures u in Insert(map[], creds) <==> exists i :: 0 <= i < |lines| && Names(lines[i], u)
  {
    if u in Insert(map[], creds) {
      var i :| 0 <= i < |creds| && creds[i].username == u;
      assert Names(lines[i], u);
    }
  }

  lemma InsertedLast(lines: seq<string>, creds: seq<Credential>, i: nat, u: string)
    requires |creds| == |lines|
    requires forall i :: 0 <= i < |lines| ==> ParseCredential(lines[i]) == Ok(creds[i])
    requires i < |lines| && LastNaming(lines, i, u)
    ensures Insert(map[], creds)[u] == ParseCredential(lines[i]).value.password
  {
    forall j | i < j < |creds| ensures creds[j].username != creds[i].username {
      assert !Names(lines[j], u);
    }
    InsertLast(map[], creds, i);
  }

  /** The login test of login(): the username is a key and its stored
      password equals the one typed, both compared exactly. */
  predicate Authenticate(users: map<string, string>, username: string, password: string): (ok: bool)
    ensures ok <==> (username, password) in users.Items
  {
    username in users && users[username] == password
  }

  /** login(users) fed the operator's answers as (username, password)
      pairs: the first pair that authenticates logs that user in, and the
      second component counts the answers read. Every earlier pair was
      rejected. None means input ran out first (the prompt loop has no
      other exit). */
  function Login(users: map<string, string>, answers: seq<string>): (r: Option<(string, nat)>)
    ensures r.Some? ==> 2 <= r.value.1 <= |answers| && r.value.1 % 2 == 0
    ensures r.Some? ==> r.value.0 == answers[r.value.1 - 2]
                        && Authenticate(users, answers[r.value.1 - 2], answers[r.value.1 - 1])
    ensures r.Some? ==> forall j :: 0 <= j < r.value.1 / 2 - 1 ==> !Authenticate(users, answers[2 * j], answers[2 * j + 1])
    ensures r.None? ==> forall j :: 0 <= j < |answers| / 2 ==> !Authenticate(users, answers[2 * j], answers[2 * j + 1])
    decreases |answers|
  {
    if |answers| < 2 then None
    else if Authenticate(users, answers[0], answers[1]) then Some((answers[0], 2))
    else
      var rest := answers[2..];
      match Login(users, rest)
      case None =>
        assert forall j | 1 <= j < |answers| / 2 :: !Authenticate(users, answers[2 * j], answers[2 * j + 1]) by {
          forall j | 1 <= j < |answers| / 2
            ensures !Authenticate(users, answers[2 * j], answers[2 * j + 1])
          {
            assert answers[2 * j] == rest[2 * (j - 1)] && answers[2 * j + 1] == rest[2 * (j - 1) + 1];
          }
        }
        None
      case Some((user, n)) =>
        assert forall j | 1 <= j < (n + 2) / 2 - 1 :: !Authenticate(users, answers[2 * j], answers[2 * j + 1]) by {
          forall j | 1 <= j < (n + 2) / 2 - 1
            ensures !Authenticate(users, answers[2 * j], answers[2 * j + 1])
          {
            assert answers[2 * j] == rest[2 * (j - 1)] && answers[2 * j + 1] == rest[2 * (j - 1) + 1];
          }
        }
        assert answers[n] == rest[n - 2] && answers[n + 1] == rest[n - 1];
        Some((user, n + 2))
  }

  lemma {:induction false} LastNamingExists(lines: seq<string>, i: nat, username: string)
    requires i < |lines| && Names(lines[i], username)
    ensures exists j :: i <= j < |lines| && LastNaming(lines, j, username)
    decreases |lines| - i
  {
    if !LastNaming(lines, i, username) {
      var j :| i < j < |lines| && Names(lines[j], username);
      LastNamingExists(lines, j, username);
    }
  }

  /** The last line of `lines` naming `username` carries `password`. */
  ghost predicate StoredPassword(lines: seq<string>, username: string, password: string)
  {
    exists i :: 0 <= i < |lines| && LastNaming(lines, i, username)
                && ParseCredential(lines[i]).value.password == password
  }

  /** Logging in against a freshly loaded user.txt succeeds exactly when
      the last line naming the username carries the typed password. */
  lemma LoginAgainstStore(text: string, users: map<string, string>, username: string, password: string)
    requires LoadUsers(text) == Ok(users)
    ensures Authenticate(users, username, password) <==> StoredPassword(Lines(text), username, password)
  {
    LookupIsLastNaming(users, Lines(text), username, password);
  }

  /** The login test on a map whose keys and values are read off `lines`
      as load_users reads them. */
  lemma LookupIsLastNaming(users: map<string, string>, lines: seq<string>, username: string, password: string)
    requires Describes(users, lines)
    ensures Authenticate(users, username, password) <==> StoredPassword(lines, username, password)
  {
    if username in users {
      var i :| 0 <= i < |lines| && Names(lines[i], username);
      LastNamingExists(lines, i, username);
      var j :| i <= j < |lines| && LastNaming(lines, j, username);
      forall k | 0 <= k < |lines| && LastNaming(lines, k, username)
        ensures k == j
      {
        LastNamingUnique(lines, j, k, username);
      }
    }
  }

  lemma LastNamingUnique(lines: seq<string>, i: int, j: int, username: string)
    requires 0 <= i < |lines| && 0 <= j < |lines|
    requires LastNaming(lines, i, username) && LastNaming(lines, j, username)
    ensures i == j
  {
  }

  // ---------------------------------------------------------------------
  // Registration

  /** What register_user decides: the username is already a key, the two
      passwords differ, or the credential is appended. */
  datatype Registration = UsernameTaken | PasswordsDiffer | Registered(credential: Credential)

  /** register_user(users) fed the operator's answers in order: it reads
      the new username, stops when it is taken, and otherwise reads the
      password and its confirmation. None means input ran out (input()
      raises EOFError). The second component is the number of answers
      read. */
  function RegisterUser(users: map<string, string>, answers: seq<string>): (r: Option<(Registration, nat)>)
    ensures r.None? <==> answers == [] || (answers[0] !in users && |answers| < 3)
    ensures r.Some? ==> r.value.1 == (if r.value.0.UsernameTaken? then 1 else 3)
    ensures r.Some? && r.value.0.UsernameTaken? <==> answers != [] && answers[0] in users
    ensures r.Some? && r.value.0.PasswordsDiffer? <==>
              |answers| >= 3 && answers[0] !in users && answers[1] != answers[2]
    ensures r.Some? && r.value.0.Registered? <==>
              |answers| >= 3 && answers[0] !in users && answers[1] == answers[2]
    ensures r.Some? && r.value.0.Registered? ==> r.value.0.credential == Credential(answers[0], answers[1])
  {
    if answers == [] then None
    else if answers[0] in users then Some((UsernameTaken, 1))
    else if |answers| < 3 then None
    else if answers[1] == answers[2] then Some((Registered(Credential(answers[0], answers[1])), 3))
    else Some((PasswordsDiffer, 3))
  }

  /** user.txt after a registration: only a registered credential writes,
      as the line "\n{username}, {password}" appended at the end. */
  function Written(file: string, reg: Registration): (r: string)
    ensures file <= r
    ensures r == file <==> !reg.Registered?
  {
    match reg
    case Registered(c) => file + "\n" + CredentialLine(c)
    case _ => file
  }

  /** A registered credential that survives the write-then-read cycle:
      it reads back unchanged and stays on one line, holding neither '\n'
      nor the '\r' that Python's text mode also ends a line at. */
  predicate Registrable(c: Credential)
  {
    && StorableCredential(c)
    && '\n' !in c.username && '\n' !in c.password
    && '\r' !in c.username && '\r' !in c.password
  }

  lemma CredentialParseFacts()
    ensures forall x :: ParseCredential(x + "\n") == ParseCredential(x)
    ensures ParseCredential("\n") == Err(1)
  {
    forall x ensures ParseCredential(x + "\n") == ParseCredential(x) {
      ParseIgnoresLineEnd(x);
    }
    BlankLineIsMalformed();
  }

  lemma CredentialLineIsOneLine(c: Credential)
    requires '\n' !in c.username && '\n' !in c.password
    ensures CredentialLine(c) != [] && '\n' !in CredentialLine(c)
  {
    JoinIsOneLine(CredentialFields(c));
  }

  /** Reloading user.txt after an append (users = load_users() after
      register_user): the appended credential is added last, unless the
      store was empty or ended in '\n', in which case the blank line left
      before it fails the load. */
  lemma LoadAfterAppend(file: string, c: Credential)
    requires LoadUsers(file).Ok?
    requires '\n' !in c.username && '\n' !in c.password
    ensures file == [] || file[|file| - 1] == '\n' ==>
              LoadUsers(file + "\n" + CredentialLine(c)) == Err(Malformed(|Lines(file)|, 1))
    ensures file != [] && file[|file| - 1] != '\n' ==>
              LoadUsers(file + "\n" + CredentialLine(c)) ==
                match ParseCredential(CredentialLine(c))
                case Ok(c') => Ok(LoadUsers(file).value[c'.username := c'.password])
                case Err(n) => Err(Malformed(|Lines(file)|, n))
  {
    var line := CredentialLine(c);
    CredentialLineIsOneLine(c);
    CredentialParseFacts();
    var lines := Lines(file);
    ReadAfterAppend(file, line, ParseCredential);
    if file != [] && file[|file| - 1] != '\n' {
      match ParseCredential(line)
      case Err(n) =>
      case Ok(c') =>
        var creds := ParseLines(lines, ParseCredential).value;
        InsertSnoc(map[], creds, c');
    }
  }

  lemma {:induction false} InsertSnoc(users: map<string, string>, creds: seq<Credential>, c: Credential)
    ensures Insert(users, creds + [c]) == Insert(users, creds)[c.username := c.password]
    decreases |creds|
  {
    if creds == [] {
      assert [] + [c] == [c];
      assert [c][1..] == [];
    } else {
      var h := creds[0];
      assert (creds + [c])[0] == h;
      assert (creds + [c])[1..] == creds[1..] + [c];
      InsertSnoc(users[h.username := h.password], creds[1..], c);
    }
  }

  /** After a registration is written and user.txt reloaded, the new user
      logs in with the chosen password, and every other user logs in
      exactly as before. Needs a store whose last line is unterminated, as
      a store only ever written by this program is once it holds a line. */
  lemma RegisterThenLogin(file: string, users: map<string, string>, answers: seq<string>)
    requires LoadUsers(file) == Ok(users)
    requires file != [] && file[|file| - 1] != '\n'
    requires RegisterUser(users, answers).Some?
    requires RegisterUser(users, answers).value.0.Registered?
    requires Registrable(RegisterUser(users, answers).value.0.credential)
    ensures var c := RegisterUser(users, answers).value.0.credential;
            var reloaded := LoadUsers(Written(file, Registered(c)));
            && reloaded == Ok(users[c.username := c.password])
            && Authenticate(reloaded.value, c.username, c.password)
            && forall u, p :: u != c.username ==>
                 (Authenticate(reloaded.value, u, p) <==> Authenticate(users, u, p))
  {
    var c := RegisterUser(users, answers).value.0.credential;
    var updated := users[c.username := c.password];
    assert LoadUsers(Written(file, Registered(c))) == Ok(updated) by {
      ReloadAddsCredential(file, c);
    }
    UpdateKeepsOthers(users, c.username, c.password);
  }

  /** Registering the same username again, after the reload, is refused
      after the first answer and writes nothing. */
  lemma RegisterTwiceIsRefused(file: string, users: map<string, string>, answers: seq<string>, again: seq<string>)
    requires LoadUsers(file) == Ok(users)
    requires file != [] && file[|file| - 1] != '\n'
    requires RegisterUser(users, answers).Some?
    requires RegisterUser(users, answers).value.0.Registered?
    requires Registrable(RegisterUser(users, answers).value.0.credential)
    requires again != [] && again[0] == answers[0]
    ensures var after := Written(file, RegisterUser(users, answers).value.0);
            && LoadUsers(after).Ok?
            && RegisterUser(LoadUsers(after).value, again) == Some((UsernameTaken, 1))
            && Written(after, UsernameTaken) == after
  {
    RegisterThenLogin(file, users, answers);
  }

  /** A registrable credential appended to a store whose last line is
      unterminated reloads as one more key-value update. */
  lemma ReloadAddsCredential(file: string, c: Credential)
    requires LoadUsers(file).Ok?
    requires file != [] && file[|file| - 1] != '\n'
    requires Registrable(c)
    ensures LoadUsers(file + "\n" + CredentialLine(c)) == Ok(LoadUsers(file).value[c.username := c.password])
  {
    CredentialRoundTrip(c);
    LoadAfterAppend(file, c);
  }

  /** Setting one key makes that user log in with the new password and
      leaves every other user's login as it was. */
  lemma UpdateKeepsOthers(users: map<string, string>, username: string, password: string)
    ensures Authenticate(users[username := password], username, password)
    ensures forall u, p :: u != username ==>
              (Authenticate(users[username := password], u, p) <==> Authenticate(users, u, p))
  {
  }

  /** A registration written to an empty user.txt, or to one ending in
      '\n', leaves a blank line in front of it, and the reload fails there. */
  lemma RegisterIntoTerminatedStore(file: string, users: map<string, string>, c: Credential)
    requires LoadUsers(file) == Ok(users)
    requires file == [] || file[|file| - 1] == '\n'
    requires '\n' !in c.username && '\n' !in c.password
    ensures LoadUsers(Written(file, Registered(c))) == Err(Malformed(|Lines(file)|, 1))
  {
    LoadAfterAppend(file, c);
  }

  /** register_user accepts an empty password when it is confirmed, but
      the line it writes strips to one field, so the reload fails. */
  lemma EmptyPasswordBreaksReload(file: string, users: map<string, string>, username: string)
    requires LoadUsers(file) == Ok(users)
    requires file != [] && file[|file| - 1] != '\n'
    requires username !in users && !HasSep(username) && '\n' !in username
    ensures RegisterUser(users, [username, "", ""]) == Some((Registered(Credential(username, "")), 3))
    ensures LoadUsers(Written(file, Registered(Credential(username, "")))) == Err(Malformed(|Lines(file)|, 1))
  {
    LoadAfterAppend(file, Credential(username, ""));
    EmptyPasswordUnreadable(username);
  }
}
