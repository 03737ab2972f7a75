/** The three Python string primitives the task manager relies on:
    str.strip(), str.split(', ') (and the ", "-joined f-strings that undo it),
    and the line-by-line iteration of a text file. */
module Text {

  /** str.isspace() of a single character: the characters Python strips. */
  predicate IsSpace(c: char)
  {
    || c == ' '
    || ('\t' <= c <= '\r')
    || ('\U{1C}' <= c <= '\U{1F}')
    || c == '\U{85}' || c == '\U{A0}' || c == '\U{1680}'
    || ('\U{2000}' <= c <= '\U{200A}')
    || c == '\U{2028}' || c == '\U{2029}' || c == '\U{202F}' || c == '\U{205F}'
    || c == '\U{3000}'
  }

  /** The first index at or after i that does not hold whitespace. */
  function SkipSpace(s: string, i: nat): (k: nat)
    requires i <= |s|
    ensures i <= k <= |s|
    ensures forall j :: i <= j < k ==> IsSpace(s[j])
    ensures k == |s| || !IsSpace(s[k])
    decreases |s| - i
  {
    if i < |s| && IsSpace(s[i]) then SkipSpace(s, i + 1) else i
  }

  /** Going down from j, the end of the last non-whitespace character
      at or above lo. */
  function SkipSpaceBack(s: string, lo: nat, j: nat): (k: nat)
    requires lo <= j <= |s|
    ensures lo <= k <= j
    ensures forall m :: k <= m < j ==> IsSpace(s[m])
    ensures k == lo || !IsSpace(s[k - 1])
  {
    if j > lo && IsSpace(s[j - 1]) then SkipSpaceBack(s, lo, j - 1) else j
  }

  function StripStart(s: string): nat
  {
    SkipSpace(s, 0)
  }

  function StripEnd(s: string): nat
  {
    SkipSpaceBack(s, StripStart(s), |s|)
  }

  /** str.strip() with no argument: the result is the run of s between a
      whitespace prefix and a whitespace suffix, it neither begins nor ends
      with whitespace, and it is empty exactly when s is all whitespace. */
  function Strip(s: string): (r: string)
    ensures StripStart(s) <= StripEnd(s) <= |s|
    ensures forall j :: 0 <= j < StripStart(s) ==> IsSpace(s[j])
    ensures forall j :: StripEnd(s) <= j < |s| ==> IsSpace(s[j])
    ensures |r| == StripEnd(s) - StripStart(s)
    ensures forall j :: 0 <= j < |r| ==> r[j] == s[StripStart(s) + j]
    ensures r == [] || (!IsSpace(r[0]) && !IsSpace(r[|r| - 1]))
    ensures r == [] <==> forall j :: 0 <= j < |s| ==> IsSpace(s[j])
  {
    s[StripStart(s)..StripEnd(s)]
  }

  lemma StripOfClean(s: string)
    requires s == [] || (!IsSpace(s[0]) && !IsSpace(s[|s| - 1]))
    ensures Strip(s) == s
  {
    if s != [] {
      assert StripStart(s) == 0;
      assert StripEnd(s) == |s|;
    }
  }

  /** A line that ends in a non-whitespace character strips to a suffix. */
  lemma StripOfUnspacedEnd(s: string)
    requires s != [] && !IsSpace(s[|s| - 1])
    ensures StripStart(s) < |s| && Strip(s) == s[StripStart(s)..]
  {
    assert StripStart(s) < |s|;
  }

  lemma {:induction false} SkipSpaceAppend(s: string, c: char, i: nat)
    requires i <= |s|
    ensures SkipSpace(s, i) < |s| ==> SkipSpace(s + [c], i) == SkipSpace(s, i)
    ensures SkipSpace(s, i) == |s| && IsSpace(c) ==> SkipSpace(s + [c], i) == |s| + 1
    decreases |s| - i
  {
    var t := s + [c];
    if i < |s| {
      assert t[i] == s[i];
      if IsSpace(s[i]) {
        SkipSpaceAppend(s, c, i + 1);
      }
    }
  }

  lemma {:induction false} SkipSpaceBackAppend(s: string, c: char, lo: nat, j: nat)
    requires lo <= j <= |s|
    ensures SkipSpaceBack(s + [c], lo, j) == SkipSpaceBack(s, lo, j)
  {
    if j > lo {
      assert (s + [c])[j - 1] == s[j - 1];
      SkipSpaceBackAppend(s, c, lo, j - 1);
    }
  }

  /** A whitespace character at the end of a line (its '\n') never changes
      what str.strip() returns. */
  lemma StripIgnoresTrailingSpace(s: string, c: char)
    requires IsSpace(c)
    ensures Strip(s + [c]) == Strip(s)
  {
    SkipSpaceAppend(s, c, 0);
    if StripStart(s) < |s| {
      StripEndIgnoresTrailingSpace(s, c);
      var a := StripStart(s);
      var e := StripEnd(s);
      assert (s + [c])[a..e] == s[a..e];
    }
  }

  lemma StripEndIgnoresTrailingSpace(s: string, c: char)
    requires IsSpace(c) && StripStart(s) < |s|
    requires StripStart(s + [c]) == StripStart(s)
    ensures StripEnd(s + [c]) == StripEnd(s)
  {
    var t := s + [c];
    var a := StripStart(s);
    assert t[|s|] == c;
    assert SkipSpaceBack(t, a, |s| + 1) == SkipSpaceBack(t, a, |s|);
    SkipSpaceBackAppend(s, c, a, |s|);
  }

  // ---------------------------------------------------------------------
  // The ", " separator

  /** A ", " separator starts at index i of s. */
  predicate SepAt(s: string, i: int)
  {
    0 <= i && i + 1 < |s| && s[i] == ',' && s[i + 1] == ' '
  }

  predicate HasSep(s: string)
  {
    exists i :: 0 <= i < |s| && SepAt(s, i)
  }

  /** ", ".join(fields), the shape of every f-string the program writes. */
  function Join(fields: seq<string>): string
    requires |fields| >= 1
  {
    if |fields| == 1 then fields[0] else fields[0] + ", " + Join(fields[1..])
  }

  /** The first separator at or after i, or |s| when there is none. */
  function NextSep(s: string, i: nat): (k: nat)
    requires i <= |s|
    ensures i <= k <= |s|
    ensures forall j :: i <= j < k ==> !SepAt(s, j)
    ensures k == |s| || SepAt(s, k)
    decreases |s| - i
  {
    if i == |s| || SepAt(s, i) then i else NextSep(s, i + 1)
  }

  /** s.split(', '): the fields between non-overlapping separators, found
      left to right. Joining them back gives s, and no field holds a
      separator. */
  function Split(s: string): (r: seq<string>)
    ensures |r| >= 1
    ensures Join(r) == s
    ensures forall i :: 0 <= i < |r| ==> !HasSep(r[i])
    decreases |s|
  {
    var k := NextSep(s, 0);
    if k == |s| then
      assert !HasSep(s);
      [s]
    else
      var rest := Split(s[k + 2..]);
      var r := [s[..k]] + rest;
      assert r[1..] == rest;
      assert s == s[..k] + ", " + s[k + 2..];
      assert !HasSep(s[..k]) by {
        forall i | 0 <= i < k ensures !SepAt(s[..k], i) {
          assert !SepAt(s, i);
        }
      }
      r
  }

  lemma SplitOfField(a: string)
    requires !HasSep(a)
    ensures Split(a) == [a]
  {
    assert NextSep(a, 0) == |a|;
  }

  /** Split finds the separator right after a field that holds none. */
  lemma SplitAfterField(a: string, b: string)
    requires !HasSep(a)
    ensures Split(a + ", " + b) == [a] + Split(b)
  {
    var s := a + ", " + b;
    assert SepAt(s, |a|);
    assert forall j :: 0 <= j < |a| ==> !SepAt(s, j) by {
      forall j | 0 <= j < |a| ensures !SepAt(s, j) {
        if j + 1 < |a| {
          assert !SepAt(a, j);
        } else {
          assert s[j + 1] == ',';
        }
      }
    }
    assert NextSep(s, 0) == |a|;
    assert s[..|a|] == a;
    assert s[|a| + 2..] == b;
  }

  /** Round trip of the delimited format: fields free of ", " come back
      from split(', ') exactly as they were joined. */
  lemma {:induction false} SplitJoin(fields: seq<string>)
    requires |fields| >= 1
    requires forall i :: 0 <= i < |fields| ==> !HasSep(fields[i])
    ensures Split(Join(fields)) == fields
  {
    if |fields| == 1 {
      SplitOfField(fields[0]);
    } else {
      SplitJoin(fields[1..]);
      SplitAfterField(fields[0], Join(fields[1..]));
      assert [fields[0]] + fields[1..] == fields;
    }
  }

  lemma NoSepInSuffix(s: string, k: nat)
    requires k <= |s| && !HasSep(s)
    ensures !HasSep(s[k..])
  {
    forall i | 0 <= i < |s[k..]| ensures !SepAt(s[k..], i) {
      assert !SepAt(s, k + i);
    }
  }

  // ---------------------------------------------------------------------
  // Iterating over a text file

  /** Length of the first line of t, its '\n' included when there is one. */
  function LineLength(t: string): (r: nat)
    requires t != []
    ensures 1 <= r <= |t|
    ensures forall i :: 0 <= i < r - 1 ==> t[i] != '\n'
    ensures t[r - 1] == '\n' || r == |t|
  {
    if t[0] == '\n' || |t| == 1 then 1 else 1 + LineLength(t[1..])
  }

  /** `for line in f`: the lines of the file's text, each keeping its '\n';
      a final piece without '\n' is a line too, and an empty text has none.
      Concatenated, the lines give the text back. */
  function Lines(t: string): (r: seq<string>)
    ensures Concat(r) == t
    ensures forall i :: 0 <= i < |r| ==> r[i] != []
    ensures forall i :: 0 <= i < |r| - 1 ==> r[i][|r[i]| - 1] == '\n'
    ensures forall i :: 0 <= i < |r| ==> '\n' !in r[i][..|r[i]| - 1]
    decreases |t|
  {
    if t == [] then []
    else
      var k := LineLength(t);
      var rest := Lines(t[k..]);
      var r := [t[..k]] + rest;
      assert r[1..] == rest;
      assert t == t[..k] + t[k..];
      r
  }

  function Concat(lines: seq<string>): string
  {
    if lines == [] then [] else lines[0] + Concat(lines[1..])
  }

  lemma LineLengthOfPrefix(t: string, u: string)
    requires t != []
    requires t[LineLength(t) - 1] == '\n'
    ensures LineLength(t + u) == LineLength(t)
  {
    var k := LineLength(t);
    var k' := LineLength(t + u);
    assert (t + u)[k - 1] == '\n';
    assert forall i :: 0 <= i < k - 1 ==> (t + u)[i] == t[i];
  }

  lemma LineLengthPastText(t: string, s: string)
    requires '\n' !in t
    ensures LineLength(t + "\n" + s) == |t| + 1
  {
    var u := t + "\n" + s;
    var k := LineLength(u);
    assert u[|t|] == '\n';
    assert forall i :: 0 <= i < |t| ==> u[i] == t[i] && u[i] in t;
  }

  /** The lines of a file after a '\n' is written at its end: the last
      line gets its terminator, or, when there is no unterminated last line,
      a blank line "\n" is added. */
  function Terminated(lines: seq<string>): (r: seq<string>)
    ensures |r| >= 1 && (|r| == |lines| || |r| == |lines| + 1)
    ensures r[..|r| - 1] <= lines
  {
    if lines == [] || lines[|lines| - 1] == [] || lines[|lines| - 1][|lines[|lines| - 1]| - 1] == '\n'
    then lines + ["\n"]
    else lines[..|lines| - 1] + [lines[|lines| - 1] + "\n"]
  }

  lemma TerminatedCons(h: string, rest: seq<string>)
    requires h != [] && h[|h| - 1] == '\n'
    ensures Terminated([h] + rest) == [h] + Terminated(rest)
  {
    if rest != [] {
      assert ([h] + rest)[..|rest|] == [h] + rest[..|rest| - 1];
    }
  }

  /** Appending "\n" + s (s one non-empty line) to a file terminates its
      lines and adds s as the new last line. */
  lemma {:induction false} LinesAppendLine(t: string, s: string)
    requires s != [] && '\n' !in s
    ensures Lines(t + "\n" + s) == Terminated(Lines(t)) + [s]
    decreases |t|, 1
  {
    LinesOfLine(s);
    if t == [] {
      LinesAppendToEmpty(s);
    } else if t[LineLength(t) - 1] == '\n' {
      LinesAppendAfterFirstLine(t, s);
    } else {
      LinesAppendToLastLine(t, s);
    }
  }

  lemma LinesAppendToEmpty(s: string)
    requires s != [] && Lines(s) == [s]
    ensures Lines("\n" + s) == Terminated(Lines([])) + [s]
  {
    var u := "\n" + s;
    assert LineLength(u) == 1;
    assert u[..1] == "\n";
    assert u[1..] == s;
  }

  lemma {:induction false} LinesAppendAfterFirstLine(t: string, s: string)
    requires s != [] && '\n' !in s
    requires t != [] && t[LineLength(t) - 1] == '\n'
    ensures Lines(t + "\n" + s) == Terminated(Lines(t)) + [s]
    decreases |t|, 0
  {
    var k := LineLength(t);
    var h := t[..k];
    var tail := t[k..];
    var rest := Lines(tail);
    assert h != [] && h[|h| - 1] == '\n';
    calc {
      Lines(t + "\n" + s);
      { var v := "\n" + s;
        assert t + "\n" + s == t + v;
        assert tail + v == tail + "\n" + s;
        LinesAfterFirstLine(t, v); }
      [h] + Lines(tail + "\n" + s);
      { LinesAppendLine(tail, s); }
      [h] + (Terminated(rest) + [s]);
      ([h] + Terminated(rest)) + [s];
      { TerminatedCons(h, rest); }
      Terminated([h] + rest) + [s];
      { LinesUnfold(t); }
      Terminated(Lines(t)) + [s];
    }
  }

  lemma LinesUnfold(t: string)
    requires t != []
    ensures Lines(t) == [t[..LineLength(t)]] + Lines(t[LineLength(t)..])
  {
  }

  /** Text appended after a terminated first line leaves that line alone. */
  lemma LinesAfterFirstLine(t: string, v: string)
    requires t != [] && t[LineLength(t) - 1] == '\n'
    ensures Lines(t + v) == [t[..LineLength(t)]] + Lines(t[LineLength(t)..] + v)
  {
    var k := LineLength(t);
    LineLengthOfPrefix(t, v);
    assert (t + v)[..k] == t[..k];
    assert (t + v)[k..] == t[k..] + v;
  }

  lemma LinesAppendToLastLine(t: string, s: string)
    requires s != [] && '\n' !in s && Lines(s) == [s]
    requires t != [] && t[LineLength(t) - 1] != '\n'
    ensures Lines(t) == [t] && t[|t| - 1] != '\n'
    ensures Lines(t + "\n" + s) == Terminated(Lines(t)) + [s]
  {
    SingleLine(t);
    LinesOfLine(t);
    var u := t + "\n" + s;
    LineLengthPastText(t, s);
    LinesUnfold(u);
    assert u[..|t| + 1] == t + "\n";
    assert u[|t| + 1..] == s;
    assert Lines(u) == [t + "\n", s];
    assert Terminated([t]) == [t + "\n"];
  }

  /** A text whose first line is unterminated is that one line. */
  lemma SingleLine(t: string)
    requires t != [] && t[LineLength(t) - 1] != '\n'
    ensures LineLength(t) == |t| && '\n' !in t && t[|t| - 1] != '\n'
  {
    var k := LineLength(t);
    assert k == |t|;
    forall i | 0 <= i < |t| ensures t[i] != '\n' {
      if i < k - 1 {
      } else {
        assert i == k - 1;
      }
    }
    assert t[|t| - 1] == t[k - 1];
  }

  /** The last line of a non-empty text ends with the text's last
      character. */
  lemma {:induction false} LastLineEnd(t: string)
    requires t != []
    ensures var ls := Lines(t); |ls| > 0 && ls[|ls| - 1][|ls[|ls| - 1]| - 1] == t[|t| - 1]
    decreases |t|
  {
    var k := LineLength(t);
    LinesUnfold(t);
    if k < |t| {
      LastLineEnd(t[k..]);
      var rest := Lines(t[k..]);
      assert ([t[..k]] + rest)[|rest|] == rest[|rest| - 1];
    } else {
      assert t[..k] == t;
    }
  }

  lemma LinesOfLine(s: string)
    requires s != [] && '\n' !in s
    ensures Lines(s) == [s]
  {
    var k := LineLength(s);
    assert s[k - 1] in s;
    assert s[..k] == s;
    assert s[k..] == [];
  }

  /** How many lines iterating over a text yields, counted on the text
      itself: one per '\n', plus one for an unterminated last piece. */
  lemma {:induction false} LineCount(t: string)
    ensures |Lines(t)| == multiset(t)['\n'] + (if t != [] && t[|t| - 1] != '\n' then 1 else 0)
    decreases |t|
  {
    if t != [] {
      var k := LineLength(t);
      var rest := t[k..];
      LinesUnfold(t);
      LineCount(rest);
      assert multiset(t) == multiset(t[..k]) + multiset(rest) by {
        assert t == t[..k] + rest;
      }
      FirstLineCount(t);
      if k < |t| {
        assert rest[|rest| - 1] == t[|t| - 1];
      }
    }
  }

  /** The first line holds a '\n' only as its last character. */
  lemma FirstLineCount(t: string)
    requires t != []
    ensures multiset(t[..LineLength(t)])['\n'] == if t[LineLength(t) - 1] == '\n' then 1 else 0
  {
    var k := LineLength(t);
    var body := t[..k - 1];
    assert '\n' !in body by {
      assert forall i :: 0 <= i < |body| ==> body[i] == t[i];
    }
    assert t[..k] == body + [t[k - 1]];
    assert multiset(t[..k]) == multiset(body) + multiset{t[k - 1]};
  }
}
