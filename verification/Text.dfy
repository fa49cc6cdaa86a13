/** The string operations the Go code borrows from its standard library, on ASCII text. */
module Text {
  function LowerChar(c: char): char {
    if 'A' <= c <= 'Z' then (c as int + 32) as char else c
  }

  function Lower(s: string): (r: string)
    ensures |r| == |s|
    ensures forall i :: 0 <= i < |s| ==> r[i] == LowerChar(s[i])
  {
    seq(|s|, i requires 0 <= i < |s| => LowerChar(s[i]))
  }

  predicate HasSuffix(s: string, suffix: string) {
    |suffix| <= |s| && s[|s| - |suffix|..] == suffix
  }

  function TrimSuffix(s: string, suffix: string): string {
    if HasSuffix(s, suffix) then s[..|s| - |suffix|] else s
  }

  function TrimPrefix(s: string, prefix: string): string {
    if prefix <= s then s[|prefix|..] else s
  }

  /** Put a character in front of the first piece. */
  function Glue(c: char, pieces: seq<string>): (r: seq<string>)
    requires pieces != []
    ensures |r| == |pieces| && r[0] == [c] + pieces[0] && r[1..] == pieces[1..]
  {
    [[c] + pieces[0]] + pieces[1..]
  }

  lemma GlueAppend(c: char, a: seq<string>, b: seq<string>)
    requires a != []
    ensures Glue(c, a + b) == Glue(c, a) + b
  {
    assert (a + b)[0] == a[0] && (a + b)[1..] == a[1..] + b;
  }

  /** strings.Split with a one-character separator: always at least one piece. */
  function Split(s: string, sep: char): (pieces: seq<string>)
    ensures |pieces| >= 1
  {
    if s == "" then [""]
    else
      var rest := Split(s[1..], sep);
      if s[0] == sep then [""] + rest else Glue(s[0], rest)
  }

  /** No piece has a separator in it. */
  lemma {:induction false} PiecesAreWhole(s: string, sep: char)
    ensures forall i :: 0 <= i < |Split(s, sep)| ==> sep !in Split(s, sep)[i]
  {
    if s != "" {
      PiecesAreWhole(s[1..], sep);
    }
  }

  function Join(pieces: seq<string>, sep: char): string {
    if pieces == [] then ""
    else if |pieces| == 1 then pieces[0]
    else pieces[0] + [sep] + Join(pieces[1..], sep)
  }

  lemma {:induction false} JoinSplit(s: string, sep: char)
    ensures Join(Split(s, sep), sep) == s
  {
    if s != "" {
      JoinSplit(s[1..], sep);
      var rest := Split(s[1..], sep);
      if s[0] == sep {
        assert ([""] + rest)[1..] == rest;
      }
    }
  }

  lemma SplitCons(c: char, s: string, sep: char)
    ensures var rest := Split(s, sep);
            Split([c] + s, sep) == if c == sep then [""] + rest else Glue(c, rest)
  {
    assert ([c] + s)[1..] == s;
  }

  lemma {:induction false} SplitAround(a: string, b: string, sep: char)
    ensures Split(a + [sep] + b, sep) == Split(a, sep) + Split(b, sep)
    decreases |a|, 0
  {
    if a == "" {
      SplitCons(sep, b, sep);
      assert a + [sep] + b == [sep] + b;
    } else {
      SplitAroundCons(a[0], a[1..], b, sep);
      assert a == [a[0]] + a[1..];
      assert a + [sep] + b == [a[0]] + (a[1..] + [sep] + b);
    }
  }

  lemma {:induction false} SplitAroundCons(c: char, a: string, b: string, sep: char)
    ensures Split([c] + (a + [sep] + b), sep) == Split([c] + a, sep) + Split(b, sep)
    decreases |a|, 1
  {
    hide Split, Glue;
    SplitAround(a, b, sep);
    SplitCons(c, a, sep);
    SplitCons(c, a + [sep] + b, sep);
    var rest, tail := Split(a, sep), Split(b, sep);
    if c == sep {
      assert [""] + (rest + tail) == ([""] + rest) + tail;
    } else {
      GlueAppend(c, rest, tail);
    }
  }

  lemma {:induction false} JoinAround(a: seq<string>, b: seq<string>, sep: char)
    requires a != [] && b != []
    ensures Join(a + b, sep) == Join(a, sep) + [sep] + Join(b, sep)
  {
    if |a| == 1 {
      assert (a + b)[1..] == b;
    } else {
      assert (a + b)[1..] == a[1..] + b;
      JoinAround(a[1..], b, sep);
    }
  }

  // ---------------------------------------------------------------------------
  // White space
  // ---------------------------------------------------------------------------

  predicate IsSpace(c: char) {
    c == ' ' || c == '\t' || c == '\n' || c == '\r' || c == '\U{000B}' || c == '\U{000C}'
  }

  function TrimLeft(s: string): (r: string)
    ensures |r| <= |s|
  {
    if s != "" && IsSpace(s[0]) then TrimLeft(s[1..]) else s
  }

  function TrimRight(s: string): string {
    if s != "" && IsSpace(s[|s| - 1]) then TrimRight(s[..|s| - 1]) else s
  }

  function TrimSpace(s: string): string {
    TrimRight(TrimLeft(s))
  }

  /** The length of the leading run of non-space characters. */
  function WordLength(s: string): (n: nat)
    ensures n <= |s|
    ensures s != "" && !IsSpace(s[0]) ==> n > 0
  {
    if s == "" || IsSpace(s[0]) then 0 else 1 + WordLength(s[1..])
  }

  function Fields(s: string): seq<string>
    decreases |s|
  {
    if s == "" then []
    else if IsSpace(s[0]) then Fields(s[1..])
    else
      var n := WordLength(s);
      [s[..n]] + Fields(s[n..])
  }

  predicate Word(s: string) {
    s != "" && forall i :: 0 <= i < |s| ==> !IsSpace(s[i])
  }

  lemma {:induction false} WordLengthOf(w: string, rest: string)
    requires forall i :: 0 <= i < |w| ==> !IsSpace(w[i])
    requires rest == "" || IsSpace(rest[0])
    ensures WordLength(w + rest) == |w|
  {
    if w == "" {
      assert w + rest == rest;
    } else {
      assert (w + rest)[1..] == w[1..] + rest;
      WordLengthOf(w[1..], rest);
    }
  }

  lemma FieldsOfWord(w: string, rest: string)
    requires Word(w) && (rest == "" || IsSpace(rest[0]))
    ensures Fields(w + rest) == [w] + Fields(rest)
  {
    WordLengthOf(w, rest);
    assert (w + rest)[..|w|] == w && (w + rest)[|w|..] == rest;
  }

  lemma FieldsOfPair(a: string, b: string)
    requires Word(a) && Word(b)
    ensures Fields(a + " " + b) == [a, b]
  {
    FieldsOfWord(b, "");
    assert b + "" == b && (" " + b)[1..] == b;
    assert Fields(" " + b) == [b];
    FieldsOfWord(a, " " + b);
    assert a + " " + b == a + (" " + b);
  }

  /** With FieldsOfWord, all there is to splitting around white space. */
  lemma FieldsOfSpace(c: char, rest: string)
    requires IsSpace(c)
    ensures Fields([c] + rest) == Fields(rest) && Fields("") == []
  {
    assert ([c] + rest)[1..] == rest;
  }

  /** A line whose first and last characters are not spaces survives trimming, with or without its newline. */
  lemma TrimSolidLine(s: string)
    requires s != "" && !IsSpace(s[0]) && !IsSpace(s[|s| - 1])
    ensures TrimSpace(s) == s && TrimSpace(s + "\n") == s
  {
    var line := s + "\n";
    assert line[0] == s[0] && line[|line| - 1] == '\n' && line[..|line| - 1] == s;
  }

  lemma {:induction false} TrimLeftOf(s: string)
    ensures |TrimLeft(s)| <= |s| && TrimLeft(s) == s[|s| - |TrimLeft(s)|..]
    ensures forall i :: 0 <= i < |s| - |TrimLeft(s)| ==> IsSpace(s[i])
    ensures TrimLeft(s) != "" ==> !IsSpace(TrimLeft(s)[0])
  {
    if s != "" && IsSpace(s[0]) {
      TrimLeftOf(s[1..]);
    }
  }

  lemma {:induction false} TrimRightOf(s: string)
    ensures |TrimRight(s)| <= |s| && TrimRight(s) == s[..|TrimRight(s)|]
    ensures forall i :: |TrimRight(s)| <= i < |s| ==> IsSpace(s[i])
    ensures TrimRight(s) != "" ==> !IsSpace(TrimRight(s)[|TrimRight(s)| - 1])
  {
    if s != "" && IsSpace(s[|s| - 1]) {
      TrimRightOf(s[..|s| - 1]);
    }
  }

  /** Trimming cuts white space and only white space, at both ends, and all of it. */
  lemma TrimSpaceIsCore(s: string) returns (before: string, after: string)
    ensures s == before + TrimSpace(s) + after
    ensures (forall i :: 0 <= i < |before| ==> IsSpace(before[i])) && (forall i :: 0 <= i < |after| ==> IsSpace(after[i]))
    ensures TrimSpace(s) != "" ==> !IsSpace(TrimSpace(s)[0]) && !IsSpace(TrimSpace(s)[|TrimSpace(s)| - 1])
  {
    hide TrimLeft, TrimRight;
    var t := TrimLeft(s);
    TrimLeftOf(s);
    TrimRightOf(t);
    before, after := s[..|s| - |t|], t[|TrimRight(t)|..];
    assert s == before + t && t == TrimRight(t) + after;
    assert before + (TrimRight(t) + after) == before + TrimRight(t) + after;
  }

  lemma BlankIsTrimmedAway(s: string)
    ensures TrimSpace(s) != "" <==> exists i :: 0 <= i < |s| && !IsSpace(s[i])
  {
    hide TrimSpace;
    var before, after := TrimSpaceIsCore(s);
    var core := TrimSpace(s);
    if core != "" {
      assert s[|before|] == core[0];
    } else {
      assert s == before + after;
    }
  }

  /** strings.Cut(s, sep), the part before the separator. */
  function CutBefore(s: string, sep: char): string {
    if s == "" || s[0] == sep then "" else [s[0]] + CutBefore(s[1..], sep)
  }

  /** It ends where the first separator is. */
  lemma {:induction false} CutBeforeFirst(s: string, sep: char)
    ensures var k := |CutBefore(s, sep)|;
            k <= |s| && CutBefore(s, sep) == s[..k] && sep !in s[..k] && (k < |s| ==> s[k] == sep)
  {
    if s != "" && s[0] != sep {
      CutBeforeFirst(s[1..], sep);
      var k := |CutBefore(s[1..], sep)|;
      assert s[..k + 1] == [s[0]] + s[1..][..k];
    }
  }

  lemma {:induction false} CutAbsent(s: string, sep: char)
    requires sep !in s
    ensures CutBefore(s, sep) == s
  {
    if s != "" {
      CutAbsent(s[1..], sep);
    }
  }

  // ---------------------------------------------------------------------------
  // Lines that keep their newline
  // ---------------------------------------------------------------------------

  /** bytes.SplitAfter(s, "\n"). */
  function SplitAfter(s: string): (lines: seq<string>)
    ensures |lines| >= 1
  {
    if s == "" then [""]
    else
      var rest := SplitAfter(s[1..]);
      if s[0] == '\n' then ["\n"] + rest else Glue(s[0], rest)
  }

  function Concat(lines: seq<string>): string {
    if lines == [] then "" else lines[0] + Concat(lines[1..])
  }

  /** Text that ends where a line ends. */
  predicate Complete(s: string) {
    s == "" || s[|s| - 1] == '\n'
  }

  lemma SplitAfterCons(c: char, s: string)
    ensures var rest := SplitAfter(s);
            SplitAfter([c] + s) == if c == '\n' then ["\n"] + rest else Glue(c, rest)
  {
    assert ([c] + s)[1..] == s;
  }

  lemma {:induction false} ConcatSplitAfter(s: string)
    ensures Concat(SplitAfter(s)) == s
  {
    if s != "" {
      var rest := SplitAfter(s[1..]);
      ConcatSplitAfter(s[1..]);
      if s[0] == '\n' {
        assert (["\n"] + rest)[1..] == rest;
      }
    }
  }

  /** Cutting at a line end cuts the list of lines; the empty last piece of the first part disappears. */
  lemma {:induction false} SplitAfterAppend(x: string, y: string)
    requires Complete(x)
    ensures var xs := SplitAfter(x);
            xs[|xs| - 1] == "" && SplitAfter(x + y) == xs[..|xs| - 1] + SplitAfter(y)
  {
    if x == "" {
      assert x + y == y;
    } else {
      assert x == [x[0]] + x[1..] && x + y == [x[0]] + (x[1..] + y);
      SplitAfterAppend(x[1..], y);
      SplitAfterAppendCons(x[0], x[1..], y);
    }
  }

  lemma SplitAfterAppendCons(c: char, x: string, y: string)
    requires x != "" ==> x[|x| - 1] == '\n'
    requires x == "" ==> c == '\n'
    requires var xs := SplitAfter(x); xs[|xs| - 1] == "" && SplitAfter(x + y) == xs[..|xs| - 1] + SplitAfter(y)
    ensures var xs := SplitAfter([c] + x);
            xs[|xs| - 1] == "" && SplitAfter([c] + (x + y)) == xs[..|xs| - 1] + SplitAfter(y)
  {
    SplitAfterCons(c, x);
    SplitAfterCons(c, x + y);
    hide SplitAfter, Glue;
    var xs, ys := SplitAfter(x), SplitAfter(y);
    var most := xs[..|xs| - 1];
    if c == '\n' {
      assert (["\n"] + xs)[..|xs|] == ["\n"] + most;
      assert ["\n"] + (most + ys) == (["\n"] + most) + ys;
    } else {
      LinesOfComplete(x);
      GlueAppend(c, most, ys);
      GlueAppend(c, most, [""]);
      assert xs == most + [""];
      assert (Glue(c, most) + [""])[..|xs| - 1] == Glue(c, most);
    }
  }

  lemma LinesOfComplete(x: string)
    requires x != "" && x[|x| - 1] == '\n'
    ensures |SplitAfter(x)| >= 2
  {
    if |SplitAfter(x)| == 1 {
      ConcatSplitAfter(x);
      OneLineHasNoNewline(x);
    }
  }

  lemma {:induction false} OneLineHasNoNewline(x: string)
    requires |SplitAfter(x)| == 1
    ensures '\n' !in x
  {
    if x != "" {
      OneLineHasNoNewline(x[1..]);
    }
  }

  /** One line with its newline is a list of that line and an empty rest. */
  lemma {:induction false} SplitAfterLine(s: string)
    requires '\n' !in s
    ensures SplitAfter(s + "\n") == [s + "\n", ""]
  {
    if s == "" {
      assert s + "\n" == "\n";
      assert "\n"[1..] == "";
    } else {
      SplitAfterLine(s[1..]);
      assert s + "\n" == [s[0]] + (s[1..] + "\n");
      SplitAfterCons(s[0], s[1..] + "\n");
    }
  }

  predicate IsLine(s: string) {
    s != "" && s[|s| - 1] == '\n' && '\n' !in s[..|s| - 1]
  }

  /** Every piece but the last is one line with its newline; the last piece has none. */
  lemma {:induction false} SplitAfterShape(s: string)
    ensures var lines := SplitAfter(s);
            (forall k :: 0 <= k < |lines| - 1 ==> IsLine(lines[k])) && '\n' !in lines[|lines| - 1]
  {
    if s != "" {
      SplitAfterShape(s[1..]);
      var rest := SplitAfter(s[1..]);
      if s[0] != '\n' && |rest| > 1 {
        var line := [s[0]] + rest[0];
        assert line[..|line| - 1] == [s[0]] + rest[0][..|rest[0]| - 1];
        assert IsLine(line);
        forall k | 0 <= k < |rest| - 1
          ensures IsLine(Glue(s[0], rest)[k])
        {
          if k > 0 {
            assert Glue(s[0], rest)[k] == rest[k];
          }
        }
      }
    }
  }

  lemma {:induction false} SplitAfterConcat(lines: seq<string>, tail: string)
    requires forall k :: 0 <= k < |lines| ==> IsLine(lines[k])
    requires '\n' !in tail
    ensures SplitAfter(Concat(lines) + tail) == lines + [tail]
    ensures Complete(Concat(lines))
  {
    hide SplitAfter;
    if lines == [] {
      SplitAfterPlain(tail);
      assert "" + tail == tail;
    } else {
      var line, rest := lines[0], lines[1..];
      var text := Concat(rest) + tail;
      SplitAfterConcat(rest, tail);
      SplitAfterLine(line[..|line| - 1]);
      assert line == line[..|line| - 1] + "\n";
      SplitAfterAppend(line, text);
      assert [line, ""][..1] == [line];
      assert Concat(lines) + tail == line + text;
      assert [line] + (rest + [tail]) == lines + [tail];
    }
  }

  lemma {:induction false} SplitAfterPlain(s: string)
    requires '\n' !in s
    ensures SplitAfter(s) == [s]
  {
    if s != "" {
      SplitAfterPlain(s[1..]);
      assert s == [s[0]] + s[1..];
    }
  }

  /** A final newline closes the last line and leaves an empty piece. */
  lemma SplitAfterNewline(s: string)
    ensures var lines := SplitAfter(s); var last := |lines| - 1;
            SplitAfter(s + "\n") == lines[..last] + [lines[last] + "\n", ""]
  {
    hide SplitAfter;
    var lines := SplitAfter(s);
    var init, tail := lines[..|lines| - 1], lines[|lines| - 1];
    SplitAfterShape(s);
    ConcatSplitAfter(s);
    ConcatAppend(init, [tail]);
    ConcatAppend(init, [tail + "\n"]);
    assert lines == init + [tail];
    ClosedTail(s, Concat(init), tail);
    assert (tail + "\n")[..|tail|] == tail;
    SplitAfterConcat(init + [tail + "\n"], "");
    assert init + [tail + "\n"] + [""] == init + [tail + "\n", ""];
  }

  lemma ClosedTail(s: string, head: string, tail: string)
    requires s == head + Concat([tail])
    ensures head + Concat([tail + "\n"]) + "" == s + "\n"
  {
    assert Concat([tail]) == tail && Concat([tail + "\n"]) == tail + "\n";
    assert head + (tail + "\n") + "" == head + tail + "\n";
  }

  lemma {:induction false} ConcatAppend(a: seq<string>, b: seq<string>)
    ensures Concat(a + b) == Concat(a) + Concat(b)
  {
    if a == [] {
      assert a + b == b;
    } else {
      assert (a + b)[1..] == a[1..] + b;
      ConcatAppend(a[1..], b);
    }
  }

  lemma {:induction false} TrimIgnoresNewline(s: string)
    ensures TrimSpace(s + "\n") == TrimSpace(s)
  {
    if s == "" {
      assert TrimLeft("\n") == TrimLeft("\n"[1..]);
    } else if IsSpace(s[0]) {
      assert (s + "\n")[1..] == s[1..] + "\n";
      TrimIgnoresNewline(s[1..]);
    } else {
      assert (s + "\n")[..|s|] == s;
    }
  }

  // ---------------------------------------------------------------------------
  // The same spelling but for capitals
  // ---------------------------------------------------------------------------

  ghost predicate SameLetter(x: char, y: char) {
    || x == y
    || ('A' <= x <= 'Z' && y as int == x as int + 32)
    || ('A' <= y <= 'Z' && x as int == y as int + 32)
  }

  ghost predicate SameText(a: string, b: string) {
    |a| == |b| && forall i :: 0 <= i < |a| ==> SameLetter(a[i], b[i])
  }

  ghost predicate LowerCase(a: string) {
    forall i :: 0 <= i < |a| ==> !('A' <= a[i] <= 'Z')
  }

  lemma SameLetterFolds(x: char, y: char)
    ensures SameLetter(x, y) <==> LowerChar(x) == LowerChar(y)
  {
  }

  lemma SameTextFolds(a: string, b: string)
    ensures SameText(a, b) <==> Lower(a) == Lower(b)
  {
    var x, y := Lower(a), Lower(b);
    if SameText(a, b) {
      forall i | 0 <= i < |a|
        ensures x[i] == y[i]
      {
        SameLetterFolds(a[i], b[i]);
      }
      assert x == y;
    }
    if x == y {
      assert |a| == |x| == |y| == |b|;
      forall i | 0 <= i < |a|
        ensures SameLetter(a[i], b[i])
      {
        assert x[i] == y[i];
        SameLetterFolds(a[i], b[i]);
      }
    }
  }

  /** Lower gives the one spelling without capitals. */
  lemma LowerIsCanonical(a: string, t: string)
    ensures t == Lower(a) <==> LowerCase(t) && SameText(t, a)
  {
    SameTextFolds(t, a);
    var x, y := Lower(t), Lower(a);
    if LowerCase(t) {
      assert forall i :: 0 <= i < |t| ==> x[i] == t[i];
      assert x == t;
    }
    if t == y {
      forall i | 0 <= i < |t|
        ensures !('A' <= t[i] <= 'Z') && x[i] == y[i]
      {
        assert t[i] == LowerChar(a[i]);
      }
      assert x == y;
    }
  }

  /** `name` is `host` in lower case and without its final dot. */
  ghost predicate Dotless(host: string, name: string) {
    LowerCase(name) && (SameText(name + ".", host) || (SameText(name, host) && !(host != "" && host[|host| - 1] == '.')))
  }

  lemma DotIsKept(name: string, host: string)
    ensures SameText(name + ".", host) ==> host != "" && host[|host| - 1] == '.'
  {
    if |host| == |name| + 1 {
      assert (name + ".")[|name|] == '.';
    }
  }

  lemma TrimmedLowerIsDotless(host: string, name: string)
    ensures name == TrimSuffix(Lower(host), ".") <==> Dotless(host, name)
  {
    var low := Lower(host);
    LowerIsCanonical(host, low);
    if host != "" && host[|host| - 1] == '.' {
      var n := |host| - 1;
      assert low == low[..n] + ".";
      if Dotless(host, name) {
        LowerIsCanonical(host, name + ".");
        assert (name + ".")[..n] == name;
      }
      if name == low[..n] {
        assert name + "." == low;
        assert LowerCase(name) by {
          assert forall i :: 0 <= i < n ==> name[i] == low[i];
        }
      }
    } else {
      LowerIsCanonical(host, name);
      DotIsKept(name, host);
    }
  }
}
