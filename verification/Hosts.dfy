/**
 * internal/hosts/hosts.go: finding, replacing and removing the managed block.  Text is one
 * character per byte.
 */
module Hosts {
  import opened Text

  const BEGIN := "# BEGIN utlsproxy managed hosts v1"
  const END := "# END utlsproxy managed hosts v1"
  const BEGIN_PREFIX := "# BEGIN utlsproxy"
  const END_PREFIX := "# END utlsproxy"
  const LIMIT := 4 * 1024 * 1024

  // ---------------------------------------------------------------------------
  // block
  // ---------------------------------------------------------------------------

  datatype Mark = Plain | Opening | Closing | Foreign

  function Classify(line: string): Mark {
    var t := TrimSpace(line);
    if BEGIN_PREFIX <= t || END_PREFIX <= t then
      if t == BEGIN then Opening else if t == END then Closing else Foreign
    else Plain
  }

  datatype Block = NoBlock | Found(start: nat, end: nat) | Malformed

  /** `start` and `end` while scanning; -1 is "not seen". */
  datatype Progress = Seen(start: int, end: int) | Broken

  function ScanLine(line: string, offset: nat, p: Progress): Progress {
    if p.Broken? then Broken
    else match Classify(line)
      case Plain => p
      case Opening => if p.start < 0 && p.end < 0 then Seen(offset, p.end) else Broken
      case Closing => if p.start >= 0 && p.end < 0 then Seen(p.start, offset + |line|) else Broken
      case Foreign => Broken
  }

  function ScanLines(lines: seq<string>, offset: nat, p: Progress): Progress {
    if lines == [] then p
    else ScanLines(lines[1..], offset + |lines[0]|, ScanLine(lines[0], offset, p))
  }

  function BlockOf(b: string): Block {
    match ScanLines(SplitAfter(b), 0, Seen(-1, -1))
    case Broken => Malformed
    case Seen(start, end) =>
      if (start < 0) != (end < 0) then Malformed
      else if start < 0 then NoBlock
      else if end < 0 then Malformed
      else Found(start, end)
  }

  method FindBlock(b: string) returns (r: Block)
    ensures r == BlockOf(b)
  {
    var start, end, offset := -1, -1, 0;
    var lines := SplitAfter(b);
    for i := 0 to |lines|
      invariant offset >= 0
      invariant ScanLines(lines[i..], offset, Seen(start, end)) == ScanLines(lines, 0, Seen(-1, -1))
    {
      var line := lines[i];
      assert lines[i..][1..] == lines[i + 1..];
      var t := TrimSpace(line);
      if BEGIN_PREFIX <= t || END_PREFIX <= t {
        if t == BEGIN && start < 0 && end < 0 {
          start := offset;
        } else if t == END && start >= 0 && end < 0 {
          end := offset + |line|;
        } else {
          BrokenStays(lines[i + 1..], offset + |line|);
          return Malformed;
        }
      }
      offset := offset + |line|;
    }
    if (start < 0) != (end < 0) {
      return Malformed;
    }
    return if start < 0 then NoBlock else Found(start, end);
  }

  lemma {:induction false} BrokenStays(lines: seq<string>, offset: nat)
    ensures ScanLines(lines, offset, Broken) == Broken
  {
    if lines != [] {
      BrokenStays(lines[1..], offset + |lines[0]|);
    }
  }

  // ---------------------------------------------------------------------------
  // Prepare
  // ---------------------------------------------------------------------------

  datatype Plan = Plan(before: string, after: string, managed: seq<string>, conflicts: seq<string>, changed: bool)

  datatype Prepared = TooLarge | BadBlock | Conflicting(conflicts: seq<string>) | Ready(plan: Plan)

  function ManagedLines(lines: seq<string>): seq<string> {
    if lines == [] then []
    else
      var line := lines[|lines| - 1];
      ManagedLines(lines[..|lines| - 1]) + if !("#" <= line) && TrimSpace(line) != "" then [line] else []
  }

  /** How the file's own rules read a name. */
  function NameKey(name: string): string {
    TrimSuffix(Lower(name), ".")
  }

  /** Address first, then names; a line with fewer than two fields says nothing. */
  function LineFields(line: string): seq<string> {
    var parts := Fields(CutBefore(line, '#'));
    if |parts| < 2 then [] else parts
  }

  function NameConflicts(line: string, names: seq<string>, wanted: set<string>): seq<string> {
    if names == [] then []
    else
      NameConflicts(line, names[..|names| - 1], wanted) +
      if NameKey(names[|names| - 1]) in wanted then [line] else []
  }

  function LineConflicts(line: string, wanted: set<string>): seq<string> {
    var parts := LineFields(line);
    if parts == [] then [] else NameConflicts(line, parts[1..], wanted)
  }

  function Conflicts(lines: seq<string>, wanted: set<string>): seq<string> {
    if lines == [] then []
    else Conflicts(lines[..|lines| - 1], wanted) + LineConflicts(lines[|lines| - 1], wanted)
  }

  function Body(domains: seq<string>, address: string): string {
    if domains == [] then ""
    else Body(domains[..|domains| - 1], address) + (address + " " + domains[|domains| - 1] + "\n")
  }

  function Generated(domains: seq<string>, address: string): string {
    (BEGIN + "\n") + Body(domains, address) + (END + "\n")
  }

  /** The file without its managed block. */
  function Outside(b: string): string {
    match BlockOf(b)
    case Found(start, end) => if start <= end <= |b| then b[..start] + b[end..] else b
    case _ => b
  }

  /** The managed block itself. */
  function Region(b: string): string {
    match BlockOf(b)
    case Found(start, end) => if start <= end <= |b| then b[start..end] else ""
    case _ => ""
  }

  lemma NothingShown()
    ensures forall l :: l in Split("", '\n') ==> !Shown(l)
  {
  }

  function Closed(b: string): string {
    if Complete(b) then b else b + "\n"
  }

  function Written(b: string, domains: seq<string>, address: string): string {
    match BlockOf(b)
    case Found(start, end) =>
      if start <= end <= |b| then b[..start] + Generated(domains, address) + b[end..] else b
    case _ => Closed(b) + Generated(domains, address)
  }

  ghost function PrepareSpec(b: string, domains: seq<string>, address: string, remove: bool): Prepared {
    if |b| > LIMIT then TooLarge
    else if BlockOf(b).Malformed? then BadBlock
    else
      var wanted := set d | d in domains;
      var conflicts := Conflicts(Split(Outside(b), '\n'), wanted);
      if !remove && conflicts != [] then Conflicting(conflicts)
      else
        var after := if remove then Outside(b) else Written(b, domains, address);
        var managed := match BlockOf(b)
          case Found(start, end) => if start <= end <= |b| then ManagedLines(Split(b[start..end], '\n')) else []
          case _ => [];
        Ready(Plan(b, after, managed, conflicts, after != b))
  }

  // ---------------------------------------------------------------------------
  // What a hosts file says
  // ---------------------------------------------------------------------------

  ghost function NameAnswers(address: string, names: seq<string>, key: string): seq<string> {
    if names == [] then []
    else
      NameAnswers(address, names[..|names| - 1], key) +
      if Dotless(names[|names| - 1], key) then [address] else []
  }

  ghost function LineAnswers(line: string, key: string): seq<string> {
    var parts := LineFields(line);
    if parts == [] then [] else NameAnswers(parts[0], parts[1..], key)
  }

  ghost function Answers(lines: seq<string>, key: string): seq<string> {
    if lines == [] then []
    else Answers(lines[..|lines| - 1], key) + LineAnswers(lines[|lines| - 1], key)
  }

  /** The addresses a hosts file gives for a name, in file order. */
  ghost function Lookup(text: string, key: string): seq<string> {
    Answers(Split(text, '\n'), key)
  }

  /** The line has an address and, after it, one of these names. */
  ghost predicate Wants(line: string, domains: seq<string>) {
    exists k, d :: 1 <= k < |LineFields(line)| && d in domains && Dotless(LineFields(line)[k], d)
  }

  /** A line of text to show: neither a comment nor blank. */
  ghost predicate Shown(line: string) {
    !("#" <= line) && exists i :: 0 <= i < |line| && !IsSpace(line[i])
  }

  ghost predicate NamesOne(names: seq<string>, domains: seq<string>) {
    exists k, d :: 0 <= k < |names| && d in domains && Dotless(names[k], d)
  }

  lemma NamesOneSnoc(init: seq<string>, last: string, domains: seq<string>)
    ensures NamesOne(init + [last], domains) <==> NamesOne(init, domains) || NameKey(last) in domains
  {
    var names, key := init + [last], NameKey(last);
    TrimmedLowerIsDotless(last, key);
    forall d
      ensures d == key <==> Dotless(last, d)
    {
      TrimmedLowerIsDotless(last, d);
    }
    hide NameKey, Dotless;
    assert names[|init|] == last;
    if NamesOne(init, domains) {
      var k, d :| 0 <= k < |init| && d in domains && Dotless(init[k], d);
      assert names[k] == init[k];
    }
    if NamesOne(names, domains) {
      var k, d :| 0 <= k < |names| && d in domains && Dotless(names[k], d);
      assert k < |init| ==> init[k] == names[k];
    }
  }

  lemma {:induction false} NameConflictsExactly(line: string, names: seq<string>, domains: seq<string>)
    ensures var found := NameConflicts(line, names, set d | d in domains);
            && (forall l :: l in found ==> l == line)
            && (found != [] <==> NamesOne(names, domains))
  {
    hide NamesOne, NameKey;
    if names == [] {
      NoNames(domains);
    } else {
      var init, last := names[..|names| - 1], names[|names| - 1];
      NameConflictsExactly(line, init, domains);
      NamesOneSnoc(init, last, domains);
      assert init + [last] == names;
    }
  }

  lemma NoNames(domains: seq<string>)
    ensures !NamesOne([], domains)
  {
  }

  lemma LineConflictsExactly(line: string, domains: seq<string>)
    ensures var found := LineConflicts(line, set d | d in domains);
            && (forall l :: l in found ==> l == line)
            && (found != [] <==> Wants(line, domains))
  {
    hide LineFields, NameConflicts, Dotless;
    var parts := LineFields(line);
    if parts != [] {
      var names := parts[1..];
      NameConflictsExactly(line, names, domains);
      if k, d :| 0 <= k < |names| && d in domains && Dotless(names[k], d) {
        assert parts[k + 1] == names[k];
      }
      if k, d :| 1 <= k < |parts| && d in domains && Dotless(parts[k], d) {
        assert names[k - 1] == parts[k];
      }
    }
  }

  /** The conflicts are the lines that have a wanted name, in their order. */
  lemma {:induction false} ConflictsAreWanted(lines: seq<string>, domains: seq<string>)
    ensures forall l :: l in Conflicts(lines, set d | d in domains) <==> l in lines && Wants(l, domains)
  {
    hide LineConflicts, Wants;
    if lines != [] {
      var init, last := lines[..|lines| - 1], lines[|lines| - 1];
      assert lines == init + [last];
      ConflictsAreWanted(init, domains);
      LineConflictsExactly(last, domains);
      var found := LineConflicts(last, set d | d in domains);
      assert found != [] ==> found[0] in found;
    }
  }

  lemma {:induction false} NameAnswersExactly(address: string, names: seq<string>, key: string)
    ensures NameAnswers(address, names, key) != [] <==> exists k :: 0 <= k < |names| && Dotless(names[k], key)
  {
    hide Dotless;
    if names != [] {
      var init := names[..|names| - 1];
      NameAnswersExactly(address, init, key);
      if k :| 0 <= k < |init| && Dotless(init[k], key) {
        assert names[k] == init[k];
      }
      if k :| 0 <= k < |names| && Dotless(names[k], key) {
        assert k < |init| ==> init[k] == names[k];
      }
    }
  }

  lemma LineAnswersExactly(line: string, key: string)
    ensures LineAnswers(line, key) != [] <==> Wants(line, [key])
  {
    hide LineFields, Dotless, NameAnswers;
    var parts := LineFields(line);
    if parts != [] {
      var names := parts[1..];
      NameAnswersExactly(parts[0], names, key);
      if k :| 0 <= k < |names| && Dotless(names[k], key) {
        assert parts[k + 1] == names[k] && key in [key];
      }
      if k, d :| 1 <= k < |parts| && d in [key] && Dotless(parts[k], d) {
        assert names[k - 1] == parts[k];
      }
    }
  }

  /** A name is in the file exactly when some line has it. */
  lemma {:induction false} AnswersExactly(lines: seq<string>, key: string)
    ensures Answers(lines, key) != [] <==> exists l :: l in lines && Wants(l, [key])
  {
    hide LineAnswers, Wants;
    if lines != [] {
      var init, last := lines[..|lines| - 1], lines[|lines| - 1];
      assert lines == init + [last];
      AnswersExactly(init, key);
      LineAnswersExactly(last, key);
    }
  }

  lemma WantsOne(line: string, domains: seq<string>)
    ensures Wants(line, domains) <==> exists d :: d in domains && Wants(line, [d])
  {
    hide LineFields, Dotless;
    if Wants(line, domains) {
      var k, d :| 1 <= k < |LineFields(line)| && d in domains && Dotless(LineFields(line)[k], d);
      assert d in [d] && Wants(line, [d]);
    }
    if d :| d in domains && Wants(line, [d]) {
      var k, e :| 1 <= k < |LineFields(line)| && e in [d] && Dotless(LineFields(line)[k], e);
      assert e == d;
    }
  }

  /** There are conflicts exactly when the file says something about a wanted name. */
  lemma ConflictsIffSaid(text: string, domains: seq<string>)
    ensures Conflicts(Split(text, '\n'), set d | d in domains) != [] <==> exists d :: d in domains && Lookup(text, d) != []
  {
    hide Conflicts, Answers, Wants, Split;
    var lines := Split(text, '\n');
    var found := Conflicts(lines, set d | d in domains);
    ConflictsAreWanted(lines, domains);
    if found != [] {
      assert found[0] in found;
      WantsOne(found[0], domains);
      var d :| d in domains && Wants(found[0], [d]);
      AnswersExactly(lines, d);
      assert d in domains && Lookup(text, d) != [];
    }
    if d :| d in domains && Lookup(text, d) != [] {
      AnswersExactly(lines, d);
      var l :| l in lines && Wants(l, [d]);
      WantsOne(l, domains);
      assert l in found;
    }
  }

  /** A file without conflicts says nothing about the wanted names. */
  lemma NoConflictsSayNothing(lines: seq<string>, domains: seq<string>, key: string)
    requires Conflicts(lines, set d | d in domains) == [] && key in domains
    ensures Answers(lines, key) == []
  {
    hide Conflicts, Answers, Wants;
    ConflictsAreWanted(lines, domains);
    AnswersExactly(lines, key);
    forall l | l in lines
      ensures !Wants(l, [key])
    {
      WantsOne(l, domains);
    }
  }

  lemma {:induction false} ManagedAreShown(lines: seq<string>)
    ensures forall l :: l in ManagedLines(lines) <==> l in lines && Shown(l)
  {
    hide TrimSpace;
    if lines != [] {
      var init, last := lines[..|lines| - 1], lines[|lines| - 1];
      assert lines == init + [last];
      ManagedAreShown(init);
      BlankIsTrimmedAway(last);
      hide Shown;
      assert Shown(last) <==> !("#" <= last) && TrimSpace(last) != "" by {
        ShownIs(last);
      }
    }
  }

  lemma ShownIs(line: string)
    ensures Shown(line) <==> !("#" <= line) && TrimSpace(line) != ""
  {
    hide TrimSpace;
    BlankIsTrimmedAway(line);
  }

  method ScanConflicts(text: string, wanted: set<string>) returns (conflicts: seq<string>)
    ensures conflicts == Conflicts(Split(text, '\n'), wanted)
  {
    hide Split, Fields, CutBefore, NameKey;
    conflicts := [];
    var lines := Split(text, '\n');
    for i := 0 to |lines|
      invariant conflicts == Conflicts(lines[..i], wanted)
    {
      var line := lines[i];
      assert lines[..i + 1][..i] == lines[..i];
      ghost var before := conflicts;
      var parts := Fields(CutBefore(line, '#'));
      if |parts| < 2 {
        continue;
      }
      var names := parts[1..];
      for j := 0 to |names|
        invariant conflicts == before + NameConflicts(line, names[..j], wanted)
      {
        assert names[..j + 1][..j] == names[..j];
        if NameKey(names[j]) in wanted {
          conflicts := conflicts + [line];
        }
      }
      assert names[..|names|] == names;
    }
    assert lines[..|lines|] == lines;
  }

  method ListManaged(region: string) returns (managed: seq<string>)
    ensures managed == ManagedLines(Split(region, '\n'))
  {
    managed := [];
    var lines := Split(region, '\n');
    for i := 0 to |lines|
      invariant managed == ManagedLines(lines[..i])
    {
      assert lines[..i + 1][..i] == lines[..i];
      if !("#" <= lines[i]) && TrimSpace(lines[i]) != "" {
        managed := managed + [lines[i]];
      }
    }
    assert lines[..|lines|] == lines;
  }

  method Generate(domains: seq<string>, address: string) returns (text: string)
    ensures text == Generated(domains, address)
  {
    text := BEGIN + "\n";
    for i := 0 to |domains|
      invariant text == (BEGIN + "\n") + Body(domains[..i], address)
    {
      assert domains[..i + 1][..i] == domains[..i];
      text := text + (address + " " + domains[i] + "\n");
    }
    assert domains[..|domains|] == domains;
    text := text + (END + "\n");
  }

  method Prepare(b: string, domains: seq<string>, address: string, remove: bool) returns (r: Prepared)
    ensures r == PrepareSpec(b, domains, address, remove)
    ensures r.TooLarge? <==> |b| > LIMIT
    ensures r.BadBlock? <==> |b| <= LIMIT && BlockOf(b).Malformed?
    // Applying is refused exactly when the file says something about a configured domain outside the block.
    ensures r.Conflicting? <==>
              !remove && |b| <= LIMIT && !BlockOf(b).Malformed? && exists d :: d in domains && Lookup(Outside(b), d) != []
    // The lines reported, then or with the plan, are those with a configured domain after the address.
    ensures r.Conflicting? ==> forall l :: l in r.conflicts <==> l in Split(Outside(b), '\n') && Wants(l, domains)
    ensures r.Ready? ==> forall l :: l in r.plan.conflicts <==> l in Split(Outside(b), '\n') && Wants(l, domains)
    // The plan lists what the block holds now, and says whether anything would change.
    ensures r.Ready? ==> forall l :: l in r.plan.managed <==>
              l in Split(Region(b), '\n') && Shown(l)
    ensures r.Ready? ==> r.plan.before == b && (r.plan.changed <==> r.plan.after != b)
  {
    hide BlockOf, Conflicts, ManagedLines, Split, Generated, Lookup, Wants, Shown;
    FoundBounds(b);
    NothingShown();
    ConflictsIffSaid(Outside(b), domains);
    ConflictsAreWanted(Split(Outside(b), '\n'), domains);
    if |b| > LIMIT {
      return TooLarge;
    }
    var block := FindBlock(b);
    if block.Malformed? {
      return BadBlock;
    }
    var managed: seq<string> := [];
    var out := b;
    if block.Found? {
      managed := ListManaged(b[block.start..block.end]);
      ManagedAreShown(Split(Region(b), '\n'));
      out := b[..block.start] + b[block.end..];
    }
    var wanted := set d | d in domains;
    var conflicts := ScanConflicts(out, wanted);
    if !remove && |conflicts| > 0 {
      return Conflicting(conflicts);
    }
    if !remove {
      var generated := Generate(domains, address);
      if block.Found? {
        out := b[..block.start] + generated + b[block.end..];
      } else {
        if |out| > 0 && out[|out| - 1] != '\n' {
          out := out + "\n";
        }
        out := out + generated;
      }
    }
    return Ready(Plan(b, out, managed, conflicts, b != out));
  }

  // ---------------------------------------------------------------------------
  // lineDiff
  // ---------------------------------------------------------------------------

  /** Lines [first, oldEnd) of the old file become lines [first, newEnd) of the new one. */
  datatype Hunk = Hunk(first: nat, oldEnd: nat, newEnd: nat, removed: seq<string>, added: seq<string>)

  /** The hunk patches one file into the other, and it is as short as common ends allow. */
  method LineDiff(before: string, after: string) returns (h: Hunk)
    ensures var a, b := SplitAfter(before), SplitAfter(after);
            && h.first <= h.oldEnd <= |a| && h.first <= h.newEnd <= |b|
            && h.removed == a[h.first..h.oldEnd] && h.added == b[h.first..h.newEnd]
            && Concat(a[..h.first] + h.added + a[h.oldEnd..]) == after
            && (h.first < |a| && h.first < |b| ==> a[h.first] != b[h.first])
            && (h.first < h.oldEnd && h.first < h.newEnd ==> a[h.oldEnd - 1] != b[h.newEnd - 1])
  {
    hide SplitAfter, Concat;
    var a, b := SplitAfter(before), SplitAfter(after);
    var i := 0;
    while i < |a| && i < |b| && a[i] == b[i]
      invariant 0 <= i <= |a| && i <= |b| && a[..i] == b[..i]
    {
      i := i + 1;
    }
    var j, k := |a|, |b|;
    while j > i && k > i && a[j - 1] == b[k - 1]
      invariant i <= j <= |a| && i <= k <= |b|
      invariant a[j..] == b[k..]
    {
      assert a[j - 1..] == [a[j - 1]] + a[j..] && b[k - 1..] == [b[k - 1]] + b[k..];
      j, k := j - 1, k - 1;
    }
    assert b[..i] + b[i..k] == b[..k] && b[..k] + b[k..] == b;
    ConcatSplitAfter(after);
    return Hunk(i, j, k, a[i..j], b[i..k]);
  }

  // ---------------------------------------------------------------------------
  // Exactly which files have a block, and where
  // ---------------------------------------------------------------------------

  ghost predicate Bare(lines: seq<string>) {
    forall k :: 0 <= k < |lines| ==> Classify(lines[k]) == Plain
  }

  /** Lines i and j are the one Begin and the one End, and no other line is marked. */
  ghost predicate Marked(lines: seq<string>, i: nat, j: nat) {
    && i < j < |lines|
    && Classify(lines[i]) == Opening && Classify(lines[j]) == Closing
    && Bare(lines[..i]) && Bare(lines[i + 1..j]) && Bare(lines[j + 1..])
  }

  lemma {:induction false} ScanBare(lines: seq<string>, rest: seq<string>, offset: nat, p: Progress)
    requires Bare(lines)
    ensures ScanLines(lines + rest, offset, p) == ScanLines(rest, offset + |Concat(lines)|, p)
  {
    if lines == [] {
      assert lines + rest == rest;
    } else {
      assert (lines + rest)[1..] == lines[1..] + rest;
      ScanBare(lines[1..], rest, offset + |lines[0]|, p);
    }
  }

  lemma ScanOne(line: string, rest: seq<string>, offset: nat, p: Progress)
    ensures ScanLines([line] + rest, offset, p) == ScanLines(rest, offset + |line|, ScanLine(line, offset, p))
  {
    assert ([line] + rest)[1..] == rest;
  }

  /** The first marked line, if any, after some plain ones. */
  lemma {:induction false} FirstMark(lines: seq<string>) returns (i: nat)
    ensures i <= |lines| && Bare(lines[..i])
    ensures i < |lines| ==> Classify(lines[i]) != Plain
  {
    if lines == [] || Classify(lines[0]) != Plain {
      i := 0;
    } else {
      i := FirstMark(lines[1..]);
      i := i + 1;
      assert forall k :: 1 <= k < i ==> lines[..i][k] == lines[1..][..i - 1][k - 1];
    }
  }

  /** One line further: skip the plain lines and read the mark. */
  lemma ScanToMark(lines: seq<string>, i: nat, offset: nat, p: Progress)
    requires i < |lines| && Bare(lines[..i])
    ensures var at := offset + |Concat(lines[..i])|;
            && at + |lines[i]| == offset + |Concat(lines[..i + 1])|
            && ScanLines(lines, offset, p) == ScanLines(lines[i + 1..], at + |lines[i]|, ScanLine(lines[i], at, p))
  {
    assert lines == lines[..i] + ([lines[i]] + lines[i + 1..]);
    ScanBare(lines[..i], [lines[i]] + lines[i + 1..], offset, p);
    ScanOne(lines[i], lines[i + 1..], offset + |Concat(lines[..i])|, p);
    assert lines[..i + 1] == lines[..i] + [lines[i]];
    ConcatAppend(lines[..i], [lines[i]]);
  }

  lemma ScanBareOnly(lines: seq<string>, offset: nat, p: Progress)
    requires Bare(lines)
    ensures ScanLines(lines, offset, p) == p
  {
    ScanBare(lines, [], offset, p);
    assert lines + [] == lines;
  }

  lemma SliceOfTail(lines: seq<string>, from: nat, k: nat)
    requires from + k < |lines|
    ensures var rest := lines[from..];
            rest[k] == lines[from + k] && rest[..k] == lines[from..from + k] && rest[k + 1..] == lines[from + k + 1..]
  {
  }

  lemma MarkedIsFound(lines: seq<string>, i: nat, j: nat)
    requires Marked(lines, i, j)
    ensures ScanLines(lines, 0, Seen(-1, -1)) == Seen(|Concat(lines[..i])|, |Concat(lines[..j + 1])|)
  {
    hide Classify;
    var start := |Concat(lines[..i])|;
    ScanToMark(lines, i, 0, Seen(-1, -1));
    var rest := lines[i + 1..];
    var k := j - i - 1;
    SliceOfTail(lines, i + 1, k);
    ScanToMark(rest, k, |Concat(lines[..i + 1])|, Seen(start, -1));
    assert lines[..j + 1] == lines[..i + 1] + rest[..k + 1];
    ConcatAppend(lines[..i + 1], rest[..k + 1]);
    ScanBareOnly(rest[k + 1..], |Concat(lines[..j + 1])|, Seen(start, |Concat(lines[..j + 1])|));
  }

  lemma ScanAfterBoth(lines: seq<string>, offset: nat, start: int, end: int)
    requires start >= 0 && end >= 0
    ensures ScanLines(lines, offset, Seen(start, end)) == if Bare(lines) then Seen(start, end) else Broken
  {
    hide Classify;
    var m := FirstMark(lines);
    if m < |lines| {
      ScanToMark(lines, m, offset, Seen(start, end));
      BrokenStays(lines[m + 1..], offset + |Concat(lines[..m])| + |lines[m]|);
    } else {
      assert lines[..m] == lines;
      ScanBareOnly(lines, offset, Seen(start, end));
    }
  }

  ghost predicate ClosedAt(lines: seq<string>, k: nat) {
    k < |lines| && Classify(lines[k]) == Closing && Bare(lines[..k]) && Bare(lines[k + 1..])
  }

  lemma ScanAfterOpening(lines: seq<string>, offset: nat, start: int) returns (k: nat)
    requires start >= 0
    ensures var r := ScanLines(lines, offset, Seen(start, -1));
            r.Broken? || (r.start >= 0 && (r.end < 0 || ClosedAt(lines, k)))
  {
    hide Classify;
    k := FirstMark(lines);
    if k < |lines| {
      ScanToMark(lines, k, offset, Seen(start, -1));
      var at := offset + |Concat(lines[..k])|;
      var p := ScanLine(lines[k], at, Seen(start, -1));
      if p.Broken? {
        BrokenStays(lines[k + 1..], at + |lines[k]|);
      } else {
        ScanAfterBoth(lines[k + 1..], at + |lines[k]|, p.start, p.end);
      }
    } else {
      assert lines[..k] == lines;
      ScanBareOnly(lines, offset, Seen(start, -1));
    }
  }

  /** What the scan says of any list of lines. */
  lemma ScanVerdict(lines: seq<string>) returns (i: nat, j: nat)
    ensures match ScanLines(lines, 0, Seen(-1, -1))
            case Broken => true
            case Seen(start, end) =>
              if start < 0 then end < 0 && Bare(lines)
              else end < 0 || Marked(lines, i, j)
  {
    hide Classify;
    i := FirstMark(lines);
    j := 0;
    if i < |lines| {
      ScanToMark(lines, i, 0, Seen(-1, -1));
      var at := |Concat(lines[..i])|;
      var rest := lines[i + 1..];
      var p := ScanLine(lines[i], at, Seen(-1, -1));
      if p.Broken? {
        BrokenStays(rest, at + |lines[i]|);
      } else {
        var k := ScanAfterOpening(rest, at + |lines[i]|, p.start);
        if k < |rest| {
          j := i + 1 + k;
          SliceOfTail(lines, i + 1, k);
        }
      }
    } else {
      assert lines[..i] == lines;
      ScanBareOnly(lines, 0, Seen(-1, -1));
    }
  }

  lemma FoundBounds(b: string)
    ensures BlockOf(b).Found? ==> BlockOf(b).start <= BlockOf(b).end <= |b|
  {
    hide Marked, BlockOf, SplitAfter, Concat;
    if BlockOf(b).Found? {
      var i, j := FoundLines(b);
      var lines := SplitAfter(b);
      ConcatSplitAfter(b);
      assert lines == lines[..j + 1] + lines[j + 1..] && lines[..j + 1] == lines[..i] + lines[i..j + 1];
      ConcatAppend(lines[..j + 1], lines[j + 1..]);
      ConcatAppend(lines[..i], lines[i..j + 1]);
    }
  }

  lemma FoundLines(b: string) returns (i: nat, j: nat)
    requires BlockOf(b).Found?
    ensures i < j < |SplitAfter(b)| && Marked(SplitAfter(b), i, j)
    ensures BlockOf(b) == Found(|Concat(SplitAfter(b)[..i])|, |Concat(SplitAfter(b)[..j + 1])|)
  {
    i, j := ScanVerdict(SplitAfter(b));
    MarkedIsFound(SplitAfter(b), i, j);
  }

  lemma BlockScan(b: string)
    ensures BlockOf(b).NoBlock? <==> Bare(SplitAfter(b))
    ensures BlockOf(b).Found? <==> exists i: nat, j: nat :: Marked(SplitAfter(b), i, j)
    ensures forall i: nat, j: nat :: Marked(SplitAfter(b), i, j) ==>
              BlockOf(b) == Found(|Concat(SplitAfter(b)[..i])|, |Concat(SplitAfter(b)[..j + 1])|)
  {
    var lines := SplitAfter(b);
    if Bare(lines) {
      ScanBareOnly(lines, 0, Seen(-1, -1));
    }
    forall i: nat, j: nat | Marked(lines, i, j)
      ensures BlockOf(b) == Found(|Concat(lines[..i])|, |Concat(lines[..j + 1])|)
    {
      MarkedIsFound(lines, i, j);
    }
    var i, j := ScanVerdict(lines);
  }

  /** The line is one of ours, of whatever version. */
  ghost predicate Ours(line: string) {
    "# BEGIN utlsproxy" <= TrimSpace(line) || "# END utlsproxy" <= TrimSpace(line)
  }

  /** Line i begins the block, line j ends it, and no other line is ours. */
  ghost predicate OneBlock(lines: seq<string>, i: nat, j: nat) {
    && i < j < |lines|
    && TrimSpace(lines[i]) == "# BEGIN utlsproxy managed hosts v1" && TrimSpace(lines[j]) == "# END utlsproxy managed hosts v1"
    && forall k :: 0 <= k < |lines| && Ours(lines[k]) ==> k == i || k == j
  }

  lemma ClassifyIsOurs(line: string)
    ensures Classify(line) == Plain <==> !Ours(line)
    ensures Classify(line) == Opening <==> TrimSpace(line) == "# BEGIN utlsproxy managed hosts v1"
    ensures Classify(line) == Closing <==> TrimSpace(line) == "# END utlsproxy managed hosts v1"
  {
    hide TrimSpace;
    assert BEGIN[2] != END[2];
  }

  lemma MarkedIsOneBlock(lines: seq<string>, i: nat, j: nat)
    ensures Marked(lines, i, j) <==> OneBlock(lines, i, j)
  {
    hide Classify, Ours, TrimSpace;
    forall k | 0 <= k < |lines|
      ensures Classify(lines[k]) == Plain <==> !Ours(lines[k])
      ensures Classify(lines[k]) == Opening <==> TrimSpace(lines[k]) == "# BEGIN utlsproxy managed hosts v1"
      ensures Classify(lines[k]) == Closing <==> TrimSpace(lines[k]) == "# END utlsproxy managed hosts v1"
    {
      ClassifyIsOurs(lines[k]);
    }
    if Marked(lines, i, j) {
      forall k | 0 <= k < |lines| && k != i && k != j
        ensures Classify(lines[k]) == Plain
      {
        if k < i {
          assert lines[..i][k] == lines[k];
        } else if k < j {
          assert lines[i + 1..j][k - i - 1] == lines[k];
        } else {
          assert lines[j + 1..][k - j - 1] == lines[k];
        }
      }
    }
  }

  /**
   * A file is accepted exactly when no line is ours, or one Begin is followed by one End and
   * nothing else is ours; the block is then everything from the Begin line through the End line.
   */
  lemma BlockAcceptsExactly(b: string)
    ensures BlockOf(b).NoBlock? <==> forall k :: 0 <= k < |SplitAfter(b)| ==> !Ours(SplitAfter(b)[k])
    ensures BlockOf(b).Found? <==> exists i: nat, j: nat :: OneBlock(SplitAfter(b), i, j)
    ensures forall i: nat, j: nat :: OneBlock(SplitAfter(b), i, j) ==>
              BlockOf(b) == Found(|Concat(SplitAfter(b)[..i])|, |Concat(SplitAfter(b)[..j + 1])|)
  {
    hide BlockOf, SplitAfter, Concat, Ours, Marked, OneBlock, Classify;
    BlockScan(b);
    var lines := SplitAfter(b);
    forall k | 0 <= k < |lines|
      ensures Classify(lines[k]) == Plain <==> !Ours(lines[k])
    {
      ClassifyIsOurs(lines[k]);
    }
    forall i: nat, j: nat
      ensures Marked(lines, i, j) <==> OneBlock(lines, i, j)
    {
      MarkedIsOneBlock(lines, i, j);
    }
  }
}
