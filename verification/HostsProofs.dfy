/** What editing a hosts file does to its bytes and to the names it resolves. */
module HostsProofs {
  import opened Text
  import opened Hosts

  // ---------------------------------------------------------------------------
  // Inputs after configuration validation
  // ---------------------------------------------------------------------------

  ghost predicate GoodWord(w: string) {
    Word(w) && '#' !in w
  }

  /** Configured domains are lower-case, have no trailing dot, and are distinct. */
  ghost predicate GoodDomains(domains: seq<string>) {
    && (forall k :: 0 <= k < |domains| ==> GoodWord(domains[k]) && Dotless(domains[k], domains[k]))
    && (forall j, k :: 0 <= j < k < |domains| ==> domains[j] != domains[k])
  }

  ghost predicate GoodWords(domains: seq<string>) {
    forall k :: 0 <= k < |domains| ==> GoodWord(domains[k])
  }

  // ---------------------------------------------------------------------------
  // The generated lines
  // ---------------------------------------------------------------------------

  ghost function EntryLine(address: string, domain: string): string {
    address + " " + domain + "\n"
  }

  ghost function EntryLines(domains: seq<string>, address: string): seq<string> {
    seq(|domains|, k requires 0 <= k < |domains| => EntryLine(address, domains[k]))
  }

  ghost function GeneratedLines(domains: seq<string>, address: string): seq<string> {
    [BEGIN + "\n"] + EntryLines(domains, address) + [END + "\n"]
  }

  lemma WordHasNoNewline(w: string)
    requires Word(w)
    ensures '\n' !in w
  {
  }

  lemma EntryLineIsPlain(address: string, domain: string)
    requires GoodWord(address) && GoodWord(domain)
    ensures IsLine(EntryLine(address, domain)) && Classify(EntryLine(address, domain)) == Plain
  {
    var text := address + " " + domain;
    assert text[0] == address[0] && text[|text| - 1] == domain[|domain| - 1];
    TrimSolidLine(text);
    assert address[0] != '#';
    assert EntryLine(address, domain)[..|text|] == text;
    WordHasNoNewline(address);
    WordHasNoNewline(domain);
  }

  lemma MarkerLines()
    ensures IsLine(BEGIN + "\n") && Classify(BEGIN + "\n") == Opening
    ensures IsLine(END + "\n") && Classify(END + "\n") == Closing
  {
    hide TrimSpace;
    MarkersDiffer();
    TrimSolidLine(BEGIN);
    TrimSolidLine(END);
    MarkersAreLines();
  }

  lemma MarkersAreLines()
    ensures IsLine(BEGIN + "\n") && IsLine(END + "\n")
  {
    assert (BEGIN + "\n")[..|BEGIN|] == BEGIN && (END + "\n")[..|END|] == END;
  }

  lemma MarkersDiffer()
    ensures BEGIN_PREFIX <= BEGIN && END_PREFIX <= END && BEGIN != END
  {
    assert BEGIN[2] == 'B' && END[2] == 'E';
  }

  lemma {:induction false} BodyIsEntryLines(domains: seq<string>, address: string)
    ensures Concat(EntryLines(domains, address)) == Body(domains, address)
  {
    if domains != [] {
      var init := domains[..|domains| - 1];
      var last := EntryLine(address, domains[|domains| - 1]);
      BodyIsEntryLines(init, address);
      assert EntryLines(domains, address) == EntryLines(init, address) + [last];
      ConcatAppend(EntryLines(init, address), [last]);
      assert Concat([last]) == last;
    }
  }

  lemma GeneratedIsLines(domains: seq<string>, address: string)
    ensures Concat(GeneratedLines(domains, address)) == Generated(domains, address)
  {
    var entries := EntryLines(domains, address);
    BodyIsEntryLines(domains, address);
    ConcatAppend([BEGIN + "\n"], entries);
    ConcatAppend([BEGIN + "\n"] + entries, [END + "\n"]);
    assert Concat([BEGIN + "\n"]) == BEGIN + "\n" && Concat([END + "\n"]) == END + "\n";
  }

  // ---------------------------------------------------------------------------
  // Text without marks around one block
  // ---------------------------------------------------------------------------

  ghost predicate BareText(t: string) {
    Bare(SplitAfter(t))
  }

  lemma EmptyLineIsPlain()
    ensures Classify("") == Plain && BareText("")
  {
  }

  lemma EmptyPiece()
    ensures SplitAfter("") == [""] && Concat([""]) == ""
  {
  }

  lemma CompleteLines(x: string)
    requires Complete(x)
    ensures var xs := SplitAfter(x); xs[|xs| - 1] == "" && Concat(xs[..|xs| - 1]) == x
  {
    hide SplitAfter, Concat;
    var xs := SplitAfter(x);
    SplitAfterAppend(x, "");
    EmptyPiece();
    assert x + "" == x;
    ConcatSplitAfter(x);
    ConcatAppend(xs[..|xs| - 1], [""]);
    assert xs[..|xs| - 1] + [""] == xs;
    assert Concat(xs[..|xs| - 1]) + "" == Concat(xs[..|xs| - 1]);
  }

  lemma BareAppend(x: string, y: string)
    requires Complete(x)
    ensures BareText(x + y) <==> BareText(x) && BareText(y)
  {
    hide Classify;
    var xs, ys := SplitAfter(x), SplitAfter(y);
    SplitAfterAppend(x, y);
    EmptyLineIsPlain();
    var most := xs[..|xs| - 1];
    assert xs == most + [""];
    BarePart(most, ys);
    BarePart(most, [""]);
    assert Bare([""]);
  }

  lemma BarePart(a: seq<string>, b: seq<string>)
    ensures Bare(a + b) <==> Bare(a) && Bare(b)
  {
    hide Classify;
    var all := a + b;
    if Bare(all) {
      forall k | 0 <= k < |a|
        ensures Classify(a[k]) == Plain
      {
        assert all[k] == a[k];
      }
      forall k | 0 <= k < |b|
        ensures Classify(b[k]) == Plain
      {
        assert all[|a| + k] == b[k];
      }
    }
  }

  lemma BareClosed(b: string)
    requires BareText(b)
    ensures BareText(Closed(b)) && Complete(Closed(b))
  {
    hide Classify;
    if !Complete(b) {
      var lines := SplitAfter(b);
      var last := lines[|lines| - 1];
      SplitAfterNewline(b);
      EmptyLineIsPlain();
      ClassifyIgnoresNewline(last);
    }
  }

  lemma ClassifyIgnoresNewline(line: string)
    ensures Classify(line + "\n") == Classify(line)
  {
    TrimIgnoresNewline(line);
  }

  lemma GeneratedIsComplete(domains: seq<string>, address: string)
    ensures Complete(Generated(domains, address))
  {
  }

  /** Putting the generated block between unmarked text makes it the one block of the file. */
  lemma WrittenBlockIsFound(pre: string, domains: seq<string>, address: string, post: string)
    requires Complete(pre) && BareText(pre) && BareText(post)
    requires GoodWord(address) && GoodWords(domains)
    ensures BlockOf(pre + Generated(domains, address) + post) ==
            Found(|pre|, |pre| + |Generated(domains, address)|)
  {
    hide Classify, BlockOf, SplitAfter, Generated, Marked;
    var gen := Generated(domains, address);
    var before := SplitAfter(pre)[..|SplitAfter(pre)| - 1];
    var middle := GeneratedLines(domains, address);
    var after := SplitAfter(post);
    var text := pre + gen + post;
    WrittenLines(pre, domains, address, post);
    var lines := SplitAfter(text);
    assert lines == before + middle + after;
    var i, j := |before|, |before| + 1 + |domains|;
    MarkerLines();
    CompleteLines(pre);
    assert SplitAfter(pre) == before + [""];
    WrittenMarks(before, domains, address, after);
    BlockScan(text);
    assert lines[..i] == before && lines[..j + 1] == before + middle;
    ConcatAppend(before, middle);
    GeneratedIsLines(domains, address);
  }

  lemma WrittenLines(pre: string, domains: seq<string>, address: string, post: string)
    requires Complete(pre) && GoodWord(address) && GoodWords(domains)
    ensures SplitAfter(pre + Generated(domains, address) + post) ==
            SplitAfter(pre)[..|SplitAfter(pre)| - 1] + GeneratedLines(domains, address) + SplitAfter(post)
  {
    hide SplitAfter, Generated, Classify;
    var gen := Generated(domains, address);
    var middle := GeneratedLines(domains, address);
    forall k | 0 <= k < |middle|
      ensures IsLine(middle[k])
    {
      MarkerLines();
      if 0 < k <= |domains| {
        EntryLineIsPlain(address, domains[k - 1]);
      }
    }
    SplitAfterConcat(middle, "");
    GeneratedIsLines(domains, address);
    assert gen + "" == gen;
    GeneratedIsComplete(domains, address);
    SplitAfterAppend(gen, post);
    assert (middle + [""])[..|middle|] == middle;
    SplitAfterAppend(pre, gen + post);
    assert pre + (gen + post) == pre + gen + post;
  }

  lemma WrittenMarks(before: seq<string>, domains: seq<string>, address: string, after: seq<string>)
    requires Bare(before + [""]) && Bare(after) && GoodWord(address) && GoodWords(domains)
    ensures Marked(before + GeneratedLines(domains, address) + after, |before|, |before| + 1 + |domains|)
  {
    hide Classify;
    var lines := before + GeneratedLines(domains, address) + after;
    var i, j := |before|, |before| + 1 + |domains|;
    MarkerLines();
    assert lines[..i] == before && lines[i] == BEGIN + "\n" && lines[j] == END + "\n" && lines[j + 1..] == after;
    BarePart(before, [""]);
    var inner := lines[i + 1..j];
    forall k | 0 <= k < |inner|
      ensures Classify(inner[k]) == Plain
    {
      assert inner[k] == EntryLine(address, domains[k]);
      EntryLineIsPlain(address, domains[k]);
    }
  }

  // ---------------------------------------------------------------------------
  // An accepted file is unmarked text around its block
  // ---------------------------------------------------------------------------

  lemma FoundParts(b: string)
    requires BlockOf(b).Found?
    ensures var Found(start, end) := BlockOf(b);
            && start <= end <= |b|
            && Complete(b[..start]) && BareText(b[..start]) && BareText(b[end..])
  {
    hide Classify, BlockOf, SplitAfter, Concat;
    FoundBounds(b);
    var i, j := FoundLines(b);
    var lines := SplitAfter(b);
    ConcatSplitAfter(b);
    SplitAfterShape(b);
    EmptyLineIsPlain();
    PartAt(b, i);
    PartAt(b, j + 1);
  }

  /** Cutting the text after its first n lines, and what the two parts' lines are. */
  lemma PartAt(b: string, n: nat)
    requires n <= |SplitAfter(b)|
    ensures var lines := SplitAfter(b);
            var at := |Concat(lines[..n])|;
            && at <= |b|
            && (n < |lines| ==> Complete(b[..at]) && SplitAfter(b[..at]) == lines[..n] + [""] && SplitAfter(b[at..]) == lines[n..])
            && (n == |lines| ==> b[at..] == "")
  {
    var lines := SplitAfter(b);
    ConcatSplitAfter(b);
    SplitAfterShape(b);
    assert lines == lines[..n] + lines[n..];
    ConcatAppend(lines[..n], lines[n..]);
    var head := Concat(lines[..n]);
    assert b[..|head|] == head && b[|head|..] == Concat(lines[n..]);
    hide SplitAfter, Concat;
    if n < |lines| {
      SplitAfterConcat(lines[..n], "");
      assert head + "" == head;
      SplitAfterAppend(head, b[|head|..]);
      assert head + b[|head|..] == b;
      assert (lines[..n] + [""])[..n] == lines[..n];
      assert lines[..n] + SplitAfter(b[|head|..]) == lines[..n] + lines[n..];
      assert SplitAfter(b[|head|..]) == (lines[..n] + SplitAfter(b[|head|..]))[n..];
    } else {
      assert lines[..n] == lines;
      NoLinesNoText();
      assert lines[n..] == [];
    }
  }

  lemma NoLinesNoText()
    ensures Concat([]) == ""
  {
  }

  /** The unmarked text before and after the place of the block. */
  ghost function Pre(b: string): string {
    match BlockOf(b)
    case Found(start, end) => if start <= end <= |b| then b[..start] else b
    case _ => Closed(b)
  }

  ghost function Post(b: string): string {
    match BlockOf(b)
    case Found(start, end) => if start <= end <= |b| then b[end..] else ""
    case _ => ""
  }

  lemma Parts(b: string)
    requires !BlockOf(b).Malformed?
    ensures Complete(Pre(b)) && BareText(Pre(b)) && BareText(Post(b))
    ensures BlockOf(b).Found? ==> Outside(b) == Pre(b) + Post(b)
    ensures BlockOf(b).NoBlock? ==> Outside(b) == b && Pre(b) + Post(b) == Closed(b)
  {
    hide BlockOf, SplitAfter, Classify;
    EmptyLineIsPlain();
    if BlockOf(b).Found? {
      FoundParts(b);
    } else {
      BlockScan(b);
      BareClosed(b);
      assert Closed(b) + "" == Closed(b);
    }
  }

  lemma WrittenShape(b: string, domains: seq<string>, address: string)
    requires !BlockOf(b).Malformed? && GoodWord(address) && GoodWords(domains)
    ensures var w := Written(b, domains, address);
            && w == Pre(b) + Generated(domains, address) + Post(b)
            && BlockOf(w).Found?
            && Pre(w) == Pre(b) && Post(w) == Post(b)
            && Outside(w) == Pre(b) + Post(b)
            && Written(w, domains, address) == w
  {
    hide BlockOf, SplitAfter, Classify, Generated;
    var w := Written(b, domains, address);
    var gen := Generated(domains, address);
    Parts(b);
    if BlockOf(b).Found? {
      FoundParts(b);
    }
    assert w == Pre(b) + gen + Post(b);
    WrittenBlockIsFound(Pre(b), domains, address, Post(b));
    assert w[..|Pre(b)|] == Pre(b) && w[|Pre(b)| + |gen|..] == Post(b);
  }

  // ---------------------------------------------------------------------------
  // Conflicts do not depend on a final newline
  // ---------------------------------------------------------------------------

  lemma ClosingAddsNoEntry(b: string, wanted: set<string>)
    ensures Conflicts(Split(Closed(b), '\n'), wanted) == Conflicts(Split(b, '\n'), wanted)
  {
    if !Complete(b) {
      SplitAround(b, "", '\n');
      assert b + ['\n'] + "" == b + "\n";
      var lines := Split(b, '\n');
      assert Split(b + "\n", '\n') == lines + [""];
      assert (lines + [""])[..|lines|] == lines;
      assert LineConflicts("", wanted) == [];
      assert Conflicts(lines, wanted) + [] == Conflicts(lines, wanted);
    }
  }

  // ---------------------------------------------------------------------------
  // Round trips
  // ---------------------------------------------------------------------------

  /** Applying again to the result proposes nothing, unless the result outgrew the size limit. */
  lemma ApplyTwiceChangesNothing(b: string, domains: seq<string>, address: string)
    requires GoodWord(address) && GoodWords(domains)
    requires PrepareSpec(b, domains, address, false).Ready?
    ensures var after := PrepareSpec(b, domains, address, false).plan.after;
            var again := PrepareSpec(after, domains, address, false);
            if |after| > LIMIT then again == TooLarge
            else again.Ready? && again.plan.after == after && !again.plan.changed
  {
    hide BlockOf, Conflicts, Split, Generated;
    var wanted := set d | d in domains;
    WrittenShape(b, domains, address);
    Parts(b);
    ClosingAddsNoEntry(b, wanted);
  }

  /** Removing after applying is removing from the original, but for the newline that closed an open last line. */
  lemma RemoveUndoesApply(b: string, domains: seq<string>, address: string, others: seq<string>, other: string)
    requires GoodWord(address) && GoodWords(domains)
    requires PrepareSpec(b, domains, address, false).Ready?
    ensures var after := PrepareSpec(b, domains, address, false).plan.after;
            var removed := PrepareSpec(after, others, other, true);
            var direct := PrepareSpec(b, others, other, true);
            && direct.Ready?
            && if |after| > LIMIT then removed == TooLarge
               else
                 && removed.Ready?
                 && removed.plan.after ==
                    if BlockOf(b).NoBlock? && !Complete(b) then direct.plan.after + "\n" else direct.plan.after
  {
    hide BlockOf, Conflicts, Split, Generated;
    WrittenShape(b, domains, address);
    Parts(b);
  }

  /** Removing twice is removing once, whatever domains and addresses are passed. */
  lemma RemoveTwiceChangesNothing(b: string, domains: seq<string>, address: string, others: seq<string>, other: string)
    requires PrepareSpec(b, domains, address, true).Ready?
    ensures var after := PrepareSpec(b, domains, address, true).plan.after;
            var again := PrepareSpec(after, others, other, true);
            again.Ready? && again.plan.after == after && !again.plan.changed
  {
    hide BlockOf, Conflicts, Split, Generated, ManagedLines;
    var after := Outside(b);
    Parts(b);
    if BlockOf(b).Found? {
      FoundParts(b);
      BareAppend(Pre(b), Post(b));
    } else {
      BlockScan(b);
    }
    BlockScan(after);
  }

  /** One line of as many characters as a hosts file may have. */
  function Filler(): (b: string)
    ensures |b| == LIMIT && forall i :: 0 <= i < |b| ==> b[i] == 'x'
  {
    seq(LIMIT, i requires 0 <= i < LIMIT => 'x')
  }

  lemma OneWordSaysNothing(b: string, wanted: set<string>)
    requires Word(b) && '#' !in b
    ensures BlockOf(b).NoBlock? && Conflicts(Split(Outside(b), '\n'), wanted) == []
  {
    assert '\n' !in b;
    SplitAfterPlain(b);
    TrimSolidLine(b);
    assert Bare([b]);
    ScanBareOnly([b], 0, Seen(-1, -1));
    SplitAbsent(b, '\n');
    CutAbsent(b, '#');
    FieldsOfWord(b, "");
    assert b + "" == b;
    assert LineConflicts(b, wanted) == [];
    assert [b][..0] == [];
  }

  /** The largest file can be applied to, and then neither applied to again nor removed from. */
  lemma AppliedFileCanBeTooLarge(domains: seq<string>, address: string, others: seq<string>, other: string)
    ensures var applied := PrepareSpec(Filler(), domains, address, false);
            && applied.Ready? && |applied.plan.after| > LIMIT
            && PrepareSpec(applied.plan.after, domains, address, false) == TooLarge
            && PrepareSpec(applied.plan.after, others, other, true) == TooLarge
  {
    hide BlockOf, Conflicts, Split, Generated, Outside, ManagedLines;
    var b := Filler();
    OneWordSaysNothing(b, set d | d in domains);
    GeneratedIsLong(domains, address);
  }

  lemma GeneratedIsLong(domains: seq<string>, address: string)
    ensures |Generated(domains, address)| > 0
  {
  }

  // ---------------------------------------------------------------------------
  // Meaning
  // ---------------------------------------------------------------------------

  lemma {:induction false} AnswersAppend(a: seq<string>, b: seq<string>, key: string)
    ensures Answers(a + b, key) == Answers(a, key) + Answers(b, key)
  {
    hide LineAnswers;
    if b == [] {
      assert a + b == a;
    } else {
      var init := b[..|b| - 1];
      assert (a + b)[..|a + b| - 1] == a + init && (a + b)[|a + b| - 1] == b[|b| - 1];
      AnswersAppend(a, init, key);
    }
  }

  lemma NothingSaysNothing(key: string)
    ensures Answers([""], key) == []
  {
    assert [""][..0] == [];
  }

  lemma LookupAppend(x: string, y: string, key: string)
    requires Complete(x)
    ensures Lookup(x + y, key) == Lookup(x, key) + Lookup(y, key)
  {
    hide LineAnswers;
    NothingSaysNothing(key);
    if x == "" {
      assert x + y == y;
    } else {
      var open := x[..|x| - 1];
      assert x == open + ['\n'] + "" && x + y == open + ['\n'] + y;
      SplitAround(open, "", '\n');
      SplitAround(open, y, '\n');
      AnswersAppend(Split(open, '\n'), Split(y, '\n'), key);
      AnswersAppend(Split(open, '\n'), [""], key);
    }
  }

  lemma {:induction false} SplitAbsent(s: string, sep: char)
    requires sep !in s
    ensures Split(s, sep) == [s]
  {
    if s != "" {
      SplitAbsent(s[1..], sep);
      assert s == [s[0]] + s[1..];
    }
  }

  lemma LookupLine(line: string, key: string)
    requires '\n' !in line
    ensures Lookup(line + "\n", key) == LineAnswers(line, key)
  {
    hide LineAnswers;
    SplitAround(line, "", '\n');
    assert line + ['\n'] + "" == line + "\n";
    SplitAbsent(line, '\n');
    AnswersAppend([line], [""], key);
    NothingSaysNothing(key);
    assert [line][..0] == [];
  }

  lemma MarkersSayNothing(key: string)
    ensures Lookup(BEGIN + "\n", key) == [] && Lookup(END + "\n", key) == []
  {
    assert '\n' !in BEGIN && '\n' !in END;
    LookupLine(BEGIN, key);
    LookupLine(END, key);
    assert BEGIN[0] == '#' && END[0] == '#';
  }

  lemma EntrySaysOne(address: string, domain: string, key: string)
    requires GoodWord(address) && GoodWord(domain)
    ensures Lookup(EntryLine(address, domain), key) == if Dotless(domain, key) then [address] else []
  {
    var line := address + " " + domain;
    WordHasNoNewline(address);
    WordHasNoNewline(domain);
    LookupLine(line, key);
    CutAbsent(line, '#');
    FieldsOfPair(address, domain);
    assert LineFields(line) == [address, domain] && [address, domain][1..] == [domain];
    OneName(address, domain, key);
  }

  lemma OneName(address: string, domain: string, key: string)
    ensures NameAnswers(address, [domain], key) == if Dotless(domain, key) then [address] else []
  {
    assert [domain][..0] == [];
  }

  lemma {:induction false} BodySays(domains: seq<string>, address: string, key: string)
    requires GoodWord(address) && GoodWords(domains)
    ensures Complete(Body(domains, address))
    ensures Lookup(Body(domains, address), key) == NameAnswers(address, domains, key)
  {
    hide Lookup, Dotless, GoodWord;
    if domains == [] {
      NothingFound(key);
    } else {
      var init, last := domains[..|domains| - 1], domains[|domains| - 1];
      BodySays(init, address, key);
      LookupAppend(Body(init, address), EntryLine(address, last), key);
      EntrySaysOne(address, last, key);
    }
  }

  lemma NothingFound(key: string)
    ensures Lookup("", key) == []
  {
    NothingSaysNothing(key);
  }

  lemma {:induction false} DistinctNamesAnswerOnce(domains: seq<string>, address: string, key: string)
    requires GoodDomains(domains)
    ensures NameAnswers(address, domains, key) == if key in domains then [address] else []
  {
    hide Dotless, GoodWord;
    if domains != [] {
      var init, last := domains[..|domains| - 1], domains[|domains| - 1];
      assert domains == init + [last];
      TrimmedLowerIsDotless(last, last);
      TrimmedLowerIsDotless(last, key);
      DistinctNamesAnswerOnce(init, address, key);
    }
  }

  lemma GeneratedSays(domains: seq<string>, address: string, key: string)
    requires GoodWord(address) && GoodDomains(domains)
    ensures Lookup(Generated(domains, address), key) == if key in domains then [address] else []
  {
    hide Lookup, GoodWord, Dotless;
    BodySays(domains, address, key);
    DistinctNamesAnswerOnce(domains, address, key);
    MarkersSayNothing(key);
    LookupAppend(BEGIN + "\n", Body(domains, address), key);
    LookupAppend((BEGIN + "\n") + Body(domains, address), END + "\n", key);
  }

  lemma ClosedSaysTheSame(b: string, key: string)
    ensures Lookup(Closed(b), key) == Lookup(b, key)
  {
    if !Complete(b) {
      SplitAround(b, "", '\n');
      assert b + ['\n'] + "" == b + "\n";
      AnswersAppend(Split(b, '\n'), [""], key);
      NothingSaysNothing(key);
    }
  }

  /**
   * After a successful apply every configured domain has exactly the one address, and every other
   * name exactly the addresses it had outside the old managed block.
   */
  lemma AppliedMeaning(b: string, domains: seq<string>, address: string, key: string)
    requires GoodWord(address) && GoodDomains(domains)
    requires PrepareSpec(b, domains, address, false).Ready?
    ensures Lookup(PrepareSpec(b, domains, address, false).plan.after, key) ==
            if key in domains then [address] else Lookup(Outside(b), key)
    ensures key in domains ==> Lookup(Outside(b), key) == []
  {
    hide BlockOf, Generated, Lookup, Conflicts, PrepareSpec, Written, Outside, Pre, Post, Closed, GoodDomains;
    var gen := Generated(domains, address);
    AppliedIsWritten(b, domains, address);
    WrittenShape(b, domains, address);
    Parts(b);
    LookupAppend(Pre(b), gen, key);
    GeneratedIsComplete(domains, address);
    LookupAppend(Pre(b) + gen, Post(b), key);
    LookupAppend(Pre(b), Post(b), key);
    GeneratedSays(domains, address, key);
    ClosedSaysTheSame(b, key);
    if key in domains {
      LookupWanted(Outside(b), domains, key);
    }
  }

  lemma AppliedIsWritten(b: string, domains: seq<string>, address: string)
    requires GoodDomains(domains) && PrepareSpec(b, domains, address, false).Ready?
    ensures PrepareSpec(b, domains, address, false).plan.after == Written(b, domains, address)
    ensures !BlockOf(b).Malformed? && GoodWords(domains)
    ensures Conflicts(Split(Outside(b), '\n'), (set d | d in domains)) == []
  {
    hide BlockOf, Written, Outside, Conflicts, Split;
  }

  lemma LookupWanted(text: string, domains: seq<string>, key: string)
    requires Conflicts(Split(text, '\n'), set d | d in domains) == [] && key in domains
    ensures Lookup(text, key) == []
  {
    NoConflictsSayNothing(Split(text, '\n'), domains, key);
  }

  /** Removing leaves every name exactly the addresses it had outside the block. */
  lemma RemovedMeaning(b: string, domains: seq<string>, address: string)
    requires PrepareSpec(b, domains, address, true).Ready?
    ensures PrepareSpec(b, domains, address, true).plan.after == Outside(b)
    ensures BlockOf(b).Found? ==> forall key :: Lookup(Outside(b), key) == Lookup(Pre(b), key) + Lookup(Post(b), key)
  {
    hide BlockOf, Conflicts, Split, Lookup;
    Parts(b);
    if BlockOf(b).Found? {
      forall key
        ensures Lookup(Outside(b), key) == Lookup(Pre(b), key) + Lookup(Post(b), key)
      {
        LookupAppend(Pre(b), Post(b), key);
      }
    }
  }
}
