/** internal/dns/discovery.go, `Select`: which resolver groups may be asked for a name. */
module DnsSelect {
  import opened Text

  type GoInt = x: int | -0x8000_0000_0000_0000 <= x < 0x8000_0000_0000_0000

  const MAX_INT: GoInt := 0x7FFF_FFFF_FFFF_FFFF

  datatype Group = Group(servers: seq<string>, domains: seq<string>, interfaceIndex: int, priority: GoInt, isDefault: bool)

  /** The queried name as `Select` compares it. */
  function Normal(host: string): string {
    TrimSuffix(Lower(host), ".")
  }

  /** A configured domain as `Select` compares it; "" stands for every name. */
  function Routing(domain: string): string {
    TrimSuffix(TrimPrefix(Lower(domain), "~"), ".")
  }

  predicate TextMatch(name: string, domain: string) {
    name == domain || HasSuffix(name, "." + domain)
  }

  function DomainScore(name: string, domain: string): int {
    if domain == "" then 0
    else if TextMatch(name, domain) then |Split(domain, '.')|
    else -1
  }

  function Max(a: int, b: int): int {
    if a >= b then a else b
  }

  function BestDomain(name: string, domains: seq<string>): (score: int)
    ensures score >= -1
  {
    if domains == [] then -1
    else Max(BestDomain(name, domains[..|domains| - 1]), DomainScore(name, Routing(domains[|domains| - 1])))
  }

  /** The label count of the longest domain of the group that covers the name, or -1. */
  function Score(name: string, g: Group): int {
    BestDomain(name, g.domains)
  }

  // ---------------------------------------------------------------------------
  // What the result should be
  // ---------------------------------------------------------------------------

  ghost predicate Covers(name: string, groups: seq<Group>) {
    exists g :: g in groups && Score(name, g) >= 0
  }

  /** Most specific first, then least priority value. */
  ghost predicate Outranked(name: string, g: Group, rival: Group) {
    || Score(name, rival) > Score(name, g)
    || (Score(name, rival) == Score(name, g) && rival.priority < g.priority)
  }

  ghost predicate Chosen(name: string, groups: seq<Group>, g: Group) {
    if Covers(name, groups) then
      Score(name, g) >= 0 && forall h :: h in groups ==> !Outranked(name, g, h)
    else
      g.isDefault && forall h :: h in groups && h.isDefault ==> g.priority <= h.priority
  }

  datatype Rule =
    | AtScore(name: string, score: int, priority: int)
    | DefaultAt(priority: int)
    | ChosenAmong(name: string, groups: seq<Group>)

  ghost predicate Keeps(rule: Rule, g: Group) {
    match rule
    case AtScore(name, score, priority) => Score(name, g) == score && g.priority == priority
    case DefaultAt(priority) => g.isDefault && g.priority == priority
    case ChosenAmong(name, groups) => Chosen(name, groups, g)
  }

  /** The groups a rule keeps, in their configured order. */
  ghost function Filter(groups: seq<Group>, rule: Rule): seq<Group> {
    if groups == [] then []
    else
      var last := groups[|groups| - 1];
      Filter(groups[..|groups| - 1], rule) + if Keeps(rule, last) then [last] else []
  }

  ghost function Selected(groups: seq<Group>, name: string): seq<Group> {
    Filter(groups, ChosenAmong(name, groups))
  }

  // ---------------------------------------------------------------------------
  // The single pass
  // ---------------------------------------------------------------------------

  method ScoreGroup(name: string, g: Group) returns (score: int)
    ensures score == Score(name, g)
  {
    score := -1;
    for i := 0 to |g.domains|
      invariant score == BestDomain(name, g.domains[..i])
    {
      var domain := Lower(g.domains[i]);
      domain := TrimPrefix(domain, "~");
      domain := TrimSuffix(domain, ".");
      assert g.domains[..i + 1][..i] == g.domains[..i];
      if domain == "" {
        score := Max(score, 0);
      } else if name == domain || HasSuffix(name, "." + domain) {
        score := Max(score, |Split(domain, '.')|);
      }
    }
    assert g.domains[..|g.domains|] == g.domains;
  }

  /** What the first loop knows after some of the groups. */
  ghost predicate FirstPass(name: string, done: seq<Group>, best: int, priority: int, matched: seq<Group>) {
    && best >= -1
    && (forall g :: g in done ==> Score(name, g) <= best)
    && (best == -1 ==> matched == [] && priority == MAX_INT)
    && (best >= 0 ==>
          && (exists g :: g in done && Score(name, g) == best && g.priority == priority)
          && (forall g :: g in done && Score(name, g) == best ==> priority <= g.priority)
          && matched == Filter(done, AtScore(name, best, priority)))
  }

  ghost predicate SecondPass(done: seq<Group>, priority: int, matched: seq<Group>) {
    && (forall g :: g in done && g.isDefault ==> priority <= g.priority)
    && matched == Filter(done, DefaultAt(priority))
    && (priority < MAX_INT ==> exists g :: g in done && g.isDefault && g.priority == priority)
  }

  lemma {:induction false} FilterSame(groups: seq<Group>, p: Rule, q: Rule)
    requires forall g :: g in groups ==> Keeps(p, g) == Keeps(q, g)
    ensures Filter(groups, p) == Filter(groups, q)
  {
    if groups != [] {
      FilterSame(groups[..|groups| - 1], p, q);
    }
  }

  lemma {:induction false} FilterNone(groups: seq<Group>, p: Rule)
    requires forall g :: g in groups ==> !Keeps(p, g)
    ensures Filter(groups, p) == []
  {
    if groups != [] {
      FilterNone(groups[..|groups| - 1], p);
    }
  }

  lemma {:induction false} FilterMembers(groups: seq<Group>, p: Rule)
    ensures forall g :: g in Filter(groups, p) <==> g in groups && Keeps(p, g)
  {
    if groups != [] {
      FilterMembers(groups[..|groups| - 1], p);
      assert groups == groups[..|groups| - 1] + [groups[|groups| - 1]];
    }
  }

  lemma FilterSnoc(done: seq<Group>, g: Group, rule: Rule)
    ensures Filter(done + [g], rule) == Filter(done, rule) + if Keeps(rule, g) then [g] else []
  {
    assert (done + [g])[..|done|] == done;
  }

  lemma FirstPassStep(name: string, done: seq<Group>, g: Group, best: int, priority: int, matched: seq<Group>)
    requires FirstPass(name, done, best, priority, matched)
    ensures var score := Score(name, g);
            if score > best || (score == best && score >= 0 && g.priority < priority) then
              FirstPass(name, done + [g], score, g.priority, [g])
            else FirstPass(name, done + [g], best, priority,
                           if score >= 0 && score == best && g.priority == priority then matched + [g] else matched)
  {
    var score := Score(name, g);
    var more := done + [g];
    assert forall h :: h in more <==> h in done || h == g;
    FilterSnoc(done, g, AtScore(name, score, g.priority));
    FilterSnoc(done, g, AtScore(name, best, priority));
    if score > best || (score == best && score >= 0 && g.priority < priority) {
      FilterNone(done, AtScore(name, score, g.priority));
      assert g in more;
    }
  }

  lemma SecondPassStep(done: seq<Group>, g: Group, priority: int, matched: seq<Group>)
    requires SecondPass(done, priority, matched)
    ensures if g.isDefault && g.priority < priority then SecondPass(done + [g], g.priority, [g])
            else SecondPass(done + [g], priority, if g.isDefault && g.priority == priority then matched + [g] else matched)
  {
    var more := done + [g];
    assert forall h :: h in more <==> h in done || h == g;
    FilterSnoc(done, g, DefaultAt(g.priority));
    FilterSnoc(done, g, DefaultAt(priority));
    if g.isDefault && g.priority < priority {
      FilterNone(done, DefaultAt(g.priority));
    }
  }

  lemma PassesStart(name: string)
    ensures FirstPass(name, [], -1, MAX_INT, [])
    ensures SecondPass([], MAX_INT, [])
  {
  }

  lemma FirstPassEmpty(name: string, groups: seq<Group>, best: int, priority: int, matched: seq<Group>)
    requires FirstPass(name, groups, best, priority, matched) && best < 0
    ensures !Covers(name, groups) && priority == MAX_INT && matched == []
  {
  }

  method Select(groups: seq<Group>, host: string) returns (matched: seq<Group>)
    ensures matched == Selected(groups, Normal(host))
  {
    hide FirstPass, SecondPass, Covers, Selected, Score, Filter;
    var name := TrimSuffix(Lower(host), ".");
    PassesStart(name);
    var best := -1;
    var priority: int := MAX_INT;
    matched := [];
    for i := 0 to |groups|
      invariant FirstPass(name, groups[..i], best, priority, matched) && best >= -1
    {
      var g := groups[i];
      FirstPassStep(name, groups[..i], g, best, priority, matched);
      assert groups[..i] + [g] == groups[..i + 1] && [] + [g] == [g];
      var score := ScoreGroup(name, g);
      if score < 0 {
        continue;
      }
      if score > best || (score == best && g.priority < priority) {
        best, priority := score, g.priority;
        matched := [];
      }
      if score == best && g.priority == priority {
        matched := matched + [g];
      }
    }
    assert groups[..|groups|] == groups;
    if best >= 0 {
      FirstPassChosen(name, groups, best, priority, matched);
      return;
    }
    FirstPassEmpty(name, groups, best, priority, matched);
    for i := 0 to |groups|
      invariant SecondPass(groups[..i], priority, matched) && priority <= MAX_INT
    {
      var g := groups[i];
      SecondPassStep(groups[..i], g, priority, matched);
      assert groups[..i] + [g] == groups[..i + 1] && [] + [g] == [g];
      if g.isDefault {
        if g.priority < priority {
          priority := g.priority;
          matched := [];
        }
        if g.priority == priority {
          matched := matched + [g];
        }
      }
    }
    SecondPassChosen(name, groups, priority, matched);
  }

  lemma FirstPassChosen(name: string, groups: seq<Group>, best: int, priority: int, matched: seq<Group>)
    requires FirstPass(name, groups, best, priority, matched) && best >= 0
    ensures matched == Selected(groups, name)
  {
    var top :| top in groups && Score(name, top) == best && top.priority == priority;
    forall g | g in groups
      ensures (Score(name, g) == best && g.priority == priority) == Chosen(name, groups, g)
    {
      assert Outranked(name, g, top) || (Score(name, g) == best && g.priority == priority);
    }
    FilterSame(groups, AtScore(name, best, priority), ChosenAmong(name, groups));
  }

  lemma SecondPassChosen(name: string, groups: seq<Group>, priority: int, matched: seq<Group>)
    requires SecondPass(groups, priority, matched) && !Covers(name, groups) && priority <= MAX_INT
    ensures matched == Selected(groups, name)
  {
    forall g | g in groups
      ensures (g.isDefault && g.priority == priority) == Chosen(name, groups, g)
    {
      if g.isDefault && priority < MAX_INT {
        var top :| top in groups && top.isDefault && top.priority == priority;
      }
    }
    FilterSame(groups, DefaultAt(priority), ChosenAmong(name, groups));
  }

  // ---------------------------------------------------------------------------
  // What the result means for a name
  // ---------------------------------------------------------------------------

  predicate LabelSuffix(domain: string, name: string) {
    var d, n := Split(domain, '.'), Split(name, '.');
    |d| <= |n| && n[|n| - |d|..] == d
  }

  /** Comparing text with "."+domain is comparing whole labels: "notcorp.example" is not under "corp.example". */
  lemma TextMatchIsLabelMatch(name: string, domain: string)
    ensures TextMatch(name, domain) <==> LabelSuffix(domain, name)
  {
    var d, n := Split(domain, '.'), Split(name, '.');
    if TextMatch(name, domain) && name != domain {
      var host := name[..|name| - |domain| - 1];
      assert name == host + name[|host|..] && name[|host|..] == "." + domain;
      assert name == host + ['.'] + domain;
      SplitAround(host, domain, '.');
    }
    if LabelSuffix(domain, name) {
      var host := n[..|n| - |d|];
      assert n == host + d;
      JoinSplit(name, '.');
      JoinSplit(domain, '.');
      if host == [] {
        assert n == d;
      } else {
        JoinAround(host, d, '.');
        assert name == Join(host, '.') + ['.'] + domain;
        assert name[|name| - |domain| - 1..] == ['.'] + domain;
      }
    }
  }

  /** The queried name is compared in lower case and without its final dot. */
  lemma NormalIsDotless(host: string, name: string)
    ensures Normal(host) == name <==> Dotless(host, name)
  {
    TrimmedLowerIsDotless(host, name);
  }

  /** A configured domain without one leading tilde. */
  ghost predicate Untilded(domain: string, bare: string) {
    domain == "~" + bare || (domain == bare && !("~" <= domain))
  }

  /** A configured domain is compared in lower case, without one leading tilde and without its final dot. */
  lemma RoutingIsDotless(domain: string, d: string)
    ensures Routing(domain) == d <==> exists bare :: Untilded(domain, bare) && Dotless(bare, d)
  {
    var bare := if "~" <= domain then domain[1..] else domain;
    assert Untilded(domain, bare) && forall b :: Untilded(domain, b) ==> b == bare by {
      OneUntilded(domain);
    }
    TrimmedLowerIsDotless(bare, d);
    assert TrimPrefix(Lower(domain), "~") == Lower(bare) by {
      if domain != "" {
        assert Lower(domain)[1..] == Lower(domain[1..]);
      }
    }
  }

  lemma OneUntilded(domain: string)
    ensures var bare := if "~" <= domain then domain[1..] else domain;
            Untilded(domain, bare) && forall b :: Untilded(domain, b) ==> b == bare
  {
    forall b | Untilded(domain, b)
      ensures b == if "~" <= domain then domain[1..] else domain
    {
      assert ("~" + b)[1..] == b;
    }
    if "~" <= domain {
      assert domain == "~" + domain[1..];
    }
  }

  /** The group has a catch-all or a domain that is the name or above it. */
  ghost predicate UnderSome(name: string, domains: seq<string>) {
    exists k :: 0 <= k < |domains| && (Routing(domains[k]) == "" || LabelSuffix(Routing(domains[k]), name))
  }

  /** The group has a domain of at least n labels that is the name or above it. */
  ghost predicate UnderLabels(name: string, domains: seq<string>, n: int) {
    exists k :: 0 <= k < |domains| && LongLabel(name, Routing(domains[k]), n)
  }

  ghost predicate LongLabel(name: string, domain: string, n: int) {
    domain != "" && LabelSuffix(domain, name) && |Split(domain, '.')| >= n
  }

  /** The score is the number of labels of the longest domain above the name, 0 for a catch-all alone, -1 for neither. */
  lemma ScoreIsLongestDomain(name: string, g: Group)
    ensures Score(name, g) >= 0 <==> UnderSome(name, g.domains)
    ensures forall n :: n > 0 ==> (Score(name, g) >= n <==> UnderLabels(name, g.domains, n))
  {
    hide Routing, BestDomain, LabelSuffix, Split;
    forall k | 0 <= k < |g.domains|
      ensures DomainScore(name, Routing(g.domains[k])) <= Score(name, g)
      ensures DomainScore(name, Routing(g.domains[k])) >= 0 <==> Routing(g.domains[k]) == "" || LabelSuffix(Routing(g.domains[k]), name)
      ensures forall n :: n > 0 ==> (DomainScore(name, Routing(g.domains[k])) >= n <==> LongLabel(name, Routing(g.domains[k]), n))
    {
      DomainBounds(name, g.domains, k);
      TextMatchIsLabelMatch(name, Routing(g.domains[k]));
    }
    hide DomainScore;
    if Score(name, g) >= 0 {
      var k := ScoreWitness(name, g.domains);
      assert DomainScore(name, Routing(g.domains[k])) == Score(name, g);
    }
  }

  /** A domain of the group that covers the name and decides its score. */
  lemma {:induction false} ScoreWitness(name: string, domains: seq<string>) returns (k: nat)
    requires BestDomain(name, domains) >= 0
    ensures k < |domains| && DomainScore(name, Routing(domains[k])) == BestDomain(name, domains)
  {
    var last := |domains| - 1;
    if DomainScore(name, Routing(domains[last])) == BestDomain(name, domains) {
      k := last;
    } else {
      k := ScoreWitness(name, domains[..last]);
    }
  }

  lemma SameScoreSameDomain(name: string, a: string, b: string)
    requires DomainScore(name, a) == DomainScore(name, b) >= 0
    ensures a == b
  {
    TextMatchIsLabelMatch(name, a);
    TextMatchIsLabelMatch(name, b);
    JoinSplit(a, '.');
    JoinSplit(b, '.');
  }

  /** When some group covers the name, every selected group covers it through one and the same normalized domain. */
  lemma SelectedShareOneDomain(groups: seq<Group>, name: string) returns (domain: string)
    requires Covers(name, groups)
    ensures domain == "" || LabelSuffix(domain, name)
    ensures forall g :: g in Selected(groups, name) ==> exists k :: 0 <= k < |g.domains| && Routing(g.domains[k]) == domain
    ensures forall g, k :: g in groups && 0 <= k < |g.domains| && LabelSuffix(Routing(g.domains[k]), name) && Routing(g.domains[k]) != "" ==>
              domain != "" && |Split(Routing(g.domains[k]), '.')| <= |Split(domain, '.')|
  {
    var best := TopScore(groups, name);
    var j := ScoreWitness(name, best.domains);
    domain := Routing(best.domains[j]);
    TextMatchIsLabelMatch(name, domain);
    FilterMembers(groups, ChosenAmong(name, groups));
    forall g | g in Selected(groups, name)
      ensures exists k :: 0 <= k < |g.domains| && Routing(g.domains[k]) == domain
    {
      assert !Outranked(name, g, best) && Score(name, g) == Score(name, best);
      var k := ScoreWitness(name, g.domains);
      SameScoreSameDomain(name, Routing(g.domains[k]), domain);
    }
    forall g, k | g in groups && 0 <= k < |g.domains| && LabelSuffix(Routing(g.domains[k]), name) && Routing(g.domains[k]) != ""
      ensures domain != "" && |Split(Routing(g.domains[k]), '.')| <= |Split(domain, '.')|
    {
      TextMatchIsLabelMatch(name, Routing(g.domains[k]));
      DomainBounds(name, g.domains, k);
    }
  }

  lemma {:induction false} DomainBounds(name: string, domains: seq<string>, k: nat)
    requires k < |domains|
    ensures DomainScore(name, Routing(domains[k])) <= BestDomain(name, domains)
  {
    if k < |domains| - 1 {
      DomainBounds(name, domains[..|domains| - 1], k);
    }
  }

  lemma {:induction false} TopScore(groups: seq<Group>, name: string) returns (top: Group)
    requires Covers(name, groups)
    ensures top in groups && Score(name, top) >= 0
    ensures forall g :: g in groups ==> Score(name, g) <= Score(name, top)
    decreases |groups|
  {
    hide Score;
    var shorter := groups[..|groups| - 1];
    var last := groups[|groups| - 1];
    assert groups == shorter + [last];
    if Covers(name, shorter) {
      top := TopScore(shorter, name);
      if Score(name, last) > Score(name, top) {
        top := last;
      }
    } else {
      top := last;
    }
  }

  /** Selection never comes back empty-handed for a covered name, and never hands it to a group that does not cover it. */
  lemma CoveredNameStaysCovered(groups: seq<Group>, name: string)
    ensures Covers(name, groups) ==> Selected(groups, name) != [] && forall g :: g in Selected(groups, name) ==> Score(name, g) >= 0
    ensures !Covers(name, groups) ==> forall g :: g in Selected(groups, name) ==> g.isDefault
    ensures forall g :: g in Selected(groups, name) ==> g in groups
  {
    FilterMembers(groups, ChosenAmong(name, groups));
    if Covers(name, groups) {
      var top := TopScore(groups, name);
      var best := LeastPriority(groups, name, top);
      assert Chosen(name, groups, best);
      assert best in Selected(groups, name);
    }
  }

  lemma {:induction false} LeastPriority(groups: seq<Group>, name: string, top: Group) returns (best: Group)
    requires exists g :: g in groups && Score(name, g) == Score(name, top)
    ensures best in groups && Score(name, best) == Score(name, top)
    ensures forall g :: g in groups && Score(name, g) == Score(name, top) ==> best.priority <= g.priority
    decreases |groups|
  {
    var shorter := groups[..|groups| - 1];
    var last := groups[|groups| - 1];
    assert groups == shorter + [last];
    if exists g :: g in shorter && Score(name, g) == Score(name, top) {
      best := LeastPriority(shorter, name, top);
      if Score(name, last) == Score(name, top) && last.priority < best.priority {
        best := last;
      }
    } else {
      best := last;
    }
  }
}
