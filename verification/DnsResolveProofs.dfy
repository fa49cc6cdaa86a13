/**
 * What a caller of `resolve` may rely on, for any server whatsoever: each of its outcomes is
 * explained by a chain of aliases read from the server's own replies, and by what the last reply
 * says or by how the last question fails.
 */
module DnsResolveProofs {
  import opened Wrappers
  import Text
  import opened DnsMessage
  import opened DnsResolve
  import opened DnsReplies

  // ---------------------------------------------------------------------------
  // Counting: the hop limit is never what stops the loop
  // ---------------------------------------------------------------------------

  ghost predicate CountedAtHop(hop: nat, name: Name, seen: set<Name>) {
    if name in seen then hop + 1 <= |seen| <= 9 else hop <= |seen| <= 8
  }

  ghost predicate CountedAtOwner(hop: nat, name: Name, owner: Name, seen: set<Name>) {
    && name in seen && owner in seen
    && hop + (if owner == name then 1 else 2) <= |seen| <= 9
  }

  /** Every continued step adds a name, so `9 - |seen|` bounds the loops and the last return is dead code. */
  lemma {:induction false} AskNeverHitsHopLimit(server: Server, hop: nat, name: Name, seen: set<Name>, ttl: Ttl)
    requires CountedAtHop(hop, name, seen)
    ensures hop <= 8 && Ask(server, hop, name, seen, ttl) != Fails(HopLimit)
    decreases 9 - |seen|, 0
  {
    if name !in seen {
      var fetched := Fetch(server, hop, name);
      if fetched.Ok? {
        FollowNeverHitsHopLimit(server, hop, name, name, fetched.value, seen + {name}, ttl);
      }
    }
  }

  lemma {:induction false} FollowNeverHitsHopLimit(
    server: Server, hop: nat, name: Name, owner: Name, answer: seq<Record>, seen: set<Name>, ttl: Ttl)
    requires CountedAtOwner(hop, name, owner, seen)
    ensures hop <= 8 && Follow(server, hop, name, owner, answer, seen, ttl) != Fails(HopLimit)
    decreases 9 - |seen|, 1
  {
    var scan := ScanOwner(answer, owner, ttl);
    if scan.Scanned? && scan.addresses == [] {
      if scan.next.None? {
        if owner != name {
          AskNeverHitsHopLimit(server, hop + 1, owner, seen, scan.ttl);
        }
      } else if scan.next.value !in seen && |seen| <= 8 {
        if HasOwner(answer, scan.next.value) {
          FollowNeverHitsHopLimit(server, hop, name, scan.next.value, answer, seen + {scan.next.value}, scan.ttl);
        } else {
          AskNeverHitsHopLimit(server, hop + 1, scan.next.value, seen, scan.ttl);
        }
      }
    }
  }

  lemma HopLimitUnreachable(server: Server, host: Name)
    ensures Resolve(server, host) != Fails(HopLimit)
  {
    AskNeverHitsHopLimit(server, 0, host, {}, MAX_TTL);
  }

  /**
   * Lines 278-282: an alias target that the answer mentions, but without usable address or alias
   * records of class IN, is asked for again and always ends in the cycle error of line 220,
   * whatever the server would say to that second question.
   */
  lemma RequeryAlwaysCycles(
    server: Server, hop: nat, name: Name, owner: Name, answer: seq<Record>, seen: set<Name>, ttl: Ttl)
    requires CountedAtOwner(hop, name, owner, seen)
    requires owner != name
    requires !HasAddress(answer, owner) && !HasAlias(answer, owner)
    ensures hop <= 7 && Follow(server, hop, name, owner, answer, seen, ttl) == Fails(Cycle)
  {
    AddressesAre(answer, owner);
    TargetsAre(answer, owner);
  }

  // ---------------------------------------------------------------------------
  // Chains
  // ---------------------------------------------------------------------------

  /** One owner on the way: the hop and question whose answer was read for it. */
  datatype Link = Link(hop: nat, asked: Name, owner: Name, answer: seq<Record>)

  ghost predicate Genuine(server: Server, l: Link) {
    Succeeds(server, l.hop, l.asked, l.answer)
  }

  /** The owner has aliases only, all to one name. */
  ghost predicate Onward(l: Link, target: Name) {
    && !HasAddress(l.answer, l.owner)
    && PointsTo(l.answer, l.owner, target)
    && forall t :: PointsTo(l.answer, l.owner, t) ==> t == target
  }

  /** How one link leads to the next: inside the same answer if it mentions the target, else by a new question. */
  ghost predicate Leads(a: Link, b: Link) {
    && Onward(a, b.owner)
    && if Mentions(a.answer, b.owner)
       then b.hop == a.hop && b.asked == a.asked && b.answer == a.answer
       else b.hop == a.hop + 1 && b.asked == b.owner
  }

  ghost predicate Linked(server: Server, links: seq<Link>) {
    && links != []
    && (forall i :: 0 <= i < |links| ==> Genuine(server, links[i]))
    && (forall i, j :: 0 <= i < |links| && j == i + 1 < |links| ==> Leads(links[i], links[j]))
  }

  ghost predicate Fresh(links: seq<Link>, seen: set<Name>) {
    && (forall i :: 0 <= i < |links| ==> links[i].owner !in seen)
    && (forall i, j :: 0 <= i < j < |links| ==> links[i].owner != links[j].owner)
  }

  ghost function Last(links: seq<Link>): Link
    requires links != []
  {
    links[|links| - 1]
  }

  /** A chain of distinct names that starts with the question for `host`. */
  ghost predicate ChainFrom(server: Server, host: Name, links: seq<Link>) {
    && Linked(server, links)
    && links[0].hop == 0 && links[0].asked == links[0].owner == host
    && Fresh(links, {})
    && |links| <= 9
  }

  /** Record k of the answer read for link i bounds the TTL. */
  ghost predicate OnChain(links: seq<Link>, i: nat, k: nat) {
    i < |links| && k < |links[i].answer| && Bounding(links[i].answer[k], links[i].owner)
  }

  ghost predicate LeastOnChain(links: seq<Link>, ttl: Ttl) {
    && (forall i: nat, k: nat :: OnChain(links, i, k) ==> ttl <= links[i].answer[k].ttl)
    && exists i: nat, k: nat :: OnChain(links, i, k) && links[i].answer[k].ttl == ttl
  }

  // ---------------------------------------------------------------------------
  // How a chain ends
  // ---------------------------------------------------------------------------

  /** Addresses and no alias. */
  ghost predicate Terminal(l: Link) {
    HasAddress(l.answer, l.owner) && !HasAlias(l.answer, l.owner)
  }

  /** Neither addresses nor aliases. */
  ghost predicate Blank(l: Link) {
    !HasAddress(l.answer, l.owner) && !HasAlias(l.answer, l.owner)
  }

  /** An owner reached by an alias inside an answer that has neither address nor alias for it. */
  ghost predicate DeadEnd(l: Link) {
    Blank(l) && l.owner != l.asked
  }

  /** Aliases to different names. */
  ghost predicate Divided(l: Link) {
    exists t, u :: PointsTo(l.answer, l.owner, t) && PointsTo(l.answer, l.owner, u) && t != u
  }

  /** What ends the loops at the last owner, when `seen` are the owners of the whole chain. */
  ghost predicate EndsAt(server: Server, l: Link, seen: set<Name>, r: Outcome) {
    match r
    case Answer(ips, _) => Terminal(l) && Gives(l.answer, l.owner, ips)
    case Fails(f) =>
      match f
      case Cycle => DeadEnd(l)
      case NoAddress(name) => Blank(l) && l.owner == l.asked == name
      case ConflictingCname => Divided(l)
      case ConflictingAddressAndCname => HasAddress(l.answer, l.owner) && HasAlias(l.answer, l.owner) && !Divided(l)
      case CycleOrLimit => exists t :: Onward(l, t) && (t in seen || |seen| > 8)
      case _ => exists t :: AsksNext(l, seen, t) && QuestionFails(server, l.hop + 1, t, f)
  }

  /** The target of the last owner is not in its answer and is asked for next. */
  ghost predicate AsksNext(l: Link, seen: set<Name>, t: Name) {
    Onward(l, t) && t !in seen && |seen| <= 8 && !Mentions(l.answer, t)
  }

  ghost function Owners(links: seq<Link>): set<Name> {
    set i | 0 <= i < |links| :: links[i].owner
  }

  /** Either the very first question fails, or a chain leads to what ends the loops; an answer's TTL is the least on it. */
  ghost predicate Explains(server: Server, host: Name, links: seq<Link>, r: Outcome) {
    if links == [] then r.Fails? && QuestionFails(server, 0, host, r.failure)
    else
      && ChainFrom(server, host, links)
      && EndsAt(server, Last(links), Owners(links), r)
      && (r.Answer? ==> LeastOnChain(links, r.ttl))
  }

  // ---------------------------------------------------------------------------
  // One turn of the inner loop, in these terms
  // ---------------------------------------------------------------------------

  ghost function Least(l: Link, ttl: Ttl): Ttl {
    LeastTtl(Owned(l.answer, l.owner), ttl)
  }

  lemma AllEqualIsUndivided(l: Link)
    ensures AllEqual(Targets(Owned(l.answer, l.owner))) <==> !Divided(l)
    ensures HasAlias(l.answer, l.owner) && !Divided(l) ==>
              var ts := Targets(Owned(l.answer, l.owner));
              ts != [] && PointsTo(l.answer, l.owner, ts[0]) && forall t :: PointsTo(l.answer, l.owner, t) <==> t == ts[0]
  {
    hide Owned, Targets, PointsTo, HasAlias;
    TargetsAre(l.answer, l.owner);
    var ts := Targets(Owned(l.answer, l.owner));
    if !Divided(l) {
      forall i | 0 <= i < |ts|
        ensures ts[i] == ts[0]
      {
        assert ts[i] in ts && ts[0] in ts;
      }
    }
    if ts != [] {
      assert ts[0] in ts;
    }
  }

  /** What the inner loop does at an owner. */
  lemma Turn(server: Server, l: Link, seen: set<Name>, ttl: Ttl)
    requires l.hop <= 8
    ensures var r := Follow(server, l.hop, l.asked, l.owner, l.answer, seen, ttl);
            && (Divided(l) ==> r == Fails(ConflictingCname))
            && (HasAddress(l.answer, l.owner) && HasAlias(l.answer, l.owner) && !Divided(l) ==> r == Fails(ConflictingAddressAndCname))
            && (Terminal(l) ==> r.Answer? && Gives(l.answer, l.owner, r.addresses) && r.ttl == Least(l, ttl))
            && (Blank(l) ==> r == if l.owner == l.asked then Fails(NoAddress(l.asked)) else Ask(server, l.hop + 1, l.owner, seen, Least(l, ttl)))
            && forall t :: Onward(l, t) ==>
                 r == if t in seen || |seen| > 8 then Fails(CycleOrLimit)
                      else if Mentions(l.answer, t) then Follow(server, l.hop, l.asked, t, l.answer, seen + {t}, Least(l, ttl))
                      else Ask(server, l.hop + 1, t, seen, Least(l, ttl))
  {
    hide Owned, Addresses, Targets, LeastTtl, PointsTo, HasAlias, HasAddress, HasOwner, Mentions, Gives, Divided, AllEqual;
    AllEqualIsUndivided(l);
    AddressesAre(l.answer, l.owner);
    TargetsAre(l.answer, l.owner);
    AddressesAreGiven(l.answer, l.owner, Addresses(Owned(l.answer, l.owner)));
    forall t
      ensures HasOwner(l.answer, t) <==> Mentions(l.answer, t)
    {
      MentionsIsHasOwner(l.answer, t);
    }
    DividedHasAlias(l);
    forall t | Onward(l, t)
      ensures !Divided(l) && HasAlias(l.answer, l.owner)
    {
      OnwardIsUndivided(l, t);
    }
  }

  lemma OnwardIsUndivided(l: Link, t: Name)
    requires Onward(l, t)
    ensures !Divided(l)
  {
    hide PointsTo, HasAddress;
  }

  lemma DividedHasAlias(l: Link)
    ensures Divided(l) ==> HasAlias(l.answer, l.owner)
    ensures forall t :: PointsTo(l.answer, l.owner, t) ==> HasAlias(l.answer, l.owner)
  {
    hide Owned, Targets, PointsTo, HasAlias;
    TargetsAre(l.answer, l.owner);
  }

  /** Every owner is one of these. */
  lemma Cases(l: Link) returns (t: Name)
    ensures Divided(l) || (HasAddress(l.answer, l.owner) && HasAlias(l.answer, l.owner) && !Divided(l)) || Terminal(l) || Blank(l) || Onward(l, t)
  {
    hide Owned, Targets, PointsTo, HasAlias, HasAddress, Divided;
    AllEqualIsUndivided(l);
    t := l.owner;
    if !HasAddress(l.answer, l.owner) && HasAlias(l.answer, l.owner) && !Divided(l) {
      t := Targets(Owned(l.answer, l.owner))[0];
    }
  }

  lemma RequeryFails(server: Server, hop: nat, name: Name, owner: Name, seen: set<Name>, ttl: Ttl)
    requires CountedAtOwner(hop, name, owner, seen)
    ensures hop <= 8 && (owner != name ==> Ask(server, hop + 1, owner, seen, ttl) == Fails(Cycle))
  {
  }

  /** A new question. */
  lemma AskTurn(server: Server, hop: nat, name: Name, seen: set<Name>, ttl: Ttl)
    requires hop <= 8 && name !in seen
    ensures forall f :: QuestionFails(server, hop, name, f) ==> Ask(server, hop, name, seen, ttl) == Fails(f)
    ensures forall answer :: Succeeds(server, hop, name, answer) ==>
              Ask(server, hop, name, seen, ttl) == Follow(server, hop, name, name, answer, seen + {name}, ttl)
    ensures (exists f :: QuestionFails(server, hop, name, f)) || exists answer :: Succeeds(server, hop, name, answer)
  {
    hide QuestionFails, Succeeds, Fetch, Follow;
    FetchMeans(server, hop, name);
    var r := Fetch(server, hop, name);
    if r.Ok? {
      assert Succeeds(server, hop, name, r.value);
    } else {
      assert QuestionFails(server, hop, name, r.error);
    }
  }

  // ---------------------------------------------------------------------------
  // Putting links in front
  // ---------------------------------------------------------------------------

  lemma LinkedCons(server: Server, l: Link, rest: seq<Link>)
    requires Genuine(server, l) && Linked(server, rest) && Leads(l, rest[0])
    ensures Linked(server, [l] + rest)
  {
    hide Leads, Genuine;
    var links := [l] + rest;
    forall i, j | 0 <= i < |links| && j == i + 1 < |links|
      ensures Leads(links[i], links[j])
    {
      assert links[j] == rest[i];
      if i > 0 {
        assert links[i] == rest[i - 1];
      }
    }
  }

  lemma LinkedTail(server: Server, links: seq<Link>)
    requires Linked(server, links) && |links| > 1
    ensures Linked(server, links[1..]) && Leads(links[0], links[1]) && Genuine(server, links[0])
  {
    hide Leads, Genuine;
    var rest := links[1..];
    forall i, j | 0 <= i < |rest| && j == i + 1 < |rest|
      ensures Leads(rest[i], rest[j])
    {
      assert rest[i] == links[i + 1] && rest[j] == links[j + 1];
    }
  }

  lemma OwnersCons(l: Link, rest: seq<Link>)
    ensures Owners([l] + rest) == {l.owner} + Owners(rest)
  {
    var links := [l] + rest;
    forall n | n in Owners(rest)
      ensures n in Owners(links)
    {
      var i :| 0 <= i < |rest| && rest[i].owner == n;
      assert links[i + 1].owner == n;
    }
    assert links[0].owner == l.owner;
  }

  lemma FreshCons(l: Link, rest: seq<Link>, seen: set<Name>)
    requires Fresh(rest, seen) && l.owner in seen
    ensures Fresh([l] + rest, seen - {l.owner})
  {
    var links := [l] + rest;
    forall i, j | 0 <= i < j < |links|
      ensures links[i].owner != links[j].owner
    {
      assert links[j] == rest[j - 1];
      if i > 0 {
        assert links[i] == rest[i - 1];
      }
    }
  }

  lemma FreshTail(links: seq<Link>, seen: set<Name>)
    requires links != [] && Fresh(links, seen)
    ensures Fresh(links[1..], seen + {links[0].owner})
  {
    var rest := links[1..];
    forall i, j | 0 <= i < j < |rest|
      ensures rest[i].owner != rest[j].owner && rest[i].owner !in seen + {links[0].owner}
    {
      assert rest[i] == links[i + 1] && rest[j] == links[j + 1];
    }
    if rest != [] {
      assert rest[|rest| - 1] == links[|rest|];
    }
  }

  /** The least TTL among the records of every owner on the chain. */
  ghost function ChainTtl(links: seq<Link>, bound: Ttl): Ttl {
    if links == [] then bound else ChainTtl(links[1..], Least(links[0], bound))
  }

  /** Where the loops stand after this chain, having seen these names. */
  ghost predicate Outcomes(server: Server, links: seq<Link>, seen: set<Name>, ttl: Ttl, r: Outcome)
    requires links != []
  {
    EndsAt(server, Last(links), seen + Owners(links), r) && (r.Answer? ==> r.ttl == ChainTtl(links, ttl))
  }

  lemma OutcomesCons(server: Server, l: Link, rest: seq<Link>, seen: set<Name>, ttl: Ttl, r: Outcome)
    requires rest != [] && l.owner in seen
    ensures Outcomes(server, [l] + rest, seen, ttl, r) <==> Outcomes(server, rest, seen, Least(l, ttl), r)
  {
    hide EndsAt, Least;
    var links := [l] + rest;
    OwnersCons(l, rest);
    assert links[1..] == rest && Last(links) == Last(rest);
    assert seen + ({l.owner} + Owners(rest)) == seen + Owners(rest);
  }

  lemma OutcomesOne(server: Server, l: Link, seen: set<Name>, ttl: Ttl, r: Outcome)
    requires l.owner in seen
    ensures Outcomes(server, [l], seen, ttl, r) <==> EndsAt(server, l, seen, r) && (r.Answer? ==> r.ttl == Least(l, ttl))
  {
    hide EndsAt, Least;
    OwnersCons(l, []);
    assert [l] + [] == [l] && [l][1..] == [] && Owners([]) == {};
    assert seen + Owners([l]) == seen && Last([l]) == l;
    assert ChainTtl([l], ttl) == Least(l, ttl);
  }

  lemma WiderIsSame(server: Server, links: seq<Link>, seen: set<Name>, ttl: Ttl, r: Outcome)
    requires links != []
    ensures Outcomes(server, links, seen + {links[0].owner}, ttl, r) <==> Outcomes(server, links, seen, ttl, r)
  {
    hide EndsAt;
    assert links[0].owner in Owners(links);
    assert seen + {links[0].owner} + Owners(links) == seen + Owners(links);
  }

  // ---------------------------------------------------------------------------
  // Every outcome has its chain
  // ---------------------------------------------------------------------------

  lemma {:induction false} FollowExplained(server: Server, l: Link, seen: set<Name>, ttl: Ttl) returns (links: seq<Link>)
    requires CountedAtOwner(l.hop, l.asked, l.owner, seen) && Genuine(server, l)
    ensures l.hop <= 8
    ensures Linked(server, links) && links[0] == l
    ensures Fresh(links[1..], seen) && |seen| + |links| <= 10
    ensures Outcomes(server, links, seen, ttl, Follow(server, l.hop, l.asked, l.owner, l.answer, seen, ttl))
    decreases 9 - |seen|
  {
    hide Follow, Ask, Genuine, Outcomes, Leads, Onward, Terminal, Blank, Divided, HasAddress, HasAlias, Mentions, Least, Gives;
    var r := Follow(server, l.hop, l.asked, l.owner, l.answer, seen, ttl);
    Turn(server, l, seen, ttl);
    var t := Cases(l);
    links := [l];
    LinkedOne(server, l);
    OutcomesOne(server, l, seen, ttl, r);
    RequeryFails(server, l.hop, l.asked, l.owner, seen, Least(l, ttl));
    if !Onward(l, t) || t in seen || |seen| > 8 {
      EndsHere(server, l, seen, ttl, t);
    } else {
      var next := NextLink(server, l, t, seen, Least(l, ttl));
      if next.Some? {
        var rest := FollowExplained(server, next.value, seen + {t}, Least(l, ttl));
        LinkedCons(server, l, rest);
        OutcomesCons(server, l, rest, seen, ttl, r);
        WiderIsSame(server, rest, seen, Least(l, ttl), r);
        FreshBefore(rest, seen, t);
        links := [l] + rest;
        assert links[1..] == rest;
      } else {
        var f :| QuestionFails(server, l.hop + 1, t, f) && r == Fails(f);
        QuestionEnds(server, l, seen, t, f);
      }
    }
  }

  /** The ends that need no further question. */
  lemma EndsHere(server: Server, l: Link, seen: set<Name>, ttl: Ttl, t: Name)
    requires CountedAtOwner(l.hop, l.asked, l.owner, seen)
    requires Divided(l) || (HasAddress(l.answer, l.owner) && HasAlias(l.answer, l.owner) && !Divided(l)) || Terminal(l) || Blank(l)
             || (Onward(l, t) && (t in seen || |seen| > 8))
    ensures l.hop <= 8
    ensures var r := Follow(server, l.hop, l.asked, l.owner, l.answer, seen, ttl);
            EndsAt(server, l, seen, r) && (r.Answer? ==> r.ttl == Least(l, ttl))
  {
    hide Follow, Ask, Onward, Divided, HasAddress, HasAlias, Mentions, Least, Gives, QuestionFails;
    Turn(server, l, seen, ttl);
    RequeryFails(server, l.hop, l.asked, l.owner, seen, Least(l, ttl));
  }

  lemma QuestionEnds(server: Server, l: Link, seen: set<Name>, t: Name, f: Failure)
    requires AsksNext(l, seen, t) && QuestionFails(server, l.hop + 1, t, f)
    ensures EndsAt(server, l, seen, Fails(f))
  {
    hide AsksNext, Replied, WellFormed;
  }

  lemma LinkedOne(server: Server, l: Link)
    requires Genuine(server, l)
    ensures Linked(server, [l]) && [l][1..] == []
  {
  }

  lemma FreshBefore(rest: seq<Link>, seen: set<Name>, t: Name)
    requires rest != [] && rest[0].owner == t && t !in seen && Fresh(rest[1..], seen + {t})
    ensures Fresh(rest, seen)
  {
    forall i, j | 0 <= i < j < |rest|
      ensures rest[i].owner != rest[j].owner && rest[j].owner !in seen
    {
      assert rest[1..][j - 1] == rest[j];
      if i > 0 {
        assert rest[1..][i - 1] == rest[i];
      }
    }
  }

  /** The link an unseen target is read at, or None if asking for it fails. */
  lemma NextLink(server: Server, l: Link, t: Name, seen: set<Name>, ttl: Ttl) returns (next: Option<Link>)
    requires CountedAtOwner(l.hop, l.asked, l.owner, seen) && Genuine(server, l)
    requires Onward(l, t) && t !in seen && |seen| <= 8
    ensures l.hop <= 7
    ensures next.Some? ==>
              && Genuine(server, next.value) && Leads(l, next.value) && next.value.owner == t
              && CountedAtOwner(next.value.hop, next.value.asked, t, seen + {t})
              && (if Mentions(l.answer, t) then Follow(server, l.hop, l.asked, t, l.answer, seen + {t}, ttl) else Ask(server, l.hop + 1, t, seen, ttl))
                 == Follow(server, next.value.hop, next.value.asked, t, next.value.answer, seen + {t}, ttl)
    ensures next.None? ==>
              && !Mentions(l.answer, t)
              && exists f :: QuestionFails(server, l.hop + 1, t, f) && Ask(server, l.hop + 1, t, seen, ttl) == Fails(f)
  {
    hide Follow, Ask, Onward, Mentions, QuestionFails, Succeeds;
    if Mentions(l.answer, t) {
      next := Some(Link(l.hop, l.asked, t, l.answer));
    } else {
      AskTurn(server, l.hop + 1, t, seen, ttl);
      var hop := l.hop + 1;
      if answer :| Succeeds(server, hop, t, answer) {
        next := Some(Link(hop, t, t, answer));
      } else {
        next := None;
      }
    }
  }

  // ---------------------------------------------------------------------------
  // Every chain has its outcome
  // ---------------------------------------------------------------------------

  lemma {:induction false} ChainIsFollowed(server: Server, links: seq<Link>, seen: set<Name>, ttl: Ttl, r: Outcome)
    requires Linked(server, links)
    requires CountedAtOwner(links[0].hop, links[0].asked, links[0].owner, seen)
    requires Fresh(links[1..], seen) && |seen| + |links| <= 10
    requires Outcomes(server, links, seen, ttl, r)
    ensures links[0].hop <= 8
    ensures Follow(server, links[0].hop, links[0].asked, links[0].owner, links[0].answer, seen, ttl) == r
    decreases |links|
  {
    hide Follow, Ask, Genuine, Outcomes, EndsAt, Least;
    var l := links[0];
    if |links| == 1 {
      assert links == [l];
      OutcomesOne(server, l, seen, ttl, r);
      LastTurn(server, l, seen, ttl, r);
    } else {
      LinkedTail(server, links);
      var rest := links[1..];
      assert rest[0] == links[1] && links == [l] + rest;
      FreshTail(rest, seen);
      OutcomesCons(server, l, rest, seen, ttl, r);
      WiderIsSame(server, rest, seen, Least(l, ttl), r);
      LeadsOn(server, l, rest[0], seen, ttl);
      ChainIsFollowed(server, rest, seen + {rest[0].owner}, Least(l, ttl), r);
    }
  }

  lemma LeadsOn(server: Server, l: Link, next: Link, seen: set<Name>, ttl: Ttl)
    requires CountedAtOwner(l.hop, l.asked, l.owner, seen) && Genuine(server, next) && Leads(l, next)
    requires next.owner !in seen && |seen| <= 8
    ensures next.hop <= 8 && CountedAtOwner(next.hop, next.asked, next.owner, seen + {next.owner})
    ensures l.hop <= 8 && Follow(server, l.hop, l.asked, l.owner, l.answer, seen, ttl) ==
            Follow(server, next.hop, next.asked, next.owner, next.answer, seen + {next.owner}, Least(l, ttl))
  {
    hide Follow, Ask, Onward, Mentions, Least, Succeeds, QuestionFails, Terminal, Blank, Divided, HasAddress, HasAlias, Gives;
    Turn(server, l, seen, ttl);
    if !Mentions(l.answer, next.owner) {
      AskTurn(server, l.hop + 1, next.owner, seen, Least(l, ttl));
    }
  }

  lemma LastTurn(server: Server, l: Link, seen: set<Name>, ttl: Ttl, r: Outcome)
    requires CountedAtOwner(l.hop, l.asked, l.owner, seen)
    requires EndsAt(server, l, seen, r) && (r.Answer? ==> r.ttl == Least(l, ttl))
    ensures l.hop <= 8 && Follow(server, l.hop, l.asked, l.owner, l.answer, seen, ttl) == r
  {
    hide Follow, Ask, Onward, Mentions, Least, QuestionFails, Divided, HasAddress, HasAlias, Gives;
    var s := Follow(server, l.hop, l.asked, l.owner, l.answer, seen, ttl);
    Turn(server, l, seen, ttl);
    match r {
      case Answer(ips, _) =>
        AddressesAreGiven(l.answer, l.owner, ips);
        AddressesAreGiven(l.answer, l.owner, s.addresses);
      case Fails(f) =>
        RequeryFails(server, l.hop, l.asked, l.owner, seen, Least(l, ttl));
        if t :| AsksNext(l, seen, t) && QuestionFails(server, l.hop + 1, t, f) {
          AskTurn(server, l.hop + 1, t, seen, Least(l, ttl));
        }
    }
  }

  // ---------------------------------------------------------------------------
  // Theorems
  // ---------------------------------------------------------------------------

  lemma LeastBounds(l: Link, bound: Ttl)
    ensures var least := Least(l, bound);
            && least <= bound
            && (forall k :: 0 <= k < |l.answer| && Bounding(l.answer[k], l.owner) ==> least <= l.answer[k].ttl)
            && (least == bound || exists k :: 0 <= k < |l.answer| && Bounding(l.answer[k], l.owner) && l.answer[k].ttl == least)
  {
    LeastTtlIsLeast(l.answer, l.owner, bound);
  }

  lemma {:induction false} ChainTtlBounds(links: seq<Link>, bound: Ttl)
    ensures ChainTtl(links, bound) <= bound
    ensures forall i: nat, k: nat :: OnChain(links, i, k) ==> ChainTtl(links, bound) <= links[i].answer[k].ttl
    ensures ChainTtl(links, bound) == bound ||
            exists i: nat, k: nat :: OnChain(links, i, k) && links[i].answer[k].ttl == ChainTtl(links, bound)
  {
    hide Bounding, Least;
    if links != [] {
      var rest := links[1..];
      var least := Least(links[0], bound);
      LeastBounds(links[0], bound);
      ChainTtlBounds(rest, least);
      forall i: nat, k: nat | OnChain(links, i, k)
        ensures ChainTtl(links, bound) <= links[i].answer[k].ttl
      {
        if i > 0 {
          assert rest[i - 1] == links[i] && OnChain(rest, i - 1, k);
        }
      }
      if ChainTtl(rest, least) != least {
        var i: nat, k: nat :| OnChain(rest, i, k) && rest[i].answer[k].ttl == ChainTtl(rest, least);
        assert rest[i] == links[i + 1] && OnChain(links, i + 1, k);
      } else if least != bound {
        var k :| 0 <= k < |links[0].answer| && Bounding(links[0].answer[k], links[0].owner) && links[0].answer[k].ttl == least;
        assert OnChain(links, 0, k);
      }
    }
  }

  /** With some address or alias on it, the chain's TTL is the least one. */
  lemma ChainTtlIsLeast(links: seq<Link>, ttl: Ttl)
    requires links != [] && HasAddress(Last(links).answer, Last(links).owner)
    ensures LeastOnChain(links, ttl) <==> ttl == ChainTtl(links, MAX_TTL)
  {
    var least := ChainTtl(links, MAX_TTL);
    ChainTtlBounds(links, MAX_TTL);
    var k :| 0 <= k < |Last(links).answer| && AddressRecord(Last(links).answer[k], Last(links).owner);
    assert OnChain(links, |links| - 1, k);
    hide OnChain, ChainTtl;
    assert least == MAX_TTL ==> Last(links).answer[k].ttl == least;
  }

  lemma ChainDecides(server: Server, host: Name, links: seq<Link>, r: Outcome)
    requires links != [] && Explains(server, host, links, r)
    ensures Resolve(server, host) == r
  {
    hide Follow, Ask, EndsAt, QuestionFails, LeastOnChain, Leads, ChainTtl;
    FreshTail(links, {});
    assert {} + {host} == {host} && {} + Owners(links) == Owners(links);
    AskTurn(server, 0, host, {}, MAX_TTL);
    EndsWithAddress(server, Last(links), Owners(links), r);
    if r.Answer? {
      ChainTtlIsLeast(links, r.ttl);
    }
    assert Outcomes(server, links, {}, MAX_TTL, r);
    WiderIsSame(server, links, {}, MAX_TTL, r);
    ChainIsFollowed(server, links, {host}, MAX_TTL, r);
    assert Genuine(server, links[0]);
  }

  lemma EndsWithAddress(server: Server, l: Link, seen: set<Name>, r: Outcome)
    ensures EndsAt(server, l, seen, r) && r.Answer? ==> HasAddress(l.answer, l.owner)
  {
    hide HasAddress;
  }

  /** Every outcome of `resolve`, for any server, is explained by what the server said. */
  lemma ResolveIsExplained(server: Server, host: Name) returns (links: seq<Link>)
    ensures Explains(server, host, links, Resolve(server, host))
  {
    hide Follow, Ask, EndsAt, QuestionFails, LeastOnChain, Leads, Succeeds, ChainTtl, Owners;
    AskTurn(server, 0, host, {}, MAX_TTL);
    assert {} + {host} == {host};
    if answer :| Succeeds(server, 0, host, answer) {
      var l := Link(0, host, host, answer);
      var r := Follow(server, 0, host, host, answer, {host}, MAX_TTL);
      links := FollowExplained(server, l, {host}, MAX_TTL);
      WiderIsSame(server, links, {}, MAX_TTL, r);
      assert {} + Owners(links) == Owners(links);
      FreshBefore(links, {}, host);
      EndsWithAddress(server, Last(links), Owners(links), r);
      if r.Answer? {
        ChainTtlIsLeast(links, r.ttl);
      }
    } else {
      links := [];
    }
  }

  /**
   * The whole of what `resolve` does, for arbitrary replies: it ends with r exactly when a chain
   * of distinct names, at most eight aliases long and read from well-formed replies the server
   * really gave, leads to an owner whose records end the loops with r, or to a question that
   * fails with r.
   */
  lemma ResolveIffExplained(server: Server, host: Name, r: Outcome)
    ensures Resolve(server, host) == r <==> exists links :: Explains(server, host, links, r)
  {
    hide Resolve, Explains;
    var links := ResolveIsExplained(server, host);
    forall links | Explains(server, host, links, r)
      ensures Resolve(server, host) == r
    {
      if links == [] {
        FirstQuestionDecides(server, host, r);
      } else {
        ChainDecides(server, host, links, r);
      }
    }
  }

  lemma FirstQuestionDecides(server: Server, host: Name, r: Outcome)
    requires Explains(server, host, [], r)
    ensures Resolve(server, host) == r
  {
    hide QuestionFails, Ask;
    AskTurn(server, 0, host, {}, MAX_TTL);
  }

  /** A chain from `host` that justifies an answer. */
  ghost predicate Justifies(server: Server, host: Name, links: seq<Link>, ips: seq<Address>, ttl: Ttl) {
    && ChainFrom(server, host, links)
    && Terminal(Last(links)) && Gives(Last(links).answer, Last(links).owner, ips)
    && LeastOnChain(links, ttl)
  }

  /** Success: a chain ends in exactly these addresses, and this is the least TTL on it. */
  lemma AnswerIffChain(server: Server, host: Name, ips: seq<Address>, ttl: Ttl)
    ensures Resolve(server, host) == Answer(ips, ttl) <==> exists links :: Justifies(server, host, links, ips, ttl)
  {
    hide Resolve, ChainFrom, Terminal, Gives, LeastOnChain;
    ResolveIffExplained(server, host, Answer(ips, ttl));
    forall links
      ensures Explains(server, host, links, Answer(ips, ttl)) <==> Justifies(server, host, links, ips, ttl)
    {
      NoChainIsEmpty(server, host, links);
    }
  }

  lemma NoChainIsEmpty(server: Server, host: Name, links: seq<Link>)
    ensures ChainFrom(server, host, links) ==> links != []
  {
  }

  /** Any chain from the host that ends in addresses is the one answered with, and the answer's TTL is the least on it. */
  lemma AnswerTtlIsMinimum(server: Server, host: Name, links: seq<Link>)
    requires ChainFrom(server, host, links) && Terminal(Last(links))
    ensures Resolve(server, host).Answer? && LeastOnChain(links, Resolve(server, host).ttl)
    ensures Gives(Last(links).answer, Last(links).owner, Resolve(server, host).addresses)
  {
    hide Resolve;
    var l, ttl := Last(links), ChainTtl(links, MAX_TTL);
    var ips := Addresses(Owned(l.answer, l.owner));
    AddressesAreGiven(l.answer, l.owner, ips);
    ChainTtlIsLeast(links, ttl);
    hide Linked, LeastOnChain, Gives, ChainTtl, Owned, Addresses;
    ChainDecides(server, host, links, Answer(ips, ttl));
  }

  ghost predicate EndsDead(server: Server, host: Name, links: seq<Link>) {
    ChainFrom(server, host, links) && DeadEnd(Last(links))
  }

  /**
   * When the re-query of lines 279-281 is made: `resolve` reports a cycle exactly when the alias
   * chain from the queried name runs, inside some answer, into a name that the answer mentions
   * without a usable address or alias.  A real cycle of aliases is reported by line 286 instead.
   */
  lemma CycleIffDeadEnd(server: Server, host: Name)
    ensures Resolve(server, host) == Fails(Cycle) <==> exists links :: EndsDead(server, host, links)
  {
    hide Resolve, ChainFrom, DeadEnd;
    ResolveIffExplained(server, host, Fails(Cycle));
    forall links
      ensures Explains(server, host, links, Fails(Cycle)) <==> EndsDead(server, host, links)
    {
      NoChainIsEmpty(server, host, links);
    }
  }

  /** The chain, of no links or more, ends in asking `name` at this hop. */
  ghost predicate LeadsToAsking(server: Server, host: Name, links: seq<Link>, hop: nat, name: Name) {
    if links == [] then hop == 0 && name == host
    else ChainFrom(server, host, links) && AsksNext(Last(links), Owners(links), name) && hop == Last(links).hop + 1
  }

  /** A reply that ends the search for good or passes it to the next server. */
  ghost predicate Rejected(h: Hop, name: Name, rcode: Rcode) {
    exists r :: Replied(h, r) && WellFormed(r, name) && r.rcode == rcode
  }

  /** The name error: exactly when some name on the chain is asked for and the well-formed reply says that it does not exist. */
  lemma NameErrorIff(server: Server, host: Name, name: Name)
    ensures Resolve(server, host) == Fails(NxDomain(name)) <==>
              exists links, hop :: LeadsToAsking(server, host, links, hop, name) && Rejected(server(hop, name), name, NameError)
  {
    hide Resolve, ChainFrom, Owners, AsksNext, Replied, WellFormed;
    var r := Fails(NxDomain(name));
    ResolveIffExplained(server, host, r);
    if links :| Explains(server, host, links, r) {
      NoChainIsEmpty(server, host, links);
      if links == [] {
        assert LeadsToAsking(server, host, [], 0, name);
      } else {
        assert LeadsToAsking(server, host, links, Last(links).hop + 1, name);
      }
      assert exists links, hop :: LeadsToAsking(server, host, links, hop, name) && Rejected(server(hop, name), name, NameError);
    }
    forall links, hop | LeadsToAsking(server, host, links, hop, name) && Rejected(server(hop, name), name, NameError)
      ensures Explains(server, host, links, r)
    {
      assert QuestionFails(server, hop, name, NxDomain(name));
      NoChainIsEmpty(server, host, links);
    }
  }

  // ---------------------------------------------------------------------------
  // A dead end
  // ---------------------------------------------------------------------------

  const HERE := Name("a.")
  const THERE := Name("b.")
  const ALIAS := Record(HERE, true, 60, CName(THERE))
  const OTHER := Record(THERE, true, 60, OtherData)
  const BOTH := [ALIAS, OTHER]

  /** Answers every question with an alias from "a." to "b." and an IN-class record of another type for "b.". */
  function OtherTypeOnly(): Server {
    (hop: nat, name: Name) =>
      Hop(Received(Reply(true, false, true, true, [Question(name, true, true)], Success, BOTH)), Failed, 0)
  }

  lemma OtherTypeIsAnswered(hop: nat, name: Name)
    ensures Succeeds(OtherTypeOnly(), hop, name, BOTH)
  {
    var r := Reply(true, false, true, true, [Question(name, true, true)], Success, BOTH);
    assert r.questions == [r.questions[0]];
    assert Replied(OtherTypeOnly()(hop, name), r) && WellFormed(r, name);
  }

  lemma TwoNames()
    ensures Text.LowerCase(HERE.text) && Text.LowerCase(THERE.text)
    ensures SameName(HERE, HERE) && SameName(THERE, THERE) && !SameName(HERE, THERE) && !SameName(THERE, HERE)
  {
    assert HERE.text[0] == 'a' && THERE.text[0] == 'b';
  }

  lemma BothRecords(name: Name)
    ensures AliasRecord(ALIAS, name) <==> SameName(HERE, name)
    ensures !AliasRecord(OTHER, name) && !AddressRecord(ALIAS, name) && !AddressRecord(OTHER, name)
  {
    hide SameName;
  }

  /** An alias to a name with, say, an IPv6 address only is such a dead end. */
  lemma OtherTypeOnlyCycles()
    ensures Resolve(OtherTypeOnly(), HERE) == Fails(Cycle)
  {
    hide Resolve, SameName, Text.LowerCase, AliasRecord, AddressRecord, Succeeds, OtherTypeOnly;
    var server := OtherTypeOnly();
    TwoNames();
    OtherTypeIsAnswered(0, HERE);
    BothRecords(HERE);
    BothRecords(THERE);
    assert BOTH[0] == ALIAS && BOTH[1] == OTHER;
    var first, second := Link(0, HERE, HERE, BOTH), Link(0, HERE, THERE, BOTH);
    assert HERE != THERE;
    ThereOnly();
    assert Leads(first, second) && DeadEnd(second);
    var links := [first, second];
    assert EndsDead(server, HERE, links);
    CycleIffDeadEnd(server, HERE);
  }

  lemma ThereOnly()
    ensures Onward(Link(0, HERE, HERE, BOTH), THERE)
  {
    hide SameName, Text.LowerCase, AliasRecord, AddressRecord;
    TwoNames();
    BothRecords(HERE);
    assert BOTH[0] == ALIAS && BOTH[1] == OTHER;
    forall t | PointsTo(BOTH, HERE, t)
      ensures t == THERE
    {
      NameIsCanonical(THERE, t);
      NameIsCanonical(THERE, THERE);
    }
  }
}
