/** For an honest server, the way an alias chain is cut into responses does not matter. */
module DnsChunking {
  import opened Wrappers
  import opened DnsMessage
  import opened DnsResolve
  import opened DnsReplies

  /** One turn of the inner loop at an owner that has aliases only. */
  lemma FollowAlias(
    server: Server, hop: nat, name: Name, owner: Name, answer: seq<Record>, seen: set<Name>, ttl: Ttl, target: Name)
    requires hop <= 8
    requires Addresses(Owned(answer, owner)) == []
    requires var ts := Targets(Owned(answer, owner)); ts != [] && AllEqual(ts) && ts[0] == target
    ensures Follow(server, hop, name, owner, answer, seen, ttl) ==
            var least := LeastTtl(Owned(answer, owner), ttl);
            if target in seen || |seen| > 8 then Fails(CycleOrLimit)
            else if !HasOwner(answer, target) then Ask(server, hop + 1, target, seen, least)
            else Follow(server, hop, name, target, answer, seen + {target}, least)
  {
  }

  /** The turn that ends the loops with an answer. */
  lemma FollowEnd(server: Server, hop: nat, name: Name, owner: Name, answer: seq<Record>, seen: set<Name>, ttl: Ttl)
    requires hop <= 8
    requires Addresses(Owned(answer, owner)) != [] && Targets(Owned(answer, owner)) == []
    ensures Follow(server, hop, name, owner, answer, seen, ttl) ==
            Answer(Addresses(Owned(answer, owner)), LeastTtl(Owned(answer, owner), ttl))
  {
  }

  /** A zone holding one acyclic alias chain; rrsets[i] are the records of names[i]. */
  ghost predicate AliasZone(names: seq<Name>, rrsets: seq<seq<Record>>) {
    && |names| == |rrsets| > 0
    && (forall i, j :: 0 <= i < j < |names| ==> names[i] != names[j])
    && (forall i :: 0 <= i < |names| ==> rrsets[i] != [])
    && (forall i, j :: 0 <= i < |names| && j == i + 1 < |names| ==> Aliases(rrsets[i], names[i], names[j]))
    && Addressed(rrsets[|names| - 1], names[|names| - 1])
  }

  ghost predicate Aliases(rs: seq<Record>, owner: Name, target: Name) {
    forall k :: 0 <= k < |rs| ==> rs[k].inet && EqualFold(rs[k].name, owner) && rs[k].data.CName? && Lower(rs[k].data.target) == target
  }

  ghost predicate Addressed(rs: seq<Record>, owner: Name) {
    forall k :: 0 <= k < |rs| ==> rs[k].inet && EqualFold(rs[k].name, owner) && rs[k].data.A? && rs[k].data.address.Some?
  }

  /**
   * Asked for a name of the chain at any hop, the server answers with all records of that name,
   * and for each other name of the chain with all of its records or none, in any interleaving
   * and beside any records of unrelated names.
   */
  ghost predicate Serves(server: Server, names: seq<Name>, rrsets: seq<seq<Record>>)
    requires |names| == |rrsets|
  {
    forall hop: nat, i :: 0 <= i < |names| ==> AnswersWhole(server, hop, names, rrsets, i)
  }

  ghost predicate AnswersWhole(server: Server, hop: nat, names: seq<Name>, rrsets: seq<seq<Record>>, i: nat)
    requires i < |names| == |rrsets|
  {
    exists answer :: Succeeds(server, hop, names[i], answer) && Owned(answer, names[i]) == rrsets[i] && Whole(answer, names, rrsets)
  }

  ghost predicate Whole(answer: seq<Record>, names: seq<Name>, rrsets: seq<seq<Record>>)
    requires |names| == |rrsets|
  {
    forall j :: 0 <= j < |names| ==>
      if HasOwner(answer, names[j]) then Owned(answer, names[j]) == rrsets[j] else Owned(answer, names[j]) == []
  }

  lemma WholeAt(answer: seq<Record>, names: seq<Name>, rrsets: seq<seq<Record>>, j: nat)
    requires |names| == |rrsets| && Whole(answer, names, rrsets) && j < |names| && HasOwner(answer, names[j])
    ensures Owned(answer, names[j]) == rrsets[j]
  {
    hide Owned, HasOwner;
  }

  /** What the zone itself says, with no responses in sight. */
  ghost function ZoneTtl(rrsets: seq<seq<Record>>, i: nat, bound: Ttl): Ttl
    requires i <= |rrsets|
    decreases |rrsets| - i
  {
    if i == |rrsets| then bound
    else ZoneTtl(rrsets, i + 1, LeastTtl(rrsets[i], bound))
  }

  ghost function ZoneOutcome(names: seq<Name>, rrsets: seq<seq<Record>>, i: nat, ttl: Ttl): Outcome
    requires |names| == |rrsets| && i < |names|
  {
    if |names| - 1 <= 8 then Answer(Addresses(rrsets[|names| - 1]), ZoneTtl(rrsets, i, ttl))
    else Fails(CycleOrLimit)
  }

  ghost function Before(names: seq<Name>, i: nat): set<Name>
    requires i <= |names|
  {
    if i == 0 then {} else Before(names, i - 1) + {names[i - 1]}
  }

  lemma {:induction false} BeforeSize(names: seq<Name>, i: nat)
    requires i <= |names|
    requires forall i, j :: 0 <= i < j < |names| ==> names[i] != names[j]
    ensures |Before(names, i)| == i
    ensures forall j :: i <= j < |names| ==> names[j] !in Before(names, i)
  {
    if i > 0 {
      BeforeSize(names, i - 1);
    }
  }

  lemma {:induction false} AliasTargets(rs: seq<Record>, owner: Name, target: Name)
    requires Aliases(rs, owner, target)
    ensures Addresses(rs) == [] && |Targets(rs)| == |rs|
    ensures forall k :: 0 <= k < |rs| ==> Targets(rs)[k] == target
  {
    if rs != [] {
      AliasTargets(rs[..|rs| - 1], owner, target);
    }
  }

  lemma {:induction false} AddressedTargets(rs: seq<Record>, owner: Name)
    requires Addressed(rs, owner)
    ensures |Addresses(rs)| == |rs| && Targets(rs) == []
  {
    if rs != [] {
      AddressedTargets(rs[..|rs| - 1], owner);
    }
  }

  lemma HonestLink(names: seq<Name>, rrsets: seq<seq<Record>>, i: nat)
    requires AliasZone(names, rrsets) && i < |names|
    ensures if i == |names| - 1 then Addresses(rrsets[i]) != [] && Targets(rrsets[i]) == []
            else
              && Addresses(rrsets[i]) == []
              && Targets(rrsets[i]) != [] && AllEqual(Targets(rrsets[i])) && Targets(rrsets[i])[0] == names[i + 1]
              && names[i + 1] !in Before(names, i + 1)
    ensures |Before(names, i + 1)| == i + 1
    ensures names[i] !in Before(names, i) && Before(names, i + 1) == Before(names, i) + {names[i]}
  {
    BeforeSize(names, i);
    BeforeSize(names, i + 1);
    if i == |names| - 1 {
      AddressedTargets(rrsets[i], names[i]);
    } else {
      AliasTargets(rrsets[i], names[i], names[i + 1]);
    }
  }

  lemma {:induction false} HonestFollow(
    server: Server, names: seq<Name>, rrsets: seq<seq<Record>>, hop: nat, name: Name, i: nat, answer: seq<Record>, ttl: Ttl)
    requires AliasZone(names, rrsets) && Serves(server, names, rrsets)
    requires hop <= i < |names| && i <= 8
    requires Owned(answer, names[i]) == rrsets[i] && Whole(answer, names, rrsets)
    ensures Follow(server, hop, name, names[i], answer, Before(names, i + 1), ttl) == ZoneOutcome(names, rrsets, i, ttl)
    decreases |names| - i, 0
  {
    hide Follow, Ask, Owned, Addresses, Targets, LeastTtl, AllEqual, HasOwner, EqualFold, Aliases, Addressed, Serves, Whole;
    HonestLink(names, rrsets, i);
    if i == |names| - 1 {
      FollowEnd(server, hop, name, names[i], answer, Before(names, i + 1), ttl);
      assert ZoneTtl(rrsets, i, ttl) == LeastTtl(rrsets[i], ttl);
    } else {
      FollowAlias(server, hop, name, names[i], answer, Before(names, i + 1), ttl, names[i + 1]);
      if i < 8 {
        HonestLink(names, rrsets, i + 1);
        var least := LeastTtl(rrsets[i], ttl);
        if HasOwner(answer, names[i + 1]) {
          WholeAt(answer, names, rrsets, i + 1);
          HonestFollow(server, names, rrsets, hop, name, i + 1, answer, least);
        } else {
          HonestAsk(server, names, rrsets, hop + 1, i + 1, least);
        }
      }
    }
  }

  lemma {:induction false} HonestAsk(
    server: Server, names: seq<Name>, rrsets: seq<seq<Record>>, hop: nat, i: nat, ttl: Ttl)
    requires AliasZone(names, rrsets) && Serves(server, names, rrsets)
    requires hop <= i < |names| && i <= 8
    ensures Ask(server, hop, names[i], Before(names, i), ttl) == ZoneOutcome(names, rrsets, i, ttl)
    decreases |names| - i, 1
  {
    HonestLink(names, rrsets, i);
    assert AnswersWhole(server, hop, names, rrsets, i);
    var answer :| Succeeds(server, hop, names[i], answer) && Owned(answer, names[i]) == rrsets[i] && Whole(answer, names, rrsets);
    FetchMeans(server, hop, names[i]);
    hide Owned, Follow, Succeeds;
    HonestFollow(server, names, rrsets, hop, names[i], i, answer, ttl);
  }

  /**
   * However an honest server cuts a chain of k aliases into responses, the outcome is the same:
   * the addresses at its end with the least TTL on it when k <= 8, the limit error when k > 8.
   */
  lemma ChunkingDoesNotMatter(server: Server, names: seq<Name>, rrsets: seq<seq<Record>>)
    requires AliasZone(names, rrsets) && Serves(server, names, rrsets)
    ensures var aliases := |names| - 1;
            Resolve(server, names[0]) ==
            if aliases <= 8 then Answer(Addresses(rrsets[aliases]), ZoneTtl(rrsets, 0, MAX_TTL)) else Fails(CycleOrLimit)
  {
    HonestAsk(server, names, rrsets, 0, 0, MAX_TTL);
    assert Before(names, 0) == {};
  }
}
