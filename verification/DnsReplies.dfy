/**
 * What a reply says, record by record: the terms in which the outcomes of `resolve` are stated.
 * Nothing here follows the loops; the lemmas tie these terms to the functions that do.
 */
module DnsReplies {
  import opened Wrappers
  import Text
  import opened DnsMessage
  import opened DnsResolve
  import opened Sequences

  // ---------------------------------------------------------------------------
  // Names
  // ---------------------------------------------------------------------------

  ghost predicate SameName(a: Name, b: Name) {
    Text.SameText(a.text, b.text)
  }

  lemma FoldIsSameName(a: Name, b: Name)
    ensures EqualFold(a, b) <==> SameName(a, b)
  {
    Text.SameTextFolds(a.text, b.text);
  }

  // ---------------------------------------------------------------------------
  // Replies
  // ---------------------------------------------------------------------------

  /** The reply a hop goes by: the one over UDP, or the one over TCP when that was truncated. */
  ghost predicate Replied(h: Hop, r: Reply) {
    || (h.udp == Received(r) && !r.truncated)
    || (h.udp.Received? && h.udp.reply.truncated && h.tcp == Received(r))
  }

  ghost predicate NoReply(h: Hop) {
    h.udp.Failed? || (h.udp.reply.truncated && h.tcp.Failed?)
  }

  /** A complete response to this question and no other. */
  ghost predicate WellFormed(r: Reply, name: Name) {
    && r.response && r.queryOpcode && r.sameId && !r.truncated
    && exists q :: r.questions == [q] && SameName(q.name, name) && q.isA && q.inet
  }

  ghost predicate Succeeds(server: Server, hop: nat, name: Name, answer: seq<Record>) {
    exists r :: Replied(server(hop, name), r) && WellFormed(r, name) && r.rcode == Success && r.answer == answer
  }

  /** How a question alone can end the loops. */
  ghost predicate QuestionFails(server: Server, hop: nat, name: Name, f: Failure) {
    var h := server(hop, name);
    match f
    case QueryFailed => NoReply(h)
    case Malformed => exists r :: Replied(h, r) && !WellFormed(r, name)
    case NxDomain(n) => n == name && exists r :: Replied(h, r) && WellFormed(r, name) && r.rcode == NameError
    case ServerError(code) => exists r :: Replied(h, r) && WellFormed(r, name) && r.rcode == OtherRcode(code)
    case _ => false
  }

  lemma AcceptedIsWellFormed(r: Reply, name: Name)
    ensures Accepted(r, name) <==> WellFormed(r, name)
  {
    if |r.questions| == 1 {
      assert r.questions == [r.questions[0]];
      FoldIsSameName(r.questions[0].name, name);
    }
  }

  lemma FetchMeans(server: Server, hop: nat, name: Name)
    ensures forall answer :: Fetch(server, hop, name) == Ok(answer) <==> Succeeds(server, hop, name, answer)
    ensures forall f :: Fetch(server, hop, name) == Err(f) <==> QuestionFails(server, hop, name, f)
  {
    hide Accepted, WellFormed;
    var h := server(hop, name);
    if h.udp.Received? && (!h.udp.reply.truncated || h.tcp.Received?) {
      var r := if h.udp.reply.truncated then h.tcp.reply else h.udp.reply;
      assert Replied(h, r);
      assert forall x :: Replied(h, x) ==> x == r;
      AcceptedIsWellFormed(r, name);
    } else {
      assert forall x :: !Replied(h, x);
    }
  }

  // ---------------------------------------------------------------------------
  // Records of one owner
  // ---------------------------------------------------------------------------

  ghost predicate AddressRecord(rr: Record, owner: Name) {
    rr.inet && SameName(rr.name, owner) && rr.data.A? && rr.data.address.Some?
  }

  ghost predicate AliasRecord(rr: Record, owner: Name) {
    rr.inet && SameName(rr.name, owner) && rr.data.CName?
  }

  ghost predicate HasAddress(answer: seq<Record>, owner: Name) {
    exists k :: 0 <= k < |answer| && AddressRecord(answer[k], owner)
  }

  /** Some alias of the owner leads to t, whose spelling has no capitals. */
  ghost predicate PointsTo(answer: seq<Record>, owner: Name, t: Name) {
    Text.LowerCase(t.text) && exists k :: 0 <= k < |answer| && AliasRecord(answer[k], owner) && SameName(t, answer[k].data.target)
  }

  ghost predicate HasAlias(answer: seq<Record>, owner: Name) {
    exists k :: 0 <= k < |answer| && AliasRecord(answer[k], owner)
  }

  /** A record of whatever class or type. */
  ghost predicate Mentions(answer: seq<Record>, name: Name) {
    exists k :: 0 <= k < |answer| && SameName(answer[k].name, name)
  }

  lemma MentionsIsHasOwner(answer: seq<Record>, name: Name)
    ensures HasOwner(answer, name) <==> Mentions(answer, name)
  {
    hide EqualFold, SameName;
    forall k | 0 <= k < |answer|
      ensures EqualFold(answer[k].name, name) <==> SameName(answer[k].name, name)
    {
      FoldIsSameName(answer[k].name, name);
    }
  }

  lemma OwnedSnoc(front: seq<Record>, rr: Record, owner: Name)
    ensures Owned(front + [rr], owner) == if rr.inet && SameName(rr.name, owner) then Owned(front, owner) + [rr] else Owned(front, owner)
  {
    FoldIsSameName(rr.name, owner);
    assert (front + [rr])[..|front|] == front;
  }

  lemma AddressesSnoc(rs: seq<Record>, rr: Record)
    ensures Addresses(rs + [rr]) == if rr.data.A? && rr.data.address.Some? then Addresses(rs) + [rr.data.address.value] else Addresses(rs)
  {
    assert (rs + [rr])[..|rs|] == rs;
  }

  lemma TargetsSnoc(rs: seq<Record>, rr: Record)
    ensures Targets(rs + [rr]) == if rr.data.CName? then Targets(rs) + [Lower(rr.data.target)] else Targets(rs)
  {
    assert (rs + [rr])[..|rs|] == rs;
  }

  /** These positions of the answer hold the owner's address records, all of them, from the first to the last. */
  ghost predicate Positions(answer: seq<Record>, owner: Name, ks: seq<nat>) {
    Increasing(ks) && OnlyAddresses(answer, owner, ks) && AllAddresses(answer, owner, ks)
  }

  ghost predicate OnlyAddresses(answer: seq<Record>, owner: Name, ks: seq<nat>) {
    forall i :: 0 <= i < |ks| ==> ks[i] < |answer| && AddressRecord(answer[ks[i]], owner)
  }

  ghost predicate AllAddresses(answer: seq<Record>, owner: Name, ks: seq<nat>) {
    forall k: nat :: k < |answer| && AddressRecord(answer[k], owner) ==> k in ks
  }

  lemma OnlySnoc(front: seq<Record>, rr: Record, owner: Name, ks: seq<nat>)
    requires OnlyAddresses(front, owner, ks)
    ensures OnlyAddresses(front + [rr], owner, ks)
    ensures AddressRecord(rr, owner) ==> OnlyAddresses(front + [rr], owner, ks + [|front|])
  {
    hide AddressRecord;
    var answer := front + [rr];
    assert answer[|front|] == rr;
  }

  lemma AllSnoc(front: seq<Record>, rr: Record, owner: Name, ks: seq<nat>)
    requires AllAddresses(front, owner, ks)
    ensures AllAddresses(front + [rr], owner, if AddressRecord(rr, owner) then ks + [|front|] else ks)
  {
    hide AddressRecord;
    var answer := front + [rr];
    forall k: nat | k < |answer| && AddressRecord(answer[k], owner)
      ensures k in if AddressRecord(rr, owner) then ks + [|front|] else ks
    {
      if k < |front| {
        assert answer[k] == front[k] && k in ks;
      }
    }
  }

  lemma PositionsSnoc(front: seq<Record>, rr: Record, owner: Name, ks: seq<nat>)
    requires Positions(front, owner, ks)
    ensures Positions(front + [rr], owner, if AddressRecord(rr, owner) then ks + [|front|] else ks)
  {
    assert Below(ks, |front|);
    IncreasingSnoc(ks, |front|);
    OnlySnoc(front, rr, owner, ks);
    AllSnoc(front, rr, owner, ks);
    hide AddressRecord, Increasing, OnlyAddresses, AllAddresses;
  }

  /** These are the addresses in those records. */
  ghost predicate Listed(answer: seq<Record>, ks: seq<nat>, ips: seq<Address>) {
    |ks| == |ips| && forall i :: 0 <= i < |ks| ==> ks[i] < |answer| && answer[ks[i]].data == A(Some(ips[i]))
  }

  lemma ListedSnoc(front: seq<Record>, rr: Record, ks: seq<nat>, ips: seq<Address>)
    requires Listed(front, ks, ips)
    ensures Listed(front + [rr], ks, ips)
    ensures rr.data.A? && rr.data.address.Some? ==> Listed(front + [rr], ks + [|front|], ips + [rr.data.address.value])
  {
    var answer := front + [rr];
    assert answer[|front|] == rr;
  }

  lemma NoPositions(owner: Name)
    ensures Positions([], owner, []) && Listed([], [], [])
  {
  }

  /** The addresses collected are those of the owner's address records, in the order of the answer. */
  lemma {:induction false} AddressesInOrder(answer: seq<Record>, owner: Name) returns (ks: seq<nat>)
    ensures Positions(answer, owner, ks)
    ensures Listed(answer, ks, Addresses(Owned(answer, owner)))
    decreases |answer|
  {
    hide Owned, Addresses, SameName, Positions, Listed;
    if answer == [] {
      NothingOwned(owner);
      NoPositions(owner);
      ks := [];
    } else {
      var front, rr := answer[..|answer| - 1], answer[|answer| - 1];
      assert answer == front + [rr];
      ks := AddressesInOrder(front, owner);
      PositionsSnoc(front, rr, owner, ks);
      OwnedSnoc(front, rr, owner);
      AddressesSnoc(Owned(front, owner), rr);
      ListedSnoc(front, rr, ks, Addresses(Owned(front, owner)));
      if AddressRecord(rr, owner) {
        ks := ks + [|front|];
      }
    }
  }

  ghost predicate SameMembers(a: seq<nat>, b: seq<nat>) {
    forall k :: k in a <==> k in b
  }

  /** The addresses of the owner's address records, in the order of the answer. */
  ghost predicate Gives(answer: seq<Record>, owner: Name, ips: seq<Address>) {
    exists ks :: Positions(answer, owner, ks) && Listed(answer, ks, ips)
  }

  lemma BothAreAll(answer: seq<Record>, owner: Name, ks: seq<nat>, other: seq<nat>)
    requires Positions(answer, owner, ks) && Positions(answer, owner, other)
    ensures SameMembers(ks, other)
  {
    hide AddressRecord, Increasing;
  }

  lemma AddressesAreGiven(answer: seq<Record>, owner: Name, ips: seq<Address>)
    ensures Gives(answer, owner, ips) <==> ips == Addresses(Owned(answer, owner))
  {
    hide Owned, Addresses, AddressRecord, Increasing;
    var ks := AddressesInOrder(answer, owner);
    if Gives(answer, owner, ips) {
      var other :| Positions(answer, owner, other) && Listed(answer, other, ips);
      BothAreAll(answer, owner, ks, other);
      SameElements(ks, other);
      assert forall i :: 0 <= i < |ips| ==> Some(ips[i]) == Some(Addresses(Owned(answer, owner))[i]);
    }
  }

  lemma NothingOwned(owner: Name)
    ensures Owned([], owner) == [] && Addresses([]) == [] && Targets([]) == []
    ensures forall bound :: LeastTtl([], bound) == bound
  {
  }

  lemma AddressesAre(answer: seq<Record>, owner: Name)
    ensures Addresses(Owned(answer, owner)) != [] <==> HasAddress(answer, owner)
  {
    hide Owned, Addresses, AddressRecord, Increasing;
    var ks := AddressesInOrder(answer, owner);
    if ks != [] {
      assert AddressRecord(answer[ks[0]], owner);
    }
  }

  lemma {:induction false} TargetsAre(answer: seq<Record>, owner: Name)
    ensures forall t :: t in Targets(Owned(answer, owner)) <==> PointsTo(answer, owner, t)
    ensures Targets(Owned(answer, owner)) != [] <==> HasAlias(answer, owner)
    decreases |answer|
  {
    hide Owned, Targets, SameName, Text.LowerCase, AliasRecord, Lower;
    if answer == [] {
      NothingOwned(owner);
    } else {
      var front, rr := answer[..|answer| - 1], answer[|answer| - 1];
      assert answer == front + [rr];
      TargetsAre(front, owner);
      OwnedSnoc(front, rr, owner);
      TargetsSnoc(Owned(front, owner), rr);
      AliasRecordIs(rr, owner);
      forall t
        ensures PointsTo(answer, owner, t) <==> PointsTo(front, owner, t) || (AliasRecord(rr, owner) && t == Lower(rr.data.target))
      {
        PointsToSnoc(front, rr, owner, t);
      }
      assert HasAlias(answer, owner) <==> HasAlias(front, owner) || AliasRecord(rr, owner) by {
        HasAliasSnoc(front, rr, owner);
      }
    }
  }

  lemma AliasRecordIs(rr: Record, owner: Name)
    ensures AliasRecord(rr, owner) <==> rr.inet && SameName(rr.name, owner) && rr.data.CName?
  {
  }

  lemma HasAliasSnoc(front: seq<Record>, rr: Record, owner: Name)
    ensures HasAlias(front + [rr], owner) <==> HasAlias(front, owner) || AliasRecord(rr, owner)
  {
    hide AliasRecord;
    var answer := front + [rr];
    if HasAlias(front, owner) {
      var k :| 0 <= k < |front| && AliasRecord(front[k], owner);
      assert answer[k] == front[k];
    }
    if AliasRecord(rr, owner) {
      assert answer[|front|] == rr;
    }
  }

  lemma PointsToSnoc(front: seq<Record>, rr: Record, owner: Name, t: Name)
    ensures PointsTo(front + [rr], owner, t) <==>
              PointsTo(front, owner, t) || (AliasRecord(rr, owner) && t == Lower(rr.data.target))
  {
    var answer := front + [rr];
    if rr.data.CName? {
      NameIsCanonical(rr.data.target, t);
    }
    hide SameName, Lower;
    assert answer[|front|] == rr;
    if PointsTo(front, owner, t) {
      var k :| 0 <= k < |front| && AliasRecord(front[k], owner) && SameName(t, front[k].data.target);
      assert answer[k] == front[k];
    }
    if PointsTo(answer, owner, t) {
      var k :| 0 <= k < |answer| && AliasRecord(answer[k], owner) && SameName(t, answer[k].data.target);
      assert k < |front| ==> answer[k] == front[k];
    }
  }

  lemma NameIsCanonical(n: Name, t: Name)
    ensures t == Lower(n) <==> Text.LowerCase(t.text) && SameName(t, n)
  {
    Text.LowerIsCanonical(n.text, t.text);
  }

  // ---------------------------------------------------------------------------
  // Times to live
  // ---------------------------------------------------------------------------

  /** Records whose TTL bounds an answer: usable addresses and every alias. */
  ghost predicate Bounding(rr: Record, owner: Name) {
    AddressRecord(rr, owner) || AliasRecord(rr, owner)
  }

  lemma LeastSnoc(rs: seq<Record>, rr: Record, bound: Ttl)
    ensures var least := LeastTtl(rs, bound);
            LeastTtl(rs + [rr], bound) == if Counts(rr) && rr.ttl < least then rr.ttl else least
  {
    assert (rs + [rr])[..|rs|] == rs;
  }

  lemma {:induction false} LeastTtlIsLeast(answer: seq<Record>, owner: Name, bound: Ttl)
    ensures var least := LeastTtl(Owned(answer, owner), bound);
            && least <= bound
            && (forall k :: 0 <= k < |answer| && Bounding(answer[k], owner) ==> least <= answer[k].ttl)
            && (least == bound || exists k :: 0 <= k < |answer| && Bounding(answer[k], owner) && answer[k].ttl == least)
    decreases |answer|
  {
    hide Owned, LeastTtl, SameName;
    if answer == [] {
      NothingOwned(owner);
    } else {
      var front, rr := answer[..|answer| - 1], answer[|answer| - 1];
      assert answer == front + [rr];
      LeastTtlIsLeast(front, owner, bound);
      OwnedSnoc(front, rr, owner);
      LeastSnoc(Owned(front, owner), rr, bound);
      assert Bounding(rr, owner) <==> rr.inet && SameName(rr.name, owner) && Counts(rr);
      hide Bounding;
      var before := LeastTtl(Owned(front, owner), bound);
      if before != bound {
        var k :| 0 <= k < |front| && Bounding(front[k], owner) && front[k].ttl == before;
        assert answer[k] == front[k];
      }
      assert answer[|front|] == rr;
    }
  }
}
