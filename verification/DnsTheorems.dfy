/** What holds in every run of the resolver, whatever the interleaving and whatever the servers say. */
module DnsTheorems {
  import opened DnsMessage
  import opened DnsResolve
  import DnsReplies
  import opened DnsResolveProofs
  import opened DnsSelect
  import opened Wrappers
  import opened DnsFlight
  import opened DnsCache
  import opened DnsRuns

  ghost predicate Reaches(s: Sys, steps: seq<Step>, t: Sys)
    decreases |steps|
  {
    if steps == [] then s == t
    else Enabled(s, steps[0]) && Reaches(Apply(s, steps[0]), steps[1..], t)
  }

  lemma StartInv(c: Config, now: int)
    ensures Inv(Start(c, now))
  {
  }

  lemma StepInv(s: Sys, e: Step)
    requires Inv(s) && Enabled(s, e)
    ensures Inv(Apply(s, e)) && Grows(s, Apply(s, e))
  {
    hide *;
    assert ConfigInv(s) && BookInv(s) && MadeInv(s) && LogOk(s) && SizesOk(s) && EntriesOk(s) && FlightsOk(s) && LookupsOk(s) by {
      InvParts(s);
    }
    ConfigStep(s, e);
    BookStep(s, e);
    MadeStep(s, e);
    LogStep(s, e);
    SizesStep(s, e);
    EntriesStep(s, e);
    FlightsStep(s, e);
    LookupsStep(s, e);
    StepGrows(s, e);
    InvWhole(Apply(s, e));
  }

  lemma InvParts(s: Sys)
    requires Inv(s)
    ensures ConfigInv(s) && BookInv(s) && MadeInv(s) && LogOk(s) && SizesOk(s) && EntriesOk(s) && FlightsOk(s) && LookupsOk(s)
  {
  }

  lemma InvWhole(s: Sys)
    requires ConfigInv(s) && BookInv(s) && MadeInv(s) && LogOk(s) && SizesOk(s) && EntriesOk(s) && FlightsOk(s) && LookupsOk(s)
    ensures Inv(s)
  {
  }

  lemma {:induction false} RunInv(s: Sys, steps: seq<Step>, t: Sys)
    requires Inv(s) && Reaches(s, steps, t)
    ensures Inv(t) && Extends(s.book, t.book)
    decreases |steps|
  {
    hide Inv, Enabled, Apply;
    if steps != [] {
      StepInv(s, steps[0]);
      RunInv(Apply(s, steps[0]), steps[1..], t);
    }
  }

  // ---------------------------------------------------------------------------
  // Generations and configurations
  // ---------------------------------------------------------------------------

  /** Two moments of one run with the same generation number have the same discovery, mode, error and applied configuration. */
  lemma GenerationNamesOneDiscovery(c: Config, now: int, before: seq<Step>, s: Sys, between: seq<Step>, t: Sys)
    requires Reaches(Start(c, now), before, s) && Reaches(s, between, t)
    requires s.shared.state.generation == t.shared.state.generation
    ensures FactsOf(s.shared) == FactsOf(t.shared)
  {
    hide Start, Reaches;
    StartInv(c, now);
    RunInv(Start(c, now), before, s);
    RunInv(s, between, t);
    assert BookInv(s) && BookInv(t);
  }

  /**
   * What a generation stands for is what its discovery found: the configured servers in manual
   * mode, otherwise exactly the discovered groups, or none after an error.
   */
  lemma GenerationIsWhatWasFound(c: Config, now: int, steps: seq<Step>, s: Sys, g: nat)
    requires Reaches(Start(c, now), steps, s)
    requires g in s.book && g > 0
    ensures g in s.makers && Made(s.book[g], s.makers[g])
    ensures s.shared.state.generation > 0 ==>
              s.shared.state.generation in s.makers && Made(FactsOf(s.shared), s.makers[s.shared.state.generation])
  {
    hide Start, Reaches, Made;
    StartInv(c, now);
    RunInv(Start(c, now), steps, s);
  }

  /**
   * Once the Configure call that published last has returned, its configuration is the applied
   * one, and in manual mode its servers are the ones in use: no older discovery can have won.
   */
  lemma LastConfigureWins(c: Config, now: int, steps: seq<Step>, s: Sys)
    requires Reaches(Start(c, now), steps, s)
    requires s.latest !in s.pending
    ensures s.shared.applied == s.shared.cfg && s.shared.state.mode == s.shared.cfg.mode
    ensures s.shared.cfg.mode == Manual ==>
              s.shared.state.discovery == ManualDiscovery(s.shared.cfg.servers) && s.shared.state.lastError == ""
  {
    hide Start, Reaches;
    StartInv(c, now);
    RunInv(Start(c, now), steps, s);
    assert Honest(s.book[s.shared.state.generation]);
  }

  // ---------------------------------------------------------------------------
  // Answers
  // ---------------------------------------------------------------------------

  /** Servers that would say again what they said in these events, asked at the same times. */
  ghost predicate Replays(log: seq<Event>, tried: seq<nat>, wire: (nat, Target) -> Server, clock: nat -> int) {
    forall j: nat :: j < |tried| ==>
      tried[j] < |log| && wire(j, log[tried[j]].target) == log[tried[j]].wire && clock(j) == log[tried[j]].started
  }

  /**
   * These addresses are the verdict of the loops over the servers of these groups: the events are
   * calls of resolve on the first servers in order, and the loops end with the last one's answer.
   */
  ghost predicate AnsweredBy(s: Sys, groups: seq<Group>, host: Name, addresses: seq<Address>, tried: seq<nat>) {
    && 0 < |tried| <= |Servers(groups)|
    && (forall j :: 0 <= j < |tried| ==> tried[j] < |s.log| && s.log[tried[j]].host == host && s.log[tried[j]].target == Servers(groups)[j])
    && forall wire, clock :: Replays(s.log, tried, wire, clock) ==>
         var v := Fly(Servers(groups), 0, None, host, wire, clock);
         v.Answered? && v.k == |tried| - 1 && v.addresses == addresses
  }

  lemma GaveIsVerdict(s: Sys, tried: seq<nat>, key: Key, groups: seq<Group>, addresses: seq<Address>, ttl: Ttl, started: int)
    requires Gave(s.log, tried, key, groups, addresses, ttl, started)
    ensures AnsweredBy(s, groups, key.host, addresses, tried)
    ensures tried[|tried| - 1] < |s.log|
    ensures var e := s.log[tried[|tried| - 1]]; Resolve(e.wire, key.host) == Answer(addresses, ttl) && e.started == started
  {
    hide Resolve, Servers, Fly;
    assert forall j :: 0 <= j < |tried| ==> TriedAt(s.log, tried[j], key, Servers(groups)[j]);
    forall wire, clock | Replays(s.log, tried, wire, clock)
      ensures Fly(Servers(groups), 0, None, key.host, wire, clock) == Answered(|tried| - 1, addresses, ttl, started)
    {
      forall j: nat | j < |tried| - 1
        ensures Transient(Resolve(wire(j, Servers(groups)[j]), key.host))
      {
        assert wire(j, Servers(groups)[j]) == s.log[tried[j]].wire;
      }
      AnsweredInTurn(Servers(groups), 0, |tried| - 1, None, key.host, wire, clock, addresses, ttl);
    }
  }

  /**
   * However a lookup was served - from the cache, by its own flight or by one it joined - its
   * addresses are what the loops over the servers of the groups that Select gives for the
   * generation it saw end with: every server before the one that answered had failed transiently.
   */
  lemma EveryAnswerIsFromOwnGroups(c: Config, now: int, steps: seq<Step>, s: Sys, id: nat) returns (tried: seq<nat>)
    requires Reaches(Start(c, now), steps, s)
    requires id in s.lookups && s.lookups[id].Served?
    ensures var l := s.lookups[id];
            && l.key.generation in s.book
            && l.groups == Selected(s.book[l.key.generation].discovery.groups, Normal(l.key.host.text))
            && AnsweredBy(s, l.groups, l.key.host, l.addresses, tried)
  {
    hide Start, Reaches, Resolve, Servers, Gave, AnsweredBy;
    StartInv(c, now);
    RunInv(Start(c, now), steps, s);
    var l := s.lookups[id];
    assert LookupOk(s, l);
    tried :| GaveSome(s.log, tried, l.key, l.groups, l.addresses);
    var ttl: Ttl, started: int :| Gave(s.log, tried, l.key, l.groups, l.addresses, ttl, started);
    GaveIsVerdict(s, tried, l.key, l.groups, l.addresses, ttl, started);
  }

  /** A lookup waiting on someone else's flight waits for the groups it selected itself. */
  lemma CoalescedFlightHasOwnGroups(c: Config, now: int, steps: seq<Step>, s: Sys, id: nat)
    requires Reaches(Start(c, now), steps, s)
    requires id in s.lookups && s.lookups[id].Joined?
    ensures var l := s.lookups[id];
            && l.flight in s.flights
            && s.flights[l.flight].key == l.key
            && s.flights[l.flight].groups == l.groups
            && l.key.generation in s.book
            && l.groups == Selected(s.book[l.key.generation].discovery.groups, Normal(l.key.host.text))
  {
    hide Start, Reaches, Resolve, Servers;
    StartInv(c, now);
    RunInv(Start(c, now), steps, s);
    assert LookupOk(s, s.lookups[id]);
  }

  /**
   * Every cached entry belongs to the current generation and is what the loops over the servers
   * that an uncached lookup would ask now ended with, with a positive TTL counted from before the
   * first query of the server that answered.
   */
  lemma CacheAgreesWithUncachedLookup(c: Config, now: int, steps: seq<Step>, s: Sys, key: Key) returns (tried: seq<nat>, i: nat)
    requires Reaches(Start(c, now), steps, s)
    requires key in s.shared.cache
    ensures key.generation == s.shared.state.generation
    ensures AnsweredBy(s, Selected(s.shared.state.discovery.groups, Normal(key.host.text)), key.host, s.shared.cache[key].addresses, tried)
    ensures tried != [] && i == tried[|tried| - 1] < |s.log| && Prompt(s.log[i])
    ensures var r := Resolve(s.log[i].wire, key.host);
            r.Answer? && r.addresses == s.shared.cache[key].addresses
            && r.ttl > 0 && s.shared.cache[key].expires == s.log[i].started + r.ttl * SECOND
  {
    hide Start, Reaches, Resolve, Servers, Gave, AnsweredBy;
    StartInv(c, now);
    RunInv(Start(c, now), steps, s);
    var e := s.shared.cache[key];
    assert EntryOk(s, key, e);
    tried :| Backs(s, tried, key, e);
    var groups := Eligible(s.shared.state.discovery.groups, key.host);
    var ttl: Ttl, started: int :| Gave(s.log, tried, key, groups, e.addresses, ttl, started) && ttl > 0 && e.expires == started + ttl * SECOND;
    GaveIsVerdict(s, tried, key, groups, e.addresses, ttl, started);
    GaveSomething(s.log, tried, key, groups, e.addresses, ttl, started);
    i := tried[|tried| - 1];
  }

  lemma GaveSomething(log: seq<Event>, tried: seq<nat>, key: Key, groups: seq<Group>, addresses: seq<Address>, ttl: Ttl, started: int)
    requires Gave(log, tried, key, groups, addresses, ttl, started)
    ensures tried != []
  {
  }

  /**
   * A cache hit is inside the TTL of every record on the alias chain that produced it, each
   * counted from the arrival of the response it came in.
   */
  lemma CacheHitIsInsideEveryTtl(c: Config, now: int, steps: seq<Step>, s: Sys, host: Name) returns (wire: Server, links: seq<Link>)
    requires Reaches(Start(c, now), steps, s)
    requires LookAt(s.shared, host, s.now).0.Hit?
    ensures exists ttl :: Justifies(wire, host, links, LookAt(s.shared, host, s.now).0.addresses, ttl)
    ensures forall i: nat, k: nat :: OnChain(links, i, k) ==>
              s.now < wire(links[i].hop, links[i].asked).arrived + links[i].answer[k].ttl * SECOND
  {
    hide Start, Reaches, Resolve, Servers, AnsweredBy, ChainFrom, Terminal, DnsReplies.Gives, DnsReplies.Bounding, Prompt;
    var key := Key(s.shared.state.generation, host);
    var entry := s.shared.cache[key];
    var _, e := CacheAgreesWithUncachedLookup(c, now, steps, s, key);
    wire := s.log[e].wire;
    var ttl := Resolve(wire, host).ttl;
    AnswerIffChain(wire, host, entry.addresses, ttl);
    links :| Justifies(wire, host, links, entry.addresses, ttl);
    hide LeastOnChain;
    AllInside(s.log[e], links, ttl, s.now);
  }

  lemma AllInside(e: Event, links: seq<Link>, ttl: Ttl, now: int)
    requires Prompt(e) && LeastOnChain(links, ttl) && now < e.started + ttl * SECOND
    ensures forall i: nat, k: nat :: OnChain(links, i, k) ==>
              now < e.wire(links[i].hop, links[i].asked).arrived + links[i].answer[k].ttl * SECOND
  {
    hide DnsReplies.Bounding;
    forall i: nat, k: nat | OnChain(links, i, k)
      ensures now < e.wire(links[i].hop, links[i].asked).arrived + links[i].answer[k].ttl * SECOND
    {
      assert ttl <= links[i].answer[k].ttl;
    }
  }

  // ---------------------------------------------------------------------------
  // Size
  // ---------------------------------------------------------------------------

  /** The largest cache size among the first configuration and all published ones. */
  ghost function LargestConfigured(size: int, steps: seq<Step>): int
    decreases |steps|
  {
    if steps == [] then size
    else LargestConfigured(if steps[0].Publish? then Larger(size, steps[0].c.cacheSize) else size, steps[1..])
  }

  lemma {:induction false} LargestTracked(s: Sys, steps: seq<Step>, t: Sys)
    requires Reaches(s, steps, t)
    ensures t.largest == LargestConfigured(s.largest, steps)
    decreases |steps|
  {
    hide Eligible, Resolve, LookAt, StoreAnswer, PublishDiscovery, Servers, Enabled, AfterReceive, EntryOf, Hand, NextServer, FreshEnough;
    if steps != [] {
      LargestTracked(Apply(s, steps[0]), steps[1..], t);
    }
  }

  /** The cache never holds more entries than the largest size configured so far. */
  lemma CacheIsBounded(c: Config, now: int, steps: seq<Step>, s: Sys)
    requires Reaches(Start(c, now), steps, s)
    ensures |s.shared.cache| <= LargestConfigured(Larger(0, c.cacheSize), steps)
  {
    hide Reaches;
    StartInv(c, now);
    RunInv(Start(c, now), steps, s);
    LargestTracked(Start(c, now), steps, s);
  }
}
