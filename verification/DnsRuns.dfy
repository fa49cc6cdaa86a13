/**
 * The resolver under every interleaving of Configure, Refresh, lookups, coalesced flights and
 * the clock.  A step is one region under a mutex or one event outside it; the regions are the
 * functions that the methods of DnsCache.Resolver are proved to compute.
 */
module DnsRuns {
  import opened Wrappers
  import opened DnsMessage
  import opened DnsResolve
  import opened DnsSelect
  import opened DnsFlight
  import opened DnsCache

  /** Who holds refreshMu between lines 80 and 101, and the configuration captured at line 82. */
  datatype Turn = Free | Discovering(caller: Option<nat>, captured: Config)

  datatype Phase =
    | Ready(todo: seq<Target>)
    | Waiting(target: Target, rest: seq<Target>, started: int)
    | Won(addresses: seq<Address>, ttl: Ttl, started: int)
    | Settled(addresses: seq<Address>)
    | Lost

  /** One call of the function given to DoChan, with everything it captured; `tried` are its events so far. */
  datatype Flight = Flight(key: Key, groups: seq<Group>, cacheSize: int, phase: Phase, tried: seq<nat>)

  datatype Lookup =
    | Snapped(key: Key, groups: seq<Group>, cacheSize: int)
    | Joined(key: Key, groups: seq<Group>, flight: nat)
    | Served(key: Key, groups: seq<Group>, addresses: seq<Address>)
    | Over

  /** A completed call of resolve. */
  datatype Event = Event(target: Target, host: Name, wire: Server, started: int)

  /** What a generation stands for. */
  datatype Facts = Facts(mode: Mode, discovery: Discovery, error: string, applied: Config)

  /** The discovery that made a generation: the configuration captured for it, and what was found. */
  datatype Maker = Maker(c: Config, found: Discovery, error: Option<string>)

  /** `book`, `makers`, `log`, `largest` and the events of a flight only record history. */
  datatype Sys = Sys(
    shared: Shared,
    now: int,
    turn: Turn,
    pending: set<nat>,
    latest: nat,
    flights: map<nat, Flight>,
    open: map<Key, nat>,
    lookups: map<nat, Lookup>,
    book: map<nat, Facts>,
    makers: map<nat, Maker>,
    log: seq<Event>,
    largest: int)

  datatype Step =
    | Publish(call: nat, c: Config)
    | BeginRefresh(caller: Option<nat>)
    | EndRefresh(found: Discovery, error: Option<string>)
    | Tick(later: int)
    | Snapshot(lookup: nat, host: Name)
    | Enter(lookup: nat, flight: nat)
    | Send(flight: nat)
    | Receive(flight: nat, wire: Server)
    | Store(flight: nat, victim: Option<Key>)
    | Deliver(flight: nat)
    | Abandon(lookup: nat)

  ghost function FactsOf(s: Shared): Facts {
    Facts(s.state.mode, s.state.discovery, s.state.lastError, s.applied)
  }

  ghost function Larger(a: int, b: int): int {
    if a >= b then a else b
  }

  /** New with configuration c, whose own refresh is the first pending call. */
  ghost function Start(c: Config, now: int): Sys {
    var shared := Shared(c, ZERO_CONFIG, ZERO_STATE, map[]);
    Sys(shared, now, Free, {0}, 0, map[], map[], map[], map[0 := FactsOf(shared)], map[], [], Larger(0, c.cacheSize))
  }

  ghost function Eligible(groups: seq<Group>, host: Name): seq<Group> {
    Selected(groups, Normal(host.text))
  }

  /** Every answer arrives after its question was sent; the first question is sent at `started`. */
  ghost predicate Timely(wire: Server, started: int, now: int) {
    forall hop: nat, name :: started <= wire(hop, name).arrived <= now
  }

  ghost function Done(pending: set<nat>, caller: Option<nat>): set<nat> {
    if caller.Some? then pending - {caller.value} else pending
  }

  ghost predicate Enabled(s: Sys, e: Step) {
    match e
    case Publish(call, c) => call > s.latest
    case BeginRefresh(caller) => s.turn.Free? && (caller.Some? ==> caller.value in s.pending)
    case EndRefresh(found, error) => s.turn.Discovering?
    case Tick(later) => s.now <= later
    case Snapshot(lookup, host) => lookup !in s.lookups
    case Enter(lookup, flight) => lookup in s.lookups && s.lookups[lookup].Snapped? && flight !in s.flights
    case Send(flight) => flight in s.flights && s.flights[flight].phase.Ready? && s.flights[flight].phase.todo != []
    case Receive(flight, wire) =>
      flight in s.flights && s.flights[flight].phase.Waiting? && Timely(wire, s.flights[flight].phase.started, s.now)
    case Store(flight, victim) =>
      && flight in s.flights && s.flights[flight].phase.Won?
      && (var f := s.flights[flight];
          Storable(s.shared, f.key, EntryOf(f.phase), f.phase.ttl, f.cacheSize, s.now) ==>
            MayEvict(s.shared.cache, f.cacheSize, victim))
    case Deliver(flight) => flight in s.flights && (s.flights[flight].phase.Settled? || s.flights[flight].phase.Lost?)
    case Abandon(lookup) => lookup in s.lookups
  }

  /** Line 188: expiry counts from before the first query of the server that answered. */
  ghost function EntryOf(p: Phase): Entry
    requires p.Won?
  {
    Entry(p.addresses, p.started + p.ttl * SECOND)
  }

  ghost function NextServer(todo: seq<Target>): Phase {
    if todo == [] then Lost else Ready(todo)
  }

  ghost function AfterReceive(f: Flight, outcome: Outcome): Phase
    requires f.phase.Waiting?
  {
    match AfterAttempt(outcome)
    case Take(addresses, ttl) => Won(addresses, ttl, f.phase.started)
    case GiveUp(_) => Lost
    case TryNext(_) => NextServer(f.phase.rest)
  }

  ghost function Hand(l: Lookup, flight: nat, phase: Phase): Lookup {
    if l.Joined? && l.flight == flight then
      if phase.Settled? then Served(l.key, l.groups, phase.addresses) else Over
    else l
  }

  ghost function Apply(s: Sys, e: Step): Sys
    requires Enabled(s, e)
  {
    match e
    case Publish(call, c) =>
      s.(shared := PublishConfig(s.shared, c), pending := s.pending + {call}, latest := call,
         largest := Larger(s.largest, c.cacheSize))
    case BeginRefresh(caller) =>
      if FreshEnough(s.shared, s.now) then s.(pending := Done(s.pending, caller))
      else s.(turn := Discovering(caller, s.shared.cfg))
    case EndRefresh(found, error) =>
      var (d, e) := Discovered(s.turn.captured, found, error);
      var shared := PublishDiscovery(s.shared, s.turn.captured, d, e, s.now);
      s.(shared := shared, turn := Free, pending := Done(s.pending, s.turn.caller),
         book := s.book[shared.state.generation := FactsOf(shared)],
         makers := if shared.state.generation == s.shared.state.generation then s.makers
                   else s.makers[shared.state.generation := Maker(s.turn.captured, found, error)])
    case Tick(later) => s.(now := later)
    case Snapshot(lookup, host) =>
      var (look, shared) := LookAt(s.shared, host, s.now);
      var key := Key(s.shared.state.generation, host);
      var groups := Eligible(s.shared.state.discovery.groups, host);
      var l := match look
        case Unavailable(_) => Over
        case Hit(addresses) => Served(key, groups, addresses)
        case Miss(_, _, size) => if groups == [] then Over else Snapped(key, groups, size);
      s.(shared := shared, lookups := s.lookups[lookup := l])
    case Enter(lookup, flight) =>
      var l := s.lookups[lookup];
      if l.key in s.open then
        s.(lookups := s.lookups[lookup := Joined(l.key, l.groups, s.open[l.key])])
      else
        s.(flights := s.flights[flight := Flight(l.key, l.groups, l.cacheSize, NextServer(Servers(l.groups)), [])],
           open := s.open[l.key := flight],
           lookups := s.lookups[lookup := Joined(l.key, l.groups, flight)])
    case Send(flight) =>
      var f := s.flights[flight];
      s.(flights := s.flights[flight := f.(phase := Waiting(f.phase.todo[0], f.phase.todo[1..], s.now))])
    case Receive(flight, wire) =>
      var f := s.flights[flight];
      var event := Event(f.phase.target, f.key.host, wire, f.phase.started);
      s.(flights := s.flights[flight := f.(phase := AfterReceive(f, Resolve(wire, f.key.host)), tried := f.tried + [|s.log|])],
         log := s.log + [event])
    case Store(flight, victim) =>
      var f := s.flights[flight];
      s.(shared := StoreAnswer(s.shared, f.key, EntryOf(f.phase), f.phase.ttl, f.cacheSize, s.now, victim),
         flights := s.flights[flight := f.(phase := Settled(f.phase.addresses))])
    case Deliver(flight) =>
      var f := s.flights[flight];
      s.(open := if f.key in s.open && s.open[f.key] == flight then s.open - {f.key} else s.open,
         flights := s.flights[flight := f.(phase := Lost)],
         lookups := map id | id in s.lookups :: Hand(s.lookups[id], flight, f.phase))
    case Abandon(lookup) => s.(lookups := s.lookups[lookup := Over])
  }

  lemma LookKeepsConfig(s: Shared, host: Name, now: int)
    ensures var t := LookAt(s, host, now).1;
            t.cfg == s.cfg && t.applied == s.applied && t.state == s.state &&
            (t.cache == s.cache || t.cache == s.cache - {Key(s.state.generation, host)})
  {
  }

  lemma StoreKeepsConfig(s: Shared, key: Key, e: Entry, ttl: Ttl, size: int, now: int, victim: Option<Key>)
    ensures var t := StoreAnswer(s, key, e, ttl, size, now, victim);
            t.cfg == s.cfg && t.applied == s.applied && t.state == s.state
  {
  }

  /** Steps that only look and store leave the configuration and the state alone. */
  lemma StepKeepsConfig(s: Sys, e: Step)
    requires Enabled(s, e) && !e.Publish? && !e.EndRefresh?
    ensures var t := Apply(s, e).shared; t.cfg == s.shared.cfg && t.applied == s.shared.applied && t.state == s.shared.state
  {
    hide LookAt, StoreAnswer, Eligible, Resolve, Servers, PublishDiscovery;
    match e
    case Snapshot(lookup, host) => LookKeepsConfig(s.shared, host, s.now);
    case Store(flight, victim) =>
      var f := s.flights[flight];
      StoreKeepsConfig(s.shared, f.key, EntryOf(f.phase), f.phase.ttl, f.cacheSize, s.now, victim);
    case _ =>
  }

  // ---------------------------------------------------------------------------
  // The configuration that was published last is the one that gets applied
  // ---------------------------------------------------------------------------

  ghost predicate ConfigInv(s: Sys) {
    && (s.latest in s.pending || s.shared.applied == s.shared.cfg)
    && (forall call :: call in s.pending ==> call <= s.latest)
    && (s.turn.Discovering? && s.turn.caller.Some? ==>
          && s.turn.caller.value in s.pending
          && (s.turn.caller.value == s.latest ==> s.turn.captured == s.shared.cfg))
  }

  lemma ConfigStep(s: Sys, e: Step)
    requires ConfigInv(s) && Enabled(s, e)
    ensures ConfigInv(Apply(s, e))
  {
    hide LookAt, StoreAnswer, Eligible, Resolve, Servers, Storable, MayEvict, Timely, FreshEnough;
    if !e.Publish? && !e.EndRefresh? {
      StepKeepsConfig(s, e);
    }
    if e.BeginRefresh? {
      RecentIsApplied(s.shared, s.now);
    }
  }

  lemma RecentIsApplied(s: Shared, now: int)
    ensures FreshEnough(s, now) ==> s.cfg == s.applied
  {
  }

  // ---------------------------------------------------------------------------
  // A generation stands for one discovery
  // ---------------------------------------------------------------------------

  /** In manual mode the groups are the configured servers, and a discovery error leaves no groups. */
  ghost predicate Honest(f: Facts) {
    && f.mode == f.applied.mode
    && (f.mode == Manual ==> f.discovery == ManualDiscovery(f.applied.servers) && f.error == "")
    && (f.error != "" ==> f.discovery.groups == [])
  }

  ghost predicate BookInv(s: Sys) {
    && (forall g :: g in s.book ==> g <= s.shared.state.generation && Honest(s.book[g]))
    && s.shared.state.generation in s.book
    && s.book[s.shared.state.generation] == FactsOf(s.shared)
  }

  /** In manual mode the configured servers, otherwise what was found, without its groups if that failed. */
  ghost predicate Made(f: Facts, m: Maker) {
    && f.applied == m.c && f.mode == m.c.mode
    && if m.c.mode == Manual then f.error == "" && f.discovery.groups == [Group(m.c.servers, [], 0, 0, true)]
       else if m.error.None? then f.error == "" && f.discovery == m.found
       else f.error == m.error.value && f.discovery == m.found.(groups := [])
  }

  ghost predicate MadeInv(s: Sys) {
    forall g :: g in s.book && g > 0 ==> g in s.makers && Made(s.book[g], s.makers[g])
  }

  lemma MadeStep(s: Sys, e: Step)
    requires BookInv(s) && MadeInv(s) && Enabled(s, e)
    ensures MadeInv(Apply(s, e))
  {
    if e.EndRefresh? {
      MadeEndRefresh(s, e);
    } else {
      BookStays(s, e);
      hide Apply, Enabled, Made;
    }
  }

  lemma MadeEndRefresh(s: Sys, e: Step)
    requires BookInv(s) && MadeInv(s) && Enabled(s, e) && e.EndRefresh?
    ensures MadeInv(Apply(s, e))
  {
    hide Honest;
    var t := Apply(s, e);
    forall g | g in t.book && g > 0
      ensures g in t.makers && Made(t.book[g], t.makers[g])
    {
      assert g in s.book || g == t.shared.state.generation;
    }
  }

  ghost predicate Extends(older: map<nat, Facts>, newer: map<nat, Facts>) {
    forall g :: g in older ==> g in newer && newer[g] == older[g]
  }

  lemma BookStep(s: Sys, e: Step)
    requires BookInv(s) && Enabled(s, e)
    ensures BookInv(Apply(s, e)) && Extends(s.book, Apply(s, e).book)
    ensures s.shared.state.generation <= Apply(s, e).shared.state.generation
  {
    if e.EndRefresh? {
      BookEndRefresh(s, e);
    } else {
      BookStays(s, e);
      hide Apply, Enabled, Honest;
    }
  }

  /** Only the end of a refresh writes in the books. */
  lemma BookStays(s: Sys, e: Step)
    requires Enabled(s, e) && !e.EndRefresh?
    ensures Apply(s, e).book == s.book && Apply(s, e).makers == s.makers
    ensures FactsOf(Apply(s, e).shared) == FactsOf(s.shared)
    ensures Apply(s, e).shared.state == s.shared.state
  {
    hide LookAt, StoreAnswer, Eligible, Resolve, Servers, Storable, MayEvict, Timely, FreshEnough, PublishDiscovery;
    hide AfterReceive, EntryOf, Hand, NextServer;
    if !e.Publish? {
      StepKeepsConfig(s, e);
    }
  }

  lemma BookEndRefresh(s: Sys, e: Step)
    requires BookInv(s) && Enabled(s, e) && e.EndRefresh?
    ensures BookInv(Apply(s, e)) && Extends(s.book, Apply(s, e).book)
    ensures s.shared.state.generation <= Apply(s, e).shared.state.generation
  {
  }

  // ---------------------------------------------------------------------------
  // Flights and lookups of one key use the same groups
  // ---------------------------------------------------------------------------

  ghost predicate GroupsOf(s: Sys, key: Key, groups: seq<Group>) {
    key.generation in s.book && groups == Eligible(s.book[key.generation].discovery.groups, key.host)
  }

  /** The events are calls of resolve for this host, on the first servers of these groups in their order. */
  ghost predicate InTurn(log: seq<Event>, tried: seq<nat>, key: Key, groups: seq<Group>) {
    && |tried| <= |Servers(groups)|
    && forall j :: 0 <= j < |tried| ==> TriedAt(log, tried[j], key, Servers(groups)[j])
  }

  ghost predicate TriedAt(log: seq<Event>, i: nat, key: Key, target: Target) {
    i < |log| && log[i].host == key.host && log[i].target == target
  }

  /** The first n of them failed in a way that leaves the next server to be tried. */
  ghost predicate LeftOpen(log: seq<Event>, tried: seq<nat>, key: Key, n: nat)
    requires n <= |tried|
  {
    forall j :: 0 <= j < n ==> tried[j] < |log| && Transient(Resolve(log[tried[j]].wire, key.host))
  }

  /** The last of them gave these addresses, and the ones before it left it open. */
  ghost predicate Gave(log: seq<Event>, tried: seq<nat>, key: Key, groups: seq<Group>, addresses: seq<Address>, ttl: Ttl, started: int) {
    && tried != [] && InTurn(log, tried, key, groups) && LeftOpen(log, tried, key, |tried| - 1)
    && LastSays(log, tried[|tried| - 1], key, addresses, ttl, started)
  }

  ghost predicate LastSays(log: seq<Event>, i: nat, key: Key, addresses: seq<Address>, ttl: Ttl, started: int) {
    i < |log| && Resolve(log[i].wire, key.host) == Answer(addresses, ttl) && log[i].started == started
  }

  ghost predicate GaveSome(log: seq<Event>, tried: seq<nat>, key: Key, groups: seq<Group>, addresses: seq<Address>) {
    exists ttl: Ttl, started: int :: Gave(log, tried, key, groups, addresses, ttl, started)
  }

  /** While servers remain: those tried left it open, and these are the others. */
  ghost predicate Pending(log: seq<Event>, f: Flight, todo: seq<Target>) {
    && InTurn(log, f.tried, f.key, f.groups) && LeftOpen(log, f.tried, f.key, |f.tried|)
    && todo == Servers(f.groups)[|f.tried|..]
  }

  ghost predicate PhaseOk(log: seq<Event>, f: Flight) {
    match f.phase
    case Ready(todo) => Pending(log, f, todo)
    case Waiting(target, rest, _) => Pending(log, f, [target] + rest)
    case Won(addresses, ttl, started) => Gave(log, f.tried, f.key, f.groups, addresses, ttl, started)
    case Settled(addresses) => GaveSome(log, f.tried, f.key, f.groups, addresses)
    case Lost => true
  }

  ghost predicate FlightOk(s: Sys, f: Flight) {
    GroupsOf(s, f.key, f.groups) && f.cacheSize <= s.largest && PhaseOk(s.log, f)
  }

  ghost predicate LookupOk(s: Sys, l: Lookup) {
    match l
    case Snapped(key, groups, size) => GroupsOf(s, key, groups) && size <= s.largest
    case Joined(key, groups, flight) =>
      GroupsOf(s, key, groups) && flight in s.flights && s.flights[flight].key == key && s.flights[flight].groups == groups
    case Served(key, groups, addresses) => GroupsOf(s, key, groups) && exists tried :: GaveSome(s.log, tried, key, groups, addresses)
    case Over => true
  }

  ghost predicate EntryOk(s: Sys, key: Key, e: Entry) {
    && key.generation == s.shared.state.generation
    && exists tried :: Backs(s, tried, key, e)
  }

  /** The entry is what the last event returned, with a positive TTL counted from before its first query. */
  ghost predicate Backs(s: Sys, tried: seq<nat>, key: Key, e: Entry) {
    exists ttl: Ttl, started: int ::
      && Gave(s.log, tried, key, Eligible(s.shared.state.discovery.groups, key.host), e.addresses, ttl, started)
      && ttl > 0 && e.expires == started + ttl * SECOND
  }

  ghost predicate LogOk(s: Sys) {
    forall i :: 0 <= i < |s.log| ==> Prompt(s.log[i])
  }

  ghost predicate Prompt(e: Event) {
    forall hop: nat, name :: e.started <= e.wire(hop, name).arrived
  }

  ghost predicate EntriesOk(s: Sys) {
    forall key :: key in s.shared.cache ==> EntryOk(s, key, s.shared.cache[key])
  }

  ghost predicate FlightsOk(s: Sys) {
    && (forall id :: id in s.flights ==> FlightOk(s, s.flights[id]))
    && (forall key :: key in s.open ==> s.open[key] in s.flights && s.flights[s.open[key]].key == key)
  }

  ghost predicate LookupsOk(s: Sys) {
    forall id :: id in s.lookups ==> LookupOk(s, s.lookups[id])
  }

  ghost predicate SizesOk(s: Sys) {
    0 <= s.largest && s.shared.cfg.cacheSize <= s.largest && |s.shared.cache| <= s.largest
  }

  ghost predicate Inv(s: Sys) {
    ConfigInv(s) && BookInv(s) && MadeInv(s) && LogOk(s) && SizesOk(s) && EntriesOk(s) && FlightsOk(s) && LookupsOk(s)
  }

  // ---------------------------------------------------------------------------
  // History only grows, and what it justified stays justified
  // ---------------------------------------------------------------------------

  ghost predicate Grows(s: Sys, t: Sys) {
    && Extends(s.book, t.book)
    && s.log <= t.log
    && s.largest <= t.largest
    && (forall id :: id in s.flights ==>
          id in t.flights && t.flights[id].key == s.flights[id].key && t.flights[id].groups == s.flights[id].groups)
  }

  lemma StepGrows(s: Sys, e: Step)
    requires BookInv(s) && Enabled(s, e)
    ensures Grows(s, Apply(s, e))
  {
    hide Eligible, Resolve, Servers, PublishDiscovery, BookInv;
    BookStep(s, e);
  }

  lemma GaveCarries(log: seq<Event>, more: seq<Event>, tried: seq<nat>, key: Key, groups: seq<Group>,
                    addresses: seq<Address>, ttl: Ttl, started: int)
    requires log <= more && Gave(log, tried, key, groups, addresses, ttl, started)
    ensures Gave(more, tried, key, groups, addresses, ttl, started)
  {
    hide Resolve, Servers;
  }

  lemma PhaseCarries(log: seq<Event>, more: seq<Event>, f: Flight)
    requires log <= more && PhaseOk(log, f)
    ensures PhaseOk(more, f)
  {
    hide Resolve, Servers, Gave;
    match f.phase
    case Won(addresses, ttl, started) => GaveCarries(log, more, f.tried, f.key, f.groups, addresses, ttl, started);
    case Settled(addresses) =>
      var ttl: Ttl, started: int :| Gave(log, f.tried, f.key, f.groups, addresses, ttl, started);
      GaveCarries(log, more, f.tried, f.key, f.groups, addresses, ttl, started);
    case _ =>
  }

  lemma FlightCarries(s: Sys, t: Sys, f: Flight)
    requires Grows(s, t) && FlightOk(s, f)
    ensures FlightOk(t, f)
  {
    hide Eligible, PhaseOk;
    PhaseCarries(s.log, t.log, f);
  }

  lemma SomeCarries(log: seq<Event>, more: seq<Event>, tried: seq<nat>, key: Key, groups: seq<Group>, addresses: seq<Address>)
    requires log <= more && GaveSome(log, tried, key, groups, addresses)
    ensures GaveSome(more, tried, key, groups, addresses)
  {
    hide Gave;
    var ttl: Ttl, started: int :| Gave(log, tried, key, groups, addresses, ttl, started);
    GaveCarries(log, more, tried, key, groups, addresses, ttl, started);
  }

  lemma LookupCarries(s: Sys, t: Sys, l: Lookup)
    requires Grows(s, t) && LookupOk(s, l)
    ensures LookupOk(t, l)
  {
    hide Eligible, GaveSome;
    if l.Served? {
      var tried :| GaveSome(s.log, tried, l.key, l.groups, l.addresses);
      SomeCarries(s.log, t.log, tried, l.key, l.groups, l.addresses);
    }
  }

  lemma EntryCarries(s: Sys, t: Sys, key: Key, e: Entry)
    requires Grows(s, t) && EntryOk(s, key, e)
    requires t.shared.state.generation == s.shared.state.generation
    requires t.shared.state.discovery == s.shared.state.discovery
    ensures EntryOk(t, key, e)
  {
    hide Eligible, Gave;
    var tried :| Backs(s, tried, key, e);
    var groups := Eligible(s.shared.state.discovery.groups, key.host);
    var ttl: Ttl, started: int :| Gave(s.log, tried, key, groups, e.addresses, ttl, started) && ttl > 0 && e.expires == started + ttl * SECOND;
    GaveCarries(s.log, t.log, tried, key, groups, e.addresses, ttl, started);
    assert Backs(t, tried, key, e);
  }

  // ---------------------------------------------------------------------------
  // Every step keeps each part
  // ---------------------------------------------------------------------------

  lemma LogStep(s: Sys, e: Step)
    requires LogOk(s) && Enabled(s, e)
    ensures LogOk(Apply(s, e))
  {
    hide Eligible, Resolve, Servers;
    var t := Apply(s, e);
    if e.Receive? {
      assert Prompt(t.log[|s.log|]);
    }
  }

  lemma SizesStep(s: Sys, e: Step)
    requires SizesOk(s) && FlightsOk(s) && Enabled(s, e)
    ensures SizesOk(Apply(s, e))
  {
    hide Eligible, Resolve, Servers, LookAt, FlightOk, AfterReceive, Hand, NextServer, Timely;
    match e
    case Store(flight, victim) =>
      assert FlightOk(s, s.flights[flight]);
      StoreFits(s, flight, victim);
    case Snapshot(lookup, host) =>
      RemoveSize(s.shared.cache, Key(s.shared.state.generation, host));
      LookKeepsConfig(s.shared, host, s.now);
    case _ =>
      hide StoreAnswer, Storable, MayEvict, EntryOf;
  }

  lemma StoreFits(s: Sys, flight: nat, victim: Option<Key>)
    requires SizesOk(s) && Enabled(s, Store(flight, victim)) && FlightOk(s, s.flights[flight])
    ensures SizesOk(Apply(s, Store(flight, victim)))
  {
    hide PhaseOk, GroupsOf;
    var f := s.flights[flight];
    if Storable(s.shared, f.key, EntryOf(f.phase), f.phase.ttl, f.cacheSize, s.now) {
      InsertSize(s.shared.cache, victim, f.key, EntryOf(f.phase), f.cacheSize);
    }
  }

  lemma RemoveSize(cache: map<Key, Entry>, key: Key)
    ensures |cache - {key}| == if key in cache then |cache| - 1 else |cache|
  {
    var less := cache - {key};
    assert less.Keys == cache.Keys - {key};
    assert |less| == |less.Keys| && |cache| == |cache.Keys|;
  }

  lemma InsertSize(cache: map<Key, Entry>, victim: Option<Key>, key: Key, e: Entry, size: int)
    requires MayEvict(cache, size, victim) && size > 0
    ensures var room := if victim.Some? then cache - {victim.value} else cache;
            |room[key := e]| <= Larger(|cache|, size)
  {
    var room := if victim.Some? then cache - {victim.value} else cache;
    if victim.Some? {
      RemoveSize(cache, victim.value);
    }
    assert room[key := e].Keys == room.Keys + {key};
    assert |room[key := e]| == |room[key := e].Keys|;
    if key in room {
      assert room.Keys + {key} == room.Keys;
    }
  }

  lemma EntriesStep(s: Sys, e: Step)
    requires BookInv(s) && EntriesOk(s) && FlightsOk(s) && Enabled(s, e)
    ensures EntriesOk(Apply(s, e))
  {
    hide Eligible, Resolve, Servers, LookAt, BookInv, FlightOk, EntryOk, AfterReceive, EntryOf, Hand, NextServer, Grows, StoreAnswer, FreshEnough;
    var t := Apply(s, e);
    StepGrows(s, e);
    match e
    case Store(flight, victim) =>
      StoreKeepsEntries(s, flight, victim);
    case Snapshot(lookup, host) =>
      LookKeepsConfig(s.shared, host, s.now);
      CarryEntries(s, t);
    case EndRefresh(found, error) =>
      if t.shared.cache != map[] {
        CarryEntries(s, t);
      }
    case Publish(call, c) =>
    case _ =>
      CarryEntries(s, t);
  }

  lemma CarryEntries(s: Sys, t: Sys)
    requires Grows(s, t) && EntriesOk(s)
    requires t.shared.state.generation == s.shared.state.generation
    requires t.shared.state.discovery == s.shared.state.discovery
    requires forall key :: key in t.shared.cache ==> key in s.shared.cache && t.shared.cache[key] == s.shared.cache[key]
    ensures EntriesOk(t)
  {
    hide EntryOk, Grows;
    forall key | key in t.shared.cache
      ensures EntryOk(t, key, t.shared.cache[key])
    {
      EntryCarries(s, t, key, s.shared.cache[key]);
    }
  }

  lemma StoreKeepsEntries(s: Sys, flight: nat, victim: Option<Key>)
    requires BookInv(s) && EntriesOk(s) && FlightsOk(s) && Enabled(s, Store(flight, victim))
    ensures EntriesOk(Apply(s, Store(flight, victim)))
  {
    hide Eligible, Resolve, Servers, Grows, EntryOk;
    var t := Apply(s, Store(flight, victim));
    StepGrows(s, Store(flight, victim));
    var f := s.flights[flight];
    assert FlightOk(s, f);
    forall key | key in t.shared.cache
      ensures EntryOk(t, key, t.shared.cache[key])
    {
      if key == f.key && Storable(s.shared, f.key, EntryOf(f.phase), f.phase.ttl, f.cacheSize, s.now) {
        StoredEntry(s, t, f);
      } else {
        EntryCarries(s, t, key, s.shared.cache[key]);
      }
    }
  }

  lemma StoredEntry(s: Sys, t: Sys, f: Flight)
    requires BookInv(s) && FlightOk(s, f) && f.phase.Won? && f.phase.ttl > 0
    requires f.key.generation == s.shared.state.generation
    requires t.log == s.log && t.shared.state == s.shared.state
    ensures EntryOk(t, f.key, EntryOf(f.phase))
  {
    hide Eligible, Gave;
    assert Backs(t, f.tried, f.key, EntryOf(f.phase));
  }

  lemma FlightsStep(s: Sys, e: Step)
    requires BookInv(s) && FlightsOk(s) && LookupsOk(s) && Enabled(s, e)
    ensures FlightsOk(Apply(s, e))
  {
    hide FlightOk, LookupOk, BookInv, Apply, Enabled, Grows;
    var t := Apply(s, e);
    StepGrows(s, e);
    OpenStep(s, e);
    forall id | id in t.flights
      ensures FlightOk(t, t.flights[id])
    {
      FlightMoves(s, e, id);
      if id !in s.flights {
        NewFlight(s, t, s.lookups[e.lookup], t.flights[id]);
      } else {
        FlightCarries(s, t, s.flights[id]);
        if t.flights[id] != s.flights[id] {
          MovedFlight(s, e, id);
        }
      }
    }
  }

  /** Which flight a step starts or moves. */
  lemma FlightMoves(s: Sys, e: Step, id: nat)
    requires Enabled(s, e) && id in Apply(s, e).flights
    ensures id !in s.flights ==>
              && e.Enter? && e.lookup in s.lookups && s.lookups[e.lookup].Snapped?
              && var l := s.lookups[e.lookup];
                 Apply(s, e).flights[id] == Flight(l.key, l.groups, l.cacheSize, NextServer(Servers(l.groups)), [])
    ensures id in s.flights && Apply(s, e).flights[id] != s.flights[id] ==>
              e == Send(id) || (e.Receive? && e.flight == id) || (e.Store? && e.flight == id) || e == Deliver(id)
  {
    hide Eligible, Resolve, Servers, LookAt, PublishDiscovery, StoreAnswer, Storable, MayEvict, Timely, FreshEnough;
    hide AfterReceive, EntryOf, Hand, NextServer;
    match e
    case Enter(_, _) =>
    case _ =>
  }

  lemma OpenStep(s: Sys, e: Step)
    requires FlightsOk(s) && Enabled(s, e)
    ensures var t := Apply(s, e);
            forall key :: key in t.open ==> t.open[key] in t.flights && t.flights[t.open[key]].key == key
  {
    hide Eligible, Resolve, Servers, LookAt, PublishDiscovery, StoreAnswer, Storable, MayEvict, Timely, FreshEnough;
    hide AfterReceive, EntryOf, Hand, NextServer, FlightOk;
    match e
    case Enter(_, _) =>
    case Deliver(_) =>
    case _ =>
  }

  lemma NewFlight(s: Sys, t: Sys, l: Lookup, f: Flight)
    requires Grows(s, t) && LookupOk(s, l) && l.Snapped?
    requires f == Flight(l.key, l.groups, l.cacheSize, NextServer(Servers(l.groups)), [])
    ensures FlightOk(t, f)
  {
    hide Eligible, Servers;
    assert Servers(l.groups)[0..] == Servers(l.groups);
  }

  lemma MovedFlight(s: Sys, e: Step, id: nat)
    requires Enabled(s, e) && id in s.flights && FlightOk(s, s.flights[id]) && FlightOk(Apply(s, e), s.flights[id])
    requires e == Send(id) || (e.Receive? && e.flight == id) || (e.Store? && e.flight == id) || e == Deliver(id)
    ensures FlightOk(Apply(s, e), Apply(s, e).flights[id])
  {
    hide Eligible, Servers, PhaseOk, StoreAnswer, MayEvict, Storable, Timely, EntryOf, AfterReceive, Hand, Resolve;
    var t, f := Apply(s, e), s.flights[id];
    match e
    case Send(_) => SentPhase(s.log, f, s.now);
    case Receive(_, wire) => ReceivedPhase(s.log, f, Event(f.phase.target, f.key.host, wire, f.phase.started));
    case Store(_, _) => StoredPhase(t.log, f);
    case Deliver(_) => assert PhaseOk(t.log, f.(phase := Lost)) by { LostPhase(t.log, f); }
  }

  lemma LostPhase(log: seq<Event>, f: Flight)
    ensures PhaseOk(log, f.(phase := Lost))
  {
  }

  lemma SentPhase(log: seq<Event>, f: Flight, now: int)
    requires f.phase.Ready? && f.phase.todo != [] && PhaseOk(log, f)
    ensures PhaseOk(log, f.(phase := Waiting(f.phase.todo[0], f.phase.todo[1..], now)))
  {
    hide Resolve, Servers, InTurn, LeftOpen;
    assert f.phase.todo == [f.phase.todo[0]] + f.phase.todo[1..];
  }

  lemma StoredPhase(log: seq<Event>, f: Flight)
    requires f.phase.Won? && PhaseOk(log, f)
    ensures PhaseOk(log, f.(phase := Settled(f.phase.addresses)))
  {
    hide Gave;
  }

  /** The answer of the server whose turn it is. */
  lemma ReceivedPhase(log: seq<Event>, f: Flight, event: Event)
    requires f.phase.Waiting? && PhaseOk(log, f)
    requires event.target == f.phase.target && event.host == f.key.host && event.started == f.phase.started
    ensures PhaseOk(log + [event], f.(phase := AfterReceive(f, Resolve(event.wire, f.key.host)), tried := f.tried + [|log|]))
  {
    hide Resolve, Servers;
    var outcome := Resolve(event.wire, f.key.host);
    var more, tried, n := log + [event], f.tried + [|log|], |f.tried|;
    var all := Servers(f.groups);
    assert all[n..] == [f.phase.target] + f.phase.rest;
    assert all[n] == all[n..][0] && all[n + 1..] == all[n..][1..] == f.phase.rest;
    assert InTurn(more, tried, f.key, f.groups);
    assert LeftOpen(more, tried, f.key, n);
    if AfterAttempt(outcome).TryNext? {
      assert LeftOpen(more, tried, f.key, n + 1);
    }
  }

  lemma LookupsStep(s: Sys, e: Step)
    requires BookInv(s) && SizesOk(s) && EntriesOk(s) && FlightsOk(s) && LookupsOk(s) && Enabled(s, e)
    ensures LookupsOk(Apply(s, e))
  {
    hide Eligible, Resolve, Servers, LookAt, BookInv, FlightOk, LookupOk, EntryOk, PublishDiscovery, StoreAnswer;
    var t := Apply(s, e);
    StepGrows(s, e);
    forall id | id in t.lookups
      ensures LookupOk(t, t.lookups[id])
    {
      if id in s.lookups {
        LookupCarries(s, t, s.lookups[id]);
        if t.lookups[id] != s.lookups[id] {
          MovedLookup(s, e, id);
        }
      } else {
        NewLookup(s, e.lookup, e.host);
      }
    }
  }

  lemma NewLookup(s: Sys, lookup: nat, host: Name)
    requires BookInv(s) && EntriesOk(s) && Enabled(s, Snapshot(lookup, host))
    requires s.shared.cfg.cacheSize <= s.largest
    ensures var t := Apply(s, Snapshot(lookup, host)); LookupOk(t, t.lookups[lookup])
  {
    hide Eligible, Resolve, Servers;
    var key := Key(s.shared.state.generation, host);
    if key in s.shared.cache {
      var tried :| Backs(s, tried, key, s.shared.cache[key]);
      assert GaveSome(s.log, tried, key, Eligible(s.shared.state.discovery.groups, host), s.shared.cache[key].addresses);
    }
  }

  lemma MovedLookup(s: Sys, e: Step, id: nat)
    requires Enabled(s, e) && FlightsOk(s) && id in s.lookups && LookupOk(s, s.lookups[id])
    requires LookupOk(Apply(s, e), s.lookups[id])
    requires (e.Enter? && e.lookup == id) || e.Deliver? || e == Abandon(id)
    ensures LookupOk(Apply(s, e), Apply(s, e).lookups[id])
  {
    hide Eligible, Resolve, Servers, LookAt, PublishDiscovery, StoreAnswer, MayEvict, Storable, Timely;
    var t := Apply(s, e);
    match e
    case Enter(_, flight) =>
      var l := s.lookups[id];
      if l.key in s.open {
        assert FlightOk(s, s.flights[s.open[l.key]]);
      }
    case Deliver(flight) =>
      var l := s.lookups[id];
      if l.Joined? && l.flight == flight && s.flights[flight].phase.Settled? {
        assert FlightOk(s, s.flights[flight]);
        assert GaveSome(t.log, s.flights[flight].tried, l.key, l.groups, s.flights[flight].phase.addresses);
      }
    case _ =>
  }
}
