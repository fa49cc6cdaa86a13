/**
 * internal/dns/resolver.go, `Resolver`: what each region under the mutex does to the shared
 * fields.  The functions are the specification; the class holds the fields and its methods
 * are the regions.  Times are nanoseconds.
 */
module DnsCache {
  import opened Wrappers
  import opened DnsMessage
  import opened DnsSelect

  const SECOND: int := 1_000_000_000
  const MILLISECOND: int := 1_000_000

  datatype Mode = Unset | Auto | Manual

  datatype Config = Config(mode: Mode, servers: seq<string>, refreshInterval: int, timeout: int, cacheSize: int)

  datatype Discovery = Discovery(source: string, routing: string, groups: seq<Group>)

  datatype State = State(mode: Mode, discovery: Discovery, generation: nat, lastRefresh: int, lastError: string)

  /** The cache key "generation:host"; KeyTextIsInjective below justifies the pair. */
  datatype Key = Key(generation: nat, host: Name)

  datatype Entry = Entry(addresses: seq<Address>, expires: int)

  datatype Shared = Shared(cfg: Config, applied: Config, state: State, cache: map<Key, Entry>)

  const ZERO_CONFIG := Config(Unset, [], 0, 0, 0)
  const ZERO_STATE := State(Unset, Discovery("", "", []), 0, 0, "")

  // ---------------------------------------------------------------------------
  // Regions
  // ---------------------------------------------------------------------------

  /** Configure, lines 55-58. */
  function PublishConfig(s: Shared, c: Config): Shared {
    s.(cfg := c, cache := map[])
  }

  /** Refresh, line 83. */
  predicate FreshEnough(s: Shared, now: int) {
    s.cfg == s.applied && now - s.state.lastRefresh < 100 * MILLISECOND
  }

  function ManualDiscovery(servers: seq<string>): Discovery {
    Discovery("configuration", "manual", [Group(servers, [], 0, 0, true)])
  }

  /** What discovery yields for a configuration: line 95 in manual mode, whatever the platform said otherwise. */
  function Discovered(c: Config, found: Discovery, error: Option<string>): (Discovery, Option<string>) {
    if c.mode == Manual then (ManualDiscovery(c.servers), None) else (found, error)
  }

  /** Refresh, lines 101-117. */
  function PublishDiscovery(s: Shared, c: Config, d: Discovery, e: Option<string>, now: int): Shared {
    if c != s.cfg then s
    else
      var text := if e.Some? then e.value else "";
      var kept := if e.Some? then d.(groups := []) else d;
      var changed := c != s.applied || kept != s.state.discovery || text != s.state.lastError || c.mode != s.state.mode;
      var generation := if changed then s.state.generation + 1 else s.state.generation;
      Shared(s.cfg, c, State(c.mode, kept, generation, now, text), if changed then map[] else s.cache)
  }

  datatype Look = Unavailable(error: string) | Hit(addresses: seq<Address>) | Miss(key: Key, groups: seq<Group>, cacheSize: int)

  /** lookup, lines 137-151: the snapshot, and the fields afterwards. */
  function LookAt(s: Shared, host: Name, now: int): (Look, Shared) {
    var key := Key(s.state.generation, host);
    if s.state.lastError != "" then (Unavailable(s.state.lastError), s)
    else if key in s.cache && now < s.cache[key].expires then (Hit(s.cache[key].addresses), s)
    else (Miss(key, s.state.discovery.groups, s.cfg.cacheSize), s.(cache := s.cache - {key}))
  }

  /** Which key the range loop at lines 191-194 removes is up to the map iteration. */
  predicate MayEvict(cache: map<Key, Entry>, size: int, victim: Option<Key>) {
    if |cache| >= size then victim.Some? && victim.value in cache else victim.None?
  }

  predicate Storable(s: Shared, key: Key, e: Entry, ttl: Ttl, cacheSize: int, now: int) {
    s.state.generation == key.generation && ttl > 0 && now < e.expires && cacheSize > 0
  }

  /** lookup, lines 185-198. */
  function StoreAnswer(s: Shared, key: Key, e: Entry, ttl: Ttl, cacheSize: int, now: int, victim: Option<Key>): Shared {
    if Storable(s, key, e, ttl, cacheSize, now) then
      var room := if victim.Some? then s.cache - {victim.value} else s.cache;
      s.(cache := room[key := e])
    else s
  }

  ghost predicate AtMostLost(before: map<Key, Entry>, now: map<Key, Entry>, victim: Key) {
    forall k :: k in before && k != victim ==> k in now
  }

  // ---------------------------------------------------------------------------
  // The object
  // ---------------------------------------------------------------------------

  class Resolver {
    var cfg: Config
    var applied: Config
    var state: State
    var cache: map<Key, Entry>

    ghost function Fields(): Shared
      reads this
    {
      Shared(cfg, applied, state, cache)
    }

    /** New, before its first refresh. */
    constructor (c: Config)
      ensures Fields() == Shared(c, ZERO_CONFIG, ZERO_STATE, map[])
    {
      cfg, applied, state, cache := c, ZERO_CONFIG, ZERO_STATE, map[];
    }

    method Configure(c: Config)
      modifies this
      ensures Fields() == PublishConfig(old(Fields()), c)
      ensures cfg == c && cache == map[] && applied == old(applied) && state == old(state)
    {
      cfg := c;
      cache := map[];
    }

    /** None when the refresh is recent enough and returns at once. */
    method BeginRefresh(now: int) returns (captured: Option<Config>)
      ensures captured == if FreshEnough(Fields(), now) then None else Some(cfg)
      ensures captured.None? <==> cfg == applied && now - state.lastRefresh < 100_000_000
      ensures captured.Some? ==> captured.value == cfg
    {
      if cfg == applied && now - state.lastRefresh < 100 * MILLISECOND {
        return None;
      }
      return Some(cfg);
    }

    method EndRefresh(c: Config, d: Discovery, e: Option<string>, now: int)
      modifies this
      ensures Fields() == PublishDiscovery(old(Fields()), c, d, e, now)
      // A discovery for a configuration that was replaced meanwhile is dropped.
      ensures cfg == old(cfg)
      ensures c != cfg ==> applied == old(applied) && state == old(state) && cache == old(cache)
      // Otherwise it is published as it was found, without its groups if it failed.
      ensures c == cfg ==> applied == c && state.mode == c.mode && state.lastRefresh == now
      ensures c == cfg && e.None? ==> state.discovery == d && state.lastError == ""
      ensures c == cfg && e.Some? ==>
                && state.lastError == e.value && state.discovery.groups == []
                && state.discovery.source == d.source && state.discovery.routing == d.routing
      // Generation and cache stay exactly when nothing that they stand for changed.
      ensures c == cfg ==>
                if applied == old(applied) && state.discovery == old(state.discovery)
                   && state.lastError == old(state.lastError) && state.mode == old(state.mode)
                then state.generation == old(state.generation) && cache == old(cache)
                else state.generation == old(state.generation) + 1 && cache == map[]
    {
      if c != cfg {
        return;
      }
      var errorText := "";
      var kept := d;
      if e.Some? {
        errorText := e.value;
        kept := kept.(groups := []);
      }
      if c != applied || kept != state.discovery || errorText != state.lastError || c.mode != state.mode {
        state := state.(generation := state.generation + 1);
        cache := map[];
      }
      applied := c;
      state := state.(mode := c.mode, discovery := kept, lastError := errorText, lastRefresh := now);
    }

    /** Configure with nobody else running: publish, then refresh, lines 54-60 and 78-118. */
    method ConfigureAlone(c: Config, found: Discovery, error: Option<string>, began: int, ended: int)
      modifies this
      ensures cfg == applied == c
      ensures old(state.generation) <= state.generation <= old(state.generation) + 1
      ensures c.mode == Manual && (c != old(applied) || began - old(state.lastRefresh) >= 100 * MILLISECOND) ==>
                state.mode == Manual && state.lastError == "" && state.discovery.groups == [Group(c.servers, [], 0, 0, true)]
      ensures c.mode != Manual && (c != old(applied) || began - old(state.lastRefresh) >= 100 * MILLISECOND) ==>
                if error.None? then state.discovery == found && state.lastError == ""
                else state.lastError == error.value && state.discovery.groups == []
    {
      Configure(c);
      var captured := BeginRefresh(began);
      if captured.Some? {
        var (d, e) := Discovered(captured.value, found, error);
        EndRefresh(captured.value, d, e, ended);
      }
    }

    method Lookup(host: Name, now: int) returns (r: Look)
      modifies this
      ensures (r, Fields()) == LookAt(old(Fields()), host, now)
      ensures cfg == old(cfg) && applied == old(applied) && state == old(state)
      // After a failed discovery nothing is served, cached or not.
      ensures r.Unavailable? <==> state.lastError != ""
      ensures r.Unavailable? ==> r.error == state.lastError && cache == old(cache)
      // A live entry of the current generation is served, and nothing else is.
      ensures var key := Key(state.generation, host);
              && (r.Hit? <==> state.lastError == "" && key in old(cache) && now < old(cache)[key].expires)
              && (r.Hit? ==> r.addresses == old(cache)[key].addresses && cache == old(cache))
              && (r.Miss? ==> r == Miss(key, state.discovery.groups, cfg.cacheSize) && cache == old(cache) - {key})
    {
      var key := Key(state.generation, host);
      if state.lastError != "" {
        return Unavailable(state.lastError);
      }
      if key in cache {
        if now < cache[key].expires {
          return Hit(cache[key].addresses);
        }
        cache := cache - {key};
      }
      assert key !in old(cache) ==> cache == old(cache) - {key};
      return Miss(key, state.discovery.groups, cfg.cacheSize);
    }

    method Store(key: Key, e: Entry, ttl: Ttl, cacheSize: int, now: int)
      modifies this
      ensures exists victim ::
                && (Storable(old(Fields()), key, e, ttl, cacheSize, now) ==> MayEvict(old(cache), cacheSize, victim))
                && Fields() == StoreAnswer(old(Fields()), key, e, ttl, cacheSize, now, victim)
      ensures cfg == old(cfg) && applied == old(applied) && state == old(state)
      // An answer of the current generation that is still live is kept; at most one other goes, and only from a full cache.
      ensures if state.generation == key.generation && ttl > 0 && now < e.expires && cacheSize > 0 then
                && key in cache && cache[key] == e
                && (forall k :: k in cache && k != key ==> k in old(cache) && cache[k] == old(cache)[k])
                && (exists victim :: AtMostLost(old(cache), cache, victim))
                && (|old(cache)| < cacheSize ==> forall k :: k in old(cache) ==> k in cache)
              else cache == old(cache)
    {
      ghost var victim: Option<Key> := None;
      if state.generation == key.generation && ttl > 0 && now < e.expires && cacheSize > 0 {
        if |cache| >= cacheSize {
          assert cache.Keys != {};
          var k :| k in cache;
          victim := Some(k);
          cache := cache - {k};
        }
        cache := cache[key := e];
      }
      ghost var gone := if victim.Some? then victim.value else key;
      assert AtMostLost(old(cache), cache, gone);
      assert Fields() == StoreAnswer(old(Fields()), key, e, ttl, cacheSize, now, victim);
      assert Storable(old(Fields()), key, e, ttl, cacheSize, now) ==> MayEvict(old(cache), cacheSize, victim);
    }
  }

  /** What was stored is served until it expires or another generation begins. */
  lemma StoredIsServed(s: Shared, key: Key, e: Entry, ttl: Ttl, cacheSize: int, now: int, victim: Option<Key>, later: int)
    requires s.state.lastError == "" && later < e.expires && now <= later
    requires s.state.generation == key.generation && ttl > 0 && cacheSize > 0
    ensures LookAt(StoreAnswer(s, key, e, ttl, cacheSize, now, victim), key.host, later).0 == Hit(e.addresses)
  {
  }

  // ---------------------------------------------------------------------------
  // The textual key
  // ---------------------------------------------------------------------------

  function Decimal(n: nat): (s: string)
    ensures |s| > 0
    ensures forall i :: 0 <= i < |s| ==> '0' <= s[i] <= '9'
  {
    if n < 10 then [(n + '0' as int) as char] else Decimal(n / 10) + [(n % 10 + '0' as int) as char]
  }

  function KeyText(k: Key): string {
    Decimal(k.generation) + ":" + k.host.text
  }

  lemma {:induction false} DecimalInjective(a: nat, b: nat)
    requires Decimal(a) == Decimal(b)
    ensures a == b
  {
    var s := Decimal(a);
    if a >= 10 && b >= 10 {
      assert Decimal(a / 10) == s[..|s| - 1] == Decimal(b / 10);
      DecimalInjective(a / 10, b / 10);
      assert s[|s| - 1] == (a % 10 + '0' as int) as char == (b % 10 + '0' as int) as char;
    }
  }

  lemma KeyTextIsInjective(a: Key, b: Key)
    requires KeyText(a) == KeyText(b)
    ensures a == b
  {
    var s, x, y := KeyText(a), Decimal(a.generation), Decimal(b.generation);
    assert s[|x|] == ':' && s[|y|] == ':';
    assert |x| == |y|;
    assert x == s[..|x|] && y == s[..|y|];
    DecimalInjective(a.generation, b.generation);
    assert a.host.text == s[|x| + 1..] && b.host.text == s[|y| + 1..];
  }
}
