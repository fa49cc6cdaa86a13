/**
 * internal/proxy/server.go, lines 94-102 and 141-165, with `RestartRequired` of
 * internal/config/config.go: the configuration is replaced as a whole snapshot, and each
 * connection keeps the one it was accepted under.
 */
module Reload {
  import opened Wrappers

  /** The settings that need a restart, and those a reload may change. */
  datatype Fixed = Fixed(listen: seq<string>, port: int, cert: string, key: string, stateDir: string, controlSocket: string, logFormat: string)
  datatype Config = Config(fixed: Fixed, dns: nat, level: nat, maxConnections: int, others: nat)

  datatype Snapshot = Snapshot(config: Config, authority: nat, generation: nat)

  /** RestartRequired, lines 372-374. */
  predicate RestartRequired(a: Config, b: Config) {
    || a.fixed.listen != b.fixed.listen
    || a.fixed.port != b.fixed.port
    || a.fixed.cert != b.fixed.cert || a.fixed.key != b.fixed.key
    || a.fixed.stateDir != b.fixed.stateDir
    || a.fixed.controlSocket != b.fixed.controlSocket
    || a.fixed.logFormat != b.fixed.logFormat
  }

  lemma RestartRequiredExactly(a: Config, b: Config)
    ensures RestartRequired(a, b) <==> a.fixed != b.fixed
  {
  }

  datatype Event =
    | ReloadWith(loaded: Option<Config>, authority: Option<nat>)
    | Accept(id: nat)

  class Daemon {
    var current: Snapshot
    var dns: nat
    var level: nat
    /** The snapshot each connection was accepted under. */
    var held: map<nat, Snapshot>
    /** Every snapshot ever published, in order. */
    ghost var published: seq<Snapshot>

    ghost predicate Valid()
      reads this
    {
      && published != [] && published[|published| - 1] == current
      && dns == current.config.dns && level == current.config.level
      && (forall i :: 0 <= i < |published| ==> published[i].generation == i + 1)
      && (forall i :: 0 <= i < |published| ==> published[i].config.fixed == published[0].config.fixed)
      && (forall id :: id in held ==> held[id] in published)
    }

    constructor (c: Config, authority: nat)
      ensures Valid() && published == [Snapshot(c, authority, 1)] && held == map[]
    {
      current := Snapshot(c, authority, 1);
      dns, level, held := c.dns, c.level, map[];
      published := [Snapshot(c, authority, 1)];
    }

    /** Reload: nothing changes unless every check passed. */
    method Reload(loaded: Option<Config>, authority: Option<nat>) returns (ok: bool)
      requires Valid()
      modifies this
      ensures Valid() && held == old(held)
      ensures ok <==> loaded.Some? && loaded.value.fixed == old(current).config.fixed && authority.Some?
      ensures ok ==> published == old(published) + [Snapshot(loaded.value, authority.value, old(current).generation + 1)]
      ensures !ok ==> published == old(published) && current == old(current) && dns == old(dns) && level == old(level)
    {
      if loaded.None? {
        return false;
      }
      var c := loaded.value;
      RestartRequiredExactly(current.config, c);
      if RestartRequired(current.config, c) {
        return false;
      }
      if authority.None? {
        return false;
      }
      current := Snapshot(c, authority.value, current.generation + 1);
      published := published + [current];
      dns := c.dns;
      level := c.level;
      return true;
    }

    method Accept(id: nat)
      requires Valid() && id !in held
      modifies this`held
      ensures Valid() && held == old(held)[id := current]
    {
      held := held[id := current];
    }
  }

  /**
   * Over any run the listener, upstream port, CA, state and socket paths and log format never
   * change, generations number the snapshots from one without gaps, and a connection's snapshot
   * is one that was published and is never altered by a later reload.
   */
  method Lifetime(start: Config, authority: nat, events: seq<Event>) returns (final: Snapshot, connections: map<nat, Snapshot>, ghost published: seq<Snapshot>)
    requires forall i, j :: 0 <= i < j < |events| && events[i].Accept? && events[j].Accept? ==> events[i].id != events[j].id
    ensures final.config.fixed == start.fixed && final.generation == |published| >= 1
    ensures forall i :: 0 <= i < |published| ==> published[i].generation == i + 1 && published[i].config.fixed == start.fixed
    ensures final == published[|published| - 1]
    ensures forall id :: id in connections ==> connections[id] in published
    ensures forall id :: id in connections <==> exists i :: 0 <= i < |events| && events[i] == Event.Accept(id)
  {
    var d := new Daemon(start, authority);
    for i := 0 to |events|
      invariant d.Valid() && d.published[0].config.fixed == start.fixed
      invariant fresh(d)
      invariant forall id :: id in d.held <==> exists k :: 0 <= k < i && events[k] == Event.Accept(id)
    {
      match events[i] {
        case ReloadWith(loaded, signer) =>
          var ok := d.Reload(loaded, signer);
        case Accept(id) =>
          d.Accept(id);
          assert events[i] == Event.Accept(id);
      }
    }
    final, connections, published := d.current, d.held, d.published;
  }
}
