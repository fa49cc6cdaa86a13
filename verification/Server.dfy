/**
 * internal/proxy/server.go: the connection table, its counters and the shutdown flag.  The
 * functions specify the regions under the mutex; the class is the object and its methods the
 * regions.
 */
module Server {
  import opened Wrappers

  /** The two atomic counters of a connection, or a pair of sums. */
  datatype Traffic = Traffic(sent: nat, received: nat) {
    function Plus(t: Traffic): Traffic { Traffic(sent + t.sent, received + t.received) }
    predicate AtMost(t: Traffic) { sent <= t.sent && received <= t.received }
  }

  const NOTHING := Traffic(0, 0)

  datatype Shared = Shared(
    connections: map<nat, Traffic>,
    failures: map<string, nat>,
    total: nat,
    next: nat,
    finished: Traffic,
    stopping: bool,
    waiting: nat)

  const EMPTY := Shared(map[], map[], 0, 0, NOTHING, false, 0)

  // ---------------------------------------------------------------------------
  // Failure categories
  // ---------------------------------------------------------------------------

  const CATEGORIES := ["sni_missing", "domain_denied", "upstream_loop", "alpn_mismatch", "unsupported_alps", "dns_", "upstream_connect", "upstream_tls"]

  predicate OccursAt(text: string, part: string, i: nat) {
    part <= text[if i <= |text| then i else |text|..]
  }

  predicate Contains(text: string, part: string) {
    exists i: nat :: i <= |text| && OccursAt(text, part, i)
  }

  /** category, lines 305-317. */
  method Category(text: string, timeout: bool) returns (kind: string)
    ensures CategoryOf(text, timeout, kind)
  {
    for i := 0 to |CATEGORIES|
      invariant forall j :: 0 <= j < i ==> !Contains(text, CATEGORIES[j])
    {
      var c := CATEGORIES[i];
      if Contains(text, c) {
        return if c[|c| - 1] == '_' then c[..|c| - 1] else c;
      }
    }
    return if timeout then "timeout" else "connection";
  }

  /** The first category named in the error, without its trailing underscore. */
  ghost predicate CategoryOf(text: string, timeout: bool, kind: string) {
    || (exists i :: 0 <= i < |CATEGORIES| && FirstNamed(text, i) &&
          kind == if i == 5 then "dns" else CATEGORIES[i])
    || ((forall i :: 0 <= i < |CATEGORIES| ==> !Contains(text, CATEGORIES[i])) &&
          kind == if timeout then "timeout" else "connection")
  }

  ghost predicate FirstNamed(text: string, i: nat)
    requires i < |CATEGORIES|
  {
    Contains(text, CATEGORIES[i]) && forall j :: 0 <= j < i ==> !Contains(text, CATEGORIES[j])
  }

  const DENIED := "client_denied"
  const LIMITED := "connection_limit"

  /** A failed connection is never counted among the sockets that were turned away. */
  lemma CategoryIsNeverTurnedAway(text: string, timeout: bool, kind: string)
    requires CategoryOf(text, timeout, kind)
    ensures kind != DENIED && kind != LIMITED
  {
    assert DENIED[7] == 'd' && LIMITED[11] == 'l';
  }

  // ---------------------------------------------------------------------------
  // Regions
  // ---------------------------------------------------------------------------

  function Count(failures: map<string, nat>, kind: string): nat {
    if kind in failures then failures[kind] else 0
  }

  /** failure, line 318. */
  function Bump(s: Shared, kind: string): Shared {
    s.(failures := s.failures[kind := Count(s.failures, kind) + 1])
  }

  /** accept, lines 269-281: None is the limit, Some the admitted connection. */
  function Admit(s: Shared, maxConnections: int): (Option<nat>, Shared) {
    if s.stopping || |s.connections| >= maxConnections then (None, Bump(s, LIMITED))
    else
      var id := s.next + 1;
      (Some(id), s.(next := id, total := s.total + 1, connections := s.connections[id := NOTHING], waiting := s.waiting + 1))
  }

  /** accept, lines 286-292. */
  function Settle(s: Shared, id: nat): Shared {
    if id in s.connections then
      s.(finished := s.finished.Plus(s.connections[id]), connections := s.connections - {id})
    else s
  }

  /** Sum of the counters of connections numbered up to n. */
  function Sum(connections: map<nat, Traffic>, n: nat): Traffic {
    if n == 0 then NOTHING
    else Sum(connections, n - 1).Plus(if n in connections then connections[n] else NOTHING)
  }

  class Server {
    var connections: map<nat, Traffic>
    var failures: map<string, nat>
    var total: nat
    var next: nat
    var sent: nat
    var received: nat
    var stopping: bool
    var waiting: nat

    ghost function Fields(): Shared
      reads this
    {
      Shared(connections, failures, total, next, Traffic(sent, received), stopping, waiting)
    }

    constructor ()
      ensures Fields() == EMPTY
    {
      connections, failures := map[], map[];
      total, next, sent, received, waiting := 0, 0, 0, 0, 0;
      stopping := false;
    }

    method Failure(kind: string)
      modifies this
      ensures Fields() == Bump(old(Fields()), kind)
      ensures failures == old(failures)[kind := (if kind in old(failures) then old(failures)[kind] else 0) + 1]
    {
      failures := failures[kind := Count(failures, kind) + 1];
    }

    /** accept up to the start of the goroutine; None is a socket that was closed at once. */
    method Accept(allowed: bool, maxConnections: int) returns (id: Option<nat>)
      modifies this
      ensures if allowed then (id, Fields()) == Admit(old(Fields()), maxConnections)
              else id == None && Fields() == Bump(old(Fields()), DENIED)
      // A client is admitted exactly when it is allowed, the server runs on, and the table has room.
      ensures id.Some? <==> allowed && !old(stopping) && |old(connections)| < maxConnections
      ensures id.Some? ==>
                && id.value == next == old(next) + 1 && total == old(total) + 1 && waiting == old(waiting) + 1
                && connections == old(connections)[id.value := Traffic(0, 0)] && failures == old(failures)
      // Otherwise one failure is counted, by its reason, and nothing else changes.
      ensures id.None? ==>
                && connections == old(connections) && total == old(total) && next == old(next) && waiting == old(waiting)
                && var kind := if allowed then "connection_limit" else "client_denied";
                   failures == old(failures)[kind := (if kind in old(failures) then old(failures)[kind] else 0) + 1]
      ensures stopping == old(stopping) && sent == old(sent) && received == old(received)
    {
      if !allowed {
        Failure(DENIED);
        return None;
      }
      if stopping || |connections| >= maxConnections {
        Failure(LIMITED);
        return None;
      }
      next := next + 1;
      total := total + 1;
      connections := connections[next := NOTHING];
      waiting := waiting + 1;
      return Some(next);
    }

    /** The end of a connection's goroutine: settle, count the failure, release the wait group. */
    method Finish(id: nat, error: Option<string>, timeout: bool, shuttingDown: bool)
      requires id in connections && waiting > 0
      modifies this
      ensures Fields() == Settle(old(Fields()), id).(failures := failures, waiting := old(waiting) - 1)
      ensures if error.None? || (old(stopping) && shuttingDown) then failures == old(failures)
              else exists kind :: CategoryOf(error.value, timeout, kind) && failures == Bump(old(Fields()), kind).failures
      ensures connections == old(connections) - {id} && total == old(total) && next == old(next) && stopping == old(stopping)
      ensures sent == old(sent) + old(connections)[id].sent && received == old(received) + old(connections)[id].received
      ensures Count(failures, DENIED) == Count(old(failures), DENIED)
      ensures Count(failures, LIMITED) == Count(old(failures), LIMITED)
    {
      sent := sent + connections[id].sent;
      received := received + connections[id].received;
      connections := connections - {id};
      if !(stopping && shuttingDown) && error.Some? {
        var kind := Category(error.value, timeout);
        CategoryIsNeverTurnedAway(error.value, timeout, kind);
        Failure(kind);
      }
      waiting := waiting - 1;
    }

    /** Status, lines 122-126, with no counter moving meanwhile. */
    method Bytes() returns (t: Traffic)
      requires forall id :: id in connections ==> 1 <= id <= next
      ensures t == Traffic(sent, received).Plus(Sum(connections, next))
    {
      t := Traffic(sent, received);
      var id := 0;
      while id < next
        invariant id <= next
        invariant t == Traffic(sent, received).Plus(Sum(connections, id))
      {
        id := id + 1;
        if id in connections {
          t := Traffic(t.sent + connections[id].sent, t.received + connections[id].received);
        }
      }
    }
  }
}
