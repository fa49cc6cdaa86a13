/**
 * internal/dns/resolver.go, lines 156-184: the servers of the selected groups, tried one after
 * the other until one answers or one says for good that the name has no address.
 */
module DnsFlight {
  import opened Wrappers
  import opened DnsMessage
  import opened DnsResolve
  import opened DnsSelect

  datatype Target = Target(server: string, interfaceIndex: int)

  function GroupServers(g: Group): (ts: seq<Target>)
    ensures |ts| == |g.servers|
  {
    seq(|g.servers|, i requires 0 <= i < |g.servers| => Target(g.servers[i], g.interfaceIndex))
  }

  /** Every server of every group, in the order of the two loops. */
  function Servers(groups: seq<Group>): seq<Target> {
    if groups == [] then []
    else Servers(groups[..|groups| - 1]) + GroupServers(groups[|groups| - 1])
  }

  datatype Verdict =
    | Answered(k: nat, addresses: seq<Address>, ttl: Ttl, started: int)
    | Stopped(k: nat, failure: Failure)
    | Exhausted(failure: Failure)
    | NoServer

  /** What one attempt leads to; shared with the concurrent model. */
  datatype After = Take(addresses: seq<Address>, ttl: Ttl) | GiveUp(failure: Failure) | TryNext(failure: Failure)

  function AfterAttempt(outcome: Outcome): After {
    match outcome
    case Answer(addresses, ttl) => Take(addresses, ttl)
    case Fails(f) => if f.Permanent() then GiveUp(f) else TryNext(f)
  }

  /**
   * The loops over these servers, standing before server `k`; `wire(k, t)` is what server t says
   * when it is the k-th to be asked, `clock(k)` when, and `last` the previous failure.
   */
  function Fly(ts: seq<Target>, k: nat, last: Option<Failure>, host: Name, wire: (nat, Target) -> Server, clock: nat -> int): Verdict
    requires k <= |ts|
    decreases |ts| - k
  {
    if k == |ts| then if last.Some? then Exhausted(last.value) else NoServer
    else match AfterAttempt(Resolve(wire(k, ts[k]), host))
      case Take(addresses, ttl) => Answered(k, addresses, ttl, clock(k))
      case GiveUp(f) => Stopped(k, f)
      case TryNext(f) => Fly(ts, k + 1, Some(f), host, wire, clock)
  }

  lemma {:induction false} AskAnswersSomething(server: Server, hop: nat, name: Name, seen: set<Name>, ttl: Ttl)
    requires hop <= 9
    ensures Ask(server, hop, name, seen, ttl).Answer? ==> Ask(server, hop, name, seen, ttl).addresses != []
    decreases 9 - hop, 1, 0
  {
    if hop <= 8 && name !in seen && Fetch(server, hop, name).Ok? {
      FollowAnswersSomething(server, hop, name, name, Fetch(server, hop, name).value, seen + {name}, ttl);
    }
  }

  lemma {:induction false} FollowAnswersSomething(
    server: Server, hop: nat, name: Name, owner: Name, answer: seq<Record>, seen: set<Name>, ttl: Ttl)
    requires hop <= 8
    ensures var r := Follow(server, hop, name, owner, answer, seen, ttl); r.Answer? ==> r.addresses != []
    decreases 9 - hop, 0, if |seen| <= 9 then 9 - |seen| else 0
  {
    var scan := ScanOwner(answer, owner, ttl);
    if scan.Scanned? && scan.addresses == [] {
      if scan.next.None? {
        AskAnswersSomething(server, hop + 1, owner, seen, scan.ttl);
      } else if scan.next.value !in seen && |seen| <= 8 {
        if HasOwner(answer, scan.next.value) {
          FollowAnswersSomething(server, hop, name, scan.next.value, answer, seen + {scan.next.value}, scan.ttl);
        } else {
          AskAnswersSomething(server, hop + 1, scan.next.value, seen, scan.ttl);
        }
      }
    }
  }

  lemma ResolveAnswersSomething(server: Server, host: Name)
    ensures Resolve(server, host).Answer? ==> Resolve(server, host).addresses != []
  {
    AskAnswersSomething(server, 0, host, {}, MAX_TTL);
  }

  /** The nested loops as they are. */
  method RunFlight(groups: seq<Group>, host: Name, wire: (nat, Target) -> Server, clock: nat -> int) returns (r: Verdict)
    ensures r == Fly(Servers(groups), 0, None, host, wire, clock)
  {
    hide Servers, Fly, Resolve, GroupServers;
    ghost var ts := Servers(groups);
    var k := 0;
    var ips: seq<Address> := [];
    var ttl: Ttl := 0;
    var last: Option<Failure> := None;
    var started := 0;
    NoServers();
    assert groups[..0] == [];
    for i := 0 to |groups|
      invariant k == |Servers(groups[..i])| <= |ts|
      invariant ips == []
      invariant Fly(ts, k, last, host, wire, clock) == Fly(ts, 0, None, host, wire, clock)
    {
      var g := groups[i];
      ServersPrefix(groups, i);
      ghost var first := k;
      var answered := false;
      for j := 0 to |g.servers|
        invariant k == first + j && !answered && ips == []
        invariant Fly(ts, k, last, host, wire, clock) == Fly(ts, 0, None, host, wire, clock)
      {
        ServersInOrder(groups, i, j);
        FlyAt(ts, k, last, host, wire, clock);
        started := clock(k);
        var server := wire(k, Target(g.servers[j], g.interfaceIndex));
        var outcome := ResolveLoop(server, host);
        ResolveAnswersSomething(server, host);
        match outcome {
          case Answer(addresses, least) =>
            ips, ttl, last := addresses, least, None;
            answered := true;
            break;
          case Fails(f) =>
            if f.Permanent() {
              return Stopped(k, f);
            }
            last := Some(f);
        }
        k := k + 1;
      }
      if answered && |ips| > 0 {
        return Answered(k, ips, ttl, started);
      }
    }
    assert groups[..|groups|] == groups;
    FlyAt(ts, k, last, host, wire, clock);
    if last.None? {
      return NoServer;
    }
    return Exhausted(last.value);
  }

  lemma FlyAt(ts: seq<Target>, k: nat, last: Option<Failure>, host: Name, wire: (nat, Target) -> Server, clock: nat -> int)
    requires k <= |ts|
    ensures k < |ts| ==>
              Fly(ts, k, last, host, wire, clock) ==
              match Resolve(wire(k, ts[k]), host)
              case Answer(addresses, ttl) => Answered(k, addresses, ttl, clock(k))
              case Fails(f) => if f.Permanent() then Stopped(k, f) else Fly(ts, k + 1, Some(f), host, wire, clock)
    ensures k == |ts| ==> Fly(ts, k, last, host, wire, clock) == if last.Some? then Exhausted(last.value) else NoServer
  {
    hide Resolve;
  }

  lemma NoServers()
    ensures Servers([]) == []
  {
  }

  lemma ServersPrefix(groups: seq<Group>, i: nat)
    requires i < |groups|
    ensures |Servers(groups[..i + 1])| == |Servers(groups[..i])| + |groups[i].servers| <= |Servers(groups)|
    decreases |groups| - i
  {
    assert groups[..i + 1][..i] == groups[..i];
    if i + 1 < |groups| {
      ServersPrefix(groups, i + 1);
    } else {
      assert groups[..i + 1] == groups;
    }
  }

  /** Every server of every group, group by group: none is left out, added or out of its place. */
  lemma {:induction false} ServersInOrder(groups: seq<Group>, i: nat, j: nat)
    requires i < |groups| && j < |groups[i].servers|
    ensures var k := |Servers(groups[..i])| + j;
            k < |Servers(groups)| && Servers(groups)[k] == Target(groups[i].servers[j], groups[i].interfaceIndex)
    ensures |Servers(groups[..i + 1])| == |Servers(groups[..i])| + |groups[i].servers| && Servers([]) == []
    decreases |groups|
  {
    var front := groups[..|groups| - 1];
    ServersPrefix(groups, i);
    if i < |front| {
      ServersInOrder(front, i, j);
      assert front[..i] == groups[..i];
    } else {
      assert groups[..i] == front && groups[..i + 1] == groups;
    }
  }

  /** Failures after which the next server is tried: all but a name error and a name without address. */
  ghost predicate Transient(o: Outcome) {
    o.Fails? && !o.failure.NxDomain? && !o.failure.NoAddress?
  }

  /**
   * The first server that does not fail transiently decides: its answer is taken with the time it
   * was asked, and a permanent failure is never followed by another server.
   */
  lemma {:induction false} FirstDecisiveServer(ts: seq<Target>, k: nat, last: Option<Failure>, host: Name, wire: (nat, Target) -> Server, clock: nat -> int)
    requires k <= |ts|
    ensures var v := Fly(ts, k, last, host, wire, clock);
            match v
            case Answered(d, addresses, ttl, started) =>
              && k <= d < |ts| && Resolve(wire(d, ts[d]), host) == Answer(addresses, ttl) && started == clock(d)
              && forall j :: k <= j < d ==> Transient(Resolve(wire(j, ts[j]), host))
            case Stopped(d, f) =>
              && k <= d < |ts| && Resolve(wire(d, ts[d]), host) == Fails(f) && (f.NxDomain? || f.NoAddress?)
              && forall j :: k <= j < d ==> Transient(Resolve(wire(j, ts[j]), host))
            case Exhausted(f) =>
              && (forall j :: k <= j < |ts| ==> Transient(Resolve(wire(j, ts[j]), host)))
              && if k < |ts| then Resolve(wire(|ts| - 1, ts[|ts| - 1]), host) == Fails(f) else last == Some(f)
            case NoServer => k == |ts| && last.None?
    decreases |ts| - k
  {
    hide Resolve;
    if k < |ts| {
      var after := AfterAttempt(Resolve(wire(k, ts[k]), host));
      if after.TryNext? {
        FirstDecisiveServer(ts, k + 1, Some(after.failure), host, wire, clock);
      }
    }
  }

  /** The converse: servers that fail transiently before one that answers make its answer the verdict. */
  lemma {:induction false} AnsweredInTurn(
    ts: seq<Target>, k: nat, d: nat, last: Option<Failure>, host: Name, wire: (nat, Target) -> Server, clock: nat -> int, addresses: seq<Address>, ttl: Ttl)
    requires k <= d < |ts| && Resolve(wire(d, ts[d]), host) == Answer(addresses, ttl)
    requires forall j :: k <= j < d ==> Transient(Resolve(wire(j, ts[j]), host))
    ensures Fly(ts, k, last, host, wire, clock) == Answered(d, addresses, ttl, clock(d))
    decreases d - k
  {
    hide Resolve;
    if k < d {
      assert Transient(Resolve(wire(k, ts[k]), host));
      AnsweredInTurn(ts, k + 1, d, Some(Resolve(wire(k, ts[k]), host).failure), host, wire, clock, addresses, ttl);
    }
  }
}
