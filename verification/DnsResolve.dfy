/**
 * internal/dns/resolver.go, `resolve`: one server, at most nine queries, alias chains
 * followed inside and across responses, and the least TTL met on the way.
 */
module DnsResolve {
  import opened Wrappers
  import opened DnsMessage

  datatype Failure =
    | Cycle
    | CycleOrLimit
    | HopLimit
    | QueryFailed
    | Malformed
    | NxDomain(name: Name)
    | ServerError(code: nat)
    | ConflictingCname
    | ConflictingAddressAndCname
    | NoAddress(name: Name)
  {
    /** The failures that stop a lookup instead of moving on to the next server. */
    predicate Permanent() {
      NxDomain? || NoAddress?
    }
  }

  datatype Outcome = Answer(addresses: seq<Address>, ttl: Ttl) | Fails(failure: Failure)

  // ---------------------------------------------------------------------------
  // One query
  // ---------------------------------------------------------------------------

  predicate Accepted(r: Reply, name: Name) {
    && r.response && !r.truncated && r.queryOpcode && r.sameId
    && |r.questions| == 1
    && EqualFold(r.questions[0].name, name)
    && r.questions[0].isA && r.questions[0].inet
  }

  function Fetch(server: Server, hop: nat, name: Name): Result<seq<Record>, Failure> {
    var h := server(hop, name);
    var last := if h.udp.Received? && h.udp.reply.truncated then h.tcp else h.udp;
    if last.Failed? then Err(QueryFailed)
    else if !Accepted(last.reply, name) then Err(Malformed)
    else match last.reply.rcode
      case NameError => Err(NxDomain(name))
      case OtherRcode(code) => Err(ServerError(code))
      case Success => Ok(last.reply.answer)
  }

  // ---------------------------------------------------------------------------
  // One owner in one answer
  // ---------------------------------------------------------------------------

  /** The IN-class records of one owner, in answer order. */
  function Owned(answer: seq<Record>, owner: Name): seq<Record> {
    if answer == [] then []
    else
      var rr := answer[|answer| - 1];
      Owned(answer[..|answer| - 1], owner) +
      (if rr.inet && EqualFold(rr.name, owner) then [rr] else [])
  }

  function Addresses(rs: seq<Record>): seq<Address> {
    if rs == [] then []
    else
      var d := rs[|rs| - 1].data;
      Addresses(rs[..|rs| - 1]) + (if d.A? && d.address.Some? then [d.address.value] else [])
  }

  function Targets(rs: seq<Record>): seq<Name> {
    if rs == [] then []
    else
      var d := rs[|rs| - 1].data;
      Targets(rs[..|rs| - 1]) + (if d.CName? then [Lower(d.target)] else [])
  }

  /** Records whose TTL bounds the answer: usable addresses and every alias. */
  predicate Counts(rr: Record) {
    rr.data.CName? || (rr.data.A? && rr.data.address.Some?)
  }

  function LeastTtl(rs: seq<Record>, bound: Ttl): Ttl {
    if rs == [] then bound
    else
      var rr := rs[|rs| - 1];
      var rest := LeastTtl(rs[..|rs| - 1], bound);
      if Counts(rr) then Min(rest, rr.ttl) else rest
  }

  predicate AllEqual(names: seq<Name>) {
    forall i :: 0 <= i < |names| ==> names[i] == names[0]
  }

  datatype Scan = Conflict | Scanned(addresses: seq<Address>, next: Option<Name>, ttl: Ttl)

  function ScanOwner(answer: seq<Record>, owner: Name, ttl: Ttl): Scan {
    ScanRecords(Owned(answer, owner), ttl)
  }

  function ScanRecords(rs: seq<Record>, ttl: Ttl): Scan {
    var targets := Targets(rs);
    if !AllEqual(targets) then Conflict
    else Scanned(Addresses(rs), if targets == [] then None else Some(targets[0]), LeastTtl(rs, ttl))
  }

  predicate HasOwner(answer: seq<Record>, name: Name) {
    exists i :: 0 <= i < |answer| && EqualFold(answer[i].name, name)
  }

  lemma ScanSnoc(rs: seq<Record>, rr: Record, bound: Ttl)
    ensures match ScanRecords(rs, bound)
            case Conflict => ScanRecords(rs + [rr], bound).Conflict?
            case Scanned(ips, next, ttl) =>
              var after := ScanRecords(rs + [rr], bound);
              if !Counts(rr) then after == Scanned(ips, next, ttl)
              else match rr.data
                case A(address) => after == Scanned(ips + [address.value], next, Min(ttl, rr.ttl))
                case CName(target) =>
                  after == if next.Some? && next.value != Lower(target) then Conflict
                           else Scanned(ips, Some(Lower(target)), Min(ttl, rr.ttl))
  {
    assert (rs + [rr])[..|rs|] == rs;
    if rr.data.CName? {
      AllEqualSnoc(Targets(rs), Lower(rr.data.target));
    } else {
      assert Targets(rs + [rr]) == Targets(rs);
    }
  }

  lemma OwnedStep(answer: seq<Record>, owner: Name, i: nat)
    requires i < |answer|
    ensures Owned(answer[..i + 1], owner) ==
            Owned(answer[..i], owner) + if answer[i].inet && EqualFold(answer[i].name, owner) then [answer[i]] else []
  {
    assert answer[..i + 1][..i] == answer[..i];
  }

  lemma AllEqualSnoc(names: seq<Name>, name: Name)
    ensures AllEqual(names + [name]) <==> AllEqual(names) && (names == [] || names[0] == name)
  {
    var more := names + [name];
    assert more[0] == if names == [] then name else names[0];
    assert more[|names|] == name;
    assert forall i :: 0 <= i < |names| ==> more[i] == names[i];
  }

  lemma ConflictStays(answer: seq<Record>, owner: Name, i: nat, bound: Ttl)
    requires i <= |answer|
    requires ScanOwner(answer[..i], owner, bound).Conflict?
    ensures ScanOwner(answer, owner, bound).Conflict?
    decreases |answer| - i
  {
    if i < |answer| {
      OwnedStep(answer, owner, i);
      ScanSnoc(Owned(answer[..i], owner), answer[i], bound);
      assert ScanOwner(answer[..i + 1], owner, bound).Conflict? by {
        assert Owned(answer[..i], owner) + [] == Owned(answer[..i], owner);
      }
      ConflictStays(answer, owner, i + 1, bound);
    } else {
      assert answer[..i] == answer;
    }
  }

  /** Lines 250-271. */
  method ScanAnswer(answer: seq<Record>, owner: Name, bound: Ttl) returns (r: Scan)
    ensures r == ScanOwner(answer, owner, bound)
  {
    var ips: seq<Address> := [];
    var next: Option<Name> := None;
    var ttl := bound;
    for i := 0 to |answer|
      invariant ScanOwner(answer[..i], owner, bound) == Scanned(ips, next, ttl)
    {
      var rr := answer[i];
      OwnedStep(answer, owner, i);
      ScanSnoc(Owned(answer[..i], owner), rr, bound);
      if !rr.inet || !EqualFold(rr.name, owner) {
        assert Owned(answer[..i + 1], owner) == Owned(answer[..i], owner);
        continue;
      }
      match rr.data {
        case A(address) =>
          if address.Some? {
            ips := ips + [address.value];
            ttl := Min(ttl, rr.ttl);
          }
        case CName(t) =>
          var target := Lower(t);
          if next.Some? && next.value != target {
            ConflictStays(answer, owner, i + 1, bound);
            return Conflict;
          }
          next := Some(target);
          ttl := Min(ttl, rr.ttl);
        case OtherData =>
      }
    }
    assert answer[..|answer|] == answer;
    r := Scanned(ips, next, ttl);
  }

  /** Lines 288-295: does the same answer say anything about the alias target? */
  method MentionsOwner(answer: seq<Record>, name: Name) returns (found: bool)
    ensures found == HasOwner(answer, name)
  {
    for i := 0 to |answer|
      invariant forall j :: 0 <= j < i ==> !EqualFold(answer[j].name, name)
    {
      if EqualFold(answer[i].name, name) {
        return true;
      }
    }
    return false;
  }

  // ---------------------------------------------------------------------------
  // The two nested loops
  // ---------------------------------------------------------------------------

  /** The outer loop from the top of hop `hop`. */
  function Ask(server: Server, hop: nat, name: Name, seen: set<Name>, ttl: Ttl): Outcome
    requires hop <= 9
    decreases 9 - hop, 1, 0
  {
    if hop > 8 then Fails(HopLimit)
    else if name in seen then Fails(Cycle)
    else match Fetch(server, hop, name)
      case Err(f) => Fails(f)
      case Ok(answer) => Follow(server, hop, name, name, answer, seen + {name}, ttl)
  }

  /** The inner loop, standing at `owner` in the answer to `name`. */
  function Follow(server: Server, hop: nat, name: Name, owner: Name, answer: seq<Record>, seen: set<Name>, ttl: Ttl): Outcome
    requires hop <= 8
    decreases 9 - hop, 0, if |seen| <= 9 then 9 - |seen| else 0
  {
    match ScanOwner(answer, owner, ttl)
    case Conflict => Fails(ConflictingCname)
    case Scanned(ips, next, least) =>
      if ips != [] then
        if next.Some? then Fails(ConflictingAddressAndCname) else Answer(ips, least)
      else if next.None? then
        if owner != name then Ask(server, hop + 1, owner, seen, least) else Fails(NoAddress(name))
      else if next.value in seen || |seen| > 8 then Fails(CycleOrLimit)
      else if !HasOwner(answer, next.value) then Ask(server, hop + 1, next.value, seen, least)
      else Follow(server, hop, name, next.value, answer, seen + {next.value}, least)
  }

  function Resolve(server: Server, host: Name): Outcome {
    Ask(server, 0, host, {}, MAX_TTL)
  }

  /** Lines 215-305 as the two loops they are. */
  method ResolveLoop(server: Server, host: Name) returns (r: Outcome)
    ensures r == Resolve(server, host)
  {
    hide ScanOwner, HasOwner, Fetch;
    var name := host;
    var ttl := MAX_TTL;
    var seen: set<Name> := {};
    var hop := 0;
    while hop <= 8
      invariant 0 <= hop <= 9
      invariant Ask(server, hop, name, seen, ttl) == Resolve(server, host)
    {
      if name in seen {
        return Fails(Cycle);
      }
      var fetched := Fetch(server, hop, name);
      if fetched.Err? {
        return Fails(fetched.error);
      }
      seen := seen + {name};
      var answer := fetched.value;
      var owner := name;
      while true
        invariant Follow(server, hop, name, owner, answer, seen, ttl) == Resolve(server, host)
        decreases if |seen| <= 9 then 9 - |seen| else 0
      {
        var scan := ScanAnswer(answer, owner, ttl);
        if scan.Conflict? {
          return Fails(ConflictingCname);
        }
        ttl := scan.ttl;
        if scan.addresses != [] {
          if scan.next.Some? {
            return Fails(ConflictingAddressAndCname);
          }
          return Answer(scan.addresses, ttl);
        }
        if scan.next.None? {
          if owner != name {
            name := owner;
            break;
          }
          return Fails(NoAddress(name));
        }
        var next := scan.next.value;
        if next in seen || |seen| > 8 {
          return Fails(CycleOrLimit);
        }
        var mentioned := MentionsOwner(answer, next);
        if !mentioned {
          name := next;
          break;
        }
        seen := seen + {next};
        owner := next;
      }
      hop := hop + 1;
    }
    return Fails(HopLimit);
  }
}
