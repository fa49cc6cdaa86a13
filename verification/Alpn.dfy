/**
 * internal/profiles/profiles.go and the gate in internal/proxy/upstream.go: restricting a
 * ClientHello profile to the client's protocols, and what both TLS legs may then negotiate.
 */
module Alpn {
  import opened Sequences
  import opened Wrappers

  type Protocols = seq<string>

  /** Alpn, and the two generations of application settings; every other extension is opaque. */
  datatype Extension = Alpn(protocols: Protocols) | Alps(protocols: Protocols) | AlpsNew(protocols: Protocols) | Other(id: nat)

  const RESTRICTED := "ALPN restricted to client protocols"
  const REMOVED := "ALPS removed with unsupported protocol"

  // ---------------------------------------------------------------------------
  // Intersection
  // ---------------------------------------------------------------------------

  function Common(a: Protocols, b: Protocols): Protocols {
    if a == [] then []
    else Common(a[..|a| - 1], b) + if a[|a| - 1] in b then [a[|a| - 1]] else []
  }

  /** intersection, lines 95-103. */
  method Intersection(a: Protocols, b: Protocols) returns (out: Protocols)
    ensures out == Common(a, b)
  {
    out := [];
    for i := 0 to |a|
      invariant out == Common(a[..i], b)
    {
      assert a[..i + 1][..i] == a[..i];
      if a[i] in b {
        out := out + [a[i]];
      }
    }
    assert a[..|a|] == a;
  }

  lemma {:induction false} CommonMembers(a: Protocols, b: Protocols, p: string)
    ensures p in Common(a, b) <==> p in a && p in b
  {
    if a != [] {
      CommonMembers(a[..|a| - 1], b, p);
      assert a == a[..|a| - 1] + [a[|a| - 1]];
    }
  }

  lemma CommonSnoc(a: Protocols, p: string, b: Protocols)
    ensures Common(a + [p], b) == if p in b then Common(a, b) + [p] else Common(a, b)
  {
    assert (a + [p])[..|a|] == a;
  }

  lemma CommonOfNone(b: Protocols)
    ensures Common([], b) == []
  {
  }

  /** The protocols in common keep their order and number: each is taken or left where it stands. */
  lemma {:induction false} CommonOfParts(x: Protocols, y: Protocols, b: Protocols)
    ensures Common(x + y, b) == Common(x, b) + Common(y, b)
    ensures forall p :: Common([p], b) == if p in b then [p] else []
  {
    hide Common;
    CommonOfNone(b);
    forall p
      ensures Common([p], b) == if p in b then [p] else []
    {
      CommonSnoc([], p, b);
      assert [] + [p] == [p];
    }
    if y == [] {
      assert x + y == x;
    } else {
      var init, last := y[..|y| - 1], y[|y| - 1];
      CommonOfParts(x, init, b);
      CommonSnoc(x + init, last, b);
      CommonSnoc(init, last, b);
      assert y == init + [last] && x + y == x + init + [last];
    }
  }

  lemma {:induction false} CommonOfAll(a: Protocols, b: Protocols)
    ensures |Common(a, b)| <= |a|
    ensures Common(a, b) == a <==> forall p :: p in a ==> p in b
  {
    if a != [] {
      var front, last := a[..|a| - 1], a[|a| - 1];
      CommonOfAll(front, b);
      assert a == front + [last];
      if last in b {
        assert (Common(front, b) + [last])[..|Common(front, b)|] == Common(front, b);
      }
    }
  }

  // ---------------------------------------------------------------------------
  // The filter in place
  // ---------------------------------------------------------------------------

  /** The protocols collected from the first extensions; with several ALPN extensions they add up. */
  function Allowed(extensions: seq<Extension>, offered: Protocols): Protocols {
    if extensions == [] then []
    else
      var last := extensions[|extensions| - 1];
      Allowed(extensions[..|extensions| - 1], offered) + if last.Alpn? then Common(last.protocols, offered) else []
  }

  /** What becomes of the extension at place i. */
  function Kept(extensions: seq<Extension>, i: nat, offered: Protocols, allowed: Protocols): Option<Extension>
    requires i < |extensions|
  {
    match extensions[i]
    case Alpn(_) => if allowed == [] then None else Some(Alpn(Allowed(extensions[..i + 1], offered)))
    case Alps(ps) => if Common(ps, allowed) == [] then None else Some(Alps(Common(ps, allowed)))
    case AlpsNew(ps) => if Common(ps, allowed) == [] then None else Some(AlpsNew(Common(ps, allowed)))
    case Other(_) => Some(extensions[i])
  }

  /** The first n extensions after filtering, in their order. */
  function Filtered(extensions: seq<Extension>, n: nat, offered: Protocols, allowed: Protocols): (r: seq<Extension>)
    requires n <= |extensions|
    ensures |r| <= n
  {
    if n == 0 then []
    else
      var k := Kept(extensions, n - 1, offered, allowed);
      Filtered(extensions, n - 1, offered, allowed) + if k.Some? then [k.value] else []
  }

  function Notes(extensions: seq<Extension>, n: nat, offered: Protocols): seq<string>
    requires n <= |extensions|
  {
    if n == 0 then []
    else Notes(extensions, n - 1, offered) +
         if extensions[n - 1].Alpn? && Allowed(extensions[..n], offered) != extensions[n - 1].protocols then [RESTRICTED] else []
  }

  function Removals(extensions: seq<Extension>, n: nat, allowed: Protocols): seq<string>
    requires n <= |extensions|
  {
    if n == 0 then []
    else Removals(extensions, n - 1, allowed) +
         if (extensions[n - 1].Alps? || extensions[n - 1].AlpsNew?) && Common(extensions[n - 1].protocols, allowed) == [] then [REMOVED] else []
  }

  /** Lines 48-61: restrict the ALPN extensions where they are. */
  method RestrictAlpn(extensions: array<Extension>, offered: Protocols) returns (allowed: Protocols, notes: seq<string>)
    modifies extensions
    ensures allowed == Allowed(old(extensions[..]), offered)
    ensures notes == Notes(old(extensions[..]), extensions.Length, offered)
    ensures forall i :: 0 <= i < extensions.Length ==>
              extensions[i] == if old(extensions[i]).Alpn? then Alpn(Allowed(old(extensions[..])[..i + 1], offered)) else old(extensions[i])
  {
    hide Notes, Common;
    ghost var was := extensions[..];
    allowed, notes := [], [];
    NotesStart(was, offered);
    for i := 0 to extensions.Length
      invariant allowed == Allowed(was[..i], offered) && notes == Notes(was, i, offered)
      invariant forall k :: 0 <= k < i ==>
                  extensions[k] == if was[k].Alpn? then Alpn(Allowed(was[..k + 1], offered)) else was[k]
      invariant forall k :: i <= k < extensions.Length ==> extensions[k] == was[k]
    {
      assert was[..i + 1][..i] == was[..i];
      NotesNext(was, i, offered);
      match extensions[i] {
        case Alpn(protocols) =>
          var common := Intersection(protocols, offered);
          allowed := allowed + common;
          if allowed != protocols {
            notes := notes + [RESTRICTED];
          }
          extensions[i] := Alpn(allowed);
        case _ =>
          assert Allowed(was[..i + 1], offered) == Allowed(was[..i], offered);
      }
    }
    assert was[..extensions.Length] == was;
  }

  lemma NotesStart(extensions: seq<Extension>, offered: Protocols)
    ensures Notes(extensions, 0, offered) == []
  {
  }

  lemma NotesNext(extensions: seq<Extension>, i: nat, offered: Protocols)
    requires i < |extensions|
    ensures Notes(extensions, i + 1, offered) == Notes(extensions, i, offered) +
              if extensions[i].Alpn? && Allowed(extensions[..i + 1], offered) != extensions[i].protocols then [RESTRICTED] else []
  {
  }

  /** Lines 65-87: keep what may stay, moving it down in the same array; the first `count` entries are the result. */
  method KeepInPlace(extensions: array<Extension>, ghost was: seq<Extension>, ghost offered: Protocols, allowed: Protocols)
    returns (count: nat, removals: seq<string>)
    requires |was| == extensions.Length
    requires forall i :: 0 <= i < |was| ==>
               extensions[i] == if was[i].Alpn? then Alpn(Allowed(was[..i + 1], offered)) else was[i]
    modifies extensions
    ensures count <= extensions.Length && extensions[..count] == Filtered(was, |was|, offered, allowed)
    ensures removals == Removals(was, |was|, allowed)
  {
    hide Allowed, Common;
    count, removals := 0, [];
    for i := 0 to extensions.Length
      invariant count <= i
      invariant extensions[..count] == Filtered(was, i, offered, allowed)
      invariant removals == Removals(was, i, allowed)
      invariant forall k :: i <= k < extensions.Length ==>
                  extensions[k] == if was[k].Alpn? then Alpn(Allowed(was[..k + 1], offered)) else was[k]
    {
      var e := extensions[i];
      var keep := true;
      match e {
        case Alpn(_) =>
          keep := allowed != [];
        case Alps(protocols) =>
          var common := Intersection(protocols, allowed);
          e := Alps(common);
          keep := common != [];
        case AlpsNew(protocols) =>
          var common := Intersection(protocols, allowed);
          e := AlpsNew(common);
          keep := common != [];
        case Other(_) =>
      }
      assert Kept(was, i, offered, allowed) == if keep then Some(e) else None;
      if !keep && !e.Alpn? {
        removals := removals + [REMOVED];
      }
      if keep {
        ghost var before := extensions[..count];
        extensions[count] := e;
        count := count + 1;
        assert extensions[..count] == before + [e];
      }
    }
  }

  /** The emitted extensions in compatible mode, or None for "no common application protocol". */
  function Emitted(extensions: seq<Extension>, offered: Protocols): Option<seq<Extension>> {
    var allowed := Allowed(extensions, offered);
    if offered != [] && allowed == [] then None
    else Some(Filtered(extensions, |extensions|, offered, allowed))
  }

  function Modifications(extensions: seq<Extension>, offered: Protocols): seq<string> {
    Notes(extensions, |extensions|, offered) + Removals(extensions, |extensions|, Allowed(extensions, offered))
  }

  /** New, lines 46-88, in compatible mode. */
  method Restrict(extensions: array<Extension>, offered: Protocols) returns (count: Option<nat>, modifications: seq<string>)
    modifies extensions
    ensures count.Some? <==> Emitted(old(extensions[..]), offered).Some?
    ensures count.Some? ==> count.value <= extensions.Length
    ensures count.Some? ==> extensions[..count.value] == Emitted(old(extensions[..]), offered).value
    ensures count.Some? ==> modifications == Modifications(old(extensions[..]), offered)
  {
    hide Allowed, Filtered, Notes, Removals;
    ghost var was := extensions[..];
    var allowed, notes := RestrictAlpn(extensions, offered);
    if |offered| > 0 && |allowed| == 0 {
      return None, [];
    }
    var n, removals := KeepInPlace(extensions, was, offered, allowed);
    return Some(n), notes + removals;
  }

  // ---------------------------------------------------------------------------
  // What the filter keeps
  // ---------------------------------------------------------------------------

  function Others(extensions: seq<Extension>): seq<nat> {
    if extensions == [] then []
    else
      var last := extensions[|extensions| - 1];
      Others(extensions[..|extensions| - 1]) + if last.Other? then [last.id] else []
  }

  lemma KeptSort(extensions: seq<Extension>, i: nat, offered: Protocols, allowed: Protocols)
    requires i < |extensions|
    ensures var k := Kept(extensions, i, offered, allowed);
            && (extensions[i].Other? ==> k == Some(extensions[i]))
            && (k.Some? ==> (k.value.Other? <==> extensions[i].Other?) && (k.value.Alpn? <==> extensions[i].Alpn?))
  {
    hide Allowed, Common;
  }

  lemma FilteredNext(extensions: seq<Extension>, n: nat, offered: Protocols, allowed: Protocols)
    requires n < |extensions|
    ensures var k := Kept(extensions, n, offered, allowed);
            var front := Filtered(extensions, n, offered, allowed);
            Filtered(extensions, n + 1, offered, allowed) == if k.Some? then front + [k.value] else front
  {
    hide Kept;
  }

  lemma OthersLast(extensions: seq<Extension>, e: Extension)
    ensures Others(extensions + [e]) == Others(extensions) + if e.Other? then [e.id] else []
  {
    assert (extensions + [e])[..|extensions|] == extensions;
  }

  lemma NothingFirst(extensions: seq<Extension>, offered: Protocols, allowed: Protocols)
    ensures Filtered(extensions, 0, offered, allowed) == [] && Others([]) == [] && WireProtocols([]) == []
    ensures Notes(extensions, 0, offered) == [] && Removals(extensions, 0, allowed) == []
  {
  }

  /** Every extension without protocols stays, in its order. */
  lemma {:induction false} OthersStay(extensions: seq<Extension>, n: nat, offered: Protocols, allowed: Protocols)
    requires n <= |extensions|
    ensures Others(Filtered(extensions, n, offered, allowed)) == Others(extensions[..n])
  {
    hide Kept, Filtered, Others;
    NothingFirst(extensions, offered, allowed);
    if n > 0 {
      OthersStay(extensions, n - 1, offered, allowed);
      KeptSort(extensions, n - 1, offered, allowed);
      FilteredNext(extensions, n - 1, offered, allowed);
      assert extensions[..n] == extensions[..n - 1] + [extensions[n - 1]];
      OthersLast(extensions[..n - 1], extensions[n - 1]);
      var k := Kept(extensions, n - 1, offered, allowed);
      if k.Some? {
        OthersLast(Filtered(extensions, n - 1, offered, allowed), k.value);
      }
    } else {
      assert extensions[..0] == [];
    }
  }

  lemma {:induction false} AllowedMembers(extensions: seq<Extension>, offered: Protocols, p: string)
    ensures p in Allowed(extensions, offered) <==> p in offered && exists e :: e in extensions && e.Alpn? && p in e.protocols
  {
    if extensions != [] {
      var front, last := extensions[..|extensions| - 1], extensions[|extensions| - 1];
      AllowedMembers(front, offered, p);
      assert extensions == front + [last];
      if last.Alpn? {
        CommonMembers(last.protocols, offered, p);
      }
    }
  }

  lemma {:induction false} FilteredMembers(extensions: seq<Extension>, n: nat, offered: Protocols, allowed: Protocols, e: Extension)
    requires n <= |extensions| && e in Filtered(extensions, n, offered, allowed)
    ensures exists i: nat :: i < n && Kept(extensions, i, offered, allowed) == Some(e)
  {
    var k := Kept(extensions, n - 1, offered, allowed);
    if k != Some(e) {
      FilteredMembers(extensions, n - 1, offered, allowed, e);
    }
  }

  lemma {:induction false} AllowedGrows(extensions: seq<Extension>, i: nat, offered: Protocols)
    requires i <= |extensions|
    ensures Allowed(extensions[..i], offered) <= Allowed(extensions, offered)
    decreases |extensions|
  {
    if i < |extensions| {
      var front := extensions[..|extensions| - 1];
      assert front[..i] == extensions[..i];
      AllowedGrows(front, i, offered);
    } else {
      assert extensions[..i] == extensions;
    }
  }

  /**
   * In an emitted ClientHello every protocol, in ALPN or application settings, was offered by the
   * client and supported by the profile's ALPN, no list is empty unless ALPN was, and the other
   * extensions are the profile's in their order.
   */
  lemma EmittedIsWithinBoth(extensions: seq<Extension>, offered: Protocols)
    requires Emitted(extensions, offered).Some?
    ensures var out := Emitted(extensions, offered).value;
            && Others(out) == Others(extensions)
            && (forall e, p :: e in out && !e.Other? && p in e.protocols ==> p in offered && p in Allowed(extensions, offered))
            && (forall e :: e in out && (e.Alps? || e.AlpsNew?) ==> e.protocols != [])
            && (Allowed(extensions, offered) == [] ==> forall e :: e in out ==> e.Other?)
  {
    var allowed := Allowed(extensions, offered);
    var out := Emitted(extensions, offered).value;
    OthersStay(extensions, |extensions|, offered, allowed);
    assert extensions[..|extensions|] == extensions;
    forall e | e in out
      ensures !e.Other? ==> forall p :: p in e.protocols ==> p in offered && p in allowed
      ensures e.Alps? || e.AlpsNew? ==> e.protocols != []
      ensures allowed == [] ==> e.Other?
    {
      KeptIsWithinBoth(extensions, offered, e);
    }
  }

  /** What becomes of each extension, by its kind. */
  lemma KeptExactly(extensions: seq<Extension>, k: nat, offered: Protocols, allowed: Protocols)
    requires k < |extensions|
    ensures var e, kept := extensions[k], Kept(extensions, k, offered, allowed);
            && (e.Other? ==> kept == Some(e))
            && (e.Alpn? ==> kept == if allowed == [] then None else Some(Alpn(Allowed(extensions[..k + 1], offered))))
            && (e.Alps? || e.AlpsNew? ==> (kept.Some? <==> exists p :: p in e.protocols && p in allowed))
            && (e.Alps? && kept.Some? ==> kept == Some(Alps(Common(e.protocols, allowed))))
            && (e.AlpsNew? && kept.Some? ==> kept == Some(AlpsNew(Common(e.protocols, allowed))))
  {
    hide Allowed, Common;
    var e := extensions[k];
    if e.Alps? || e.AlpsNew? {
      forall p
        ensures p in Common(e.protocols, allowed) <==> p in e.protocols && p in allowed
      {
        CommonMembers(e.protocols, allowed, p);
      }
      var common := Common(e.protocols, allowed);
      assert common != [] ==> common[0] in common;
    }
  }

  ghost predicate PlacesOf(out: seq<Extension>, extensions: seq<Extension>, ks: seq<nat>, offered: Protocols, allowed: Protocols) {
    |ks| == |out| && forall i :: 0 <= i < |ks| ==> ks[i] < |extensions| && Kept(extensions, ks[i], offered, allowed) == Some(out[i])
  }

  ghost predicate AllKept(extensions: seq<Extension>, n: nat, ks: seq<nat>, offered: Protocols, allowed: Protocols)
    requires n <= |extensions|
  {
    forall k: nat :: k < n && Kept(extensions, k, offered, allowed).Some? ==> k in ks
  }

  /** The emitted extensions are exactly the kept ones, in the profile's order. */
  lemma {:induction false} FilteredInOrder(extensions: seq<Extension>, n: nat, offered: Protocols, allowed: Protocols) returns (ks: seq<nat>)
    requires n <= |extensions|
    ensures Increasing(ks) && Below(ks, n)
    ensures PlacesOf(Filtered(extensions, n, offered, allowed), extensions, ks, offered, allowed)
    ensures AllKept(extensions, n, ks, offered, allowed)
  {
    hide Kept, Filtered, Increasing;
    if n == 0 {
      NothingFirst(extensions, offered, allowed);
      NoneIncreasing();
      ks := [];
    } else {
      ks := FilteredInOrder(extensions, n - 1, offered, allowed);
      FilteredNext(extensions, n - 1, offered, allowed);
      IncreasingSnoc(ks, n - 1);
      if Kept(extensions, n - 1, offered, allowed).Some? {
        PlacesSnoc(Filtered(extensions, n - 1, offered, allowed), extensions, ks, n - 1, offered, allowed);
        hide PlacesOf, Below;
        ks := ks + [n - 1];
      }
    }
  }

  lemma NoneIncreasing()
    ensures Increasing([]) && Below([], 0)
  {
  }

  lemma PlacesSnoc(out: seq<Extension>, extensions: seq<Extension>, ks: seq<nat>, k: nat, offered: Protocols, allowed: Protocols)
    requires PlacesOf(out, extensions, ks, offered, allowed) && k < |extensions| && Kept(extensions, k, offered, allowed).Some?
    ensures PlacesOf(out + [Kept(extensions, k, offered, allowed).value], extensions, ks + [k], offered, allowed)
  {
    hide Kept;
  }

  lemma KeptProtocols(extensions: seq<Extension>, i: nat, offered: Protocols, allowed: Protocols, e: Extension)
    requires i < |extensions| && Kept(extensions, i, offered, allowed) == Some(e)
    ensures e.Other? <==> extensions[i].Other?
    ensures e.Alpn? ==> allowed != [] && e.protocols == Allowed(extensions[..i + 1], offered)
    ensures e.Alps? || e.AlpsNew? ==> e.protocols == Common(extensions[i].protocols, allowed) && e.protocols != []
  {
    hide Allowed, Common;
  }

  lemma KeptIsWithinBoth(extensions: seq<Extension>, offered: Protocols, e: Extension)
    requires e in Filtered(extensions, |extensions|, offered, Allowed(extensions, offered))
    ensures var allowed := Allowed(extensions, offered);
            && (!e.Other? ==> forall p :: p in e.protocols ==> p in offered && p in allowed)
            && (e.Alps? || e.AlpsNew? ==> e.protocols != [])
            && (allowed == [] ==> e.Other?)
  {
    hide Filtered, Kept, Allowed, Common;
    var allowed := Allowed(extensions, offered);
    FilteredMembers(extensions, |extensions|, offered, allowed, e);
    var i: nat :| i < |extensions| && Kept(extensions, i, offered, allowed) == Some(e);
    KeptProtocols(extensions, i, offered, allowed, e);
    AllowedGrows(extensions, i + 1, offered);
    if !e.Other? {
      forall p | p in e.protocols
        ensures p in offered && p in allowed
      {
        AllowedMembers(extensions, offered, p);
        if !e.Alpn? {
          CommonMembers(extensions[i].protocols, allowed, p);
        }
      }
      if allowed == [] {
        CommonMembers(extensions[i].protocols, allowed, e.protocols[0]);
      }
    }
  }

  // ---------------------------------------------------------------------------
  // Profiles with one ALPN extension
  // ---------------------------------------------------------------------------

  const H2 := "h2"
  const HTTP11 := "http/1.1"

  /** Both registered profiles, lines 20-25: one ALPN extension, with these protocols. */
  ghost predicate Registered(extensions: seq<Extension>) {
    exists i :: 0 <= i < |extensions| && OnlyAlpn(extensions, i) && extensions[i] == Alpn([H2, HTTP11])
  }

  ghost predicate OnlyAlpn(extensions: seq<Extension>, i: int)
    requires 0 <= i < |extensions|
  {
    extensions[i].Alpn? && forall k :: 0 <= k < |extensions| && k != i ==> !extensions[k].Alpn?
  }

  lemma {:induction false} AllowedWithoutAlpn(extensions: seq<Extension>, offered: Protocols)
    requires forall k :: 0 <= k < |extensions| ==> !extensions[k].Alpn?
    ensures Allowed(extensions, offered) == []
  {
    if extensions != [] {
      AllowedWithoutAlpn(extensions[..|extensions| - 1], offered);
    }
  }

  lemma {:induction false} AllowedIsCommon(extensions: seq<Extension>, i: nat, offered: Protocols)
    requires i < |extensions| && OnlyAlpn(extensions, i)
    ensures Allowed(extensions, offered) == Common(extensions[i].protocols, offered)
    decreases |extensions|
  {
    hide Common;
    var front := extensions[..|extensions| - 1];
    if i == |extensions| - 1 {
      AllowedWithoutAlpn(front, offered);
    } else {
      AllowedIsCommon(front, i, offered);
    }
  }

  /** The ALPN list on the wire; empty also when the extension is missing. */
  function WireProtocols(extensions: seq<Extension>): Protocols {
    if extensions == [] then []
    else if extensions[|extensions| - 1].Alpn? then extensions[|extensions| - 1].protocols
    else WireProtocols(extensions[..|extensions| - 1])
  }

  lemma {:induction false} WireOfFiltered(extensions: seq<Extension>, i: nat, n: nat, offered: Protocols, allowed: Protocols)
    requires i < |extensions| && OnlyAlpn(extensions, i) && n <= |extensions| && allowed == Allowed(extensions, offered)
    ensures WireProtocols(Filtered(extensions, n, offered, allowed)) == if i < n then allowed else []
  {
    hide Common, Allowed, WireProtocols, Filtered, Kept;
    NothingFirst(extensions, offered, allowed);
    if n > 0 {
      WireOfFiltered(extensions, i, n - 1, offered, allowed);
      FilteredNext(extensions, n - 1, offered, allowed);
      KeptSort(extensions, n - 1, offered, allowed);
      KeptAlpn(extensions, i, offered);
      var k := Kept(extensions, n - 1, offered, allowed);
      if k.Some? {
        WireLast(Filtered(extensions, n - 1, offered, allowed), k.value);
      }
    }
  }

  lemma KeptAlpn(extensions: seq<Extension>, i: nat, offered: Protocols)
    requires i < |extensions| && OnlyAlpn(extensions, i)
    ensures Allowed(extensions[..i + 1], offered) == Allowed(extensions, offered)
    ensures var allowed := Allowed(extensions, offered);
            Kept(extensions, i, offered, allowed) == if allowed == [] then None else Some(Alpn(allowed))
  {
    hide Common, Allowed;
    AllowedIsCommon(extensions, i, offered);
    AllowedIsCommon(extensions[..i + 1], i, offered);
  }

  lemma WireLast(extensions: seq<Extension>, e: Extension)
    ensures WireProtocols(extensions + [e]) == if e.Alpn? then e.protocols else WireProtocols(extensions)
  {
    assert (extensions + [e])[..|extensions|] == extensions;
  }

  /** With one ALPN extension the wire carries the profile's protocols that were offered, and application settings only for those. */
  lemma SettingsWithinWireAlpn(extensions: seq<Extension>, i: nat, offered: Protocols)
    requires i < |extensions| && OnlyAlpn(extensions, i) && Emitted(extensions, offered).Some?
    ensures var out := Emitted(extensions, offered).value;
            && WireProtocols(out) == Common(extensions[i].protocols, offered)
            && forall e, p :: e in out && (e.Alps? || e.AlpsNew?) && p in e.protocols ==> p in WireProtocols(out)
  {
    hide Filtered, Allowed, Common, WireProtocols;
    AllowedIsCommon(extensions, i, offered);
    WireOfFiltered(extensions, i, |extensions|, offered, Allowed(extensions, offered));
    EmittedIsWithinBoth(extensions, offered);
  }

  // ---------------------------------------------------------------------------
  // Negotiation
  // ---------------------------------------------------------------------------

  /** RFC 7301, section 3.2: a server picks one of the client's protocols or leaves the extension out. */
  predicate MaySelect(wire: Protocols, negotiated: string) {
    negotiated == "" || negotiated in wire
  }

  /** Compatible, lines 104-109. */
  predicate Compatible(negotiated: string, offered: Protocols) {
    if negotiated == "" then offered == [] || HTTP11 in offered
    else negotiated in offered && (negotiated == H2 || negotiated == HTTP11)
  }

  datatype Mode = Exact | CompatibleMode

  datatype Upstream = NoCommonProtocol | AlpnMismatch | UnsupportedAlps | Connected(negotiated: string)

  /** The ClientHello of New. */
  function Hello(mode: Mode, extensions: seq<Extension>, offered: Protocols): Option<seq<Extension>> {
    if mode.CompatibleMode? then Emitted(extensions, offered) else Some(extensions)
  }

  /** handshakeUpstream, lines 64-80, with the origin's selection and its application settings. */
  function Handshake(mode: Mode, extensions: seq<Extension>, offered: Protocols, selected: string, settings: bool): Upstream {
    if Hello(mode, extensions, offered).None? then NoCommonProtocol
    else if !Compatible(selected, offered) then AlpnMismatch
    else if settings then UnsupportedAlps
    else Connected(selected)
  }

  ghost predicate Obeys(mode: Mode, extensions: seq<Extension>, offered: Protocols, selected: string) {
    var hello := Hello(mode, extensions, offered);
    hello.None? || MaySelect(WireProtocols(hello.value), selected)
  }

  function Offered(p: string, offered: Protocols): Protocols {
    if p in offered then [p] else []
  }

  lemma CommonOfTwo(a: string, b: string, offered: Protocols)
    ensures Common([a, b], offered) == Offered(a, offered) + Offered(b, offered)
  {
    assert [a, b][..1] == [a] && [a][..0] == [];
    assert Common([a], offered) == Offered(a, offered);
  }

  /** What a registered profile puts on the wire in compatible mode. */
  lemma RegisteredWire(extensions: seq<Extension>, offered: Protocols)
    requires Registered(extensions)
    ensures var hello := Hello(CompatibleMode, extensions, offered);
            var wire := Offered(H2, offered) + Offered(HTTP11, offered);
            && (hello.None? <==> offered != [] && wire == [])
            && (hello.Some? ==> WireProtocols(hello.value) == wire)
  {
    var i :| 0 <= i < |extensions| && OnlyAlpn(extensions, i) && extensions[i] == Alpn([H2, HTTP11]);
    hide Filtered, Allowed, Common, WireProtocols, OnlyAlpn;
    AllowedIsCommon(extensions, i, offered);
    CommonOfTwo(H2, HTTP11, offered);
    WireOfFiltered(extensions, i, |extensions|, offered, Allowed(extensions, offered));
  }

  /**
   * With a registered profile and an origin that follows RFC 7301, compatible mode meets
   * alpn_mismatch exactly when the origin selects nothing and the client offered h2 without http/1.1.
   */
  lemma CompatibleModeMismatch(extensions: seq<Extension>, offered: Protocols, selected: string, settings: bool)
    requires Registered(extensions) && Obeys(CompatibleMode, extensions, offered, selected)
    ensures Handshake(CompatibleMode, extensions, offered, selected, settings) == AlpnMismatch <==>
              selected == "" && H2 in offered && HTTP11 !in offered
    ensures Handshake(CompatibleMode, extensions, offered, selected, settings) == NoCommonProtocol <==>
              offered != [] && H2 !in offered && HTTP11 !in offered
  {
    hide Registered, Hello, WireProtocols;
    RegisteredWire(extensions, offered);
    OfferedPair(offered, selected);
  }

  /** The whole of a handshake in compatible mode with such an origin. */
  lemma CompatibleHandshake(extensions: seq<Extension>, offered: Protocols, selected: string, settings: bool)
    requires Registered(extensions) && Obeys(CompatibleMode, extensions, offered, selected)
    ensures Handshake(CompatibleMode, extensions, offered, selected, settings) ==
            if offered != [] && H2 !in offered && HTTP11 !in offered then NoCommonProtocol
            else if selected == "" && H2 in offered && HTTP11 !in offered then AlpnMismatch
            else if settings then UnsupportedAlps
            else Connected(selected)
  {
    hide Registered, Obeys;
    CompatibleModeMismatch(extensions, offered, selected, settings);
  }

  /** And in exact mode. */
  lemma ExactHandshake(extensions: seq<Extension>, offered: Protocols, selected: string, settings: bool)
    requires Registered(extensions) && Obeys(Exact, extensions, offered, selected)
    ensures Handshake(Exact, extensions, offered, selected, settings) ==
            if (if selected == "" then offered != [] && HTTP11 !in offered else selected !in offered) then AlpnMismatch
            else if settings then UnsupportedAlps
            else Connected(selected)
  {
    hide Registered, Obeys;
    ExactModeMismatch(extensions, offered, selected, settings);
  }

  lemma OfferedPair(offered: Protocols, selected: string)
    ensures var wire := Offered(H2, offered) + Offered(HTTP11, offered);
            && (wire == [] <==> H2 !in offered && HTTP11 !in offered)
            && (selected in wire <==> selected in offered && (selected == H2 || selected == HTTP11))
    ensures H2 != "" && HTTP11 != ""
  {
  }

  /** In exact mode the origin may also pick a protocol of the profile that the client never offered. */
  lemma ExactModeMismatch(extensions: seq<Extension>, offered: Protocols, selected: string, settings: bool)
    requires Registered(extensions) && Obeys(Exact, extensions, offered, selected)
    ensures Handshake(Exact, extensions, offered, selected, settings) == AlpnMismatch <==>
              if selected == "" then offered != [] && HTTP11 !in offered else selected !in offered
  {
    var i :| 0 <= i < |extensions| && OnlyAlpn(extensions, i) && extensions[i] == Alpn([H2, HTTP11]);
    WireOfOnly(extensions, i);
  }

  lemma {:induction false} WireOfOnly(extensions: seq<Extension>, i: nat)
    requires i < |extensions| && OnlyAlpn(extensions, i)
    ensures WireProtocols(extensions) == extensions[i].protocols
    decreases |extensions|
  {
    if i < |extensions| - 1 {
      WireOfOnly(extensions[..|extensions| - 1], i);
    }
  }

  /** The downstream configuration, server.go lines 366-369. */
  function Downstream(negotiated: string): Protocols {
    if negotiated == "" then [] else [negotiated]
  }

  /** A TLS server with these protocols: nothing without protocols on either side, else one of both lists where there is one. */
  ghost predicate ServerAgrees(protocols: Protocols, offered: Protocols, result: string) {
    if protocols == [] || offered == [] then result == ""
    else if exists p :: p in protocols && p in offered then result in protocols && result in offered
    else result == ""
  }

  /** Whenever the upstream leg is accepted, the client leg negotiates the same protocol: the check at server.go line 377 cannot fail. */
  lemma LegsAgree(mode: Mode, extensions: seq<Extension>, offered: Protocols, selected: string, settings: bool, result: string)
    requires Handshake(mode, extensions, offered, selected, settings).Connected?
    requires ServerAgrees(Downstream(selected), offered, result)
    ensures result == selected && (selected == "" || selected == H2 || selected == HTTP11)
  {
    hide Hello;
    if selected != "" {
      assert selected in Downstream(selected) && selected in offered;
    }
  }

  // ---------------------------------------------------------------------------
  // Reported modifications
  // ---------------------------------------------------------------------------

  ghost predicate SettingsWithin(extensions: seq<Extension>, protocols: Protocols) {
    forall k, p :: 0 <= k < |extensions| && (extensions[k].Alps? || extensions[k].AlpsNew?) && p in extensions[k].protocols ==> p in protocols
  }

  /**
   * For a profile with one nonempty ALPN list that covers its nonempty application settings, the
   * list of modifications is empty exactly when the ClientHello is the profile's own.
   */
  lemma ModificationsAreReported(extensions: seq<Extension>, i: nat, offered: Protocols)
    requires i < |extensions| && OnlyAlpn(extensions, i) && extensions[i].protocols != []
    requires SettingsWithin(extensions, extensions[i].protocols)
    requires forall k :: 0 <= k < |extensions| && (extensions[k].Alps? || extensions[k].AlpsNew?) ==> extensions[k].protocols != []
    requires Emitted(extensions, offered).Some?
    ensures Modifications(extensions, offered) == [] <==> Emitted(extensions, offered).value == extensions
  {
    var allowed := Allowed(extensions, offered);
    AllowedIsCommon(extensions, i, offered);
    if allowed == extensions[i].protocols {
      NothingRestricted(extensions, i, offered, allowed);
    } else {
      RestrictionNoted(extensions, i, |extensions|, offered);
      WireOfFiltered(extensions, i, |extensions|, offered, allowed);
      WireOfOnly(extensions, i);
    }
  }

  /** Extensions that are all kept as they are. */
  lemma {:induction false} KeptWholly(extensions: seq<Extension>, n: nat, offered: Protocols, allowed: Protocols)
    requires n <= |extensions|
    requires forall k: nat :: k < n ==> Kept(extensions, k, offered, allowed) == Some(extensions[k])
    ensures Filtered(extensions, n, offered, allowed) == extensions[..n]
  {
    hide Filtered, Kept;
    NothingFirst(extensions, offered, allowed);
    if n > 0 {
      KeptWholly(extensions, n - 1, offered, allowed);
      FilteredNext(extensions, n - 1, offered, allowed);
      assert extensions[..n] == extensions[..n - 1] + [extensions[n - 1]];
    }
  }

  lemma {:induction false} NothingNoted(extensions: seq<Extension>, n: nat, offered: Protocols, allowed: Protocols)
    requires n <= |extensions|
    requires forall k: nat :: k < n && extensions[k].Alpn? ==> Allowed(extensions[..k + 1], offered) == extensions[k].protocols
    requires forall k: nat :: k < n && (extensions[k].Alps? || extensions[k].AlpsNew?) ==> Common(extensions[k].protocols, allowed) != []
    ensures Notes(extensions, n, offered) == [] && Removals(extensions, n, allowed) == []
  {
    hide Allowed, Common;
    if n > 0 {
      NothingNoted(extensions, n - 1, offered, allowed);
    }
  }

  lemma NothingRestricted(extensions: seq<Extension>, i: nat, offered: Protocols, allowed: Protocols)
    requires i < |extensions| && OnlyAlpn(extensions, i)
    requires allowed == Allowed(extensions, offered) == extensions[i].protocols != []
    requires SettingsWithin(extensions, allowed)
    requires forall k :: 0 <= k < |extensions| && (extensions[k].Alps? || extensions[k].AlpsNew?) ==> extensions[k].protocols != []
    ensures Filtered(extensions, |extensions|, offered, allowed) == extensions
    ensures Notes(extensions, |extensions|, offered) == [] && Removals(extensions, |extensions|, allowed) == []
  {
    hide Common, Allowed, Filtered, Kept, Notes, Removals, SettingsWithin;
    KeptAlpn(extensions, i, offered);
    forall k: nat | k < |extensions|
      ensures Kept(extensions, k, offered, allowed) == Some(extensions[k])
      ensures extensions[k].Alpn? ==> Allowed(extensions[..k + 1], offered) == extensions[k].protocols
      ensures extensions[k].Alps? || extensions[k].AlpsNew? ==> Common(extensions[k].protocols, allowed) != []
    {
      if k != i {
        KeptWhole(extensions, k, offered, allowed);
      }
    }
    KeptWholly(extensions, |extensions|, offered, allowed);
    NothingNoted(extensions, |extensions|, offered, allowed);
    assert extensions[..|extensions|] == extensions;
  }

  lemma KeptWhole(extensions: seq<Extension>, k: nat, offered: Protocols, allowed: Protocols)
    requires k < |extensions| && !extensions[k].Alpn? && SettingsWithin(extensions, allowed)
    requires extensions[k].Alps? || extensions[k].AlpsNew? ==> extensions[k].protocols != []
    ensures Kept(extensions, k, offered, allowed) == Some(extensions[k])
    ensures extensions[k].Alps? || extensions[k].AlpsNew? ==> Common(extensions[k].protocols, allowed) != []
  {
    hide Common;
    if !extensions[k].Other? {
      CommonOfAll(extensions[k].protocols, allowed);
    }
  }

  lemma {:induction false} RestrictionNoted(extensions: seq<Extension>, i: nat, n: nat, offered: Protocols)
    requires i < n <= |extensions| && OnlyAlpn(extensions, i) && Allowed(extensions, offered) != extensions[i].protocols
    ensures Notes(extensions, n, offered) != []
  {
    hide Allowed, Notes;
    NotesNext(extensions, n - 1, offered);
    if n - 1 == i {
      KeptAlpn(extensions, i, offered);
    } else {
      RestrictionNoted(extensions, i, n - 1, offered);
    }
  }
}
