/** Positions picked from a sequence in its order. */
module Sequences {
  ghost predicate Increasing(ks: seq<nat>) {
    forall i, j :: 0 <= i < j < |ks| ==> ks[i] < ks[j]
  }

  ghost predicate Below(ks: seq<nat>, n: nat) {
    forall i :: 0 <= i < |ks| ==> ks[i] < n
  }

  lemma IncreasingSnoc(ks: seq<nat>, n: nat)
    requires Increasing(ks) && Below(ks, n)
    ensures Increasing(ks + [n]) && Below(ks + [n], n + 1) && Below(ks, n + 1)
  {
  }

  ghost predicate SameMembers(a: seq<nat>, b: seq<nat>) {
    forall k :: k in a <==> k in b
  }

  lemma {:induction false} SameElements(a: seq<nat>, b: seq<nat>)
    requires Increasing(a) && Increasing(b) && SameMembers(a, b)
    ensures a == b
    decreases |a|
  {
    hide Increasing, SameMembers;
    EmptyTogether(a, b);
    if a != [] {
      var x, y := a[..|a| - 1], b[..|b| - 1];
      LastIsMost(a, b);
      SameIsSymmetric(a, b);
      LastIsMost(b, a);
      FrontsAlike(a, b);
      SameElements(x, y);
      assert a == x + [a[|a| - 1]] && b == y + [b[|b| - 1]];
    }
  }

  lemma EmptyTogether(a: seq<nat>, b: seq<nat>)
    requires SameMembers(a, b)
    ensures a == [] <==> b == []
  {
    assert (b != [] ==> b[0] in b) && (a != [] ==> a[0] in a);
  }

  lemma SameIsSymmetric(a: seq<nat>, b: seq<nat>)
    requires SameMembers(a, b)
    ensures SameMembers(b, a)
  {
  }

  lemma LastIsMost(a: seq<nat>, b: seq<nat>)
    requires a != [] && b != [] && Increasing(b) && SameMembers(a, b)
    ensures a[|a| - 1] <= b[|b| - 1]
  {
    assert a[|a| - 1] in a;
    var i :| 0 <= i < |b| && b[i] == a[|a| - 1];
  }

  lemma FrontsAlike(a: seq<nat>, b: seq<nat>)
    requires a != [] && b != [] && Increasing(a) && Increasing(b) && SameMembers(a, b) && a[|a| - 1] == b[|b| - 1]
    ensures Increasing(a[..|a| - 1]) && Increasing(b[..|b| - 1]) && SameMembers(a[..|a| - 1], b[..|b| - 1])
  {
    var x, y := a[..|a| - 1], b[..|b| - 1];
    forall k
      ensures k in x <==> k in y
    {
      FrontIsOthers(a, k);
      FrontIsOthers(b, k);
    }
  }

  lemma FrontIsOthers(a: seq<nat>, k: nat)
    requires a != [] && Increasing(a)
    ensures k in a[..|a| - 1] <==> k in a && k != a[|a| - 1]
  {
    assert a == a[..|a| - 1] + [a[|a| - 1]];
  }
}
