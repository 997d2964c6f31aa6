/** Vector clocks: the order and the merge computed by the `clocks` extension,
    and the in-place merge of the benchmark's simulated sites. */
module Clocks {

  /** One counter per site. The arrays hold 64-bit integers; overflow is not modelled. */
  type Clock = seq<int>

  function Max(a: int, b: int): int {
    if a < b then b else a
  }

  /** Pointwise order. A longer clock is never below a shorter one. */
  predicate Lte(a: Clock, b: Clock) {
    |a| <= |b| && forall i :: 0 <= i < |a| ==> a[i] <= b[i]
  }

  /** Pointwise maximum, keeping the tail of the longer clock. */
  function Join(a: Clock, b: Clock): Clock {
    seq(Max(|a|, |b|), i requires 0 <= i < Max(|a|, |b|) =>
      if i < |a| && i < |b| then Max(a[i], b[i]) else if i < |a| then a[i] else b[i])
  }

  // ---- vclock_lte is a partial order --------------------------------------------------

  lemma LteTransitive(a: Clock, b: Clock, c: Clock)
    requires Lte(a, b) && Lte(b, c)
    ensures Lte(a, c)
  {
    forall i | 0 <= i < |a| ensures a[i] <= c[i] {
      assert a[i] <= b[i] <= c[i];
    }
  }

  lemma LteIsPartialOrder(a: Clock, b: Clock)
    ensures Lte(a, a)
    ensures Lte(a, b) && Lte(b, a) <==> a == b
  {
    if Lte(a, b) && Lte(b, a) {
      forall i | 0 <= i < |a| ensures a[i] == b[i] {
        assert a[i] <= b[i] && b[i] <= a[i];
      }
    }
  }

  // ---- vclock_max is its least upper bound --------------------------------------------

  lemma JoinIsLeastUpperBound(a: Clock, b: Clock, c: Clock)
    ensures Lte(a, Join(a, b)) && Lte(b, Join(a, b))
    ensures Lte(a, c) && Lte(b, c) <==> Lte(Join(a, b), c)
  {
    var j := Join(a, b);
    if Lte(j, c) {
      forall i | 0 <= i < |a| ensures a[i] <= c[i] { assert a[i] <= j[i] <= c[i]; }
      forall i | 0 <= i < |b| ensures b[i] <= c[i] { assert b[i] <= j[i] <= c[i]; }
    }
  }

  /** The semilattice laws, each read off the least-upper-bound property. */
  lemma JoinIsSemilattice(a: Clock, b: Clock, c: Clock)
    ensures Join(a, a) == a
    ensures Join(a, b) == Join(b, a)
    ensures Join(Join(a, b), c) == Join(a, Join(b, c))
    ensures Lte(a, b) <==> Join(a, b) == b
  {
    SameUpperBounds(Join(a, a), a) by {
      forall u ensures Lte(Join(a, a), u) <==> Lte(a, u) { JoinIsLeastUpperBound(a, a, u); }
    }
    SameUpperBounds(Join(a, b), Join(b, a)) by {
      forall u ensures Lte(Join(a, b), u) <==> Lte(Join(b, a), u) {
        JoinIsLeastUpperBound(a, b, u);
        JoinIsLeastUpperBound(b, a, u);
      }
    }
    SameUpperBounds(Join(Join(a, b), c), Join(a, Join(b, c))) by {
      forall u ensures Lte(Join(Join(a, b), c), u) <==> Lte(Join(a, Join(b, c)), u) {
        JoinIsLeastUpperBound(a, b, u);
        JoinIsLeastUpperBound(b, c, u);
        JoinIsLeastUpperBound(Join(a, b), c, u);
        JoinIsLeastUpperBound(a, Join(b, c), u);
      }
    }
    JoinIsLeastUpperBound(a, b, b);
    LteIsPartialOrder(b, b);
    LteIsPartialOrder(Join(a, b), b);
  }

  lemma SameUpperBounds(a: Clock, b: Clock)
    requires forall u :: Lte(a, u) <==> Lte(b, u)
    ensures a == b
  {
    LteIsPartialOrder(a, b);
    LteIsPartialOrder(b, a);
  }

  // ---- the loops ----------------------------------------------------------------------

  /** `vclock_lte`: early exit on length or on the first larger entry. */
  method VClockLte(v1: array<int>, v2: array<int>) returns (lte: bool)
    ensures lte <==> Lte(v1[..], v2[..])
  {
    if v1.Length > v2.Length {
      return false;
    }
    for i := 0 to v1.Length
      invariant forall j :: 0 <= j < i ==> v1[j] <= v2[j]
    {
      if v1[i] > v2[i] {
        assert v1[..][i] > v2[..][i];
        return false;
      }
    }
    return true;
  }

  /** `vclock_max`: fills a fresh array of the longer length. */
  method VClockMax(v1: array<int>, v2: array<int>) returns (result: array<int>)
    ensures fresh(result)
    ensures result[..] == Join(v1[..], v2[..])
  {
    var size := Max(v1.Length, v2.Length);
    result := new int[size];
    for i := 0 to size
      invariant forall j :: 0 <= j < i ==> result[j] == Join(v1[..], v2[..])[j]
    {
      if i < v1.Length && i < v2.Length {
        result[i] := Max(v1[i], v2[i]);
      } else if i < v1.Length {
        result[i] := v1[i];
      } else {
        result[i] := v2[i];
      }
    }
  }

  /** `MergeClocks` overwrites v1; indexing past the end of v2 would panic. */
  method MergeClocks(v1: array<int>, v2: array<int>)
    requires v1.Length <= v2.Length
    modifies v1
    ensures v1[..] == Join(old(v1[..]), old(v2[..v1.Length]))
    ensures v1.Length == v2.Length ==> v1[..] == Join(old(v1[..]), old(v2[..]))
  {
    for i := 0 to v1.Length
      invariant forall j :: 0 <= j < i ==> v1[j] == Max(old(v1[j]), old(v2[j]))
      invariant forall j :: i <= j < v1.Length ==> v1[j] == old(v1[j])
      invariant v1 != v2 ==> v2[..] == old(v2[..])
    {
      v1[i] := Max(v1[i], v2[i]);
    }
    ghost var j := Join(old(v1[..]), old(v2[..v1.Length]));
    assert |j| == v1.Length;
    assert forall i :: 0 <= i < v1.Length ==> v1[i] == j[i];
    assert v1.Length == v2.Length ==> old(v2[..v1.Length]) == old(v2[..]);
  }
}
