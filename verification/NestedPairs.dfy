/** Aggregates of pairs with distinct names do not depend on the order of the pairs. */
module NestedPairs {
  import opened Sequences
  import opened ListIds
  import opened NestedViews

  ghost predicate DistinctNames(ps: seq<Pair>) {
    forall i, j :: 0 <= i < j < |ps| ==> ps[i].0 != ps[j].0
  }

  lemma DistinctCons(p: Pair, ps: seq<Pair>)
    requires DistinctNames(ps) && forall x :: x in ps ==> x.0 != p.0
    ensures DistinctNames([p] + ps)
  {
  }

  lemma DistinctBag(a: seq<Pair>, b: seq<Pair>)
    requires multiset(a) == multiset(b) && DistinctNames(a)
    ensures DistinctNames(b)
  {
    BagMembers(a, b);
    forall i, j | 0 <= i < j < |b| ensures b[i].0 != b[j].0 {
      assert b[i] in a && b[j] in a;
      var k :| 0 <= k < |a| && a[k] == b[i];
      if b[i] == b[j] {
        TwiceCount(b, i, j);
        SingleCount(a, k);
      }
    }
  }

  lemma {:induction false} ObjOfMembers(ps: seq<Pair>, n: Text)
    requires DistinctNames(ps)
    ensures n in ObjOf(ps) <==> exists p :: p in ps && p.0 == n
    ensures n in ObjOf(ps) ==> (n, ObjOf(ps)[n]) in ps
    decreases |ps|
  {
    if ps != [] {
      var init, p := ps[..|ps| - 1], ps[|ps| - 1];
      assert ps == init + [p];
      ObjOfMembers(init, n);
    }
  }

  lemma SameName(ps: seq<Pair>, p: Pair, q: Pair)
    requires DistinctNames(ps) && p in ps && q in ps && p.0 == q.0
    ensures p == q
  {
  }

  lemma ObjOfBag(a: seq<Pair>, b: seq<Pair>)
    requires multiset(a) == multiset(b) && DistinctNames(a)
    ensures ObjOf(a) == ObjOf(b)
  {
    DistinctBag(a, b);
    BagMembers(a, b);
    forall n: Text ensures (n in ObjOf(a) <==> n in ObjOf(b)) &&
        (n in ObjOf(a) && n in ObjOf(b) ==> ObjOf(a)[n] == ObjOf(b)[n]) {
      ObjOfMembers(a, n);
      ObjOfMembers(b, n);
      if n in ObjOf(a) && n in ObjOf(b) {
        SameName(a, (n, ObjOf(a)[n]), (n, ObjOf(b)[n]));
      }
    }
  }

  /** Sorted pairs with distinct names have one order only. */
  lemma {:induction false} SortedIsUnique(a: seq<Pair>, b: seq<Pair>)
    requires multiset(a) == multiset(b) && DistinctNames(a) && SortedPairs(a) && SortedPairs(b)
    ensures a == b
    decreases |a|
  {
    BagMembers(a, b);
    if a != [] {
      assert a[0] in b && b[0] in a;
      var k :| 0 <= k < |a| && a[k] == b[0];
      var l :| 0 <= l < |b| && b[l] == a[0];
      assert k == 0 || !Less(b[0].0, a[0].0);
      assert l == 0 || !Less(a[0].0, b[0].0);
      LessIsTotal(a[0].0, b[0].0);
      assert a[0] == b[0];
      TailBag(a, b);
      SortedIsUnique(a[1..], b[1..]);
      assert a == [a[0]] + a[1..] && b == [b[0]] + b[1..];
    }
  }

  lemma SortBag(a: seq<Pair>, b: seq<Pair>)
    requires multiset(a) == multiset(b) && DistinctNames(a)
    ensures SortPairs(a) == SortPairs(b)
  {
    SortSorts(a);
    SortSorts(b);
    DistinctBag(a, SortPairs(a));
    SortedIsUnique(SortPairs(a), SortPairs(b));
  }

  /** A structure's value from its pairs in any order. */
  lemma CombineBag(v: View, leaf: bool, a: seq<Pair>, b: seq<Pair>)
    requires multiset(a) == multiset(b) && a != [] && b != []
    requires if HasSub(v) then DistinctNames(a) else IsSet(v) || (v.RegisterMvr? && !leaf) || |a| == 1
    ensures Combine(v, leaf, a) == Combine(v, leaf, b)
  {
    BagMembers(a, b);
    if IsMap(v) {
      ObjOfBag(a, b);
    } else if v.ListView? {
      SortBag(a, b);
    } else if IsSet(v) || (v.RegisterMvr? && !leaf) {
      MapBag((p: Pair) => p.1, a, b);
    } else {
      assert a[0] in b;
    }
  }
}
