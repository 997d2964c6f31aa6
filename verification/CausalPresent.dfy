/** The causal present of a table of clocked rows, and the read query that computes it from
    the rows reaching a per-site maximum only. */
module CausalPresent {
  import opened Clocks
  import opened Options

  /** A table row: key, payload and vector clock. Tables are bags, listed in insertion order. */
  datatype Row<K, V> = Row(k: K, v: V, lts: Clock)

  ghost predicate Width<K, V>(t: seq<Row<K, V>>, n: nat) {
    forall r :: r in t ==> |r.lts| == n
  }

  predicate HasKey<K(==), V(==)>(t: seq<Row<K, V>>, k: K) {
    exists r :: r in t && r.k == k
  }

  // ---- the meaning: rows that no row of the same key supersedes -----------------------

  predicate Dominates<K(==), V>(q: Row<K, V>, r: Row<K, V>) {
    q.k == r.k && q.lts != r.lts && Lte(r.lts, q.lts)
  }

  predicate Undominated<K(==), V(==)>(t: seq<Row<K, V>>, r: Row<K, V>) {
    forall q :: q in t ==> !Dominates(q, r)
  }

  /** The causal present of one key. */
  function PresentOf<K(==), V(==)>(t: seq<Row<K, V>>, k: K): set<Row<K, V>> {
    set r | r in t && r.k == k && Undominated(t, r)
  }

  // ---- the query, stage by stage ------------------------------------------------------

  /** `max(lts[i + 1])` over the rows of a key; None is SQL's NULL over no rows. */
  function ColMax<K(==), V>(t: seq<Row<K, V>>, k: K, i: nat): Option<int> {
    if t == [] then None
    else
      var rest := ColMax(t[1..], k, i);
      if t[0].k != k || |t[0].lts| <= i then rest
      else match rest
        case None => Some(t[0].lts[i])
        case Some(m) => Some(Max(t[0].lts[i], m))
  }

  predicate ReachesMax<K(==), V>(t: seq<Row<K, V>>, r: Row<K, V>, i: nat) {
    i < |r.lts| && ColMax(t, r.k, i) == Some(r.lts[i])
  }

  /** The `union` of the per-site selections: rows reaching the maximum of some column. */
  function PotentialMax<K(==), V(==)>(t: seq<Row<K, V>>, k: K, n: nat): set<Row<K, V>> {
    set r | r in t && r.k == k && exists i :: 0 <= i < n && ReachesMax(t, r, i)
  }

  /** `join ... on t1.k = t2.k and t1.lts <> t2.lts`, keeping t1 and `not vclock_lte`. */
  function SelfJoin<K(==), V(==)>(p: set<Row<K, V>>): set<(Row<K, V>, bool)> {
    set a, b | a in p && b in p && a.k == b.k && a.lts != b.lts :: (a, !Lte(a.lts, b.lts))
  }

  /** `group by k, v, lts having bool_and(lte) = true`. */
  function GroupHaving<R(==)>(joined: set<(R, bool)>): set<R> {
    set x | x in joined && (forall y :: y in joined && y.0 == x.0 ==> y.1) :: x.0
  }

  function ReadKey<K(==), V(==)>(t: seq<Row<K, V>>, k: K, n: nat): set<Row<K, V>> {
    GroupHaving(SelfJoin(PotentialMax(t, k, n)))
  }

  /** `readAll`: the same query over every key of CurrentTime. */
  function ReadAll<K(==), V(==)>(t: seq<Row<K, V>>, keys: set<K>, n: nat): set<Row<K, V>> {
    set k, r | k in keys && r in ReadKey(t, k, n) :: r
  }

  /** The causal present of several keys. */
  function AllPresent<K(==), V(==)>(t: seq<Row<K, V>>, keys: set<K>): set<Row<K, V>> {
    set k, r | k in keys && r in PresentOf(t, k) :: r
  }

  // ---- what the stages compute --------------------------------------------------------

  lemma {:induction false} ColMaxIsMaximum<K, V>(t: seq<Row<K, V>>, k: K, i: nat, n: nat)
    requires Width(t, n) && i < n
    ensures ColMax(t, k, i).Some? <==> exists r :: r in t && r.k == k
    ensures forall r :: r in t && r.k == k ==>
              |r.lts| == n && ColMax(t, k, i).Some? && r.lts[i] <= ColMax(t, k, i).value
    ensures ColMax(t, k, i).Some? ==>
              exists r :: r in t && r.k == k && |r.lts| == n && r.lts[i] == ColMax(t, k, i).value
  {
    if t != [] {
      assert Width(t[1..], n) by { assert forall r :: r in t[1..] ==> r in t; }
      ColMaxIsMaximum(t[1..], k, i, n);
      assert t[0] in t && forall r :: r in t ==> r == t[0] || r in t[1..];
    }
  }

  lemma ReachesMaxIff<K, V>(t: seq<Row<K, V>>, r: Row<K, V>, i: nat, n: nat)
    requires Width(t, n) && i < n && r in t
    ensures ReachesMax(t, r, i) <==> forall q :: q in t && q.k == r.k ==> |q.lts| == n && q.lts[i] <= r.lts[i]
  {
    ColMaxIsMaximum(t, r.k, i, n);
  }

  ghost predicate TwoClocksKept<K, V>(t: seq<Row<K, V>>, k: K, n: nat) {
    exists a, b :: a in PotentialMax(t, k, n) && b in PotentialMax(t, k, n) && a.lts != b.lts
  }

  lemma ReadKeyMembers<K, V>(t: seq<Row<K, V>>, k: K, n: nat, r: Row<K, V>)
    ensures r in ReadKey(t, k, n) <==>
            && r in PotentialMax(t, k, n)
            && (exists b :: b in PotentialMax(t, k, n) && b.lts != r.lts)
            && (forall b :: b in PotentialMax(t, k, n) ==> !Dominates(b, r))
  {
    assert forall a, b :: a in PotentialMax(t, k, n) && b in PotentialMax(t, k, n) ==> a.k == b.k;
    JoinMembers(PotentialMax(t, k, n), r);
  }

  /** A grouped row only depends on its own joined rows. */
  lemma GroupHavingOf<R>(joined: set<(R, bool)>, r: R)
    ensures r in GroupHaving(joined) <==> (r, true) in joined && (r, false) !in joined
  {
    if (r, true) in joined && (r, false) !in joined {
      assert forall y :: y in joined && y.0 == (r, true).0 ==> y.1;
      assert (r, true).0 in GroupHaving(joined);
    }
  }

  lemma JoinedRow<K, V>(p: set<Row<K, V>>, r: Row<K, V>, flag: bool)
    ensures (r, flag) in SelfJoin(p) <==>
            r in p && exists b :: b in p && b.k == r.k && b.lts != r.lts && Lte(r.lts, b.lts) == !flag
  {
    if (r, flag) in SelfJoin(p) {
      var a, b :| a in p && b in p && a.k == b.k && a.lts != b.lts && (a, !Lte(a.lts, b.lts)) == (r, flag);
      assert b in p && b.k == r.k;
    }
  }

  /** The self-join and its grouping over any rows. */
  lemma JoinMembers<K, V>(p: set<Row<K, V>>, r: Row<K, V>)
    ensures r in GroupHaving(SelfJoin(p)) <==>
            r in p && (exists b :: b in p && b.k == r.k && b.lts != r.lts) && (forall b :: b in p ==> !Dominates(b, r))
  {
    GroupHavingOf(SelfJoin(p), r);
    JoinedRow(p, r, true);
    JoinedRow(p, r, false);
  }

  // ---- every row is below some undominated row ----------------------------------------

  lemma DominatesTransitive<K, V>(a: Row<K, V>, b: Row<K, V>, c: Row<K, V>)
    requires Dominates(a, b) && (Dominates(b, c) || b == c || (b.k == c.k && b.lts == c.lts))
    ensures Dominates(a, c)
  {
    if Dominates(b, c) {
      LteTransitive(c.lts, b.lts, a.lts);
      LteIsPartialOrder(b.lts, a.lts);
    }
  }

  function Dominators<K(==), V(==)>(t: seq<Row<K, V>>, r: Row<K, V>): set<Row<K, V>> {
    set q | q in t && Dominates(q, r)
  }

  /** Climbing the order ends at an undominated row of the same key. */
  lemma {:induction false} Climb<K, V>(t: seq<Row<K, V>>, r: Row<K, V>) returns (top: Row<K, V>)
    requires r in t
    ensures top in t && top.k == r.k && Undominated(t, top)
    ensures top == r || Dominates(top, r)
    decreases |Dominators(t, r)|
  {
    if Undominated(t, r) {
      top := r;
    } else {
      var q :| q in t && Dominates(q, r);
      forall x | x in Dominators(t, q) ensures x in Dominators(t, r) {
        DominatesTransitive(x, q, r);
      }
      assert q in Dominators(t, r) && q !in Dominators(t, q);
      SmallerSubset(Dominators(t, q), Dominators(t, r), q);
      top := Climb(t, q);
      if top != q { DominatesTransitive(top, q, r); }
    }
  }

  lemma SmallerSubset<T>(a: set<T>, b: set<T>, x: T)
    requires a <= b && x in b && x !in a
    ensures |a| < |b|
  {
    var rest := b - {x};
    assert a <= rest && |rest| == |b| - 1;
    SubsetSize(a, rest);
  }

  lemma {:induction false} SubsetSize<T>(a: set<T>, b: set<T>)
    requires a <= b
    ensures |a| <= |b|
  {
    if a != {} {
      var x :| x in a;
      SubsetSize(a - {x}, b - {x});
    }
  }

  // ---- exactness of the read query ----------------------------------------------------

  /** Every undominated row of the key reaches a maximum: what the query relies on. */
  ghost predicate Covered<K, V>(t: seq<Row<K, V>>, k: K, n: nat) {
    PresentOf(t, k) <= PotentialMax(t, k, n)
  }

  /** On any table at all the query is exact iff every undominated row reaches a maximum and
      the inner self-join finds two distinct clocks to pair (or there is nothing to read). */
  lemma ReadKeyExactIff<K, V>(t: seq<Row<K, V>>, k: K, n: nat)
    ensures ReadKey(t, k, n) == PresentOf(t, k) <==>
            Covered(t, k, n) && (!HasKey(t, k) || TwoClocksKept(t, k, n))
  {
    var p := PotentialMax(t, k, n);
    if Covered(t, k, n) && (!HasKey(t, k) || TwoClocksKept(t, k, n)) {
      forall r ensures r in ReadKey(t, k, n) <==> r in PresentOf(t, k) {
        ReadKeyMembers(t, k, n, r);
        if r in PresentOf(t, k) {
          assert HasKey(t, k);
          var a, b :| a in p && b in p && a.lts != b.lts;
          assert a.lts != r.lts || b.lts != r.lts;
        }
        if r in ReadKey(t, k, n) {
          var top := Climb(t, r);
          assert top in PresentOf(t, k);
        }
      }
    } else if ReadKey(t, k, n) == PresentOf(t, k) {
      forall r | r in PresentOf(t, k) ensures r in p { ReadKeyMembers(t, k, n, r); }
      if HasKey(t, k) {
        var r :| r in t && r.k == k;
        var top := Climb(t, r);
        assert top in ReadKey(t, k, n);
        ReadKeyMembers(t, k, n, top);
      }
    }
  }

  /** Reading all keys is exact iff reading each of them is. */
  lemma ReadAllExactIff<K, V>(t: seq<Row<K, V>>, keys: set<K>, n: nat)
    ensures ReadAll(t, keys, n) == AllPresent(t, keys) <==>
            forall k :: k in keys ==> ReadKey(t, k, n) == PresentOf(t, k)
  {
    forall k, r | k in keys ensures (r in ReadKey(t, k, n) <==> r in ReadAll(t, keys, n) && r.k == k) {
      ReadKeyMembers(t, k, n, r);
      if r in ReadAll(t, keys, n) {
        var k' :| k' in keys && r in ReadKey(t, k', n);
        ReadKeyMembers(t, k', n, r);
      }
    }
    assert forall k, r :: k in keys ==> (r in PresentOf(t, k) <==> r in AllPresent(t, keys) && r.k == k);
  }

  /** With a single clock kept the inner join is empty and nothing is read. */
  lemma ReadKeyEmptyWithoutTwoClocks<K, V>(t: seq<Row<K, V>>, k: K, n: nat)
    requires !TwoClocksKept(t, k, n)
    ensures ReadKey(t, k, n) == {}
  {
    forall r ensures r !in ReadKey(t, k, n) { ReadKeyMembers(t, k, n, r); }
  }

  /** The query is wrong on arbitrary clocks: (2,2) is undominated among (3,1) and (1,3) but
      reaches no column maximum. */
  lemma ReadKeyWrongOnArbitraryClocks()
    ensures var t := [Row(0, 1, [3, 1]), Row(0, 2, [1, 3]), Row(0, 3, [2, 2])];
            Row(0, 3, [2, 2]) in PresentOf(t, 0) && Row(0, 3, [2, 2]) !in ReadKey(t, 0, 2)
  {
    var t, r := [Row(0, 1, [3, 1]), Row(0, 2, [1, 3]), Row(0, 3, [2, 2])], Row(0, 3, [2, 2]);
    assert t[0] in t && t[1] in t && t[2] == r && r in t && Width(t, 2);
    assert Exceeds(t[0], r, 0) && Exceeds(t[1], r, 1);
    BeatenIsNotRead(t, r, 2);
    forall q | q in t ensures !Dominates(q, r) {
      assert q == t[0] || q == t[1] || q == t[2];
      assert t[0].lts[1] == 1 && t[1].lts[0] == 1 && r.lts[0] == 2 && r.lts[1] == 2;
    }
  }

  predicate Exceeds<K(==), V>(q: Row<K, V>, r: Row<K, V>, i: nat) {
    q.k == r.k && i < |q.lts| && i < |r.lts| && r.lts[i] < q.lts[i]
  }

  ghost predicate Beaten<K, V>(t: seq<Row<K, V>>, r: Row<K, V>, i: nat) {
    exists q :: q in t && Exceeds(q, r, i)
  }

  lemma BeatenIff<K, V>(t: seq<Row<K, V>>, r: Row<K, V>, i: nat, n: nat)
    requires Width(t, n) && r in t && i < n
    ensures ReachesMax(t, r, i) <==> !Beaten(t, r, i)
  {
    ReachesMaxIff(t, r, i, n);
    if !ReachesMax(t, r, i) {
      var q :| q in t && q.k == r.k && !(|q.lts| == n && q.lts[i] <= r.lts[i]);
      assert Exceeds(q, r, i);
    }
  }

  /** The selection drops exactly the rows that some row of their key exceeds in each column, and
      those are not read: whatever is undominated among them is lost. */
  lemma BeatenIsNotRead<K, V>(t: seq<Row<K, V>>, r: Row<K, V>, n: nat)
    requires Width(t, n) && r in t
    ensures r !in PotentialMax(t, r.k, n) <==> forall i :: 0 <= i < n ==> Beaten(t, r, i)
    ensures (forall i :: 0 <= i < n ==> Beaten(t, r, i)) ==> r !in ReadKey(t, r.k, n)
  {
    forall i | 0 <= i < n ensures ReachesMax(t, r, i) <==> !Beaten(t, r, i) { BeatenIff(t, r, i, n); }
    ReadKeyMembers(t, r.k, n, r);
  }

  // ---- currTime -----------------------------------------------------------------------

  /** `select array[max(lts[1]), ...] where k = ...`: one NULL-able maximum per site. */
  function CurrTime<K(==), V>(t: seq<Row<K, V>>, k: K, n: nat): seq<Option<int>> {
    seq(n, i requires 0 <= i < n => ColMax(t, k, i))
  }

  /** `vclock_max` folded over all rows of a key. */
  function JoinRows<K(==), V>(t: seq<Row<K, V>>, k: K): Clock {
    if t == [] then []
    else if t[0].k == k then Join(t[0].lts, JoinRows(t[1..], k))
    else JoinRows(t[1..], k)
  }

  lemma {:induction false} JoinRowsBounds<K, V>(t: seq<Row<K, V>>, k: K, u: Clock)
    ensures (forall r :: r in t && r.k == k ==> Lte(r.lts, u)) <==> Lte(JoinRows(t, k), u)
  {
    if t != [] {
      JoinRowsBounds(t[1..], k, u);
      assert forall r :: r in t <==> r == t[0] || r in t[1..];
      if t[0].k == k { JoinIsLeastUpperBound(t[0].lts, JoinRows(t[1..], k), u); }
    }
  }

  /** The query equals the fold of the pointwise maximum over all rows of the key. */
  lemma {:induction false} CurrTimeIsJoin<K, V>(t: seq<Row<K, V>>, k: K, n: nat)
    requires Width(t, n) && HasKey(t, k)
    ensures |JoinRows(t, k)| == n
    ensures CurrTime(t, k, n) == seq(n, i requires 0 <= i < n => Some(JoinRows(t, k)[i]))
  {
    var rest := t[1..];
    assert Width(rest, n) by { assert forall r :: r in rest ==> r in t; }
    assert |t[0].lts| == n;
    assert forall r :: r in t <==> r == t[0] || r in rest;
    if HasKey(rest, k) {
      CurrTimeIsJoin(rest, k, n);
      forall i | 0 <= i < n ensures ColMax(rest, k, i) == Some(JoinRows(rest, k)[i]) {
        assert CurrTime(rest, k, n)[i] == ColMax(rest, k, i);
      }
    } else {
      NoRowsNoMaximum(rest, k, n);
      assert t[0].k == k;
      assert JoinRows(t, k) == t[0].lts;
      forall i | 0 <= i < n ensures ColMax(t, k, i) == Some(t[0].lts[i]) {
        assert ColMax(rest, k, i) == None;
      }
    }
  }

  lemma {:induction false} NoRowsNoMaximum<K, V>(t: seq<Row<K, V>>, k: K, n: nat)
    requires !HasKey(t, k)
    ensures JoinRows(t, k) == [] && forall i: nat :: i < n ==> ColMax(t, k, i) == None
  {
    if t != [] {
      assert t[0] in t && forall r :: r in t[1..] ==> r in t;
      NoRowsNoMaximum(t[1..], k, n);
    }
  }

  /** Rows of t not superseded in u, in order. */
  function Keep<K(==), V(==)>(t: seq<Row<K, V>>, u: seq<Row<K, V>>): seq<Row<K, V>> {
    if t == [] then []
    else (if Undominated(u, t[0]) then [t[0]] else []) + Keep(t[1..], u)
  }

  lemma {:induction false} KeepMembers<K, V>(t: seq<Row<K, V>>, u: seq<Row<K, V>>)
    ensures forall r :: r in Keep(t, u) <==> r in t && Undominated(u, r)
  {
    if t != [] {
      KeepMembers(t[1..], u);
      assert forall r :: r in t <==> r == t[0] || r in t[1..];
    }
  }

  /** Dropping every superseded row does not change the current time. */
  lemma CurrTimeFromPresent<K, V>(t: seq<Row<K, V>>, k: K)
    ensures JoinRows(Keep(t, t), k) == JoinRows(t, k)
  {
    KeepMembers(t, t);
    SameUpperBounds(JoinRows(Keep(t, t), k), JoinRows(t, k)) by {
      forall u ensures Lte(JoinRows(Keep(t, t), k), u) <==> Lte(JoinRows(t, k), u) {
        JoinRowsBounds(t, k, u);
        JoinRowsBounds(Keep(t, t), k, u);
        if Lte(JoinRows(Keep(t, t), k), u) {
          forall r | r in t && r.k == k ensures Lte(r.lts, u) {
            var top := Climb(t, r);
            assert top in Keep(t, t);
            assert Lte(r.lts, top.lts);
            LteTransitive(r.lts, top.lts, u);
          }
        }
      }
    }
  }
}
