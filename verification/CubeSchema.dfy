/** The cube-encoded benchmark tables: a clock is the box from the origin to its entries, with
    the row key as an extra first coordinate, and a trigger keeps one bounding box per key.
    Coordinates are integers here; the cube extension stores floating-point numbers. */
module CubeSchema {
  import opened Clocks
  import opened CausalPresent
  import opened Options
  import opened History
  import opened ArraySchema

  // ---- the cube operators -------------------------------------------------------------

  datatype Cube = Cube(ll: seq<int>, ur: seq<int>)

  /** `cube -> j`, counting from 1: the lower-left corner, then the upper-right one. */
  function Coord(c: Cube, j: int): int
    requires |c.ll| == |c.ur| && 1 <= j <= 2 * |c.ll|
  {
    if j <= |c.ll| then c.ll[j - 1] else c.ur[j - 1 - |c.ll|]
  }

  /** `a @> b`. */
  predicate Contains(a: Cube, b: Cube) {
    && |a.ll| == |a.ur| == |b.ll| == |b.ur|
    && forall i :: 0 <= i < |a.ll| ==> a.ll[i] <= b.ll[i] && b.ur[i] <= a.ur[i]
  }

  /** `cube(array[...])`: a single point. */
  function Point(p: seq<int>): Cube {
    Cube(p, p)
  }

  function Min(a: int, b: int): int {
    if a < b then a else b
  }

  /** `cube_union` of boxes of one dimension. */
  function Union(a: Cube, b: Cube): Cube
    requires |a.ll| == |a.ur| == |b.ll| == |b.ur|
  {
    Cube(seq(|a.ll|, i requires 0 <= i < |a.ll| => Min(a.ll[i], b.ll[i])),
         seq(|a.ll|, i requires 0 <= i < |a.ll| => Max(a.ur[i], b.ur[i])))
  }

  /** The union is the smallest box with both in it. */
  lemma UnionIsLeastBox(a: Cube, b: Cube, c: Cube)
    requires |a.ll| == |a.ur| == |b.ll| == |b.ur|
    ensures Contains(Union(a, b), a) && Contains(Union(a, b), b)
    ensures Contains(c, Union(a, b)) <==> Contains(c, a) && Contains(c, b)
  {
    if Contains(c, a) && Contains(c, b) {
      forall i | 0 <= i < |c.ll| ensures c.ll[i] <= Union(a, b).ll[i] && Union(a, b).ur[i] <= c.ur[i] { }
    }
    if Contains(c, Union(a, b)) {
      var u := Union(a, b);
      forall i | 0 <= i < |c.ll|
        ensures c.ll[i] <= a.ll[i] && a.ur[i] <= c.ur[i] && c.ll[i] <= b.ll[i] && b.ur[i] <= c.ur[i]
      {
        assert c.ll[i] <= u.ll[i] && u.ur[i] <= c.ur[i];
      }
    }
  }

  function Zeros(n: nat): seq<int> {
    seq(n, _ => 0)
  }

  // ---- encoding -----------------------------------------------------------------------

  datatype BoxRow = BoxRow(k: int, v: int, lts: Cube)

  function Encode(k: int, c: Clock): Cube {
    Cube([k] + Zeros(|c|), [k] + c)
  }

  function EncodeRow(r: Row<int, int>): BoxRow {
    BoxRow(r.k, r.v, Encode(r.k, r.lts))
  }

  function EncodeTable(t: Table): seq<BoxRow> {
    seq(|t|, i requires 0 <= i < |t| => EncodeRow(t[i]))
  }

  /** `array[lts->n+3, ...]`: back from a box to the clock. */
  function Decode(c: Cube, n: nat): Clock
    requires |c.ll| == |c.ur| == n + 1
  {
    seq(n, i requires 0 <= i < n => Coord(c, n + 3 + i))
  }

  /** Populate builds both corner points entry by entry. */
  method BuildBox(r: Row<int, int>) returns (box: Cube)
    ensures box == Encode(r.k, r.lts)
  {
    var llPoint, urPoint: seq<int> := [], [];
    for i := 0 to |r.lts|
      invariant llPoint == Zeros(i)
    {
      llPoint := llPoint + [0];
    }
    llPoint := [r.k] + llPoint;
    for i := 0 to |r.lts|
      invariant urPoint == r.lts[..i]
    {
      urPoint := urPoint + [r.lts[i]];
    }
    urPoint := [r.k] + urPoint;
    box := Cube(llPoint, urPoint);
  }

  /** One box for every row. */
  method BuildBoxes(rs: Table) returns (boxes: seq<BoxRow>)
    ensures boxes == EncodeTable(rs)
  {
    boxes := [];
    for i := 0 to |rs|
      invariant boxes == EncodeTable(rs[..i])
    {
      var box := BuildBox(rs[i]);
      boxes := boxes + [BoxRow(rs[i].k, rs[i].v, box)];
      assert rs[..i + 1] == rs[..i] + [rs[i]];
    }
    assert rs[..|rs|] == rs;
  }

  ghost predicate NonNegative(t: Table) {
    forall r, i :: r in t && 0 <= i < |r.lts| ==> 0 <= r.lts[i]
  }

  lemma DecodeEncode(k: int, c: Clock)
    ensures Decode(Encode(k, c), |c|) == c
  {
    forall i | 0 <= i < |c| ensures Decode(Encode(k, c), |c|)[i] == c[i] {
      assert Coord(Encode(k, c), |c| + 3 + i) == Encode(k, c).ur[i + 1];
    }
  }

  /** Containment of boxes of one key is the clock order. */
  lemma ContainsIsLte(k: int, a: Clock, b: Clock)
    requires |a| == |b|
    ensures Contains(Encode(k, b), Encode(k, a)) <==> Lte(a, b)
    ensures Encode(k, a) == Encode(k, b) <==> a == b
  {
    var x, y := Encode(k, a), Encode(k, b);
    if Contains(y, x) {
      forall i | 0 <= i < |a| ensures a[i] <= b[i] { assert x.ur[i + 1] <= y.ur[i + 1]; }
    }
    DecodeEncode(k, a);
    DecodeEncode(k, b);
  }

  // ---- the queries --------------------------------------------------------------------

  /** The point tested for site i: the key, and the bound's entry i between zeros. */
  function CubePoint(bound: Cube, n: nat, i: nat): seq<int>
    requires |bound.ll| == |bound.ur| == n + 1 && i < n
  {
    [Coord(bound, n + 2)] + Zeros(i) + [Coord(bound, n + 3 + i)] + Zeros(n - i - 1)
  }

  predicate Matches(bound: Cube, r: BoxRow, n: nat, i: nat) {
    |bound.ll| == |bound.ur| == n + 1 && i < n && Contains(r.lts, Point(CubePoint(bound, n, i)))
  }

  /** The `union` of the per-site selections; the key comes from the bound, not from the row. */
  function PotentialBoxes(maxes: map<int, Cube>, t: seq<BoxRow>, n: nat): set<BoxRow> {
    set k, r | k in maxes && r in t && (exists i :: 0 <= i < n && Matches(maxes[k], r, n, i)) :: BoxRow(k, r.v, r.lts)
  }

  function SelfJoinBoxes(p: set<BoxRow>): set<(BoxRow, bool)> {
    set a, b | a in p && b in p && a.k == b.k && a.lts != b.lts :: (a, !Contains(b.lts, a.lts))
  }

  function ReadBoxes(maxes: map<int, Cube>, t: seq<BoxRow>, n: nat): set<BoxRow> {
    GroupHaving(SelfJoinBoxes(PotentialBoxes(maxes, t, n)))
  }

  /** `max(lts->j)` over the rows of a key. */
  function CoordMax(t: seq<BoxRow>, k: int, j: int): Option<int> {
    if t == [] then None
    else
      var init, r := t[..|t| - 1], t[|t| - 1];
      var rest := CoordMax(init, k, j);
      if r.k != k || |r.lts.ll| != |r.lts.ur| || j < 1 || j > 2 * |r.lts.ll| then rest
      else match rest
        case None => Some(Coord(r.lts, j))
        case Some(m) => Some(Max(m, Coord(r.lts, j)))
  }

  /** m bounds coordinate j over the key's rows and is reached. */
  ghost predicate IsCoordMax(t: seq<BoxRow>, k: int, d: nat, j: int, m: int) {
    && (forall r :: r in t && r.k == k && |r.lts.ll| == |r.lts.ur| == d && 1 <= j <= 2 * d ==> Coord(r.lts, j) <= m)
    && (exists r :: r in t && r.k == k && |r.lts.ll| == |r.lts.ur| == d && 1 <= j <= 2 * d && Coord(r.lts, j) == m)
  }

  /** For every coordinate of either corner, over boxes of one dimension. */
  lemma {:induction false} CoordMaxIs(t: seq<BoxRow>, k: int, d: nat, j: int)
    requires 1 <= j <= 2 * d && forall r :: r in t ==> |r.lts.ll| == |r.lts.ur| == d
    ensures CoordMax(t, k, j).None? <==> forall r :: r in t ==> r.k != k
    ensures CoordMax(t, k, j).Some? ==> IsCoordMax(t, k, d, j, CoordMax(t, k, j).value)
  {
    if t != [] {
      var init, r := t[..|t| - 1], t[|t| - 1];
      assert forall x :: x in t <==> x in init || x == r;
      CoordMaxIs(init, k, d, j);
    }
  }

  function Value(o: Option<int>): int {
    match o case Some(x) => x case None => 0
  }

  /** The bound recomputed from the whole table, as Populate computes it. */
  function Bound(t: seq<BoxRow>, k: int, n: nat): Cube {
    Cube([k] + Zeros(n), seq(n + 1, i requires 0 <= i < n + 1 => Value(CoordMax(t, k, n + 2 + i))))
  }

  /** `select array[max(lts->n+2), ...]`: unlike the other encodings, the key comes first. */
  function CurrTimeBoxes(t: seq<BoxRow>, k: int, n: nat): seq<Option<int>> {
    seq(n + 1, i requires 0 <= i < n + 1 => CoordMax(t, k, n + 2 + i))
  }

  lemma {:induction false} CoordMaxIsColMax(t: Table, k: int, n: nat, i: nat)
    requires Width(t, n) && i < n
    ensures CoordMax(EncodeTable(t), k, n + 3 + i) == ColMax(t, k, i)
    ensures CoordMax(EncodeTable(t), k, n + 2) == if HasKey(t, k) then Some(k) else None
  {
    if t != [] {
      var init, r := t[..|t| - 1], t[|t| - 1];
      assert t == init + [r] && EncodeTable(t)[..|t| - 1] == EncodeTable(init);
      assert Width(init, n) && |r.lts| == n;
      CoordMaxIsColMax(init, k, n, i);
      ColMaxSnoc(init, r, k, i);
      assert HasKey(t, k) <==> HasKey(init, k) || r.k == k;
      EncodedCoords(r, n, i);
    }
  }

  lemma EncodedCoords(r: Row<int, int>, n: nat, i: nat)
    requires |r.lts| == n && i < n
    ensures var c := EncodeRow(r).lts;
            |c.ll| == |c.ur| == n + 1 && Coord(c, n + 2) == r.k && Coord(c, n + 3 + i) == r.lts[i]
  {
  }

  lemma {:induction false} ColMaxSnoc(t: Table, r: Row<int, int>, k: int, i: nat)
    ensures ColMax(t + [r], k, i) ==
            if r.k != k || |r.lts| <= i then ColMax(t, k, i)
            else if ColMax(t, k, i).None? then Some(r.lts[i])
            else Some(Max(ColMax(t, k, i).value, r.lts[i]))
  {
    if t != [] {
      assert (t + [r])[1..] == t[1..] + [r];
      ColMaxSnoc(t[1..], r, k, i);
    } else {
      assert (t + [r])[1..] == [];
    }
  }

  lemma CurrTimeBoxesAddsKey(t: Table, k: int, n: nat)
    requires Width(t, n) && n > 0 && HasKey(t, k)
    ensures CurrTimeBoxes(EncodeTable(t), k, n) == [Some(k)] + CurrTime(t, k, n)
  {
    forall i | 0 <= i < n ensures CurrTimeBoxes(EncodeTable(t), k, n)[i + 1] == CurrTime(t, k, n)[i] {
      CoordMaxIsColMax(t, k, n, i);
    }
    CoordMaxIsColMax(t, k, n, 0);
  }

  // ---- both encodings read the same rows ----------------------------------------------

  /** Every kept bound is the one recomputed from the table. */
  ghost predicate TightBounds(maxes: map<int, Cube>, t: Table, n: nat) {
    forall k :: k in maxes ==> HasKey(t, k) && maxes[k] == Bound(EncodeTable(t), k, n)
  }

  /** p is the point with the given key, entry m at site i and zeros elsewhere. */
  ghost predicate IsPointOf(p: seq<int>, n: nat, k: int, i: nat, m: int) {
    && |p| == n + 1 && p[0] == k
    && forall j :: 0 < j < |p| ==> p[j] == if j == i + 1 then m else 0
  }

  /** A box contains the point of site i iff it has that key and its entry i is large enough. */
  lemma ContainsPoint(key: int, c: Clock, k: int, m: int, i: nat, p: seq<int>)
    requires i < |c| && 0 <= m && forall j :: 0 <= j < |c| ==> 0 <= c[j]
    requires IsPointOf(p, |c|, k, i, m)
    ensures Contains(Encode(key, c), Point(p)) <==> key == k && m <= c[i]
  {
    var box := Encode(key, c);
    assert forall j :: 0 < j < |p| ==> box.ll[j] == 0 && box.ur[j] == c[j - 1];
    if Contains(box, Point(p)) {
      assert box.ll[0] <= p[0] <= box.ur[0] && p[i + 1] <= box.ur[i + 1];
    }
  }

  lemma BoundEntry(t: Table, k: int, n: nat, i: nat)
    requires Width(t, n) && HasKey(t, k) && i < n
    ensures ColMax(t, k, i).Some?
    ensures IsPointOf(CubePoint(Bound(EncodeTable(t), k, n), n, i), n, k, i, ColMax(t, k, i).value)
  {
    CoordMaxIsColMax(t, k, n, i);
    ColMaxIsMaximum(t, k, i, n);
    var bound := Bound(EncodeTable(t), k, n);
    assert bound.ur[i + 1] == Value(CoordMax(EncodeTable(t), k, n + 2 + (i + 1)));
    assert bound.ur[0] == Value(CoordMax(EncodeTable(t), k, n + 2 + 0)) == k;
    PointOfBound(bound, n, i);
  }

  lemma PointOfBound(bound: Cube, n: nat, i: nat)
    requires |bound.ll| == |bound.ur| == n + 1 && i < n
    ensures IsPointOf(CubePoint(bound, n, i), n, bound.ur[0], i, bound.ur[i + 1])
  {
  }

  /** The point query of site i holds of exactly the key's rows reaching the maximum of site i. */
  lemma MatchesIsReachesMax(maxes: map<int, Cube>, t: Table, n: nat, k: int, r: Row<int, int>, i: nat)
    requires Width(t, n) && NonNegative(t) && TightBounds(maxes, t, n)
    requires k in maxes && r in t && i < n
    ensures Matches(maxes[k], EncodeRow(r), n, i) <==> r.k == k && ReachesMax(t, r, i)
  {
    BoundEntry(t, k, n, i);
    ColMaxIsMaximum(t, k, i, n);
    var m := ColMax(t, k, i).value;
    var q :| q in t && q.k == k && |q.lts| == n && q.lts[i] == m;
    ContainsPoint(r.k, r.lts, k, m, i, CubePoint(maxes[k], n, i));
  }

  lemma RowsOfEncoding(t: Table)
    ensures forall b :: b in EncodeTable(t) <==> exists r :: r in t && b == EncodeRow(r)
  {
    forall r | r in t ensures EncodeRow(r) in EncodeTable(t) {
      var i :| 0 <= i < |t| && t[i] == r;
      assert EncodeTable(t)[i] == EncodeRow(r);
    }
  }

  lemma PotentialBoxesMembers(maxes: map<int, Cube>, t: Table, n: nat, r: Row<int, int>)
    requires Width(t, n) && NonNegative(t) && TightBounds(maxes, t, n) && |r.lts| == n
    ensures EncodeRow(r) in PotentialBoxes(maxes, EncodeTable(t), n) <==>
            r.k in maxes && r in PotentialMax(t, r.k, n)
  {
    var p, e := PotentialBoxes(maxes, EncodeTable(t), n), EncodeTable(t);
    RowsOfEncoding(t);
    if EncodeRow(r) in p {
      var k, b :| k in maxes && b in e && (exists i :: 0 <= i < n && Matches(maxes[k], b, n, i)) &&
          EncodeRow(r) == BoxRow(k, b.v, b.lts);
      var i :| 0 <= i < n && Matches(maxes[k], b, n, i);
      var q :| q in t && b == EncodeRow(q);
      MatchesIsReachesMax(maxes, t, n, k, q, i);
      ContainsIsLte(k, q.lts, r.lts);
      assert q == r;
    }
    if r.k in maxes && r in PotentialMax(t, r.k, n) {
      var i :| 0 <= i < n && ReachesMax(t, r, i);
      MatchesIsReachesMax(maxes, t, n, r.k, r, i);
    }
  }

  lemma PotentialBoxesAreEncoded(maxes: map<int, Cube>, t: Table, n: nat, b: BoxRow) returns (r: Row<int, int>)
    requires Width(t, n) && NonNegative(t) && TightBounds(maxes, t, n)
    requires b in PotentialBoxes(maxes, EncodeTable(t), n)
    ensures b == EncodeRow(r) && |r.lts| == n && r.k in maxes && r in PotentialMax(t, r.k, n)
  {
    RowsOfEncoding(t);
    var e := EncodeTable(t);
    var k, x :| k in maxes && x in e && (exists i :: 0 <= i < n && Matches(maxes[k], x, n, i)) &&
        b == BoxRow(k, x.v, x.lts);
    var i :| 0 <= i < n && Matches(maxes[k], x, n, i);
    r :| r in t && x == EncodeRow(r);
    MatchesIsReachesMax(maxes, t, n, k, r, i);
  }

  lemma ReadBoxesMembers(maxes: map<int, Cube>, t: seq<BoxRow>, n: nat, r: BoxRow)
    ensures r in ReadBoxes(maxes, t, n) <==>
            && r in PotentialBoxes(maxes, t, n)
            && (exists b :: b in PotentialBoxes(maxes, t, n) && b.k == r.k && b.lts != r.lts)
            && (forall b :: b in PotentialBoxes(maxes, t, n) && b.k == r.k && b.lts != r.lts ==>
                !Contains(b.lts, r.lts))
  {
    var p := PotentialBoxes(maxes, t, n);
    GroupHavingOf(SelfJoinBoxes(p), r);
    JoinedBox(p, r, true);
    JoinedBox(p, r, false);
  }

  lemma JoinedBox(p: set<BoxRow>, r: BoxRow, flag: bool)
    ensures (r, flag) in SelfJoinBoxes(p) <==>
            r in p && exists b :: b in p && b.k == r.k && b.lts != r.lts && Contains(b.lts, r.lts) == !flag
  {
    if (r, flag) in SelfJoinBoxes(p) {
      var a, b :| a in p && b in p && a.k == b.k && a.lts != b.lts && (a, !Contains(b.lts, a.lts)) == (r, flag);
      assert b in p && b.k == r.k;
    }
  }

  /** The cube query returns exactly the encodings of the rows the array query returns. */
  lemma CubeReadIsArrayRead(maxes: map<int, Cube>, t: Table, n: nat, r: Row<int, int>)
    requires Width(t, n) && NonNegative(t) && TightBounds(maxes, t, n) && |r.lts| == n
    ensures EncodeRow(r) in ReadBoxes(maxes, EncodeTable(t), n) <==> r.k in maxes && r in ReadKey(t, r.k, n)
  {
    var p := PotentialBoxes(maxes, EncodeTable(t), n);
    PotentialBoxesMembers(maxes, t, n, r);
    ReadBoxesMembers(maxes, EncodeTable(t), n, EncodeRow(r));
    ReadKeyMembers(t, r.k, n, r);
    if r.k in maxes {
      forall q | q in PotentialMax(t, r.k, n)
        ensures EncodeRow(q) in p && (q.lts != r.lts <==> EncodeRow(q).lts != EncodeRow(r).lts)
        ensures Contains(EncodeRow(q).lts, EncodeRow(r).lts) <==> Lte(r.lts, q.lts)
      {
        PotentialBoxesMembers(maxes, t, n, q);
        ContainsIsLte(r.k, r.lts, q.lts);
      }
      forall b | b in p && b.k == r.k ensures exists q :: q in PotentialMax(t, r.k, n) && b == EncodeRow(q) {
        var q := PotentialBoxesAreEncoded(maxes, t, n, b);
      }
    }
  }

  function DecodeRow(b: BoxRow, n: nat): Row<int, int> {
    Row(b.k, b.v, if |b.lts.ll| == |b.lts.ur| == n + 1 then Decode(b.lts, n) else [])
  }

  /** The outer projection of the query turns the boxes back into clocks. */
  function ReadRows(maxes: map<int, Cube>, t: seq<BoxRow>, n: nat): set<Row<int, int>> {
    set b | b in ReadBoxes(maxes, t, n) :: DecodeRow(b, n)
  }

  /** Over tight bounds the cube encoding and the array encoding read the same rows. */
  lemma CubeReadEqualsArrayRead(maxes: map<int, Cube>, t: Table, n: nat)
    requires Width(t, n) && NonNegative(t) && TightBounds(maxes, t, n)
    ensures ReadRows(maxes, EncodeTable(t), n) == ReadAll(t, maxes.Keys, n)
  {
    var boxes := ReadBoxes(maxes, EncodeTable(t), n);
    forall k, r | k in maxes && r in ReadKey(t, k, n) ensures r in ReadRows(maxes, EncodeTable(t), n) {
      ReadKeyMembers(t, k, n, r);
      CubeReadIsArrayRead(maxes, t, n, r);
      DecodeEncode(r.k, r.lts);
      assert EncodeRow(r) in boxes && DecodeRow(EncodeRow(r), n) == r;
    }
    forall b | b in boxes ensures DecodeRow(b, n) in ReadAll(t, maxes.Keys, n) {
      ReadBoxesMembers(maxes, EncodeTable(t), n, b);
      var r := PotentialBoxesAreEncoded(maxes, t, n, b);
      CubeReadIsArrayRead(maxes, t, n, r);
      DecodeEncode(r.k, r.lts);
      assert DecodeRow(b, n) == r;
    }
  }

  // ---- the trigger --------------------------------------------------------------------

  /** `update MaxCubes set max_cube = cube_union(max_cube, new.lts) where k = new.k`. */
  function Trigger(maxes: map<int, Cube>, r: BoxRow): map<int, Cube>
    requires r.k in maxes ==> |maxes[r.k].ll| == |maxes[r.k].ur| == |r.lts.ll| == |r.lts.ur|
  {
    if r.k in maxes then maxes[r.k := Union(maxes[r.k], r.lts)] else maxes
  }

  lemma BoundAfterInsert(t: Table, k: int, n: nat, r: Row<int, int>, j: nat)
    requires Width(t, n) && HasKey(t, k) && |r.lts| == n > 0 && j < n + 1
    ensures var e, b := EncodeTable(t), EncodeRow(r);
            var before := Value(CoordMax(e, k, n + 2 + j));
            Value(CoordMax(e + [b], k, n + 2 + j)) == if k == r.k then Max(before, b.lts.ur[j]) else before
  {
    var e, b := EncodeTable(t), EncodeRow(r);
    assert (e + [b])[..|e|] == e;
    CoordMaxIsColMax(t, k, n, if j == 0 then 0 else j - 1);
    if j > 0 { ColMaxIsMaximum(t, k, j - 1, n); }
    assert b.lts.ur[j] == Coord(b.lts, n + 2 + j);
  }

  /** The incremental bound equals the recomputed one after every insert. */
  lemma TriggerKeepsBounds(maxes: map<int, Cube>, t: Table, n: nat, r: Row<int, int>)
    requires Width(t, n) && TightBounds(maxes, t, n) && |r.lts| == n > 0
    ensures TightBounds(Trigger(maxes, EncodeRow(r)), t + [r], n)
  {
    var maxes', e, b := Trigger(maxes, EncodeRow(r)), EncodeTable(t), EncodeRow(r);
    assert EncodeTable(t + [r]) == e + [b];
    forall k | k in maxes' ensures HasKey(t + [r], k) && maxes'[k] == Bound(e + [b], k, n) {
      assert k in maxes && HasKey(t, k);
      var q :| q in t && q.k == k;
      assert q in t + [r];
      forall j | 0 <= j < n + 1 ensures Value(CoordMax(e + [b], k, n + 2 + j)) ==
                                        if k == r.k then Max(maxes[k].ur[j], b.lts.ur[j]) else maxes[k].ur[j] {
        BoundAfterInsert(t, k, n, r, j);
      }
      assert maxes'[k].ll == [k] + Zeros(n);
      assert maxes'[k].ur == Bound(e + [b], k, n).ur;
    }
  }

  /** `cube(lts->1.., lts->n+2.. with site 1 increased)`. */
  function NextBox(c: Cube, n: nat): Cube
    requires |c.ll| == |c.ur| == n + 1
  {
    Cube(seq(n + 1, i requires 0 <= i < n + 1 => Coord(c, i + 1)),
         seq(n + 1, i requires 0 <= i < n + 1 => if i == 1 then Coord(c, n + 2 + i) + 1 else Coord(c, n + 2 + i)))
  }

  lemma NextBoxIsAhead(k: int, c: Clock)
    requires |c| > 0
    ensures NextBox(Encode(k, c), |c|) == Encode(k, Ahead(c, 1))
  {
    var a, b := NextBox(Encode(k, c), |c|), Encode(k, Ahead(c, 1));
    var e := Encode(k, c);
    forall i | 0 <= i < |c| + 1 ensures a.ll[i] == b.ll[i] && a.ur[i] == b.ur[i] {
      assert Coord(e, i + 1) == e.ll[i] && Coord(e, |c| + 2 + i) == e.ur[i];
      assert i > 0 ==> e.ur[i] == c[i - 1];
    }
  }

  lemma StartingClocks(rs: Table, n: nat, cts: map<int, Clock>)
    requires Width(rs, n) && NonNegative(rs) && forall k :: k in cts ==> InTable(rs, k, cts[k])
    ensures TightBounds(BoundsOf(EncodeTable(rs), cts, n), rs, n)
    ensures forall k, i :: k in cts && 0 <= i < n ==> |cts[k]| == n && 0 <= cts[k][i]
  {
    forall k | k in cts ensures HasKey(rs, k) && |cts[k]| == n && forall i :: 0 <= i < n ==> 0 <= cts[k][i] {
      var r :| r in rs && r.k == k && r.lts == cts[k];
    }
  }

  lemma ReadOne(t: Table, keys: set<int>, k: int, n: nat)
    requires keys <= {k}
    ensures ReadAll(t, keys, n) == if k in keys then ReadKey(t, k, n) else {}
  {
  }

  /** Boxes, bounds and current boxes stand for an array-encoded table and current clocks. */
  ghost predicate Boxes(n: nat, rows: seq<BoxRow>, maxes: map<int, Cube>, now: map<int, Cube>, t: Table,
      clocks: map<int, Clock>) {
    && n > 0 && Width(t, n) && NonNegative(t) && rows == EncodeTable(t)
    && TightBounds(maxes, t, n)
    && SameKeys(clocks, now) && SameKeys(clocks, maxes)
    && (forall k :: k in clocks ==> |clocks[k]| == n && now[k] == Encode(k, clocks[k]))
    && (forall k, i :: k in clocks && 0 <= i < n ==> 0 <= clocks[k][i])
  }

  function StartBoxes(cts: map<int, Clock>): map<int, Cube> {
    map k | k in cts :: Encode(k, cts[k])
  }

  /** `select k, cube(max(...), ...)` of every key. */
  function BoundsOf(boxes: seq<BoxRow>, cts: map<int, Clock>, n: nat): map<int, Cube> {
    map k | k in cts :: Bound(boxes, k, n)
  }

  lemma BoxesStart(rs: Table, n: nat, cts: map<int, Clock>)
    requires n > 0 && Width(rs, n) && NonNegative(rs)
    requires forall k :: k in cts ==> StartsAt(rs, k, cts[k], n) && InTable(rs, k, cts[k])
    ensures Boxes(n, EncodeTable(rs), BoundsOf(EncodeTable(rs), cts, n), StartBoxes(cts), rs, cts)
    ensures Traced(n, StartTrace(rs, cts)) && BoundsOf(EncodeTable(rs), cts, n).Keys == cts.Keys
  {
    StartingClocks(rs, n, cts);
    NothingStored(rs, n, cts);
  }

  lemma BoxesInsert(n: nat, rows: seq<BoxRow>, maxes: map<int, Cube>, now: map<int, Cube>, t: Table,
      clocks: map<int, Clock>, r: Row<int, int>)
    requires Boxes(n, rows, maxes, now, t, clocks) && |r.lts| == n && forall i :: 0 <= i < n ==> 0 <= r.lts[i]
    ensures r.k in maxes ==> |maxes[r.k].ll| == |maxes[r.k].ur| == |EncodeRow(r).lts.ll| == |EncodeRow(r).lts.ur|
    ensures Boxes(n, rows + [EncodeRow(r)], Trigger(maxes, EncodeRow(r)), now, t + [r], clocks)
  {
    TriggerKeepsBounds(maxes, t, n, r);
    assert EncodeTable(t + [r]) == rows + [EncodeRow(r)];
    assert forall q :: q in t + [r] <==> q in t || q == r;
  }

  lemma BoxesNext(n: nat, rows: seq<BoxRow>, maxes: map<int, Cube>, now: map<int, Cube>, t: Table,
      clocks: map<int, Clock>, k: int)
    requires Boxes(n, rows, maxes, now, t, clocks) && k in now
    ensures k in clocks && |clocks[k]| == n > 0 && |now[k].ll| == |now[k].ur| == n + 1
    ensures NextBox(now[k], n) == Encode(k, Ahead(clocks[k], 1))
    ensures forall i :: 0 <= i < n ==> 0 <= Ahead(clocks[k], 1)[i]
    ensures Boxes(n, rows, maxes, now[k := NextBox(now[k], n)], t, clocks[k := Ahead(clocks[k], 1)])
  {
    NextBoxIsAhead(k, clocks[k]);
  }

  /** What the write transaction relies on: the new box is the box of the new clock. */
  lemma BoxesWrite(n: nat, rows: seq<BoxRow>, maxes: map<int, Cube>, now: map<int, Cube>, tr: Trace, k: int, v: int)
    requires Boxes(n, rows, maxes, now, tr.table, tr.clocks) && Traced(n, tr) && k in now
    ensures k in tr.clocks && k in tr.stored && |tr.clocks[k]| > 0 && |now[k].ll| == |now[k].ur| == n + 1
    ensures var after, box := AfterWrite(tr, k, v), NextBox(now[k], n);
            && Traced(n, after) && Boxes(n, rows, maxes, now[k := box], tr.table, after.clocks)
            && k in after.clocks && |after.clocks[k]| == n && box == Encode(k, after.clocks[k])
            && (forall i :: 0 <= i < n ==> 0 <= after.clocks[k][i])
            && after.table == tr.table + [Row(k, v, after.clocks[k])]
  {
    TraceWrite(n, tr, k, v);
    BoxesNext(n, rows, maxes, now, tr.table, tr.clocks, k);
  }

  /** CubeTimestamps, MaxCubes and CurrentTime; `trace` is the array-encoded state they stand for,
      with the populated rows, the starting clocks and the writes since. */
  class CubeTables {
    const sites: nat
    var rows: seq<BoxRow>
    var maxCubes: map<int, Cube>
    var currentTime: map<int, Cube>
    ghost var trace: Trace

    ghost predicate Valid()
      reads this
    {
      Encoded(trace.table, trace.clocks) && Traced(sites, trace)
    }

    ghost predicate Encoded(t: Table, clocks: map<int, Clock>)
      reads this
    {
      Boxes(sites, rows, maxCubes, currentTime, t, clocks)
    }

    /** Boxes for the rows, one tight bound per key, and one of the rows reaching the maximum of
        site 1 as the starting box of its key. */
    constructor Populate(rs: Table)
      requires rs != [] && |rs[0].lts| > 0 && Width(rs, |rs[0].lts|) && NonNegative(rs)
      ensures Valid() && sites == |rs[0].lts| && trace == StartTrace(rs, trace.start)
      ensures maxCubes.Keys == set r | r in rs :: r.k
      ensures forall k :: k in trace.start ==> InTable(rs, k, trace.start[k])
    {
      var n := |rs[0].lts|;
      sites := n;
      var boxes := BuildBoxes(rs);
      rows := boxes;
      var cts := ChooseStarts(rs, n);
      currentTime := StartBoxes(cts);
      maxCubes := BoundsOf(boxes, cts, n);
      BoxesStart(rs, n, cts);
      trace := StartTrace(rs, cts);
    }

    /** An insert fires the trigger; a key without a bound gets none. */
    method Insert(k: int, v: int, lts: Cube, ghost c: Clock, ghost t: Table, ghost clocks: map<int, Clock>)
      requires Encoded(t, clocks)
      requires |c| == sites && lts == Encode(k, c) && forall i :: 0 <= i < sites ==> 0 <= c[i]
      modifies this`rows, this`maxCubes
      ensures Encoded(t + [Row(k, v, c)], clocks)
      ensures rows == old(rows) + [BoxRow(k, v, lts)] && maxCubes == Trigger(old(maxCubes), BoxRow(k, v, lts))
    {
      BoxesInsert(sites, rows, maxCubes, currentTime, t, clocks, Row(k, v, c));
      rows := rows + [BoxRow(k, v, lts)];
      maxCubes := Trigger(maxCubes, BoxRow(k, v, lts));
    }

    /** The write transaction over boxes stores what the array encoding would store. */
    method WriteTxn(k: int, v: int) returns (ok: bool)
      requires Valid()
      modifies this
      ensures Valid() && (ok <==> k in old(trace).clocks)
      ensures ok ==> k in old(trace).stored && |old(trace).clocks[k]| > 0 && trace == AfterWrite(old(trace), k, v)
      ensures !ok ==> trace == old(trace)
    {
      if k !in currentTime {
        return false;
      }
      BoxesWrite(sites, rows, maxCubes, currentTime, trace, k, v);
      ghost var after := AfterWrite(trace, k, v);
      currentTime := currentTime[k := NextBox(currentTime[k], sites)];
      Insert(k, v, currentTime[k], after.clocks[k], trace.table, after.clocks);
      trace := after;
      return true;
    }

    /** The read query over boxes for the keys that have a bound, or one of them. */
    method ReadBoxesOf(key: Option<int>) returns (result: set<Row<int, int>>)
      requires Valid()
      ensures key.None? ==> result == ReadAll(trace.table, trace.clocks.Keys, sites)
      ensures key.Some? ==> result == if key.value in trace.clocks then ReadKey(trace.table, key.value, sites) else {}
    {
      var maxes := map k | k in maxCubes && (key.Some? ==> k == key.value) :: maxCubes[k];
      result := ReadRows(maxes, rows, sites);
      CubeReadEqualsArrayRead(maxes, trace.table, sites);
      KeysAreSame(trace.clocks, maxCubes);
      if key.Some? { ReadOne(trace.table, maxes.Keys, key.value, sites); }
    }

    /** The read statement for one key, with what any sequence of transactions makes of it. */
    method ReadKeyStatement(k: int) returns (result: set<Row<int, int>>)
      requires Valid()
      ensures result == if k in trace.clocks then ReadKey(trace.table, k, sites) else {}
      ensures k in trace.start ==> ExactIff(sites, trace, k, result)
    {
      result := ReadBoxesOf(Some(k));
      TraceReads(sites, trace);
    }

    /** The read statement for all keys. */
    method ReadAllStatement() returns (result: set<Row<int, int>>)
      requires Valid()
      ensures result == ReadAll(trace.table, trace.clocks.Keys, sites)
      ensures AllExactIff(sites, trace, result)
    {
      result := ReadBoxesOf(None);
      TraceReads(sites, trace);
    }
  }
}
