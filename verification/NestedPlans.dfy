/** Evaluation of nested-view plans, and the proof that a compiled plan computes the nested
    values. */
module NestedPlans {
  import opened Sequences
  import opened ListIds
  import opened NestedViews
  import opened NestedJoins

  // ---- evaluation ---------------------------------------------------------------------

  type Tuple = map<Col, Json>

  function Get(r: Tuple, c: Col): Json {
    if c in r then r[c] else Str([])
  }

  function NameOf(j: Json): Text {
    match j case Str(t) => t case _ => []
  }

  function KeyOf(r: Tuple, cols: set<Col>): Tuple {
    map c | c in cols :: Get(r, c)
  }

  function PairsOf(key: Col, value: Col, g: seq<Tuple>): seq<Pair> {
    Map((r: Tuple) => (NameOf(Get(r, key)), Get(r, value)), g)
  }

  function Column(c: Col, g: seq<Tuple>): seq<Json> {
    Map((r: Tuple) => Get(r, c), g)
  }

  /** The aggregate of one group of rows. */
  function AggValue(agg: Agg, g: seq<Tuple>): Json
    requires g != []
  {
    match agg
    case ObjectAgg(k, v) => Obj(ObjOf(PairsOf(k, v, g)))
    case ArrayAgg(v) => Bag(multiset(Column(v, g)))
    case OrderedAgg(v, k) => Arr(Seconds(SortPairs(PairsOf(k, v, g))))
    case FirstOf(v) => Get(g[0], v)
  }

  /** The rows that agree with k on the given columns, or those that do not. */
  function Pick(cols: set<Col>, k: Tuple, yes: bool, rows: seq<Tuple>): seq<Tuple> {
    Filter((r: Tuple) => (KeyOf(r, cols) == k) == yes, rows)
  }

  lemma SplitGroup(cols: set<Col>, rows: seq<Tuple>)
    requires rows != []
    ensures var k := KeyOf(rows[0], cols);
            Pick(cols, k, true, rows) != [] && |Pick(cols, k, false, rows)| < |rows|
  {
    var k := KeyOf(rows[0], cols);
    FilterShrinks((r: Tuple) => (KeyOf(r, cols) == k) == false, rows);
    assert rows[0] in Pick(cols, k, true, rows);
  }

  /** `SELECT cols, agg AS data ... GROUP BY cols` over rows that come in the given order. */
  function GroupBy(cols: set<Col>, agg: Agg, rows: seq<Tuple>): seq<Tuple>
    decreases |rows|
  {
    if rows == [] then []
    else
      SplitGroup(cols, rows);
      var k := KeyOf(rows[0], cols);
      [k[Data := AggValue(agg, Pick(cols, k, true, rows))]] + GroupBy(cols, agg, Pick(cols, k, false, rows))
  }

  /** A column of a joined row whose levels start at lo. */
  function ColValue(lo: nat, env: Env, c: Col): Json {
    match c
    case Id(j) => if lo <= j < lo + |env| then Str(env[j - lo].id) else Str([])
    case Key(j) => if lo <= j < lo + |env| then Str(env[j - lo].entry.sub) else Str([])
    case Pos(j) => if lo <= j < lo + |env| then Str(env[j - lo].entry.sub) else Str([])
    case Value(j) => if lo <= j < lo + |env| then Leaf(env[j - lo].entry.cell) else Str([])
    case Data => if env != [] then Leaf(env[|env| - 1].entry.cell) else Str([])
  }

  function Project(lo: nat, cols: seq<Col>, env: Env): Tuple {
    map c | c in cols :: ColValue(lo, env, c)
  }

  function SetOf(cols: seq<Col>): (s: set<Col>)
    ensures forall c :: c in s <==> c in cols
  {
    set c | c in cols
  }

  function BaseRows(cols: seq<Col>, lines: seq<Line>, db: Db): seq<Tuple>
    requires lines != []
  {
    Map((env: Env) => Project(0, cols, env), LateralRows(db, lines))
  }

  function IdAndData(rows: seq<Tuple>): seq<Tuple> {
    Map((r: Tuple) => map[Id(0) := Get(r, Id(0)), Data := Get(r, Data)], rows)
  }

  ghost predicate SameBag(a: seq<Tuple>, b: seq<Tuple>) {
    multiset(a) == multiset(b)
  }

  /** A result of a plan: no stage promises an order to the next, so each may pass on its rows in
      any order, and an aggregate may see its group in any order. */
  ghost predicate Yields(plan: Plan, db: Db, out: seq<Tuple>) {
    match plan
    case Base(cols, lines) => lines != [] && SameBag(out, BaseRows(cols, lines, db))
    case Group(cols, agg, src) => exists rows :: Yields(src, db, rows) && SameBag(out, GroupBy(SetOf(cols), agg, rows))
    case Final(src) => exists rows :: Yields(src, db, rows) && SameBag(out, IdAndData(rows))
  }

  // ---- laws of GROUP BY ---------------------------------------------------------------

  lemma KeyOfSubset(x: Tuple, y: Tuple, s: set<Col>, cols: set<Col>)
    requires s <= cols && KeyOf(x, cols) == KeyOf(y, cols)
    ensures KeyOf(x, s) == KeyOf(y, s)
  {
    forall c | c in s ensures Get(x, c) == Get(y, c) {
      assert KeyOf(x, cols)[c] == KeyOf(y, cols)[c];
    }
  }

  lemma KeyOfGrouped(x: Tuple, s: set<Col>, cols: set<Col>, j: Json)
    requires s <= cols && Data !in s
    ensures KeyOf(KeyOf(x, cols)[Data := j], s) == KeyOf(x, s)
  {
  }

  /** Picking rows and their groups commute. */
  lemma PickTwice(s: set<Col>, q: Tuple, yes: bool, cols: set<Col>, k: Tuple, same: bool, rows: seq<Tuple>)
    ensures Pick(s, q, yes, Pick(cols, k, same, rows)) == Pick(cols, k, same, Pick(s, q, yes, rows))
  {
    var both := (r: Tuple) => (KeyOf(r, s) == q) == yes && (KeyOf(r, cols) == k) == same;
    FilterTwice((r: Tuple) => (KeyOf(r, s) == q) == yes, (r: Tuple) => (KeyOf(r, cols) == k) == same, both, rows);
    FilterTwice((r: Tuple) => (KeyOf(r, cols) == k) == same, (r: Tuple) => (KeyOf(r, s) == q) == yes, both, rows);
  }

  lemma PickAll(s: set<Col>, q: Tuple, yes: bool, rows: seq<Tuple>)
    ensures (forall r :: r in rows ==> (KeyOf(r, s) == q) == yes) ==> Pick(s, q, yes, rows) == rows
    ensures (forall r :: r in rows ==> (KeyOf(r, s) == q) != yes) ==> Pick(s, q, yes, rows) == []
  {
    FilterAll((r: Tuple) => (KeyOf(r, s) == q) == yes, rows);
  }

  /** All rows of a group are picked, or none is. */
  lemma PickGroup(s: set<Col>, q: Tuple, yes: bool, cols: set<Col>, x: Tuple, rows: seq<Tuple>)
    requires s <= cols
    ensures var k := KeyOf(x, cols);
            Pick(s, q, yes, Pick(cols, k, true, rows)) ==
            if (KeyOf(x, s) == q) == yes then Pick(cols, k, true, rows) else []
  {
    var k := KeyOf(x, cols);
    forall r | r in Pick(cols, k, true, rows) ensures KeyOf(r, s) == KeyOf(x, s) {
      KeyOfSubset(r, x, s, cols);
    }
    PickAll(s, q, yes, Pick(cols, k, true, rows));
  }

  lemma PickCons(s: set<Col>, q: Tuple, yes: bool, x: Tuple, rows: seq<Tuple>)
    ensures Pick(s, q, yes, [x] + rows) == (if (KeyOf(x, s) == q) == yes then [x] else []) + Pick(s, q, yes, rows)
  {
    assert ([x] + rows)[1..] == rows;
  }

  lemma GroupUnfold(cols: set<Col>, agg: Agg, rows: seq<Tuple>, k: Tuple)
    requires rows != [] && k == KeyOf(rows[0], cols)
    ensures Pick(cols, k, true, rows) != [] && |Pick(cols, k, false, rows)| < |rows|
    ensures GroupBy(cols, agg, rows) ==
            [k[Data := AggValue(agg, Pick(cols, k, true, rows))]] + GroupBy(cols, agg, Pick(cols, k, false, rows))
  {
    SplitGroup(cols, rows);
  }

  /** A choice of rows by group columns can be made before grouping or after. */
  lemma {:induction false} GroupPick(cols: set<Col>, agg: Agg, s: set<Col>, q: Tuple, yes: bool, rows: seq<Tuple>)
    requires s <= cols && Data !in s
    ensures Pick(s, q, yes, GroupBy(cols, agg, rows)) == GroupBy(cols, agg, Pick(s, q, yes, rows))
    decreases |rows|
  {
    if rows != [] {
      var x, k := rows[0], KeyOf(rows[0], cols);
      var rest := Pick(cols, k, false, rows);
      GroupUnfold(cols, agg, rows, k);
      GroupPick(cols, agg, s, q, yes, rest);
      var j := AggValue(agg, Pick(cols, k, true, rows));
      PickCons(s, q, yes, k[Data := j], GroupBy(cols, agg, rest));
      KeyOfGrouped(x, s, cols, j);
      GroupPicked(cols, agg, s, q, yes, rows);
    }
  }

  /** The first group, picked or not. */
  lemma GroupPicked(cols: set<Col>, agg: Agg, s: set<Col>, q: Tuple, yes: bool, rows: seq<Tuple>)
    requires s <= cols && rows != []
    ensures var k := KeyOf(rows[0], cols);
            && Pick(cols, k, true, rows) != []
            && GroupBy(cols, agg, Pick(s, q, yes, rows)) ==
               (if (KeyOf(rows[0], s) == q) == yes then [k[Data := AggValue(agg, Pick(cols, k, true, rows))]] else []) +
               GroupBy(cols, agg, Pick(s, q, yes, Pick(cols, k, false, rows)))
  {
    var x, k, picked := rows[0], KeyOf(rows[0], cols), Pick(s, q, yes, rows);
    SplitGroup(cols, rows);
    PickedGroups(s, q, yes, cols, rows);
    if (KeyOf(x, s) == q) == yes {
      GroupUnfold(cols, agg, picked, k);
    } else {
      NotInGroup(cols, k, picked);
    }
  }

  lemma PickedGroups(s: set<Col>, q: Tuple, yes: bool, cols: set<Col>, rows: seq<Tuple>)
    requires s <= cols && rows != []
    ensures var x, k, picked := rows[0], KeyOf(rows[0], cols), Pick(s, q, yes, rows);
            && Pick(cols, k, false, picked) == Pick(s, q, yes, Pick(cols, k, false, rows))
            && Pick(cols, k, true, picked) == (if (KeyOf(x, s) == q) == yes then Pick(cols, k, true, rows) else [])
            && ((KeyOf(x, s) == q) == yes ==> picked != [] && picked[0] == x)
  {
    var x, k := rows[0], KeyOf(rows[0], cols);
    PickTwice(s, q, yes, cols, k, true, rows);
    PickTwice(s, q, yes, cols, k, false, rows);
    PickGroup(s, q, yes, cols, x, rows);
    assert rows == [x] + rows[1..];
    PickCons(s, q, yes, x, rows[1..]);
  }

  lemma NotInGroup(cols: set<Col>, k: Tuple, rows: seq<Tuple>)
    requires Pick(cols, k, true, rows) == []
    ensures Pick(cols, k, false, rows) == rows
  {
    assert forall r :: r in rows && KeyOf(r, cols) == k ==> r in Pick(cols, k, true, rows);
    PickAll(cols, k, false, rows);
  }

  /** Rows agreeing on the group columns form one group. */
  lemma GroupOne(cols: set<Col>, agg: Agg, rows: seq<Tuple>, k: Tuple)
    requires rows != [] && forall r :: r in rows ==> KeyOf(r, cols) == k
    ensures GroupBy(cols, agg, rows) == [k[Data := AggValue(agg, rows)]]
  {
    PickAll(cols, k, true, rows);
    PickAll(cols, k, false, rows);
    assert rows[0] in rows;
  }

  // ---- bags of rows -------------------------------------------------------------------

  lemma PickBag(s: set<Col>, q: Tuple, yes: bool, a: seq<Tuple>, b: seq<Tuple>)
    requires SameBag(a, b)
    ensures SameBag(Pick(s, q, yes, a), Pick(s, q, yes, b))
  {
    FilterBag((r: Tuple) => (KeyOf(r, s) == q) == yes, a, b);
  }

  lemma PickParts(s: set<Col>, q: Tuple, rows: seq<Tuple>)
    ensures SameBag(rows, Pick(s, q, true, rows) + Pick(s, q, false, rows))
  {
    forall r: Tuple | r in multiset(rows) + multiset(Pick(s, q, true, rows) + Pick(s, q, false, rows))
      ensures multiset(rows)[r] == multiset(Pick(s, q, true, rows) + Pick(s, q, false, rows))[r]
    {
      FilterCount((r: Tuple) => (KeyOf(r, s) == q) == true, rows, r);
      FilterCount((r: Tuple) => (KeyOf(r, s) == q) == false, rows, r);
    }
  }

  /** Rows that are those of a and b in some order, told apart by the columns s. */
  lemma PickApart(s: set<Col>, q: Tuple, rows: seq<Tuple>, a: seq<Tuple>, b: seq<Tuple>)
    requires SameBag(rows, a + b)
    requires (forall r :: r in a ==> KeyOf(r, s) == q) && (forall r :: r in b ==> KeyOf(r, s) != q)
    ensures SameBag(Pick(s, q, true, rows), a) && SameBag(Pick(s, q, false, rows), b)
  {
    PickBag(s, q, true, rows, a + b);
    PickBag(s, q, false, rows, a + b);
    FilterAppend((r: Tuple) => (KeyOf(r, s) == q) == true, a, b);
    FilterAppend((r: Tuple) => (KeyOf(r, s) == q) == false, a, b);
    PickAll(s, q, true, a);
    PickAll(s, q, true, b);
    PickAll(s, q, false, a);
    PickAll(s, q, false, b);
    assert a + [] == a && [] + b == b;
  }

  lemma SameBagAppend(a: seq<Tuple>, b: seq<Tuple>, x: seq<Tuple>, y: seq<Tuple>)
    requires SameBag(a, x) && SameBag(b, y)
    ensures SameBag(a + b, x + y)
  {
  }
}
