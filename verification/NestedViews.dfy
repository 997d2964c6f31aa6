/** The compiler of nested views: a list of views becomes one flat lateral join under layers of
    GROUP BY. Evaluating the plan gives exactly the recursively nested values. */
module NestedViews {
  import opened Options
  import opened Sequences
  import opened ListIds

  // ---- views and their rows -----------------------------------------------------------

  /** The relational views, dispatched on by name in the original. */
  datatype View =
    | MapAwMvr | MapRwMvr | MapAwLww | MapLww
    | SetAw | SetRw | SetLww
    | RegisterMvr | RegisterLww
    | ListView
    | Counter

  predicate IsMvrMap(v: View) { v.MapAwMvr? || v.MapRwMvr? }
  predicate IsMap(v: View) { IsMvrMap(v) || v.MapAwLww? || v.MapLww? }
  predicate IsSet(v: View) { v.SetAw? || v.SetRw? || v.SetLww? }

  /** Maps name their entries by key and lists by position; other views do not. */
  predicate HasSub(v: View) { IsMap(v) || v.ListView? }

  /** The stored value of a row: one string, several concurrent ones, or a count. */
  datatype Cell = One(text: Text) | Many(texts: seq<Text>) | Count(n: int)

  /** A row of a view without its id; sub is the map key or the list position. */
  datatype Entry = Entry(sub: Text, cell: Cell)

  /** The rows of a view with one id. A view lists its rows structure by structure. */
  datatype Structure = Structure(id: Text, entries: seq<Entry>)

  type Db = View -> seq<Structure>

  /** What the rows of each view store. */
  ghost predicate Typed(v: View, e: Entry) {
    match v
    case MapAwMvr | MapRwMvr | RegisterMvr => e.cell.Many?
    case Counter => e.cell.Count?
    case MapAwLww | MapLww | SetAw | SetRw | SetLww | RegisterLww | ListView => e.cell.One?
  }

  ghost predicate DistinctSubs(es: seq<Entry>) {
    forall i, j :: 0 <= i < j < |es| ==> es[i].sub != es[j].sub
  }

  ghost predicate DistinctCells(es: seq<Entry>) {
    forall i, j :: 0 <= i < j < |es| ==> es[i].cell != es[j].cell
  }

  /** Unique map keys, list positions and set elements; one row per register and counter. */
  ghost predicate ValidEntries(v: View, es: seq<Entry>) {
    && (forall e :: e in es ==> Typed(v, e))
    && match v
       case MapAwMvr | MapRwMvr | MapAwLww | MapLww | ListView => DistinctSubs(es)
       case SetAw | SetRw | SetLww => DistinctCells(es)
       case RegisterMvr | RegisterLww | Counter => |es| <= 1
  }

  ghost predicate ValidStructures(v: View, ss: seq<Structure>) {
    DistinctIds(ss) && forall s :: s in ss ==> ValidEntries(v, s.entries)
  }

  ghost predicate DistinctIds(ss: seq<Structure>) {
    forall i, j :: 0 <= i < j < |ss| ==> ss[i].id != ss[j].id
  }

  ghost predicate ValidDb(db: Db) {
    forall v :: ValidStructures(v, db(v))
  }

  /** The database with one structure, of one view. */
  function OneStructure(v: View, s: Structure): Db {
    w => if w == v then [s] else []
  }

  /** Rows of one text each are valid for the views that resolve concurrent values, and rows of
      several for the multi-value ones, whatever the texts, keys and positions. */
  lemma RowsAreValid(v: View, id: Text, es: seq<Entry>)
    requires v in {MapAwLww, MapLww, ListView, SetAw, SetRw, SetLww, RegisterLww} ==>
               forall e :: e in es ==> e.cell.One?
    requires v in {MapAwMvr, MapRwMvr, RegisterMvr} ==> forall e :: e in es ==> e.cell.Many?
    requires v == Counter ==> forall e :: e in es ==> e.cell.Count?
    requires v in {MapAwLww, MapLww, ListView, MapAwMvr, MapRwMvr} ==> DistinctSubs(es)
    requires v in {SetAw, SetRw, SetLww} ==> DistinctCells(es)
    requires v in {RegisterMvr, RegisterLww, Counter} ==> |es| <= 1
    ensures ValidDb(OneStructure(v, Structure(id, es))) && OneStructure(v, Structure(id, es))(v) == [Structure(id, es)]
  {
  }

  // ---- JSON ---------------------------------------------------------------------------

  /** Unordered aggregates are bags; `Texts` is a stored array of strings. */
  datatype Json =
    | Str(text: Text) | Num(n: int) | Texts(texts: seq<Text>)
    | Obj(fields: map<Text, Json>) | Bag(elems: multiset<Json>) | Arr(items: seq<Json>)

  function Leaf(c: Cell): Json {
    match c case One(t) => Str(t) case Many(ts) => Texts(ts) case Count(n) => Num(n)
  }

  /** What a leaf was made of. */
  function CellOf(j: Json): Cell
    requires j.Str? || j.Num? || j.Texts?
  {
    match j case Str(t) => One(t) case Num(n) => Count(n) case Texts(ts) => Many(ts)
  }

  /** Every stored value reads back from its leaf. */
  lemma LeafReadsBack(c: Cell)
    ensures var j := Leaf(c); (j.Str? || j.Num? || j.Texts?) && CellOf(j) == c
  {
  }

  type Pair = (Text, Json)

  /** `jsonb_object_agg`: a repeated key keeps its last value. */
  function ObjOf(ps: seq<Pair>): map<Text, Json> {
    if ps == [] then map[] else ObjOf(ps[..|ps| - 1])[ps[|ps| - 1].0 := ps[|ps| - 1].1]
  }

  function InsertPair(p: Pair, ps: seq<Pair>): seq<Pair> {
    if ps == [] || !Less(ps[0].0, p.0) then [p] + ps else [ps[0]] + InsertPair(p, ps[1..])
  }

  /** `ORDER BY pos`. */
  function SortPairs(ps: seq<Pair>): seq<Pair> {
    if ps == [] then [] else InsertPair(ps[0], SortPairs(ps[1..]))
  }

  ghost predicate SortedPairs(ps: seq<Pair>) {
    forall i, j :: 0 <= i < j < |ps| ==> !Less(ps[j].0, ps[i].0)
  }

  /** Sorting orders by name and keeps every pair. */
  lemma {:induction false} SortSorts(ps: seq<Pair>)
    ensures multiset(SortPairs(ps)) == multiset(ps) && SortedPairs(SortPairs(ps))
  {
    if ps != [] {
      SortSorts(ps[1..]);
      InsertSorts(ps[0], SortPairs(ps[1..]));
      assert ps == [ps[0]] + ps[1..];
    }
  }

  lemma {:induction false} InsertSorts(p: Pair, ps: seq<Pair>)
    requires SortedPairs(ps)
    ensures multiset(InsertPair(p, ps)) == multiset{p} + multiset(ps) && SortedPairs(InsertPair(p, ps))
  {
    if ps == [] {
    } else if !Less(ps[0].0, p.0) {
      forall k | 1 <= k < |ps| ensures !Less(ps[k].0, p.0) {
        NotLessTransitive(p.0, ps[0].0, ps[k].0);
      }
    } else {
      InsertSorts(p, ps[1..]);
      assert ps == [ps[0]] + ps[1..];
      var rest := InsertPair(p, ps[1..]);
      forall q | q in rest ensures !Less(q.0, ps[0].0) {
        assert q in multiset(rest);
        LessIsTotal(ps[0].0, p.0);
      }
    }
  }

  lemma NotLessTransitive(a: Text, b: Text, c: Text)
    requires !Less(b, a) && !Less(c, b)
    ensures !Less(c, a)
  {
    LessIsTotal(a, b);
    LessIsTotal(b, c);
    LessIsTotal(a, c);
    if Less(a, b) && Less(b, c) { LessTransitive(a, b, c); }
  }

  function Seconds(ps: seq<Pair>): seq<Json> {
    Map((p: Pair) => p.1, ps)
  }

  // ---- the meaning: recursively nested values ------------------------------------------

  /** The structures a value refers to: `id = value`, or `id = any(values)`. */
  function Targets(c: Cell): set<Text> {
    match c case One(t) => {t} case Many(ts) => (set t | t in ts) case Count(_) => {}
  }

  function Referenced(db: Db, v: View, c: Cell): seq<Structure> {
    Filter((s: Structure) => s.id in Targets(c), db(v))
  }

  /** The entries of a structure with their nested values; an entry whose inner structures are
      all empty contributes nothing. */
  function Pairs(db: Db, types: seq<View>, i: nat, es: seq<Entry>): seq<Pair>
    requires i < |types|
    decreases |types| - i, 1, |es|
  {
    if es == [] then []
    else
      var values := if i == |types| - 1 then [Leaf(es[0].cell)]
                    else NestedAll(db, types, i + 1, Referenced(db, types[i + 1], es[0].cell));
      Map((x: Json) => (es[0].sub, x), values) + Pairs(db, types, i, es[1..])
  }

  /** For maps of multi-value registers: each key with the bag of its nested values. */
  function BagsByKey(db: Db, types: seq<View>, i: nat, es: seq<Entry>): map<Text, Json>
    requires i + 1 < |types|
    decreases |types| - i, 1, |es|
  {
    if es == [] then map[]
    else
      var values := NestedAll(db, types, i + 1, Referenced(db, types[i + 1], es[0].cell));
      var rest := BagsByKey(db, types, i, es[1..]);
      if values == [] then rest else rest[es[0].sub := Bag(multiset(values))]
  }

  /** The nested values of the structures that have one. */
  function NestedAll(db: Db, types: seq<View>, i: nat, ss: seq<Structure>): seq<Json>
    requires i < |types|
    decreases |types| - i, 3, |ss|
  {
    if ss == [] then []
    else
      (match Nested(db, types, i, ss[0]) case None => [] case Some(x) => [x]) + NestedAll(db, types, i, ss[1..])
  }

  /** The value of a structure with the given values of its entries. */
  function Combine(v: View, leaf: bool, ps: seq<Pair>): Json
    requires ps != []
  {
    match v
    case MapAwMvr | MapRwMvr | MapAwLww | MapLww => Obj(ObjOf(ps))
    case ListView => Arr(Seconds(SortPairs(ps)))
    case SetAw | SetRw | SetLww => Bag(multiset(Seconds(ps)))
    case RegisterMvr => if leaf then ps[0].1 else Bag(multiset(Seconds(ps)))
    case RegisterLww | Counter => ps[0].1
  }

  /** The nested value of a structure at level i; None when it is empty throughout. */
  function Nested(db: Db, types: seq<View>, i: nat, s: Structure): Option<Json>
    requires i < |types|
    decreases |types| - i, 2
  {
    var v, leaf, ps := types[i], i == |types| - 1, Pairs(db, types, i, s.entries);
    if ps == [] then None
    else if (v.MapAwMvr? || v.MapRwMvr?) && !leaf then Some(Obj(BagsByKey(db, types, i, s.entries)))
    else Some(Combine(v, leaf, ps))
  }

  // ---- query plans --------------------------------------------------------------------

  datatype Col = Id(level: nat) | Key(level: nat) | Value(level: nat) | Pos(level: nat) | Data

  datatype Agg =
    | ObjectAgg(key: Col, value: Col)
    | ArrayAgg(value: Col)
    | OrderedAgg(value: Col, order: Col)
    | FirstOf(value: Col)

  /** What a row is joined on: the `id` of the next view against the value (of a map) or the data
      of the row of a level, or against any of several such values. */
  datatype JoinKey = JoinKey(any: bool, level: nat, ofMap: bool)

  /** One view of the FROM clause; all but the first are lateral and have a key. */
  datatype Line = Line(view: View, key: Option<JoinKey>)

  datatype Plan =
    | Base(columns: seq<Col>, lines: seq<Line>)
    | Group(columns: seq<Col>, agg: Agg, src: Plan)
    | Final(src: Plan)

  /** `baseProjectColumns`. */
  function BaseColumns(v: View, x: nat): (cols: seq<Col>)
    ensures |cols| >= 2
  {
    if IsMap(v) then [Id(x), Key(x), Value(x)]
    else if v.ListView? then [Id(x), Pos(x), Data]
    else [Id(x), Data]
  }

  /** `joinKeys`: it has no entry for counters. */
  function JoinKeyOf(v: View, x: nat): (key: Option<JoinKey>)
    ensures key.Some? <==> Joinable(v)
  {
    if IsMvrMap(v) then Some(JoinKey(true, x, true))
    else if IsMap(v) then Some(JoinKey(false, x, true))
    else if v.RegisterMvr? then Some(JoinKey(true, x, false))
    else if IsSet(v) || v.RegisterLww? || v.ListView? then Some(JoinKey(false, x, false))
    else None
  }

  predicate Joinable(v: View) {
    !v.Counter?
  }

  function LineOf(types: seq<View>, i: nat): Line
    requires i < |types|
  {
    Line(types[i], if i == 0 then None else JoinKeyOf(types[i - 1], i - 1))
  }

  /** The lines of the FROM clause. */
  function Lines(types: seq<View>): seq<Line> {
    seq(|types|, i requires 0 <= i < |types| => LineOf(types, i))
  }

  /** `projectColumns`; counters have no entry and are only looked up at the last level, where
      the lookup is not reached. */
  function ProjectColumns(v: View, x: nat): (cols: seq<Col>)
    ensures |cols| >= 1 && cols[0] == Id(x)
  {
    if IsMap(v) then [Id(x), Key(x)] else if v.ListView? then [Id(x), Pos(x)] else [Id(x)]
  }

  /** `rootAggFunctions`: registers and counters have no entry. */
  function RootAgg(v: View, x: nat): Option<Agg> {
    if IsMap(v) then Some(ObjectAgg(Key(x), Value(x)))
    else if v.ListView? then Some(OrderedAgg(Data, Pos(x)))
    else if IsSet(v) then Some(ArrayAgg(Data))
    else None
  }

  /** `aggFunctions`: each function with how many of the columns it groups by. */
  function LevelAggs(v: View, cols: seq<Col>): seq<(Agg, nat)>
    requires |cols| >= 2
  {
    var n := |cols|;
    if IsMvrMap(v) then [(ArrayAgg(cols[n - 1]), n - 1), (ObjectAgg(cols[n - 2], cols[n - 1]), n - 2)]
    else if IsMap(v) then [(ObjectAgg(cols[n - 2], cols[n - 1]), n - 2)]
    else if v.ListView? then [(OrderedAgg(cols[n - 1], cols[n - 2]), n - 2)]
    else if v.RegisterLww? then [(FirstOf(cols[n - 1]), n - 1)]
    else [(ArrayAgg(cols[n - 1]), n - 1)]
  }

  function ColumnsUpTo(types: seq<View>, i: nat): seq<Col>
    requires i <= |types|
  {
    if i == 0 then [] else ColumnsUpTo(types, i - 1) + ProjectColumns(types[i - 1], i - 1)
  }

  function BaseFrom(types: seq<View>, i: nat): seq<Col>
    requires i < |types|
    decreases |types| - i
  {
    var cols := BaseColumns(types[i], i);
    if i == |types| - 1 then cols else cols[..|cols| - 1] + BaseFrom(types, i + 1)
  }

  function GroupAll(cols: seq<Col>, aggs: seq<(Agg, nat)>, q: Plan): Plan
    requires forall a :: a in aggs ==> a.1 <= |cols|
  {
    if aggs == [] then q else GroupAll(cols, aggs[1..], Group(cols[..aggs[0].1], aggs[0].0, q))
  }

  function RootPlan(types: seq<View>, q: Plan): Plan
    requires types != []
  {
    var last := |types| - 1;
    match RootAgg(types[last], last)
    case None => q
    case Some(agg) => Group(ColumnsUpTo(types, last) + [ProjectColumns(types[last], last)[0]], agg, q)
  }

  /** The aggregations of level i - 1. */
  function LevelGroup(types: seq<View>, i: nat, query: Plan): Plan
    requires 1 <= i <= |types|
  {
    var cols := ColumnsUpTo(types, i) + [Data];
    GroupAll(cols, LevelAggs(types[i - 1], cols), query)
  }

  /** The plan after the levels from the last down to i have been aggregated. */
  function PlanFrom(types: seq<View>, i: nat): Plan
    requires i < |types|
    decreases |types| - i
  {
    if i == |types| - 1 then RootPlan(types, Base(BaseFrom(types, 0), Lines(types)))
    else LevelGroup(types, i + 1, PlanFrom(types, i + 1))
  }

  /** Counters can only come last. */
  predicate Accepted(types: seq<View>) {
    types != [] && forall i :: 0 <= i < |types| - 1 ==> Joinable(types[i])
  }

  function QueryPlan(types: seq<View>): Plan
    requires types != []
  {
    Final(PlanFrom(types, 0))
  }
}
