/** The main theorem about nested views: whatever order rows come in, a compiled plan returns
    exactly one row for every structure that has a nested value, with that value. The induction
    runs over all levels at once, with the columns p of the levels above held fixed. */
module NestedTheorem {
  import opened Options
  import opened Sequences
  import opened ListIds
  import opened NestedViews
  import opened NestedPairs
  import opened NestedJoins
  import opened NestedPlans
  import opened NestedCorrect

  // ---- the rows that the layers must produce --------------------------------------------

  function Head(i: nat, p: Tuple, id: Text): Tuple {
    p[Id(i) := Str(id)]
  }

  /** The row of one structure of level i, if it has a value. */
  function RowOf(db: Db, types: seq<View>, i: nat, p: Tuple, s: Structure): seq<Tuple>
    requires i < |types|
  {
    match Nested(db, types, i, s) case None => [] case Some(x) => [Head(i, p, s.id)[Data := x]]
  }

  function OutRows(db: Db, types: seq<View>, i: nat, p: Tuple, ss: seq<Structure>): seq<Tuple>
    requires i < |types|
  {
    if ss == [] then [] else RowOf(db, types, i, p, ss[0]) + OutRows(db, types, i, p, ss[1..])
  }

  function Inner(db: Db, types: seq<View>, i: nat, e: Entry): seq<Structure>
    requires i + 1 < |types|
  {
    Referenced(db, types[i + 1], e.cell)
  }

  /** The rows of one entry of level i once the levels below it are aggregated. */
  function EntryRows(db: Db, types: seq<View>, i: nat, p: Tuple, id: Text, e: Entry): seq<Tuple>
    requires i + 1 < |types|
  {
    OutRows(db, types, i + 1, p + Front(types, i, Binding(id, e)), Inner(db, types, i, e))
  }

  function MidRows(db: Db, types: seq<View>, i: nat, p: Tuple, id: Text, es: seq<Entry>): seq<Tuple>
    requires i + 1 < |types|
  {
    if es == [] then [] else EntryRows(db, types, i, p, id, es[0]) + MidRows(db, types, i, p, id, es[1..])
  }

  lemma {:induction false} OutColumns(db: Db, types: seq<View>, i: nat, p: Tuple, ss: seq<Structure>)
    requires i < |types|
    ensures Column(Data, OutRows(db, types, i, p, ss)) == NestedAll(db, types, i, ss)
  {
    if ss != [] {
      OutColumns(db, types, i, p, ss[1..]);
      MapAppend((r: Tuple) => Get(r, Data), RowOf(db, types, i, p, ss[0]), OutRows(db, types, i, p, ss[1..]));
    }
  }

  /** Every row keeps the columns of the levels above. */
  lemma {:induction false} OutKeys(db: Db, types: seq<View>, i: nat, p: Tuple, ss: seq<Structure>, c: Col)
    requires i < |types| && c in p && c != Id(i) && c != Data
    ensures forall r :: r in OutRows(db, types, i, p, ss) ==> Get(r, c) == p[c]
  {
    if ss != [] { OutKeys(db, types, i, p, ss[1..], c); }
  }

  // ---- which structures and entries a joined row comes from -----------------------------

  function IdsOf(ss: seq<Structure>): (ids: set<Text>)
    ensures forall s :: s in ss ==> s.id in ids
  {
    set s | s in ss :: s.id
  }

  lemma {:induction false} StructureOfRow(db: Db, types: seq<View>, i: nat, ss: seq<Structure>, env: Env)
    requires i < |types| && env in JoinStructures(db, types, i, ss)
    ensures env[0].id in IdsOf(ss)
    decreases |types| - i, 1, |ss|
  {
    assert ss[0] in ss && forall s :: s in ss[1..] ==> s in ss;
    if env in JoinEntries(db, types, i, ss[0].id, ss[0].entries) {
      EntryOfRow(db, types, i, ss[0].id, ss[0].entries, env);
    } else {
      StructureOfRow(db, types, i, ss[1..], env);
    }
  }

  lemma {:induction false} EntryOfRow(db: Db, types: seq<View>, i: nat, id: Text, es: seq<Entry>, env: Env)
    requires i < |types| && env in JoinEntries(db, types, i, id, es)
    ensures env[0].id == id && env[0].entry in es
    ensures i + 1 < |types| ==> env[1].id in Targets(env[0].entry.cell)
    decreases |types| - i, 0, |es|
  {
    assert es[0] in es && forall e :: e in es[1..] ==> e in es;
    if env in JoinEntries(db, types, i, id, es[1..]) {
      EntryOfRow(db, types, i, id, es[1..], env);
    } else {
      HeadOfRow(db, types, i, Binding(id, es[0]), env);
    }
  }

  lemma {:induction false} HeadOfRow(db: Db, types: seq<View>, i: nat, b: Binding, env: Env)
    requires i < |types| && env in JoinEntry(db, types, i, b)
    ensures env[0] == b && (i + 1 < |types| ==> env[1].id in Targets(b.entry.cell))
    decreases |types| - i, 0, 0
  {
    if i + 1 < |types| {
      var inner, below := Inner(db, types, i, b.entry), env[1..];
      assert below in JoinStructures(db, types, i + 1, inner);
      StructureOfRow(db, types, i + 1, inner, below);
      IdsTargeted(db, types[i + 1], b.entry.cell);
    }
  }

  lemma IdsTargeted(db: Db, v: View, c: Cell)
    ensures IdsOf(Referenced(db, v, c)) <= Targets(c)
  {
  }

  // ---- structures and entries never share a group ---------------------------------------

  function SubCol(v: View, i: nat): Col {
    if IsMap(v) then Key(i) else Pos(i)
  }

  lemma SubColInLevel(v: View, i: nat)
    requires HasSub(v)
    ensures SubCol(v, i) in LevelCols(v, i)
  {
    assert ProjectColumns(v, i)[1] == SubCol(v, i);
  }

  lemma BaseHas(types: seq<View>, i: nat)
    requires i < |types|
    ensures Id(i) in BaseFrom(types, i) && (HasSub(types[i]) ==> SubCol(types[i], i) in BaseFrom(types, i))
  {
    var v := types[i];
    var cols := BaseColumns(v, i);
    var front := if i == |types| - 1 then cols else cols[..|cols| - 1];
    assert front[0] == Id(i);
    if HasSub(v) { assert front[1] == SubCol(v, i); }
    assert forall c :: c in front ==> c in BaseFrom(types, i);
  }

  lemma BaseHasNext(types: seq<View>, i: nat)
    requires i + 1 < |types|
    ensures Id(i + 1) in BaseFrom(types, i)
  {
    BaseHas(types, i + 1);
  }

  /** The row of a joined environment. */
  lemma RowColumns(types: seq<View>, i: nat, p: Tuple, env: Env)
    requires i < |types| && |env| == |types| - i
    ensures var r := p + Project(i, BaseFrom(types, i), env);
            && Get(r, Id(i)) == Str(env[0].id)
            && (HasSub(types[i]) ==> Get(r, SubCol(types[i], i)) == Str(env[0].entry.sub))
            && (i + 1 < |types| ==> Get(r, Id(i + 1)) == Str(env[1].id))
  {
    BaseHas(types, i);
    RowColumn(types, i, p, env, Id(i));
    if HasSub(types[i]) { RowColumn(types, i, p, env, SubCol(types[i], i)); }
    if i + 1 < |types| {
      BaseHasNext(types, i);
      RowColumn(types, i, p, env, Id(i + 1));
    }
  }

  lemma RowColumn(types: seq<View>, i: nat, p: Tuple, env: Env, c: Col)
    requires i < |types| && c in BaseFrom(types, i)
    ensures Get(p + Project(i, BaseFrom(types, i), env), c) == ColValue(i, env, c)
  {
  }

  lemma KeyIsOne(x: Tuple, c: Col, j: Json)
    ensures KeyOf(x, {c}) == map[c := j] <==> Get(x, c) == j
  {
    assert KeyOf(x, {c})[c] == Get(x, c);
  }

  ghost predicate AllHave(rows: seq<Tuple>, c: Col, j: Json) {
    forall r :: r in rows ==> KeyOf(r, {c}) == map[c := j]
  }

  ghost predicate NoneHas(rows: seq<Tuple>, c: Col, j: Json) {
    forall r :: r in rows ==> KeyOf(r, {c}) != map[c := j]
  }

  /** The rows of one structure have its id; those of the others do not. */
  lemma StructuresApart(db: Db, types: seq<View>, i: nat, p: Tuple, ss: seq<Structure>)
    requires i < |types| && ss != [] && DistinctIds(ss)
    ensures AllHave(Rel(types, i, p, JoinEntries(db, types, i, ss[0].id, ss[0].entries)), Id(i), Str(ss[0].id))
    ensures NoneHas(Rel(types, i, p, JoinStructures(db, types, i, ss[1..])), Id(i), Str(ss[0].id))
  {
    var a, b := JoinEntries(db, types, i, ss[0].id, ss[0].entries), JoinStructures(db, types, i, ss[1..]);
    forall x | x in Rel(types, i, p, a) ensures KeyOf(x, {Id(i)}) == map[Id(i) := Str(ss[0].id)] {
      var k :| 0 <= k < |a| && x == p + Project(i, BaseFrom(types, i), a[k]);
      EntryOfRow(db, types, i, ss[0].id, ss[0].entries, a[k]);
      RowColumns(types, i, p, a[k]);
      KeyIsOne(x, Id(i), Str(ss[0].id));
    }
    forall x | x in Rel(types, i, p, b) ensures KeyOf(x, {Id(i)}) != map[Id(i) := Str(ss[0].id)] {
      var k :| 0 <= k < |b| && x == p + Project(i, BaseFrom(types, i), b[k]);
      StructureOfRow(db, types, i, ss[1..], b[k]);
      RowColumns(types, i, p, b[k]);
      KeyIsOne(x, Id(i), Str(ss[0].id));
    }
  }

  /** The column that tells the entries of one structure apart, and its value for an entry. */
  function Separator(v: View, i: nat): Col {
    if HasSub(v) then SubCol(v, i) else Id(i + 1)
  }

  function Mark(v: View, e: Entry): Json {
    if HasSub(v) then Str(e.sub) else if e.cell.One? then Str(e.cell.text) else Str([])
  }

  lemma SeparatorGrouped(types: seq<View>, i: nat)
    requires i + 1 < |types|
    ensures Separator(types[i], i) in GroupSet(types, i + 1)
  {
    if HasSub(types[i]) { SubColInLevel(types[i], i); }
  }

  lemma EntriesApart(db: Db, types: seq<View>, i: nat, p: Tuple, id: Text, es: seq<Entry>)
    requires i + 1 < |types| && Joinable(types[i]) && |es| > 1 && ValidEntries(types[i], es)
    ensures var c, j := Separator(types[i], i), Mark(types[i], es[0]);
            && AllHave(Rel(types, i, p, JoinEntry(db, types, i, Binding(id, es[0]))), c, j)
            && NoneHas(Rel(types, i, p, JoinEntries(db, types, i, id, es[1..])), c, j)
  {
    var v, c, j := types[i], Separator(types[i], i), Mark(types[i], es[0]);
    var a, b := JoinEntry(db, types, i, Binding(id, es[0])), JoinEntries(db, types, i, id, es[1..]);
    forall x | x in Rel(types, i, p, a) ensures KeyOf(x, {c}) == map[c := j] {
      var k :| 0 <= k < |a| && x == p + Project(i, BaseFrom(types, i), a[k]);
      FirstMarked(db, types, i, p, id, es, a[k]);
      KeyIsOne(x, c, j);
    }
    forall x | x in Rel(types, i, p, b) ensures KeyOf(x, {c}) != map[c := j] {
      var k :| 0 <= k < |b| && x == p + Project(i, BaseFrom(types, i), b[k]);
      RestUnmarked(db, types, i, p, id, es, b[k]);
      KeyIsOne(x, c, j);
    }
  }

  lemma FirstMarked(db: Db, types: seq<View>, i: nat, p: Tuple, id: Text, es: seq<Entry>, env: Env)
    requires i + 1 < |types| && Joinable(types[i]) && |es| > 1 && ValidEntries(types[i], es)
    requires env in JoinEntry(db, types, i, Binding(id, es[0]))
    ensures Get(p + Project(i, BaseFrom(types, i), env), Separator(types[i], i)) == Mark(types[i], es[0])
  {
    assert es[0] in es;
    HeadOfRow(db, types, i, Binding(id, es[0]), env);
    RowColumns(types, i, p, env);
  }

  lemma RestUnmarked(db: Db, types: seq<View>, i: nat, p: Tuple, id: Text, es: seq<Entry>, env: Env)
    requires i + 1 < |types| && Joinable(types[i]) && |es| > 1 && ValidEntries(types[i], es)
    requires env in JoinEntries(db, types, i, id, es[1..])
    ensures Get(p + Project(i, BaseFrom(types, i), env), Separator(types[i], i)) != Mark(types[i], es[0])
  {
    EntryOfRow(db, types, i, id, es[1..], env);
    TailDiffers(types[i], es, env[0].entry);
    RowColumns(types, i, p, env);
  }

  lemma TailDiffers(v: View, es: seq<Entry>, e: Entry)
    requires Joinable(v) && es != [] && ValidEntries(v, es) && e in es[1..]
    ensures if HasSub(v) then es[0].sub != e.sub else es[0].cell.One? && e.cell.One? && es[0].cell.text != e.cell.text
  {
    var k :| 0 <= k < |es[1..]| && es[1..][k] == e;
    assert es[k + 1] == e && es[0] in es && e in es;
  }

  // ---- one group per structure ----------------------------------------------------------

  /** All rows belong to the group of one structure. */
  ghost predicate AllOf(types: seq<View>, i: nat, p: Tuple, id: Text, rows: seq<Tuple>)
    requires i < |types|
  {
    forall r :: r in rows ==> KeyOf(r, GroupSet(types, i)) == Head(i, p, id)
  }

  lemma SingleGroup(types: seq<View>, i: nat, p: Tuple, id: Text, agg: Agg, rows: seq<Tuple>)
    requires i < |types| && rows != [] && AllOf(types, i, p, id, rows)
    ensures GroupBy(GroupSet(types, i), agg, rows) == [Head(i, p, id)[Data := AggValue(agg, rows)]]
  {
    GroupOne(GroupSet(types, i), agg, rows, Head(i, p, id));
  }

  lemma KeyIsHead(types: seq<View>, i: nat, p: Tuple, id: Text, r: Tuple)
    requires i < |types| && p.Keys == ColSet(types, i)
    requires (forall c :: c in p ==> Get(r, c) == p[c]) && Get(r, Id(i)) == Str(id)
    ensures KeyOf(r, GroupSet(types, i)) == Head(i, p, id)
  {
  }

  lemma FrontColumns(types: seq<View>, i: nat, p: Tuple, b: Binding)
    requires i < |types| && p.Keys == ColSet(types, i)
    ensures var q := p + Front(types, i, b);
            && q.Keys == ColSet(types, i + 1)
            && (forall c :: c in p ==> q[c] == p[c])
            && Id(i) in q && q[Id(i)] == Str(b.id)
            && (HasSub(types[i]) ==> SubCol(types[i], i) in q && q[SubCol(types[i], i)] == Str(b.entry.sub))
  {
    if HasSub(types[i]) { SubColInLevel(types[i], i); }
  }

  function EntryValues(db: Db, types: seq<View>, i: nat, e: Entry): seq<Json>
    requires i + 1 < |types|
  {
    NestedAll(db, types, i + 1, Inner(db, types, i, e))
  }

  lemma EntryKeys(db: Db, types: seq<View>, i: nat, p: Tuple, id: Text, e: Entry, r: Tuple)
    requires i + 1 < |types| && p.Keys == ColSet(types, i) && r in EntryRows(db, types, i, p, id, e)
    ensures KeyOf(r, ColSet(types, i + 1)) == p + Front(types, i, Binding(id, e))
    ensures KeyOf(r, GroupSet(types, i)) == Head(i, p, id)
  {
    var q := p + Front(types, i, Binding(id, e));
    FrontColumns(types, i, p, Binding(id, e));
    forall c | c in q ensures Get(r, c) == q[c] {
      OutKeys(db, types, i + 1, q, Inner(db, types, i, e), c);
    }
    KeyIs(r, q);
    KeyIsHead(types, i, p, id, r);
  }

  lemma KeyIs(r: Tuple, q: Tuple)
    requires forall c :: c in q ==> Get(r, c) == q[c]
    ensures KeyOf(r, q.Keys) == q
  {
  }

  lemma EntrySub(db: Db, types: seq<View>, i: nat, p: Tuple, id: Text, e: Entry, r: Tuple)
    requires i + 1 < |types| && p.Keys == ColSet(types, i) && HasSub(types[i])
    requires r in EntryRows(db, types, i, p, id, e)
    ensures Get(r, SubCol(types[i], i)) == Str(e.sub)
  {
    FrontColumns(types, i, p, Binding(id, e));
    OutKeys(db, types, i + 1, p + Front(types, i, Binding(id, e)), Inner(db, types, i, e), SubCol(types[i], i));
  }

  lemma {:induction false} MidIds(db: Db, types: seq<View>, i: nat, p: Tuple, id: Text, es: seq<Entry>)
    requires i + 1 < |types| && p.Keys == ColSet(types, i)
    ensures AllOf(types, i, p, id, MidRows(db, types, i, p, id, es))
  {
    if es != [] {
      MidIds(db, types, i, p, id, es[1..]);
      forall r | r in EntryRows(db, types, i, p, id, es[0]) ensures KeyOf(r, GroupSet(types, i)) == Head(i, p, id) {
        EntryKeys(db, types, i, p, id, es[0], r);
      }
    }
  }

  /** The values of the middle rows are those of the entries, in order. */
  lemma {:induction false} MidValues(db: Db, types: seq<View>, i: nat, p: Tuple, id: Text, es: seq<Entry>)
    requires i + 1 < |types|
    ensures Column(Data, MidRows(db, types, i, p, id, es)) == Seconds(Pairs(db, types, i, es))
  {
    if es != [] {
      var rows, vs := EntryRows(db, types, i, p, id, es[0]), EntryValues(db, types, i, es[0]);
      OutColumns(db, types, i + 1, p + Front(types, i, Binding(id, es[0])), Inner(db, types, i, es[0]));
      MidValues(db, types, i, p, id, es[1..]);
      MapAppend((r: Tuple) => Get(r, Data), rows, MidRows(db, types, i, p, id, es[1..]));
      var here := Map((x: Json) => (es[0].sub, x), vs);
      MapAppend((p: Pair) => p.1, here, Pairs(db, types, i, es[1..]));
      assert Seconds(here) == vs;
      assert Pairs(db, types, i, es) == here + Pairs(db, types, i, es[1..]);
    }
  }

  lemma EntryPairs(db: Db, types: seq<View>, i: nat, p: Tuple, id: Text, e: Entry)
    requires i + 1 < |types| && p.Keys == ColSet(types, i) && HasSub(types[i])
    ensures PairsOf(SubCol(types[i], i), Data, EntryRows(db, types, i, p, id, e)) ==
            Map((x: Json) => (e.sub, x), EntryValues(db, types, i, e))
  {
    var rows, vs, c := EntryRows(db, types, i, p, id, e), EntryValues(db, types, i, e), SubCol(types[i], i);
    OutColumns(db, types, i + 1, p + Front(types, i, Binding(id, e)), Inner(db, types, i, e));
    assert |Column(Data, rows)| == |rows|;
    forall k | 0 <= k < |rows| ensures NameOf(Get(rows[k], c)) == e.sub && Get(rows[k], Data) == vs[k] {
      EntrySub(db, types, i, p, id, e, rows[k]);
      assert Column(Data, rows)[k] == Get(rows[k], Data);
    }
  }

  lemma {:induction false} MidPairs(db: Db, types: seq<View>, i: nat, p: Tuple, id: Text, es: seq<Entry>)
    requires i + 1 < |types| && p.Keys == ColSet(types, i) && HasSub(types[i])
    ensures PairsOf(SubCol(types[i], i), Data, MidRows(db, types, i, p, id, es)) == Pairs(db, types, i, es)
  {
    if es != [] {
      var c := SubCol(types[i], i);
      EntryPairs(db, types, i, p, id, es[0]);
      MidPairs(db, types, i, p, id, es[1..]);
      MapAppend((r: Tuple) => (NameOf(Get(r, c)), Get(r, Data)), EntryRows(db, types, i, p, id, es[0]),
                MidRows(db, types, i, p, id, es[1..]));
    }
  }

  // ---- maps of multi-value registers: one row for each key with a value -------------------

  function KeyRow(types: seq<View>, i: nat, p: Tuple, id: Text, e: Entry, vs: seq<Json>): seq<Tuple>
    requires i < |types|
  {
    if vs == [] then [] else [(p + Front(types, i, Binding(id, e)))[Data := Bag(multiset(vs))]]
  }

  function KeyRows(db: Db, types: seq<View>, i: nat, p: Tuple, id: Text, es: seq<Entry>): seq<Tuple>
    requires i + 1 < |types|
  {
    if es == [] then []
    else KeyRow(types, i, p, id, es[0], EntryValues(db, types, i, es[0])) + KeyRows(db, types, i, p, id, es[1..])
  }

  lemma EntryGroup(db: Db, types: seq<View>, i: nat, p: Tuple, id: Text, e: Entry, rows: seq<Tuple>)
    requires i + 1 < |types| && p.Keys == ColSet(types, i) && SameBag(rows, EntryRows(db, types, i, p, id, e))
    ensures GroupBy(ColSet(types, i + 1), ArrayAgg(Data), rows) ==
        KeyRow(types, i, p, id, e, EntryValues(db, types, i, e))
  {
    var all, q := EntryRows(db, types, i, p, id, e), p + Front(types, i, Binding(id, e));
    OutColumns(db, types, i + 1, q, Inner(db, types, i, e));
    BagMembers(rows, all);
    assert |Column(Data, all)| == |all|;
    MapBag((r: Tuple) => Get(r, Data), rows, all);
    if rows != [] {
      forall r | r in rows ensures KeyOf(r, ColSet(types, i + 1)) == q { EntryKeys(db, types, i, p, id, e, r); }
      GroupOne(ColSet(types, i + 1), ArrayAgg(Data), rows, q);
    }
  }

  lemma {:induction false} SubOfMid(db: Db, types: seq<View>, i: nat, p: Tuple, id: Text, es: seq<Entry>, r: Tuple)
      returns (e: Entry)
    requires i + 1 < |types| && p.Keys == ColSet(types, i) && HasSub(types[i]) && r in MidRows(db, types, i, p, id, es)
    ensures e in es && Get(r, SubCol(types[i], i)) == Str(e.sub)
    decreases |es|
  {
    if r in MidRows(db, types, i, p, id, es[1..]) {
      e := SubOfMid(db, types, i, p, id, es[1..], r);
    } else {
      e := es[0];
      EntrySub(db, types, i, p, id, e, r);
    }
  }

  lemma MidApart(db: Db, types: seq<View>, i: nat, p: Tuple, id: Text, es: seq<Entry>)
    requires i + 1 < |types| && p.Keys == ColSet(types, i) && HasSub(types[i]) && es != [] && ValidEntries(types[i], es)
    ensures AllHave(EntryRows(db, types, i, p, id, es[0]), SubCol(types[i], i), Str(es[0].sub))
    ensures NoneHas(MidRows(db, types, i, p, id, es[1..]), SubCol(types[i], i), Str(es[0].sub))
  {
    var c := SubCol(types[i], i);
    forall x | x in EntryRows(db, types, i, p, id, es[0]) ensures KeyOf(x, {c}) == map[c := Str(es[0].sub)] {
      EntrySub(db, types, i, p, id, es[0], x);
      KeyIsOne(x, c, Str(es[0].sub));
    }
    forall x | x in MidRows(db, types, i, p, id, es[1..]) ensures KeyOf(x, {c}) != map[c := Str(es[0].sub)] {
      var e := SubOfMid(db, types, i, p, id, es[1..], x);
      var k :| 0 <= k < |es[1..]| && es[1..][k] == e;
      assert es[k + 1].sub != es[0].sub;
      KeyIsOne(x, c, Str(es[0].sub));
    }
  }

  lemma ValidTail(v: View, es: seq<Entry>)
    requires es != [] && ValidEntries(v, es)
    ensures ValidEntries(v, es[1..])
  {
  }

  lemma MidSplit(db: Db, types: seq<View>, i: nat, p: Tuple, id: Text, es: seq<Entry>, rows: seq<Tuple>)
    requires i + 1 < |types| && p.Keys == ColSet(types, i) && HasSub(types[i]) && es != [] && ValidEntries(types[i], es)
    requires SameBag(rows, MidRows(db, types, i, p, id, es))
    ensures var s, q, cols := {SubCol(types[i], i)}, map[SubCol(types[i], i) := Str(es[0].sub)], ColSet(types, i + 1);
            var out := GroupBy(cols, ArrayAgg(Data), rows);
            && SameBag(Pick(s, q, true, rows), EntryRows(db, types, i, p, id, es[0]))
            && SameBag(Pick(s, q, false, rows), MidRows(db, types, i, p, id, es[1..]))
            && Pick(s, q, true, out) == GroupBy(cols, ArrayAgg(Data), Pick(s, q, true, rows))
            && Pick(s, q, false, out) == GroupBy(cols, ArrayAgg(Data), Pick(s, q, false, rows))
  {
    var s, q, cols := {SubCol(types[i], i)}, map[SubCol(types[i], i) := Str(es[0].sub)], ColSet(types, i + 1);
    SubColInLevel(types[i], i);
    MidApart(db, types, i, p, id, es);
    PickApart(s, q, rows, EntryRows(db, types, i, p, id, es[0]), MidRows(db, types, i, p, id, es[1..]));
    GroupPick(cols, ArrayAgg(Data), s, q, true, rows);
    GroupPick(cols, ArrayAgg(Data), s, q, false, rows);
  }

  /** Collecting the values of each key, from the middle rows in any order. */
  lemma {:induction false} InnerOfMid(db: Db, types: seq<View>, i: nat, p: Tuple, id: Text, es: seq<Entry>,
      rows: seq<Tuple>)
    requires i + 1 < |types| && p.Keys == ColSet(types, i) && HasSub(types[i]) && ValidEntries(types[i], es)
    requires SameBag(rows, MidRows(db, types, i, p, id, es))
    ensures SameBag(GroupBy(ColSet(types, i + 1), ArrayAgg(Data), rows), KeyRows(db, types, i, p, id, es))
    decreases |es|
  {
    if es == [] {
      EmptyBag(rows);
    } else {
      var c, q, cols := SubCol(types[i], i), map[SubCol(types[i], i) := Str(es[0].sub)], ColSet(types, i + 1);
      var out := GroupBy(cols, ArrayAgg(Data), rows);
      MidSplit(db, types, i, p, id, es, rows);
      EntryGroup(db, types, i, p, id, es[0], Pick({c}, q, true, rows));
      ValidTail(types[i], es);
      InnerOfMid(db, types, i, p, id, es[1..], Pick({c}, q, false, rows));
      PickParts({c}, q, out);
      SameBagAppend(Pick({c}, q, true, out), Pick({c}, q, false, out),
                    KeyRow(types, i, p, id, es[0], EntryValues(db, types, i, es[0])),
                        KeyRows(db, types, i, p, id, es[1..]));
    }
  }

  lemma {:induction false} ObjFront(p: Pair, ps: seq<Pair>)
    requires p.0 !in ObjOf(ps)
    ensures ObjOf([p] + ps) == ObjOf(ps)[p.0 := p.1]
    decreases |ps|
  {
    if ps == [] {
      assert [p] + ps == [p] && ObjOf([p][..0]) == map[];
    } else {
      var n := |ps|;
      ObjFront(p, ps[..n - 1]);
      assert ([p] + ps)[..n] == [p] + ps[..n - 1];
    }
  }

  lemma {:induction false} BagKeys(db: Db, types: seq<View>, i: nat, es: seq<Entry>, k: Text) returns (e: Entry)
    requires i + 1 < |types| && k in BagsByKey(db, types, i, es)
    ensures e in es && e.sub == k
    decreases |es|
  {
    if k in BagsByKey(db, types, i, es[1..]) { e := BagKeys(db, types, i, es[1..], k); } else { e := es[0]; }
  }

  lemma FreshKey(db: Db, types: seq<View>, i: nat, es: seq<Entry>)
    requires i + 1 < |types| && IsMap(types[i]) && es != [] && ValidEntries(types[i], es)
    ensures es[0].sub !in BagsByKey(db, types, i, es[1..])
  {
    if es[0].sub in BagsByKey(db, types, i, es[1..]) {
      var e := BagKeys(db, types, i, es[1..], es[0].sub);
      assert false;
    }
  }

  lemma KeyRowColumns(types: seq<View>, i: nat, p: Tuple, id: Text, e: Entry, x: Json)
    requires i < |types| && p.Keys == ColSet(types, i) && IsMap(types[i])
    ensures var row := (p + Front(types, i, Binding(id, e)))[Data := x];
            KeyOf(row, GroupSet(types, i)) == Head(i, p, id) && Get(row, Key(i)) == Str(e.sub) && Get(row, Data) == x
  {
    FrontColumns(types, i, p, Binding(id, e));
    KeyIsHead(types, i, p, id, (p + Front(types, i, Binding(id, e)))[Data := x]);
  }

  lemma PairsCons(key: Col, value: Col, r: Tuple, rows: seq<Tuple>)
    ensures PairsOf(key, value, [r] + rows) == [(NameOf(Get(r, key)), Get(r, value))] + PairsOf(key, value, rows)
  {
  }

  lemma {:induction false} KeyRowsAreBags(db: Db, types: seq<View>, i: nat, p: Tuple, id: Text, es: seq<Entry>)
    requires i + 1 < |types| && p.Keys == ColSet(types, i) && IsMap(types[i]) && ValidEntries(types[i], es)
    ensures ObjOf(PairsOf(Key(i), Data, KeyRows(db, types, i, p, id, es))) == BagsByKey(db, types, i, es)
    ensures AllOf(types, i, p, id, KeyRows(db, types, i, p, id, es))
    decreases |es|
  {
    if es != [] {
      ValidTail(types[i], es);
      KeyRowsAreBags(db, types, i, p, id, es[1..]);
      FreshKey(db, types, i, es);
      KeyRowsStep(db, types, i, p, id, es);
    }
  }

  lemma KeyRowsStep(db: Db, types: seq<View>, i: nat, p: Tuple, id: Text, es: seq<Entry>)
    requires i + 1 < |types| && p.Keys == ColSet(types, i) && IsMap(types[i]) && es != []
    requires es[0].sub !in BagsByKey(db, types, i, es[1..])
    requires ObjOf(PairsOf(Key(i), Data, KeyRows(db, types, i, p, id, es[1..]))) == BagsByKey(db, types, i, es[1..])
    requires AllOf(types, i, p, id, KeyRows(db, types, i, p, id, es[1..]))
    ensures ObjOf(PairsOf(Key(i), Data, KeyRows(db, types, i, p, id, es))) == BagsByKey(db, types, i, es)
    ensures AllOf(types, i, p, id, KeyRows(db, types, i, p, id, es))
  {
    var vs, rest := EntryValues(db, types, i, es[0]), KeyRows(db, types, i, p, id, es[1..]);
    if vs != [] {
      AddKeyRow(types, i, p, id, es[0], Bag(multiset(vs)), rest, BagsByKey(db, types, i, es[1..]));
    } else {
      assert [] + rest == rest;
    }
  }

  lemma AddKeyRow(types: seq<View>, i: nat, p: Tuple, id: Text, e: Entry, x: Json, rest: seq<Tuple>,
      bags: map<Text, Json>)
    requires i + 1 < |types| && p.Keys == ColSet(types, i) && IsMap(types[i]) && e.sub !in bags
    requires ObjOf(PairsOf(Key(i), Data, rest)) == bags && AllOf(types, i, p, id, rest)
    ensures var rows := [(p + Front(types, i, Binding(id, e)))[Data := x]] + rest;
            ObjOf(PairsOf(Key(i), Data, rows)) == bags[e.sub := x] && AllOf(types, i, p, id, rows)
  {
    KeyRowColumns(types, i, p, id, e, x);
    PairsCons(Key(i), Data, (p + Front(types, i, Binding(id, e)))[Data := x], rest);
    ObjFront((e.sub, x), PairsOf(Key(i), Data, rest));
  }

  lemma {:induction false} KeyRowsEmptiness(db: Db, types: seq<View>, i: nat, p: Tuple, id: Text, es: seq<Entry>)
    requires i + 1 < |types|
    ensures KeyRows(db, types, i, p, id, es) == [] <==> Pairs(db, types, i, es) == []
  {
    if es != [] { KeyRowsEmptiness(db, types, i, p, id, es[1..]); }
  }

  lemma {:induction false} KeyRowNames(db: Db, types: seq<View>, i: nat, p: Tuple, id: Text, es: seq<Entry>, x: Pair)
      returns (e: Entry)
    requires i + 1 < |types| && p.Keys == ColSet(types, i) && IsMap(types[i])
    requires x in PairsOf(Key(i), Data, KeyRows(db, types, i, p, id, es))
    ensures e in es && e.sub == x.0
    decreases |es|
  {
    var vs, rest := EntryValues(db, types, i, es[0]), KeyRows(db, types, i, p, id, es[1..]);
    if x in PairsOf(Key(i), Data, rest) {
      e := KeyRowNames(db, types, i, p, id, es[1..], x);
    } else {
      e := es[0];
      KeyRowColumns(types, i, p, id, es[0], Bag(multiset(vs)));
      PairsCons(Key(i), Data, (p + Front(types, i, Binding(id, es[0])))[Data := Bag(multiset(vs))], rest);
      assert [] + rest == rest;
    }
  }

  lemma {:induction false} KeyRowsDistinct(db: Db, types: seq<View>, i: nat, p: Tuple, id: Text, es: seq<Entry>)
    requires i + 1 < |types| && p.Keys == ColSet(types, i) && IsMap(types[i]) && ValidEntries(types[i], es)
    ensures DistinctNames(PairsOf(Key(i), Data, KeyRows(db, types, i, p, id, es)))
    decreases |es|
  {
    if es != [] {
      var vs, rest := EntryValues(db, types, i, es[0]), KeyRows(db, types, i, p, id, es[1..]);
      ValidTail(types[i], es);
      KeyRowsDistinct(db, types, i, p, id, es[1..]);
      if vs != [] {
        KeyRowColumns(types, i, p, id, es[0], Bag(multiset(vs)));
        PairsCons(Key(i), Data, (p + Front(types, i, Binding(id, es[0])))[Data := Bag(multiset(vs))], rest);
        forall x | x in PairsOf(Key(i), Data, rest) ensures x.0 != es[0].sub {
          var e := KeyRowNames(db, types, i, p, id, es[1..], x);
          TailDiffers(types[i], es, e);
        }
        DistinctCons((es[0].sub, Bag(multiset(vs))), PairsOf(Key(i), Data, rest));
      } else {
        assert [] + rest == rest;
      }
    }
  }

  // ---- aggregating one level --------------------------------------------------------------

  lemma {:induction false} NestedAllLength(db: Db, types: seq<View>, i: nat, ss: seq<Structure>)
    requires i < |types|
    ensures |NestedAll(db, types, i, ss)| <= |ss|
  {
    if ss != [] { NestedAllLength(db, types, i, ss[1..]); }
  }

  /** A single value refers to at most one structure. */
  lemma OneReferenced(db: Db, v: View, c: Cell)
    requires ValidDb(db) && c.One?
    ensures |Referenced(db, v, c)| <= 1
  {
    var ss := Referenced(db, v, c);
    var ends := if |ss| > 1 then (ss[0].id, ss[1].id) else ([], []);
    ReferencedValid(v, db, c);
    forall k | 0 <= k < |ss| ensures ss[k].id == c.text {
      assert ss[k] in Filter((s: Structure) => s.id in Targets(c), db(v));
    }
  }

  lemma {:induction false} PairNames(db: Db, types: seq<View>, i: nat, es: seq<Entry>, x: Pair) returns (e: Entry)
    requires i < |types| && x in Pairs(db, types, i, es)
    ensures e in es && e.sub == x.0
    decreases |es|
  {
    if x in Pairs(db, types, i, es[1..]) { e := PairNames(db, types, i, es[1..], x); } else { e := es[0]; }
  }

  ghost predicate SingleCells(es: seq<Entry>) {
    forall e :: e in es ==> e.cell.One?
  }

  /** Below single values, the pairs of a map or list have distinct names, and those of a
      register are one at most. */
  lemma {:induction false} PairsDistinct(db: Db, types: seq<View>, i: nat, es: seq<Entry>)
    requires i + 1 < |types| && ValidDb(db) && SingleCells(es)
    requires HasSub(types[i]) ==> ValidEntries(types[i], es)
    ensures HasSub(types[i]) ==> DistinctNames(Pairs(db, types, i, es))
    ensures |Pairs(db, types, i, es)| <= |es|
    decreases |es|
  {
    if es != [] {
      var values := EntryValues(db, types, i, es[0]);
      assert es[0] in es && forall e :: e in es[1..] ==> e in es;
      OneReferenced(db, types[i + 1], es[0].cell);
      NestedAllLength(db, types, i + 1, Inner(db, types, i, es[0]));
      PairsDistinct(db, types, i, es[1..]);
      var here, rest := Map((x: Json) => (es[0].sub, x), values), Pairs(db, types, i, es[1..]);
      assert Pairs(db, types, i, es) == here + rest;
      if HasSub(types[i]) {
        ValidTail(types[i], es);
        forall x | x in rest ensures x.0 != es[0].sub {
          var e := PairNames(db, types, i, es[1..], x);
          SubDiffers(types[i], es, e);
        }
        OneMoreName(here, rest, es[0].sub);
      }
    }
  }

  lemma SubDiffers(v: View, es: seq<Entry>, e: Entry)
    requires HasSub(v) && es != [] && ValidEntries(v, es) && e in es[1..]
    ensures e.sub != es[0].sub
  {
  }

  lemma OneMoreName(here: seq<Pair>, rest: seq<Pair>, name: Text)
    requires |here| <= 1 && (forall x :: x in here ==> x.0 == name)
    requires DistinctNames(rest) && forall x :: x in rest ==> x.0 != name
    ensures DistinctNames(here + rest)
  {
    if |here| == 1 {
      assert here == [here[0]] && here[0] in here;
      DistinctCons(here[0], rest);
    } else {
      assert here + rest == rest;
    }
  }

  lemma CombineIsAgg(v: View, i: nat, rows: seq<Tuple>, ps: seq<Pair>)
    requires rows != [] && ps != [] && Joinable(v) && multiset(Column(Data, rows)) == multiset(Seconds(ps))
    requires HasSub(v) ==> DistinctNames(ps) && multiset(ps) == multiset(PairsOf(SubCol(v, i), Data, rows))
    requires v.RegisterLww? ==> |ps| == 1
    ensures AggValue(OuterAgg(v, i), rows) == Combine(v, false, ps)
  {
    if HasSub(v) {
      CombineBag(v, false, ps, PairsOf(SubCol(v, i), Data, rows));
    } else if v.RegisterLww? {
      BagMembers(Column(Data, rows), Seconds(ps));
      assert Get(rows[0], Data) == Column(Data, rows)[0] && Column(Data, rows)[0] in Seconds(ps);
    }
  }

  /** Aggregating level i over the rows of one structure, in any order, gives its value. */
  lemma LevelOfMid(db: Db, types: seq<View>, i: nat, p: Tuple, s: Structure, rows: seq<Tuple>, out: seq<Tuple>)
    requires i + 1 < |types| && p.Keys == ColSet(types, i) && Joinable(types[i]) && ValidDb(db) &&
        ValidEntries(types[i], s.entries)
    requires SameBag(rows, MidRows(db, types, i, p, s.id, s.entries)) && LevelYields(types, i, rows, out)
    ensures SameBag(out, RowOf(db, types, i, p, s))
  {
    var mid :| GroupYields(ColSet(types, i + 1), InnerAgg(types[i]), rows, mid)
               && GroupYields(GroupSet(types, i), Some(OuterAgg(types[i], i)), mid, out);
    if IsMvrMap(types[i]) {
      InnerOfMid(db, types, i, p, s.id, s.entries, rows);
      KeyRowsValue(db, types, i, p, s, mid);
    } else {
      MidValue(db, types, i, p, s, mid);
    }
  }

  lemma MidValue(db: Db, types: seq<View>, i: nat, p: Tuple, s: Structure, rows: seq<Tuple>)
    requires i + 1 < |types| && p.Keys == ColSet(types, i) && Joinable(types[i]) && !IsMvrMap(types[i])
    requires ValidDb(db) && ValidEntries(types[i], s.entries)
    requires SameBag(rows, MidRows(db, types, i, p, s.id, s.entries))
    ensures GroupBy(GroupSet(types, i), OuterAgg(types[i], i), rows) == RowOf(db, types, i, p, s)
  {
    var all, ps := MidRows(db, types, i, p, s.id, s.entries), Pairs(db, types, i, s.entries);
    MidIds(db, types, i, p, s.id, s.entries);
    MidValues(db, types, i, p, s.id, s.entries);
    BagMembers(rows, all);
    assert |Column(Data, all)| == |all| && |Seconds(ps)| == |ps|;
    if rows != [] {
      MidCombine(db, types, i, p, s, rows);
      SingleGroup(types, i, p, s.id, OuterAgg(types[i], i), rows);
    }
  }

  lemma MidCombine(db: Db, types: seq<View>, i: nat, p: Tuple, s: Structure, rows: seq<Tuple>)
    requires i + 1 < |types| && p.Keys == ColSet(types, i) && Joinable(types[i]) && !IsMvrMap(types[i])
    requires ValidDb(db) && ValidEntries(types[i], s.entries) && rows != [] && Pairs(db, types, i, s.entries) != []
    requires SameBag(rows, MidRows(db, types, i, p, s.id, s.entries))
    ensures AggValue(OuterAgg(types[i], i), rows) == Combine(types[i], false, Pairs(db, types, i, s.entries))
  {
    var v, all, ps := types[i], MidRows(db, types, i, p, s.id, s.entries), Pairs(db, types, i, s.entries);
    MidValues(db, types, i, p, s.id, s.entries);
    MapBag((r: Tuple) => Get(r, Data), rows, all);
    if HasSub(v) {
      MidPairs(db, types, i, p, s.id, s.entries);
      MapBag((r: Tuple) => (NameOf(Get(r, SubCol(v, i))), Get(r, Data)), rows, all);
    }
    if HasSub(v) || v.RegisterLww? { PairsDistinct(db, types, i, s.entries); }
    CombineIsAgg(v, i, rows, ps);
  }

  lemma KeyRowsObject(db: Db, types: seq<View>, i: nat, p: Tuple, s: Structure, rows: seq<Tuple>)
    requires i + 1 < |types| && p.Keys == ColSet(types, i) && IsMvrMap(types[i]) && ValidEntries(types[i], s.entries)
    requires SameBag(rows, KeyRows(db, types, i, p, s.id, s.entries))
    ensures ObjOf(PairsOf(Key(i), Data, rows)) == BagsByKey(db, types, i, s.entries)
    ensures AllOf(types, i, p, s.id, KeyRows(db, types, i, p, s.id, s.entries))
  {
    var all := KeyRows(db, types, i, p, s.id, s.entries);
    KeyRowsAreBags(db, types, i, p, s.id, s.entries);
    KeyRowsDistinct(db, types, i, p, s.id, s.entries);
    MapBag((r: Tuple) => (NameOf(Get(r, Key(i))), Get(r, Data)), all, rows);
    ObjOfBag(PairsOf(Key(i), Data, all), PairsOf(Key(i), Data, rows));
  }

  lemma MvrRow(db: Db, types: seq<View>, i: nat, p: Tuple, s: Structure)
    requires i + 1 < |types| && IsMvrMap(types[i]) && Pairs(db, types, i, s.entries) != []
    ensures RowOf(db, types, i, p, s) == [Head(i, p, s.id)[Data := Obj(BagsByKey(db, types, i, s.entries))]]
  {
  }

  lemma KeyRowsValue(db: Db, types: seq<View>, i: nat, p: Tuple, s: Structure, rows: seq<Tuple>)
    requires i + 1 < |types| && p.Keys == ColSet(types, i) && IsMvrMap(types[i]) && ValidEntries(types[i], s.entries)
    requires SameBag(rows, KeyRows(db, types, i, p, s.id, s.entries))
    ensures GroupBy(GroupSet(types, i), ObjectAgg(Key(i), Data), rows) == RowOf(db, types, i, p, s)
  {
    var all := KeyRows(db, types, i, p, s.id, s.entries);
    BagMembers(rows, all);
    KeyRowsEmptiness(db, types, i, p, s.id, s.entries);
    if rows != [] {
      KeyRowsObject(db, types, i, p, s, rows);
      MvrRow(db, types, i, p, s);
      SingleGroup(types, i, p, s.id, ObjectAgg(Key(i), Data), rows);
    }
  }

  // ---- the last level ---------------------------------------------------------------------

  /** The projected row of an entry of the last level. */
  function LeafRow(types: seq<View>, p: Tuple, id: Text, e: Entry): Tuple
    requires types != []
  {
    p + Project(|types| - 1, BaseColumns(types[|types| - 1], |types| - 1), [Binding(id, e)])
  }

  function LeafRows(types: seq<View>, p: Tuple, s: Structure): seq<Tuple>
    requires types != []
  {
    Map((e: Entry) => LeafRow(types, p, s.id, e), s.entries)
  }

  lemma {:induction false} LeafEnvs(db: Db, types: seq<View>, id: Text, es: seq<Entry>)
    requires types != []
    ensures JoinEntries(db, types, |types| - 1, id, es) == Map((e: Entry) => [Binding(id, e)], es)
  {
    if es != [] { LeafEnvs(db, types, id, es[1..]); }
  }

  lemma {:induction false} LeafEntries(db: Db, types: seq<View>, es: seq<Entry>)
    requires types != []
    ensures Pairs(db, types, |types| - 1, es) == Map((e: Entry) => (e.sub, Leaf(e.cell)), es)
  {
    if es != [] { LeafEntries(db, types, es[1..]); }
  }

  lemma LeafRel(db: Db, types: seq<View>, p: Tuple, s: Structure)
    requires types != []
    ensures Rel(types, |types| - 1, p, JoinEntries(db, types, |types| - 1, s.id, s.entries)) == LeafRows(types, p, s)
  {
    LeafEnvs(db, types, s.id, s.entries);
  }

  function LeafCol(v: View, i: nat): Col {
    if IsMap(v) then Value(i) else Data
  }

  lemma OwnColumns(v: View, i: nat, b: Binding)
    ensures var own := Project(i, BaseColumns(v, i), [b]);
            && Id(i) in own && own[Id(i)] == Str(b.id)
            && LeafCol(v, i) in own && own[LeafCol(v, i)] == Leaf(b.entry.cell)
            && (HasSub(v) ==> SubCol(v, i) in own && own[SubCol(v, i)] == Str(b.entry.sub))
            && (forall c :: c in own ==> c == Data || LevelOf(c) == i)
            && (!HasSub(v) ==> own.Keys == {Id(i), Data})
  {
    var cols := BaseColumns(v, i);
    assert cols[0] == Id(i) && cols[|cols| - 1] == LeafCol(v, i);
    if HasSub(v) { assert cols[1] == SubCol(v, i); }
  }

  lemma OwnMerge(types: seq<View>, i: nat, p: Tuple, own: Tuple, id: Text)
    requires i < |types| && p.Keys == ColSet(types, i)
    requires Id(i) in own && own[Id(i)] == Str(id) && forall c :: c in own ==> c == Data || LevelOf(c) == i
    ensures KeyOf(p + own, GroupSet(types, i)) == Head(i, p, id)
    ensures forall c :: c in own ==> Get(p + own, c) == own[c]
    ensures own.Keys == {Id(i), Data} ==> p + own == Head(i, p, id)[Data := own[Data]]
  {
    KeyIsHead(types, i, p, id, p + own);
  }

  lemma LeafRowColumns(types: seq<View>, p: Tuple, id: Text, e: Entry)
    requires types != [] && p.Keys == ColSet(types, |types| - 1)
    ensures var i, r, v := |types| - 1, LeafRow(types, p, id, e), types[|types| - 1];
            && KeyOf(r, GroupSet(types, i)) == Head(i, p, id)
            && Get(r, LeafCol(v, i)) == Leaf(e.cell)
            && (HasSub(v) ==> Get(r, SubCol(v, i)) == Str(e.sub))
            && (!HasSub(v) ==> r == Head(i, p, id)[Data := Leaf(e.cell)])
  {
    var i, v, b := |types| - 1, types[|types| - 1], Binding(id, e);
    OwnColumns(v, i, b);
    OwnMerge(types, i, p, Project(i, BaseColumns(v, i), [b]), id);
  }

  lemma LeafFacts(types: seq<View>, p: Tuple, s: Structure)
    requires types != [] && p.Keys == ColSet(types, |types| - 1)
    ensures var i, v, rows := |types| - 1, types[|types| - 1], LeafRows(types, p, s);
            && AllOf(types, i, p, s.id, rows)
            && forall k :: 0 <= k < |rows| ==>
               Get(rows[k], LeafCol(v, i)) == Leaf(s.entries[k].cell)
               && (HasSub(v) ==> Get(rows[k], SubCol(v, i)) == Str(s.entries[k].sub))
  {
    var i, v, rows := |types| - 1, types[|types| - 1], LeafRows(types, p, s);
    forall k | 0 <= k < |rows|
      ensures KeyOf(rows[k], GroupSet(types, i)) == Head(i, p, s.id)
      ensures Get(rows[k], LeafCol(v, i)) == Leaf(s.entries[k].cell)
      ensures HasSub(v) ==> Get(rows[k], SubCol(v, i)) == Str(s.entries[k].sub)
    {
      LeafRowColumns(types, p, s.id, s.entries[k]);
    }
  }

  lemma LeafPairs(db: Db, types: seq<View>, p: Tuple, s: Structure)
    requires types != [] && p.Keys == ColSet(types, |types| - 1)
    ensures var i, v, rows := |types| - 1, types[|types| - 1], LeafRows(types, p, s);
            var ps := Pairs(db, types, i, s.entries);
            && |ps| == |s.entries|
            && Column(LeafCol(v, i), rows) == Seconds(ps)
            && (HasSub(v) ==> PairsOf(SubCol(v, i), LeafCol(v, i), rows) == ps)
  {
    LeafFacts(types, p, s);
    LeafEntries(db, types, s.entries);
  }

  lemma LeafDistinct(db: Db, types: seq<View>, es: seq<Entry>)
    requires types != [] && ValidEntries(types[|types| - 1], es)
    ensures HasSub(types[|types| - 1]) ==> DistinctNames(Pairs(db, types, |types| - 1, es))
  {
    LeafEntries(db, types, es);
  }

  lemma RootIsCombine(v: View, i: nat, rows: seq<Tuple>, ps: seq<Pair>)
    requires rows != [] && ps != [] && RootAgg(v, i).Some?
    requires multiset(Column(LeafCol(v, i), rows)) == multiset(Seconds(ps))
    requires HasSub(v) ==> DistinctNames(ps) && multiset(ps) == multiset(PairsOf(SubCol(v, i), LeafCol(v, i), rows))
    ensures AggValue(RootAgg(v, i).value, rows) == Combine(v, true, ps)
  {
    if HasSub(v) { CombineBag(v, true, ps, PairsOf(SubCol(v, i), LeafCol(v, i), rows)); }
  }

  lemma PlainLeaf(types: seq<View>, p: Tuple, s: Structure)
    requires types != [] && p.Keys == ColSet(types, |types| - 1) && |s.entries| == 1 && !HasSub(types[|types| - 1])
    ensures LeafRows(types, p, s) == [Head(|types| - 1, p, s.id)[Data := Leaf(s.entries[0].cell)]]
  {
    LeafRowColumns(types, p, s.id, s.entries[0]);
  }

  lemma LeafCombine(db: Db, types: seq<View>, p: Tuple, s: Structure, rows: seq<Tuple>)
    requires types != [] && p.Keys == ColSet(types, |types| - 1) && ValidEntries(types[|types| - 1], s.entries)
    requires SameBag(rows, LeafRows(types, p, s)) && rows != [] && RootAgg(types[|types| - 1], |types| - 1).Some?
    requires Pairs(db, types, |types| - 1, s.entries) != []
    ensures var i := |types| - 1;
            AggValue(RootAgg(types[i], i).value, rows) == Combine(types[i], true, Pairs(db, types, i, s.entries))
  {
    var i, v, all := |types| - 1, types[|types| - 1], LeafRows(types, p, s);
    LeafPairs(db, types, p, s);
    LeafDistinct(db, types, s.entries);
    MapBag((r: Tuple) => Get(r, LeafCol(v, i)), rows, all);
    if HasSub(v) { MapBag((r: Tuple) => (NameOf(Get(r, SubCol(v, i))), Get(r, LeafCol(v, i))), rows, all); }
    RootIsCombine(v, i, rows, Pairs(db, types, i, s.entries));
  }

  lemma LeafLayer(db: Db, types: seq<View>, p: Tuple, s: Structure, rows: seq<Tuple>, out: seq<Tuple>)
    requires types != [] && p.Keys == ColSet(types, |types| - 1) && ValidEntries(types[|types| - 1], s.entries)
    requires SameBag(rows, LeafRows(types, p, s))
    requires GroupYields(GroupSet(types, |types| - 1), RootAgg(types[|types| - 1], |types| - 1), rows, out)
    ensures SameBag(out, RowOf(db, types, |types| - 1, p, s))
  {
    if s.entries == [] {
      EmptyLeaf(db, types, p, s, rows, out);
    } else if RootAgg(types[|types| - 1], |types| - 1).Some? {
      RootLeaf(db, types, p, s, rows, out);
    } else {
      OneRow(types[|types| - 1], |types| - 1, s.entries);
      PlainLeaf(types, p, s);
      SingleLeaf(db, types, p, s, Head(|types| - 1, p, s.id)[Data := Leaf(s.entries[0].cell)]);
      SameBagTrans(out, rows, LeafRows(types, p, s));
    }
  }

  /** Registers and counters have one row, and no aggregation at the last level. */
  lemma SingleLeaf(db: Db, types: seq<View>, p: Tuple, s: Structure, row: Tuple)
    requires types != [] && |s.entries| == 1
    requires var v := types[|types| - 1]; v.RegisterMvr? || v.RegisterLww? || v.Counter?
    requires row == Head(|types| - 1, p, s.id)[Data := Leaf(s.entries[0].cell)]
    ensures RowOf(db, types, |types| - 1, p, s) == [row]
  {
    PlainValue(db, types, s);
    RowOfValue(db, types, |types| - 1, p, s, Leaf(s.entries[0].cell));
  }

  lemma RowOfValue(db: Db, types: seq<View>, i: nat, p: Tuple, s: Structure, x: Json)
    requires i < |types| && Nested(db, types, i, s) == Some(x)
    ensures RowOf(db, types, i, p, s) == [Head(i, p, s.id)[Data := x]]
  {
  }

  lemma OneRow(v: View, x: nat, es: seq<Entry>)
    requires ValidEntries(v, es) && es != [] && RootAgg(v, x).None?
    ensures |es| == 1 && !HasSub(v) && (v.RegisterMvr? || v.RegisterLww? || v.Counter?)
  {
  }

  lemma PlainValue(db: Db, types: seq<View>, s: Structure)
    requires types != [] && |s.entries| == 1
    requires var v := types[|types| - 1]; v.RegisterMvr? || v.RegisterLww? || v.Counter?
    ensures Nested(db, types, |types| - 1, s) == Some(Leaf(s.entries[0].cell))
  {
    LeafEntries(db, types, s.entries);
  }

  lemma SameBagTrans(a: seq<Tuple>, b: seq<Tuple>, c: seq<Tuple>)
    requires SameBag(a, b) && SameBag(b, c)
    ensures SameBag(a, c)
  {
  }

  lemma EmptyLeaf(db: Db, types: seq<View>, p: Tuple, s: Structure, rows: seq<Tuple>, out: seq<Tuple>)
    requires types != [] && s.entries == [] && SameBag(rows, LeafRows(types, p, s))
    requires GroupYields(GroupSet(types, |types| - 1), RootAgg(types[|types| - 1], |types| - 1), rows, out)
    ensures SameBag(out, RowOf(db, types, |types| - 1, p, s))
  {
    BagMembers(rows, LeafRows(types, p, s));
    GroupEmpty(GroupSet(types, |types| - 1), RootAgg(types[|types| - 1], |types| - 1), out);
    assert Pairs(db, types, |types| - 1, s.entries) == [];
  }

  lemma RootLeaf(db: Db, types: seq<View>, p: Tuple, s: Structure, rows: seq<Tuple>, out: seq<Tuple>)
    requires types != [] && p.Keys == ColSet(types, |types| - 1) && ValidEntries(types[|types| - 1], s.entries)
    requires SameBag(rows, LeafRows(types, p, s)) && s.entries != [] && RootAgg(types[|types| - 1], |types| - 1).Some?
    requires GroupYields(GroupSet(types, |types| - 1), RootAgg(types[|types| - 1], |types| - 1), rows, out)
    ensures SameBag(out, RowOf(db, types, |types| - 1, p, s))
  {
    var i, v := |types| - 1, types[|types| - 1];
    BagMembers(rows, LeafRows(types, p, s));
    LeafPairs(db, types, p, s);
    LeafFacts(types, p, s);
    LeafCombine(db, types, p, s, rows);
    SingleGroup(types, i, p, s.id, RootAgg(v, i).value, rows);
  }

  // ---- all levels -------------------------------------------------------------------------

  lemma RelAppend(types: seq<View>, i: nat, p: Tuple, a: seq<Env>, b: seq<Env>)
    requires i < |types|
    ensures Rel(types, i, p, a + b) == Rel(types, i, p, a) + Rel(types, i, p, b)
  {
    MapAppend((env: Env) => p + Project(i, BaseFrom(types, i), env), a, b);
  }

  lemma ReferencedValid(v: View, db: Db, c: Cell)
    requires ValidDb(db)
    ensures ValidStructures(v, Referenced(db, v, c))
  {
    assert ValidStructures(v, db(v));
    FilterDistinct((s: Structure) => s.id in Targets(c), db(v));
  }

  lemma {:induction false} FilterDistinct(p: Structure -> bool, ss: seq<Structure>)
    requires DistinctIds(ss)
    ensures DistinctIds(Filter(p, ss))
  {
    if ss != [] {
      FilterDistinct(p, ss[1..]);
      var rest := Filter(p, ss[1..]);
      forall k | 0 <= k < |rest| ensures rest[k].id != ss[0].id {
        assert rest[k] in ss[1..];
        var l :| 0 <= l < |ss[1..]| && ss[1..][l] == rest[k];
        assert ss[l + 1] == rest[k];
      }
    }
  }

  /** One entry: the levels below it, by induction. */
  lemma {:induction false} EntryLayers(db: Db, types: seq<View>, i: nat, p: Tuple, id: Text, e: Entry,
      rows: seq<Tuple>, out: seq<Tuple>)
    requires i + 1 < |types| && p.Keys == ColSet(types, i) && Accepted(types) && ValidDb(db)
    requires SameBag(rows, Rel(types, i, p, JoinEntry(db, types, i, Binding(id, e)))) &&
        LayersYield(types, i + 1, rows, out)
    ensures SameBag(out, EntryRows(db, types, i, p, id, e))
    decreases |types| - i, 0, 0
  {
    var b, inner := Binding(id, e), Inner(db, types, i, e);
    ReferencedValid(types[i + 1], db, e.cell);
    FrontColumns(types, i, p, b);
    RelSplit(types, i, p, b, JoinStructures(db, types, i + 1, inner));
    StructuresRows(db, types, i + 1, p + Front(types, i, b), inner, rows, out);
  }

  lemma EntriesSplit(db: Db, types: seq<View>, i: nat, p: Tuple, id: Text, es: seq<Entry>, rows: seq<Tuple>,
      out: seq<Tuple>)
    returns (a: seq<Tuple>, b: seq<Tuple>, x: seq<Tuple>, y: seq<Tuple>)
    requires i + 1 < |types| && Joinable(types[i]) && |es| > 1 && ValidEntries(types[i], es)
    requires SameBag(rows, Rel(types, i, p, JoinEntries(db, types, i, id, es))) && LayersYield(types, i + 1, rows, out)
    ensures SameBag(a, Rel(types, i, p, JoinEntry(db, types, i, Binding(id, es[0])))) && LayersYield(types, i + 1, a, x)
    ensures SameBag(b, Rel(types, i, p, JoinEntries(db, types, i, id, es[1..]))) && LayersYield(types, i + 1, b, y)
    ensures SameBag(out, x + y)
  {
    var c, q := Separator(types[i], i), map[Separator(types[i], i) := Mark(types[i], es[0])];
    var first, rest := JoinEntry(db, types, i, Binding(id, es[0])), JoinEntries(db, types, i, id, es[1..]);
    EntriesApart(db, types, i, p, id, es);
    RelAppend(types, i, p, first, rest);
    PickApart({c}, q, rows, Rel(types, i, p, first), Rel(types, i, p, rest));
    SeparatorGrouped(types, i);
    a, b, x, y := Pick({c}, q, true, rows), Pick({c}, q, false, rows), Pick({c}, q, true, out),
        Pick({c}, q, false, out);
    LayersPick(types, i + 1, {c}, q, true, rows, out);
    LayersPick(types, i + 1, {c}, q, false, rows, out);
    PickParts({c}, q, out);
  }

  lemma {:induction false} EntriesRows(db: Db, types: seq<View>, i: nat, p: Tuple, id: Text, es: seq<Entry>,
      rows: seq<Tuple>, out: seq<Tuple>)
    requires i + 1 < |types| && p.Keys == ColSet(types, i) && Accepted(types) && ValidDb(db) &&
        ValidEntries(types[i], es)
    requires SameBag(rows, Rel(types, i, p, JoinEntries(db, types, i, id, es))) && LayersYield(types, i + 1, rows, out)
    ensures SameBag(out, MidRows(db, types, i, p, id, es))
    decreases |types| - i, 0, |es|
  {
    if es == [] {
      EmptyBag(rows);
      LayersEmpty(types, i + 1, out);
    } else if |es| == 1 {
      OneEntry(db, types, i, p, id, es);
      EntryLayers(db, types, i, p, id, es[0], rows, out);
    } else {
      var a, b, x, y := EntriesSplit(db, types, i, p, id, es, rows, out);
      ValidTail(types[i], es);
      EntryLayers(db, types, i, p, id, es[0], a, x);
      EntriesRows(db, types, i, p, id, es[1..], b, y);
      SameBagAppend(x, y, EntryRows(db, types, i, p, id, es[0]), MidRows(db, types, i, p, id, es[1..]));
    }
  }

  lemma OneEntry(db: Db, types: seq<View>, i: nat, p: Tuple, id: Text, es: seq<Entry>)
    requires i + 1 < |types| && |es| == 1
    ensures JoinEntries(db, types, i, id, es) == JoinEntry(db, types, i, Binding(id, es[0]))
    ensures MidRows(db, types, i, p, id, es) == EntryRows(db, types, i, p, id, es[0])
  {
    assert es[1..] == [];
    assert JoinEntries(db, types, i, id, es[1..]) == [] && MidRows(db, types, i, p, id, es[1..]) == [];
  }

  lemma {:induction false} StructureRows(db: Db, types: seq<View>, i: nat, p: Tuple, s: Structure, rows: seq<Tuple>,
      out: seq<Tuple>)
    requires i < |types| && p.Keys == ColSet(types, i) && Accepted(types) && ValidDb(db) &&
        ValidEntries(types[i], s.entries)
    requires SameBag(rows, Rel(types, i, p, JoinEntries(db, types, i, s.id, s.entries))) &&
        LayersYield(types, i, rows, out)
    ensures SameBag(out, RowOf(db, types, i, p, s))
    decreases |types| - i, 1, 0
  {
    if i == |types| - 1 {
      LeafRel(db, types, p, s);
      LeafLayer(db, types, p, s, rows, out);
    } else {
      var mid :| LayersYield(types, i + 1, rows, mid) && LevelYields(types, i, mid, out);
      EntriesRows(db, types, i, p, s.id, s.entries, rows, mid);
      LevelOfMid(db, types, i, p, s, mid, out);
    }
  }

  lemma StructuresSplit(db: Db, types: seq<View>, i: nat, p: Tuple, ss: seq<Structure>, rows: seq<Tuple>,
      out: seq<Tuple>)
    returns (a: seq<Tuple>, b: seq<Tuple>, x: seq<Tuple>, y: seq<Tuple>)
    requires i < |types| && ss != [] && DistinctIds(ss)
    requires SameBag(rows, Rel(types, i, p, JoinStructures(db, types, i, ss))) && LayersYield(types, i, rows, out)
    ensures SameBag(a, Rel(types, i, p, JoinEntries(db, types, i, ss[0].id, ss[0].entries))) &&
        LayersYield(types, i, a, x)
    ensures SameBag(b, Rel(types, i, p, JoinStructures(db, types, i, ss[1..]))) && LayersYield(types, i, b, y)
    ensures SameBag(out, x + y)
  {
    var c, q := Id(i), map[Id(i) := Str(ss[0].id)];
    var first, rest := JoinEntries(db, types, i, ss[0].id, ss[0].entries), JoinStructures(db, types, i, ss[1..]);
    StructuresApart(db, types, i, p, ss);
    RelAppend(types, i, p, first, rest);
    PickApart({c}, q, rows, Rel(types, i, p, first), Rel(types, i, p, rest));
    a, b, x, y := Pick({c}, q, true, rows), Pick({c}, q, false, rows), Pick({c}, q, true, out),
        Pick({c}, q, false, out);
    LayersPick(types, i, {c}, q, true, rows, out);
    LayersPick(types, i, {c}, q, false, rows, out);
    PickParts({c}, q, out);
  }

  lemma {:induction false} StructuresRows(db: Db, types: seq<View>, i: nat, p: Tuple, ss: seq<Structure>,
      rows: seq<Tuple>, out: seq<Tuple>)
    requires i < |types| && p.Keys == ColSet(types, i) && Accepted(types) && ValidDb(db) &&
        ValidStructures(types[i], ss)
    requires SameBag(rows, Rel(types, i, p, JoinStructures(db, types, i, ss))) && LayersYield(types, i, rows, out)
    ensures SameBag(out, OutRows(db, types, i, p, ss))
    decreases |types| - i, 2, |ss|
  {
    if ss == [] {
      EmptyBag(rows);
      LayersEmpty(types, i, out);
    } else {
      var a, b, x, y := StructuresSplit(db, types, i, p, ss, rows, out);
      StructureRows(db, types, i, p, ss[0], a, x);
      StructuresRows(db, types, i, p, ss[1..], b, y);
      SameBagAppend(x, y, RowOf(db, types, i, p, ss[0]), OutRows(db, types, i, p, ss[1..]));
    }
  }

  // ---- the theorem ------------------------------------------------------------------------

  /** The rows of the structures that have a nested value: their ids and values. */
  function Results(db: Db, types: seq<View>): seq<Tuple>
    requires types != []
  {
    OutRows(db, types, 0, map[], db(types[0]))
  }

  /** Whatever the compiled plan yields has one row for every structure of the first view that
      has a value, with that value, and nothing else. */
  lemma PlanComputesNested(db: Db, types: seq<View>, out: seq<Tuple>)
    requires Accepted(types) && ValidDb(db) && Yields(QueryPlan(types), db, out)
    ensures SameBag(out, Results(db, types))
  {
    var last :| Yields(PlanFrom(types, 0), db, last) && SameBag(out, IdAndData(last));
    var rows := PlanIsLayers(types, 0, db, last);
    assert ValidStructures(types[0], db(types[0]));
    BaseIsRel(db, types);
    StructuresRows(db, types, 0, map[], db(types[0]), rows, last);
    MapBag((r: Tuple) => map[Id(0) := Get(r, Id(0)), Data := Get(r, Data)], last, Results(db, types));
    ResultShape(db, types, db(types[0]));
    assert IdAndData(Results(db, types)) == Results(db, types) by {
      forall k | 0 <= k < |Results(db, types)| ensures IdAndData(Results(db, types))[k] == Results(db, types)[k] {
        assert Results(db, types)[k] in Results(db, types);
      }
    }
  }

  /** Every plan yields something: the joined rows in the order of the join will do. */
  lemma {:induction false} PlanYields(plan: Plan, db: Db) returns (out: seq<Tuple>)
    requires Rooted(plan)
    ensures Yields(plan, db, out)
  {
    match plan
    case Base(cols, lines) => out := BaseRows(cols, lines, db);
    case Group(cols, agg, src) =>
      var rows := PlanYields(src, db);
      out := GroupBy(SetOf(cols), agg, rows);
    case Final(src) =>
      var rows := PlanYields(src, db);
      out := IdAndData(rows);
  }

  predicate Rooted(plan: Plan) {
    match plan
    case Base(_, lines) => lines != []
    case Group(_, _, src) => Rooted(src)
    case Final(src) => Rooted(src)
  }

  lemma BaseIsRel(db: Db, types: seq<View>)
    requires Accepted(types) && ValidDb(db)
    ensures BaseRows(BaseFrom(types, 0), Lines(types), db) ==
            Rel(types, 0, map[], JoinStructures(db, types, 0, db(types[0])))
  {
    LateralRowsAreJoin(db, types);
    forall r: Tuple ensures map[] + r == r { }
  }

  lemma {:induction false} ResultShape(db: Db, types: seq<View>, ss: seq<Structure>)
    requires types != []
    ensures forall r :: r in OutRows(db, types, 0, map[], ss) ==> r == map[Id(0) := Get(r, Id(0)), Data := Get(r, Data)]
  {
    if ss != [] { ResultShape(db, types, ss[1..]); }
  }

  /** The same by membership: an (id, value) pair is returned, once, if and only if it is a
      structure of the first view and its nested value. */
  lemma PlanRowIff(db: Db, types: seq<View>, out: seq<Tuple>, id: Text, x: Json)
    requires Accepted(types) && ValidDb(db) && Yields(QueryPlan(types), db, out)
    ensures multiset(out)[map[Id(0) := Str(id), Data := x]] ==
            if exists s :: s in db(types[0]) && s.id == id && Nested(db, types, 0, s) == Some(x) then 1 else 0
  {
    var row, all := map[Id(0) := Str(id), Data := x], Results(db, types);
    assert ValidStructures(types[0], db(types[0]));
    PlanComputesNested(db, types, out);
    ResultIff(db, types, id, x);
    OutRowsDistinct(db, types, 0, map[], db(types[0]));
    CountOfDistinct(all, row);
  }

  lemma CountOfDistinct(all: seq<Tuple>, row: Tuple)
    requires DistinctOn(Id(0), all)
    ensures multiset(all)[row] == if row in all then 1 else 0
  {
    if row in all {
      var k :| 0 <= k < |all| && all[k] == row;
      SingleCount(all, k);
    }
  }

  lemma ResultIff(db: Db, types: seq<View>, id: Text, x: Json)
    requires types != []
    ensures map[Id(0) := Str(id), Data := x] in Results(db, types) <==>
            exists s :: s in db(types[0]) && s.id == id && Nested(db, types, 0, s) == Some(x)
  {
    var ss, row := db(types[0]), map[Id(0) := Str(id), Data := x];
    OutRowMembers(db, types, 0, map[], ss, row);
    forall s | s in ss
      ensures RowOf(db, types, 0, map[], s) == [row] <==> s.id == id && Nested(db, types, 0, s) == Some(x)
    {
      RowOfIs(db, types, s, id, x);
    }
  }

  lemma RowOfIs(db: Db, types: seq<View>, s: Structure, id: Text, x: Json)
    requires types != []
    ensures RowOf(db, types, 0, map[], s) == [map[Id(0) := Str(id), Data := x]] <==>
            s.id == id && Nested(db, types, 0, s) == Some(x)
  {
    var n, row: Tuple := Nested(db, types, 0, s), map[Id(0) := Str(id), Data := x];
    if n.Some? {
      var r := RowOf(db, types, 0, map[], s)[0];
      assert r[Id(0)] == Str(s.id) && r[Data] == n.value && row[Id(0)] == Str(id) && row[Data] == x;
    }
  }

  ghost predicate DistinctOn(c: Col, rows: seq<Tuple>) {
    forall i, j :: 0 <= i < j < |rows| ==> Get(rows[i], c) != Get(rows[j], c)
  }

  lemma {:induction false} OutRowMembers(db: Db, types: seq<View>, i: nat, p: Tuple, ss: seq<Structure>, r: Tuple)
    requires i < |types|
    ensures r in OutRows(db, types, i, p, ss) <==> exists s :: s in ss && RowOf(db, types, i, p, s) == [r]
  {
    if ss != [] {
      OutRowMembers(db, types, i, p, ss[1..], r);
      assert r in RowOf(db, types, i, p, ss[0]) <==> RowOf(db, types, i, p, ss[0]) == [r];
      assert forall s :: s in ss <==> s == ss[0] || s in ss[1..];
    }
  }

  lemma {:induction false} OutRowsDistinct(db: Db, types: seq<View>, i: nat, p: Tuple, ss: seq<Structure>)
    requires i < |types| && DistinctIds(ss)
    ensures DistinctOn(Id(i), OutRows(db, types, i, p, ss))
  {
    if ss != [] {
      OutRowsDistinct(db, types, i, p, ss[1..]);
      var rest := OutRows(db, types, i, p, ss[1..]);
      forall r | r in rest ensures Get(r, Id(i)) != Str(ss[0].id) {
        OutRowMembers(db, types, i, p, ss[1..], r);
        var s :| s in ss[1..] && RowOf(db, types, i, p, s) == [r];
        var k :| 0 <= k < |ss[1..]| && ss[1..][k] == s;
        assert ss[k + 1] == s;
      }
    }
  }
}
