/** The layers of a compiled plan over the joined rows, and the rows that they read. */
module NestedCorrect {
  import opened Options
  import opened Sequences
  import opened NestedViews
  import opened NestedJoins
  import opened NestedPlans

  // ---- the columns of a level ---------------------------------------------------------

  function LevelOf(c: Col): int {
    match c case Id(j) => j case Key(j) => j case Value(j) => j case Pos(j) => j case Data => -1
  }

  function LevelCols(v: View, x: nat): (s: set<Col>)
    ensures Id(x) in s && forall c :: c in s ==> LevelOf(c) == x
  {
    assert ProjectColumns(v, x)[0] in ProjectColumns(v, x);
    SetOf(ProjectColumns(v, x))
  }

  /** The columns projected from the levels above i. */
  function ColSet(types: seq<View>, i: nat): (s: set<Col>)
    requires i <= |types|
    ensures forall c :: c in s ==> 0 <= LevelOf(c) < i
  {
    if i == 0 then {} else ColSet(types, i - 1) + LevelCols(types[i - 1], i - 1)
  }

  function GroupSet(types: seq<View>, i: nat): (s: set<Col>)
    requires i < |types|
    ensures forall c :: c in s ==> 0 <= LevelOf(c) <= i
  {
    ColSet(types, i) + {Id(i)}
  }

  lemma GroupedAbove(types: seq<View>, i: nat)
    requires i + 1 < |types|
    ensures GroupSet(types, i) <= ColSet(types, i + 1) <= GroupSet(types, i + 1)
  {
  }

  lemma SetOfAppend(a: seq<Col>, b: seq<Col>)
    ensures SetOf(a + b) == SetOf(a) + SetOf(b)
  {
  }

  lemma {:induction false} ColumnsAreColSet(types: seq<View>, i: nat)
    requires i <= |types|
    ensures SetOf(ColumnsUpTo(types, i)) == ColSet(types, i)
  {
    if i > 0 {
      ColumnsAreColSet(types, i - 1);
      SetOfAppend(ColumnsUpTo(types, i - 1), ProjectColumns(types[i - 1], i - 1));
    }
  }

  // ---- the layers of a plan -------------------------------------------------------------

  ghost predicate GroupYields(cols: set<Col>, agg: Option<Agg>, rows: seq<Tuple>, out: seq<Tuple>) {
    match agg case None => SameBag(out, rows) case Some(a) => SameBag(out, GroupBy(cols, a, rows))
  }

  function OuterAgg(v: View, i: nat): Agg {
    if IsMap(v) then ObjectAgg(Key(i), Data)
    else if v.ListView? then OrderedAgg(Data, Pos(i))
    else if v.RegisterLww? then FirstOf(Data)
    else ArrayAgg(Data)
  }

  /** Maps of multi-value registers first collect the values of each key. */
  function InnerAgg(v: View): Option<Agg> {
    if IsMvrMap(v) then Some(ArrayAgg(Data)) else None
  }

  ghost predicate LevelYields(types: seq<View>, i: nat, rows: seq<Tuple>, out: seq<Tuple>)
    requires i < |types|
  {
    exists mid :: GroupYields(ColSet(types, i + 1), InnerAgg(types[i]), rows, mid)
                  && GroupYields(GroupSet(types, i), Some(OuterAgg(types[i], i)), mid, out)
  }

  /** What the aggregations of the last level up to level i may make of the given rows. */
  ghost predicate LayersYield(types: seq<View>, i: nat, rows: seq<Tuple>, out: seq<Tuple>)
    requires i < |types|
    decreases |types| - i
  {
    if i == |types| - 1 then GroupYields(GroupSet(types, i), RootAgg(types[i], i), rows, out)
    else exists mid :: LayersYield(types, i + 1, rows, mid) && LevelYields(types, i, mid, out)
  }

  // ---- a plan is its layers ---------------------------------------------------------------

  lemma UpToId(types: seq<View>, i: nat)
    requires i < |types|
    ensures SetOf(ColumnsUpTo(types, i) + [Id(i)]) == GroupSet(types, i)
  {
    ColumnsAreColSet(types, i);
    SetOfAppend(ColumnsUpTo(types, i), [Id(i)]);
    assert SetOf([Id(i)]) == {Id(i)};
  }

  lemma AggsOfLevel(v: View, i: nat, cols: seq<Col>, up: seq<Col>)
    requires cols == up + ProjectColumns(v, i) + [Data]
    ensures LevelAggs(v, cols) ==
            if IsMvrMap(v) then [(ArrayAgg(Data), |cols| - 1), (ObjectAgg(Key(i), Data), |cols| - 2)]
            else [(OuterAgg(v, i), |cols| - if HasSub(v) then 2 else 1)]
  {
    assert cols[|cols| - 1] == Data;
    if HasSub(v) {
      assert cols[|cols| - 2] == ProjectColumns(v, i)[1];
    }
  }

  lemma GroupOnce(cols: seq<Col>, agg: (Agg, nat), q: Plan)
    requires agg.1 <= |cols|
    ensures GroupAll(cols, [agg], q) == Group(cols[..agg.1], agg.0, q)
  {
    assert [agg][1..] == [];
  }

  lemma GroupTwice(cols: seq<Col>, a: (Agg, nat), b: (Agg, nat), q: Plan)
    requires a.1 <= |cols| && b.1 <= |cols|
    ensures GroupAll(cols, [a, b], q) == Group(cols[..b.1], b.0, Group(cols[..a.1], a.0, q))
  {
    assert [a, b][1..] == [b];
    GroupOnce(cols, b, Group(cols[..a.1], a.0, q));
  }

  /** The plan of one level that groups by `some`, and by `most` below where it takes two. */
  function LevelPlan(v: View, i: nat, some: seq<Col>, most: seq<Col>, q: Plan): Plan {
    if IsMvrMap(v) then Group(some, ObjectAgg(Key(i), Data), Group(most, ArrayAgg(Data), q))
    else Group(some, OuterAgg(v, i), q)
  }

  lemma DropLast(up: seq<Col>)
    ensures (up + [Data])[..|up + [Data]| - 1] == up
  {
  }

  lemma KeepFirst(up: seq<Col>, here: seq<Col>)
    requires here != []
    ensures var cols := (up + here) + [Data]; cols[..|cols| - |here|] == up + [here[0]]
  {
  }

  /** Level i groups by its id below the columns of the levels above; maps of multi-value
      registers first group by their key as well. */
  lemma PlanOfLevel(types: seq<View>, i: nat)
    requires i + 1 < |types|
    ensures PlanFrom(types, i) ==
            LevelPlan(types[i], i, ColumnsUpTo(types, i) + [Id(i)], ColumnsUpTo(types, i + 1), PlanFrom(types, i + 1))
  {
    var up, here, q, v := ColumnsUpTo(types, i), ProjectColumns(types[i], i), PlanFrom(types, i + 1), types[i];
    var cols := ColumnsUpTo(types, i + 1) + [Data];
    AggsOfLevel(v, i, cols, up);
    DropLast(ColumnsUpTo(types, i + 1));
    KeepFirst(up, here);
    assert |here| == if HasSub(v) then 2 else 1;
    if IsMvrMap(v) {
      GroupTwice(cols, (ArrayAgg(Data), |cols| - 1), (ObjectAgg(Key(i), Data), |cols| - 2), q);
    } else {
      GroupOnce(cols, (OuterAgg(v, i), |cols| - if HasSub(v) then 2 else 1), q);
    }
  }

  lemma GroupPlanYields(cols: seq<Col>, agg: Agg, q: Plan, db: Db, out: seq<Tuple>) returns (rows: seq<Tuple>)
    requires Yields(Group(cols, agg, q), db, out)
    ensures Yields(q, db, rows) && GroupYields(SetOf(cols), Some(agg), rows, out)
  {
    rows :| Yields(q, db, rows) && SameBag(out, GroupBy(SetOf(cols), agg, rows));
  }

  lemma LevelParts(types: seq<View>, i: nat, rows: seq<Tuple>, mid: seq<Tuple>, out: seq<Tuple>)
    requires i < |types| && GroupYields(ColSet(types, i + 1), InnerAgg(types[i]), rows, mid)
    requires GroupYields(GroupSet(types, i), Some(OuterAgg(types[i], i)), mid, out)
    ensures LevelYields(types, i, rows, out)
  {
  }

  lemma LevelPlanYields(types: seq<View>, i: nat, some: seq<Col>, most: seq<Col>, q: Plan, db: Db, out: seq<Tuple>)
    returns (rows: seq<Tuple>)
    requires i < |types| && SetOf(some) == GroupSet(types, i) && SetOf(most) == ColSet(types, i + 1)
    requires Yields(LevelPlan(types[i], i, some, most, q), db, out)
    ensures Yields(q, db, rows) && LevelYields(types, i, rows, out)
  {
    if IsMvrMap(types[i]) {
      var mid := GroupPlanYields(some, OuterAgg(types[i], i), Group(most, ArrayAgg(Data), q), db, out);
      rows := GroupPlanYields(most, ArrayAgg(Data), q, db, mid);
      LevelParts(types, i, rows, mid, out);
    } else {
      rows := GroupPlanYields(some, OuterAgg(types[i], i), q, db, out);
      LevelParts(types, i, rows, rows, out);
    }
  }

  lemma RootPlanYields(types: seq<View>, q: Plan, db: Db, out: seq<Tuple>) returns (rows: seq<Tuple>)
    requires types != [] && Yields(RootPlan(types, q), db, out)
    ensures var last := |types| - 1;
            Yields(q, db, rows) && GroupYields(GroupSet(types, last), RootAgg(types[last], last), rows, out)
  {
    var last := |types| - 1;
    UpToId(types, last);
    match RootAgg(types[last], last)
    case None => rows := out;
    case Some(agg) =>
      rows := GroupPlanYields(ColumnsUpTo(types, last) + [ProjectColumns(types[last], last)[0]], agg, q, db, out);
  }

  lemma PlanStepYields(types: seq<View>, i: nat, db: Db, out: seq<Tuple>) returns (rows: seq<Tuple>)
    requires i + 1 < |types| && Yields(PlanFrom(types, i), db, out)
    ensures Yields(PlanFrom(types, i + 1), db, rows) && LevelYields(types, i, rows, out)
  {
    PlanOfLevel(types, i);
    UpToId(types, i);
    ColumnsAreColSet(types, i + 1);
    rows := LevelPlanYields(types, i, ColumnsUpTo(types, i) + [Id(i)], ColumnsUpTo(types, i + 1),
        PlanFrom(types, i + 1), db, out);
  }

  /** Whatever a plan yields is what its layers may make of the joined rows in some order. */
  lemma {:induction false} PlanIsLayers(types: seq<View>, i: nat, db: Db, out: seq<Tuple>) returns (rows: seq<Tuple>)
    requires i < |types| && Yields(PlanFrom(types, i), db, out)
    ensures SameBag(rows, BaseRows(BaseFrom(types, 0), Lines(types), db)) && LayersYield(types, i, rows, out)
    decreases |types| - i
  {
    if i == |types| - 1 {
      rows := RootPlanYields(types, Base(BaseFrom(types, 0), Lines(types)), db, out);
    } else {
      var mid := PlanStepYields(types, i, db, out);
      rows := PlanIsLayers(types, i + 1, db, mid);
    }
  }

  // ---- choosing rows before or after the layers --------------------------------------------

  lemma GroupYieldsPick(cols: set<Col>, agg: Option<Agg>, s: set<Col>, q: Tuple, yes: bool, rows: seq<Tuple>,
      out: seq<Tuple>)
    requires s <= cols && Data !in s && GroupYields(cols, agg, rows, out)
    ensures GroupYields(cols, agg, Pick(s, q, yes, rows), Pick(s, q, yes, out))
  {
    match agg
    case None => PickBag(s, q, yes, out, rows);
    case Some(a) =>
      PickBag(s, q, yes, out, GroupBy(cols, a, rows));
      GroupPick(cols, a, s, q, yes, rows);
  }

  lemma LevelPick(types: seq<View>, i: nat, s: set<Col>, q: Tuple, yes: bool, rows: seq<Tuple>, out: seq<Tuple>)
    requires i < |types| && s <= GroupSet(types, i) && LevelYields(types, i, rows, out)
    ensures LevelYields(types, i, Pick(s, q, yes, rows), Pick(s, q, yes, out))
  {
    assert GroupSet(types, i) <= ColSet(types, i + 1) && Data !in GroupSet(types, i);
    var mid :| GroupYields(ColSet(types, i + 1), InnerAgg(types[i]), rows, mid)
               && GroupYields(GroupSet(types, i), Some(OuterAgg(types[i], i)), mid, out);
    GroupYieldsPick(ColSet(types, i + 1), InnerAgg(types[i]), s, q, yes, rows, mid);
    GroupYieldsPick(GroupSet(types, i), Some(OuterAgg(types[i], i)), s, q, yes, mid, out);
  }

  /** A choice of rows by the columns that every layer keeps can be made at either end. */
  lemma {:induction false} LayersPick(types: seq<View>, i: nat, s: set<Col>, q: Tuple, yes: bool, rows: seq<Tuple>,
      out: seq<Tuple>)
    requires i < |types| && s <= GroupSet(types, i) && LayersYield(types, i, rows, out)
    ensures LayersYield(types, i, Pick(s, q, yes, rows), Pick(s, q, yes, out))
    decreases |types| - i
  {
    if i == |types| - 1 {
      assert Data !in GroupSet(types, i);
      GroupYieldsPick(GroupSet(types, i), RootAgg(types[i], i), s, q, yes, rows, out);
    } else {
      var mid :| LayersYield(types, i + 1, rows, mid) && LevelYields(types, i, mid, out);
      GroupedAbove(types, i);
      LayersPick(types, i + 1, s, q, yes, rows, mid);
      LevelPick(types, i, s, q, yes, mid, out);
    }
  }

  lemma GroupEmpty(cols: set<Col>, agg: Option<Agg>, out: seq<Tuple>)
    requires GroupYields(cols, agg, [], out)
    ensures out == []
  {
    EmptyBag(out);
  }

  lemma {:induction false} LayersEmpty(types: seq<View>, i: nat, out: seq<Tuple>)
    requires i < |types| && LayersYield(types, i, [], out)
    ensures out == []
    decreases |types| - i
  {
    if i == |types| - 1 {
      GroupEmpty(GroupSet(types, i), RootAgg(types[i], i), out);
    } else {
      var mid :| LayersYield(types, i + 1, [], mid) && LevelYields(types, i, mid, out);
      LayersEmpty(types, i + 1, mid);
      var rows :| GroupYields(ColSet(types, i + 1), InnerAgg(types[i]), mid, rows)
                  && GroupYields(GroupSet(types, i), Some(OuterAgg(types[i], i)), rows, out);
      GroupEmpty(ColSet(types, i + 1), InnerAgg(types[i]), rows);
      GroupEmpty(GroupSet(types, i), Some(OuterAgg(types[i], i)), out);
    }
  }

  // ---- the joined rows ------------------------------------------------------------------

  /** The rows of the join from level i on, next to the columns p of the levels above. */
  function Rel(types: seq<View>, i: nat, p: Tuple, envs: seq<Env>): seq<Tuple>
    requires i < |types|
  {
    Map((env: Env) => p + Project(i, BaseFrom(types, i), env), envs)
  }

  /** The columns that a row of level i adds for the levels below. */
  function Front(types: seq<View>, i: nat, b: Binding): (p: Tuple)
    requires i < |types|
    ensures p.Keys == LevelCols(types[i], i)
  {
    map c | c in LevelCols(types[i], i) :: ColValue(i, [b], c)
  }

  lemma {:induction false} BaseLevels(types: seq<View>, i: nat)
    requires i < |types|
    ensures forall c :: c in BaseFrom(types, i) ==> c == Data || i <= LevelOf(c)
    decreases |types| - i
  {
    if i < |types| - 1 { BaseLevels(types, i + 1); }
  }

  lemma FrontOfBase(types: seq<View>, i: nat)
    requires i + 1 < |types| && Joinable(types[i])
    ensures SetOf(BaseFrom(types, i)) == LevelCols(types[i], i) + SetOf(BaseFrom(types, i + 1))
  {
    var v := types[i];
    var cols := BaseColumns(v, i);
    assert cols[..|cols| - 1] == ProjectColumns(v, i);
    SetOfAppend(ProjectColumns(v, i), BaseFrom(types, i + 1));
  }

  lemma DeeperColumn(i: nat, b: Binding, env: Env, c: Col)
    requires env != [] && (c == Data || i < LevelOf(c))
    ensures ColValue(i, [b] + env, c) == ColValue(i + 1, env, c)
  {
  }

  lemma OwnColumn(i: nat, b: Binding, env: Env, c: Col)
    requires LevelOf(c) == i
    ensures ColValue(i, [b] + env, c) == ColValue(i, [b], c)
  {
    assert ([b] + env)[0] == b;
  }

  lemma ProjectSplit(types: seq<View>, i: nat, b: Binding, env: Env, c: Col)
    requires i + 1 < |types| && Joinable(types[i]) && env != []
    requires c in SetOf(BaseFrom(types, i))
    ensures ColValue(i, [b] + env, c) ==
            if c in SetOf(BaseFrom(types, i + 1)) then ColValue(i + 1, env, c) else ColValue(i, [b], c)
  {
    FrontOfBase(types, i);
    if c in SetOf(BaseFrom(types, i + 1)) {
      BaseLevels(types, i + 1);
      DeeperColumn(i, b, env, c);
    } else {
      OwnColumn(i, b, env, c);
    }
  }

  lemma RowSplit(types: seq<View>, i: nat, p: Tuple, b: Binding, env: Env)
    requires i + 1 < |types| && Joinable(types[i]) && env != []
    ensures p + Project(i, BaseFrom(types, i), [b] + env) ==
            (p + Front(types, i, b)) + Project(i + 1, BaseFrom(types, i + 1), env)
  {
    var l, f, r := Project(i, BaseFrom(types, i), [b] + env), Front(types, i, b),
        Project(i + 1, BaseFrom(types, i + 1), env);
    FrontOfBase(types, i);
    assert l.Keys == SetOf(BaseFrom(types, i)) && r.Keys == SetOf(BaseFrom(types, i + 1));
    forall c | c in l.Keys ensures l[c] == (f + r)[c] {
      ProjectSplit(types, i, b, env, c);
    }
    assert l == f + r;
    MergeAssociates(p, f, r);
  }

  lemma MergeAssociates(p: Tuple, f: Tuple, r: Tuple)
    ensures p + (f + r) == (p + f) + r
  {
  }

  lemma RelSplit(types: seq<View>, i: nat, p: Tuple, b: Binding, envs: seq<Env>)
    requires i + 1 < |types| && Joinable(types[i])
    requires forall env :: env in envs ==> env != []
    ensures Rel(types, i, p, Map((env: Env) => [b] + env, envs)) == Rel(types, i + 1, p + Front(types, i, b), envs)
  {
    var l, r := Rel(types, i, p, Map((env: Env) => [b] + env, envs)), Rel(types, i + 1, p + Front(types, i, b), envs);
    forall k | 0 <= k < |envs| ensures l[k] == r[k] {
      assert envs[k] in envs;
      RowSplit(types, i, p, b, envs[k]);
    }
  }
}
