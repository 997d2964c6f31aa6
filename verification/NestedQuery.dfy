/** Building the plan of a list of views. */
module NestedQuery {
  import opened Options
  import opened Sequences
  import opened NestedViews

  /** `joins`: the views with the keys they are joined on, or None where the original raises. */
  method Joins(types: seq<View>) returns (r: Option<seq<Line>>)
    ensures r == if Accepted(types) then Some(Lines(types)) else None
  {
    if types == [] { return None; }
    var lines := [Line(types[0], None)];
    for i := 1 to |types|
      invariant lines == Lines(types)[..i]
      invariant forall j :: 0 <= j < i - 1 ==> Joinable(types[j])
    {
      var key := JoinKeyOf(types[i - 1], i - 1);
      if key.None? { return None; }
      lines := lines + [Line(types[i], key)];
    }
    assert Lines(types)[..|types|] == Lines(types);
    return Some(lines);
  }

  function BaseRest(types: seq<View>, i: nat): seq<Col> {
    if i < |types| then BaseFrom(types, i) else []
  }

  /** The columns of level i that the base projection keeps. */
  function Kept(types: seq<View>, i: nat): seq<Col>
    requires i < |types|
  {
    var cols := BaseColumns(types[i], i);
    if i == |types| - 1 then cols else cols[..|cols| - 1]
  }

  lemma BaseStep(types: seq<View>, i: nat, columns: seq<Col>)
    requires i < |types|
    ensures columns + BaseRest(types, i) == (columns + Kept(types, i)) + BaseRest(types, i + 1)
  {
    assert BaseRest(types, i) == Kept(types, i) + BaseRest(types, i + 1);
    Associate(columns, Kept(types, i), BaseRest(types, i + 1));
  }

  /** `baseProject`: all columns of the last view, and all but the last of the others. */
  method BaseProject(types: seq<View>) returns (columns: seq<Col>)
    requires types != []
    ensures columns == BaseFrom(types, 0)
  {
    columns := [];
    for i := 0 to |types|
      invariant columns + BaseRest(types, i) == BaseRest(types, 0)
    {
      BaseStep(types, i, columns);
      columns := columns + Kept(types, i);
    }
  }

  /** `rootAgg`: the query as it is where the last view has no root aggregation. */
  method RootAggregate(types: seq<View>, query: Plan) returns (r: Plan)
    requires types != []
    ensures r == RootPlan(types, query)
  {
    var last := |types| - 1;
    var agg := RootAgg(types[last], last);
    if agg.None? { return query; }
    var columns: seq<Col> := [];
    for j := 0 to last
      invariant columns == ColumnsUpTo(types, j)
    {
      columns := columns + ProjectColumns(types[j], j);
    }
    columns := columns + [ProjectColumns(types[last], last)[0]];
    return Group(columns, agg.value, query);
  }

  /** `agg`: the aggregations of level i - 1. */
  method Aggregate(types: seq<View>, i: nat, query: Plan) returns (r: Plan)
    requires 1 <= i <= |types|
    ensures r == LevelGroup(types, i, query)
  {
    var columns: seq<Col> := [];
    for j := 0 to i
      invariant columns == ColumnsUpTo(types, j)
    {
      columns := columns + ProjectColumns(types[j], j);
    }
    columns := columns + [Data];
    r := ApplyAggs(columns, LevelAggs(types[i - 1], columns), query);
  }

  method ApplyAggs(columns: seq<Col>, aggs: seq<(Agg, nat)>, query: Plan) returns (r: Plan)
    requires forall a :: a in aggs ==> a.1 <= |columns|
    ensures r == GroupAll(columns, aggs, query)
  {
    r := query;
    for k := 0 to |aggs|
      invariant GroupAll(columns, aggs[k..], r) == GroupAll(columns, aggs, query)
    {
      r := Group(columns[..aggs[k].1], aggs[k].0, r);
      assert aggs[k..][1..] == aggs[k + 1..];
    }
  }

  /** The aggregations of the levels i - 1 down to 0 around a query. */
  function Levels(types: seq<View>, i: nat, query: Plan): Plan
    requires i <= |types|
  {
    if i == 0 then query else Levels(types, i - 1, LevelGroup(types, i, query))
  }

  lemma PlanStep(types: seq<View>, i: nat)
    requires 1 <= i < |types|
    ensures PlanFrom(types, i - 1) == LevelGroup(types, i, PlanFrom(types, i))
  {
  }

  lemma {:induction false} LevelsMakePlan(types: seq<View>, i: nat, query: Plan)
    requires i < |types| && query == PlanFrom(types, i)
    ensures Levels(types, i, query) == PlanFrom(types, 0)
  {
    if i > 0 {
      var next := LevelGroup(types, i, query);
      PlanStep(types, i);
      LevelsMakePlan(types, i - 1, next);
    }
  }

  lemma LastPlan(types: seq<View>)
    requires types != []
    ensures PlanFrom(types, |types| - 1) == RootPlan(types, Base(BaseFrom(types, 0), Lines(types)))
  {
  }

  /** The loop of `buildQuery` over the levels above the last. */
  method AggregateLevels(types: seq<View>, root: Plan) returns (query: Plan)
    requires types != []
    ensures query == Levels(types, |types| - 1, root)
  {
    query := root;
    for i := |types| downto 1
      invariant i >= 1 && Levels(types, i - 1, query) == Levels(types, |types| - 1, root)
    {
      query := Aggregate(types, i, query);
    }
  }

  /** `buildQuery`. */
  method BuildQuery(types: seq<View>) returns (r: Option<Plan>)
    ensures r == if Accepted(types) then Some(QueryPlan(types)) else None
  {
    var joined := Joins(types);
    if joined.None? { return None; }
    var columns := BaseProject(types);
    var root := RootAggregate(types, Base(columns, joined.value));
    LastPlan(types);
    LevelsMakePlan(types, |types| - 1, root);
    var query := AggregateLevels(types, root);
    return Some(Final(query));
  }
}
