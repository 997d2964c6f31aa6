/** `generateHistory`: the loops over rounds, sites and other sites, on shared clock slices. */
module Generator {
  import opened Clocks
  import opened CausalPresent
  import opened History
  import opened Rolls
  import opened Sequences

  // ---- what the rolls ask for -----------------------------------------------------------

  /** The merges of a site's turn with the first `upto` sites. */
  function MergeSteps(roll: Roll, round: nat, site: nat, upto: nat): seq<Step> {
    if upto == 0 then []
    else
      MergeSteps(roll, round, site, upto - 1) +
      if upto - 1 != site && (round, site, upto - 1) in roll then [Merge(site, upto - 1)] else []
  }

  /** The steps of a whole turn. */
  function TurnSteps(roll: Roll, sites: nat, round: nat, site: nat): seq<Step> {
    [Tick(site)] + MergeSteps(roll, round, site, sites)
  }

  /** The steps of all turns before one, each of them whole. */
  function StepsBefore(roll: Roll, sites: nat, round: nat, site: nat): seq<Step>
    decreases round, site
  {
    if site > 0 then StepsBefore(roll, sites, round, site - 1) + TurnSteps(roll, sites, round, site - 1)
    else if round > 0 then StepsBefore(roll, sites, round - 1, sites)
    else []
  }

  /** The number of rows of each item. */
  ghost function RowCount(roll: Roll, sites: nat, ops: int): nat {
    if ops <= 0 then 0 else if Reaches(roll, sites, ops) then ops else ops + 1
  }

  /** The turns in order, cut where the generator stops. */
  ghost predicate Planned(roll: Roll, sites: nat, ops: int, steps: seq<Step>) {
    && |steps| == RowCount(roll, sites, ops)
    && forall round: nat :: RowsBefore(roll, sites, round, 0) >= |steps| ==> steps <= StepsBefore(roll, sites, round, 0)
  }

  /** A turn merges with exactly the sites that the rolls say, in increasing order. */
  lemma {:induction false} MergeStepsAre(roll: Roll, round: nat, site: nat, upto: nat)
    ensures var ms := MergeSteps(roll, round, site, upto);
            && |ms| == Merges(roll, round, site, upto)
            && (forall k :: 0 <= k < |ms| ==> ms[k].Merge? && ms[k].site == site && ms[k].remote < upto)
            && (forall j, k :: 0 <= j < k < |ms| ==> ms[j].Merge? && ms[k].Merge? && ms[j].remote < ms[k].remote)
            && (forall x: nat :: Merge(site, x) in ms <==> x < upto && x != site && (round, site, x) in roll)
  {
    if upto > 0 { MergeStepsAre(roll, round, site, upto - 1); }
  }

  lemma {:induction false} MergeStepsGrow(roll: Roll, round: nat, site: nat, a: nat, b: nat)
    requires a <= b
    ensures MergeSteps(roll, round, site, a) <= MergeSteps(roll, round, site, b)
    decreases b
  {
    if a < b { MergeStepsGrow(roll, round, site, a, b - 1); }
  }

  lemma {:induction false} StepsBeforeCount(roll: Roll, sites: nat, round: nat, site: nat)
    ensures |StepsBefore(roll, sites, round, site)| == RowsBefore(roll, sites, round, site)
    decreases round, site
  {
    if site > 0 {
      StepsBeforeCount(roll, sites, round, site - 1);
      MergeStepsAre(roll, round, site - 1, sites);
    } else if round > 0 {
      StepsBeforeCount(roll, sites, round - 1, sites);
    }
  }

  lemma {:induction false} StepsBeforeGrow(roll: Roll, sites: nat, r: nat, s: nat, round: nat, site: nat)
    requires s <= sites && site <= sites && (r < round || (r == round && s <= site))
    ensures StepsBefore(roll, sites, r, s) <= StepsBefore(roll, sites, round, site)
    decreases round, site
  {
    if r == round && s == site {
    } else if site > 0 {
      StepsBeforeGrow(roll, sites, r, s, round, site - 1);
    } else {
      StepsBeforeGrow(roll, sites, r, s, round - 1, sites);
    }
  }

  ghost predicate TurnIsPlanned(roll: Roll, sites: nat, steps: seq<Step>, log: seq<Stamp>, round: nat, site: nat) {
    var a, turn := RowsBefore(roll, sites, round, site), TurnSteps(roll, sites, round, site);
    && |log| == |steps|
    && forall m :: a <= m < |steps| && m < a + |turn| ==> steps[m] == turn[m - a] && log[m].site == site
  }

  /** Of every turn the rows up to where the generator stops come from its tick and its merges, in
      that order, and carry its site. */
  lemma TurnsArePlanned(roll: Roll, sites: nat, ops: int, steps: seq<Step>, round: nat, site: nat)
    requires Planned(roll, sites, ops, steps) && ValidSteps(sites, steps) && site < sites
    ensures TurnIsPlanned(roll, sites, steps, Run(sites, steps).log, round, site)
  {
    var far := if |steps| <= round then round + 1 else |steps|;
    RunStamps(sites, steps);
    RoundsGrow(roll, sites, far);
    StepsBeforeGrow(roll, sites, round, site + 1, far, 0);
    TurnInside(roll, sites, steps, round, site, StepsBefore(roll, sites, far, 0));
  }

  lemma TurnInside(roll: Roll, sites: nat, steps: seq<Step>, round: nat, site: nat, before: seq<Step>)
    requires steps <= before && StepsBefore(roll, sites, round, site + 1) <= before && site < sites
    ensures var a, turn := RowsBefore(roll, sites, round, site), TurnSteps(roll, sites, round, site);
            forall m :: a <= m < |steps| && m < a + |turn| ==> steps[m] == turn[m - a] && steps[m].site == site
  {
    StepsBeforeCount(roll, sites, round, site);
    TurnSites(roll, sites, round, site);
    PartInside(steps, before, StepsBefore(roll, sites, round, site), TurnSteps(roll, sites, round, site), site);
  }

  lemma PartInside(steps: seq<Step>, all: seq<Step>, first: seq<Step>, part: seq<Step>, site: nat)
    requires steps <= all && first + part <= all
    requires forall k :: 0 <= k < |part| ==> part[k].site == site
    ensures forall m :: |first| <= m < |steps| && m < |first| + |part| ==>
              steps[m] == part[m - |first|] && steps[m].site == site
  {
    forall m | |first| <= m < |steps| && m < |first| + |part| ensures steps[m] == part[m - |first|] {
      assert steps[m] == all[m] == (first + part)[m];
    }
  }

  lemma TurnSites(roll: Roll, sites: nat, round: nat, site: nat)
    ensures forall k :: 0 <= k < |TurnSteps(roll, sites, round, site)| ==>
              TurnSteps(roll, sites, round, site)[k].site == site
  {
    MergeStepsAre(roll, round, site, sites);
  }

  // ---- the clocks -----------------------------------------------------------------------

  function ClocksOf(log: seq<Stamp>): seq<Clock> {
    seq(|log|, i requires 0 <= i < |log| => log[i].lts)
  }

  /** No two sites share a slice. */
  ghost predicate Separate(cs: seq<array<int>>) {
    forall i, j :: 0 <= i < j < |cs| ==> cs[i] != cs[j]
  }

  /** The slices of the generator hold the clocks of the state. */
  ghost predicate Mirrors(cs: seq<array<int>>, curr: seq<Clock>)
    reads cs
  {
    |cs| == |curr| && forall i :: 0 <= i < |cs| ==> Holds(cs[i], curr[i])
  }

  ghost predicate Holds(c: array<int>, clock: Clock)
    reads c
  {
    c.Length == |clock| && forall t :: 0 <= t < c.Length ==> c[t] == clock[t]
  }

  method InitClocks(sites: nat) returns (currClocks: seq<array<int>>)
    ensures fresh(currClocks) && Separate(currClocks) && Mirrors(currClocks, Init(sites).curr)
  {
    currClocks := [];
    for i := 0 to sites
      invariant |currClocks| == i && fresh(currClocks)
      invariant forall a, b :: 0 <= a < b < i ==> currClocks[a] != currClocks[b]
      invariant forall a :: 0 <= a < i ==> Holds(currClocks[a], Init(sites).curr[a])
    {
      var c := new int[sites](_ => 0);
      assert Holds(c, Init(sites).curr[i]);
      currClocks := currClocks + [c];
    }
  }

  /** One tick or merge on the shared slices. */
  method Apply(cs: seq<array<int>>, ghost s: State, st: Step) returns (clockCopy: Clock)
    requires Separate(cs) && Mirrors(cs, s.curr) && ValidStep(|cs|, st)
    requires forall i :: 0 <= i < |s.curr| ==> |s.curr[i]| == |cs|
    modifies cs
    ensures Mirrors(cs, s.curr[st.site := NewClock(s, st)]) && clockCopy == NewClock(s, st)
  {
    var clock := cs[st.site];
    assert Holds(clock, s.curr[st.site]) && clock[..] == s.curr[st.site];
    if st.Tick? {
      clock[st.site] := clock[st.site] + 1;
    } else {
      assert Holds(cs[st.remote], s.curr[st.remote]) && cs[st.remote][..] == s.curr[st.remote];
      MergeClocks(clock, cs[st.remote]);
    }
    assert clock[..] == NewClock(s, st);
    clockCopy := clock[..];
  }

  /** The steps taken so far and the state they lead to. */
  datatype Trail = Trail(steps: seq<Step>, state: State)

  ghost predicate Reached(n: nat, tr: Trail) {
    ValidSteps(n, tr.steps) && Run(n, tr.steps) == tr.state
  }

  /** What a step does to the clocks and the log of a run. */
  lemma TrailStep(n: nat, tr: Trail, st: Step, after: Trail)
    requires Reached(n, tr) && ValidStep(n, st) && after == Trail(tr.steps + [st], Run(n, tr.steps + [st]))
    ensures Reached(n, after) && |tr.state.curr| == n && forall i :: 0 <= i < n ==> |tr.state.curr[i]| == n
    ensures after.state.curr == tr.state.curr[st.site := NewClock(tr.state, st)]
    ensures ClocksOf(after.state.log) == ClocksOf(tr.state.log) + [NewClock(tr.state, st)]
  {
    InvariantHolds(n, tr.steps);
    RunSnoc(n, tr.steps, st);
  }

  /** The generator's slices and rows after the given steps. */
  ghost predicate Generated(cs: seq<array<int>>, tr: Trail, allClocks: seq<Clock>)
    reads cs
  {
    Mirrors(cs, tr.state.curr) && allClocks == ClocksOf(tr.state.log)
  }

  /** A tick or merge and the copy of the clock it makes. */
  method Record(cs: seq<array<int>>, ghost tr: Trail, st: Step, allClocks: seq<Clock>)
    returns (clocks: seq<Clock>, ghost after: Trail)
    requires Separate(cs) && Reached(|cs|, tr) && Generated(cs, tr, allClocks) && ValidStep(|cs|, st)
    modifies cs
    ensures Reached(|cs|, after) && Generated(cs, after, clocks)
    ensures after.steps == tr.steps + [st] && |clocks| == |allClocks| + 1
  {
    after := Trail(tr.steps + [st], Run(|cs|, tr.steps + [st]));
    TrailStep(|cs|, tr, st, after);
    var clockCopy := Apply(cs, tr.state, st);
    clocks := allClocks + [clockCopy];
  }

  /** After the steps before, the steps made are the first ones of those planned. */
  ghost predicate Cut(before: seq<Step>, planned: seq<Step>, after: seq<Step>) {
    before <= after <= before + planned
  }

  /** The merges with the first `upto` sites have been made. */
  ghost predicate Merged(roll: Roll, round: nat, site: nat, upto: nat, before: seq<Step>, after: seq<Step>) {
    after == before + MergeSteps(roll, round, site, upto)
  }

  lemma MergedStart(roll: Roll, round: nat, site: nat, before: seq<Step>)
    ensures Merged(roll, round, site, 0, before, before)
  {
  }

  lemma MergedStep(roll: Roll, round: nat, site: nat, upto: nat, before: seq<Step>, after: seq<Step>)
    requires Merged(roll, round, site, upto, before, after)
    ensures var more := if upto != site && (round, site, upto) in roll then [Merge(site, upto)] else [];
            Merged(roll, round, site, upto + 1, before, after + more)
    ensures after + [] == after
  {
  }

  lemma MergedCut(roll: Roll, round: nat, site: nat, upto: nat, sites: nat, before: seq<Step>, after: seq<Step>)
    requires Merged(roll, round, site, upto, before, after) && upto <= sites
    ensures |after| - |before| == Merges(roll, round, site, upto)
    ensures Cut(before, MergeSteps(roll, round, site, sites), after)
  {
    MergeStepsGrow(roll, round, site, upto, sites);
    MergeStepsAre(roll, round, site, upto);
  }

  /** The merges of a turn: with each other site or not, while the bound allows. */
  method MergeOthers(cs: seq<array<int>>, ops: int, round: nat, site: nat, start: int, roll: Roll,
      allClocks: seq<Clock>, ghost tr: Trail)
    returns (clocks: seq<Clock>, i: int, ghost after: Trail)
    requires Separate(cs) && Reached(|cs|, tr) && Generated(cs, tr, allClocks) && site < |cs| && start < ops
    modifies cs
    ensures Reached(|cs|, after) && Generated(cs, after, clocks)
    ensures Cut(tr.steps, MergeSteps(roll, round, site, |cs|), after.steps)
    ensures i - start == |clocks| - |allClocks| == |after.steps| - |tr.steps|
    ensures StopsAt(roll, |cs|, ops, round, site, start, i)
  {
    clocks, after, i := allClocks, tr, start;
    var remoteSite := 0;
    MergedStart(roll, round, site, tr.steps);
    while remoteSite < |cs| && i < ops
      invariant Reached(|cs|, after) && Generated(cs, after, clocks)
      invariant Merged(roll, round, site, remoteSite, tr.steps, after.steps)
      invariant i - start == |clocks| - |allClocks| == |after.steps| - |tr.steps|
      invariant start <= i <= ops && remoteSite <= |cs|
      decreases |cs| - remoteSite
    {
      MergedStep(roll, round, site, remoteSite, tr.steps, after.steps);
      if remoteSite != site {
        if (round, site, remoteSite) in roll {
          clocks, after := Record(cs, after, Merge(site, remoteSite), clocks);
          i := i + 1;
        }
      }
      remoteSite := remoteSite + 1;
    }
    MergedCut(roll, round, site, remoteSite, |cs|, tr.steps, after.steps);
    TurnEnd(roll, |cs|, ops, round, site, start, i, remoteSite);
  }

  lemma CutAfterTick(before: seq<Step>, tick: Step, merges: seq<Step>, after: seq<Step>)
    requires Cut(before + [tick], merges, after)
    ensures Cut(before, [tick] + merges, after)
  {
    assert before + ([tick] + merges) == (before + [tick]) + merges;
  }

  /** One site's turn: it ticks, then merges. */
  method SiteTurn(cs: seq<array<int>>, ops: int, round: nat, site: nat, start: int, roll: Roll,
      allClocks: seq<Clock>, ghost tr: Trail)
    returns (clocks: seq<Clock>, i: int, ghost after: Trail)
    requires Separate(cs) && Reached(|cs|, tr) && Generated(cs, tr, allClocks) && site < |cs| && start < ops
    modifies cs
    ensures Reached(|cs|, after) && Generated(cs, after, clocks)
    ensures Cut(tr.steps, TurnSteps(roll, |cs|, round, site), after.steps)
    ensures i - start == |clocks| - |allClocks| == |after.steps| - |tr.steps| >= 1
    ensures var whole := start + TurnRows(roll, |cs|, round, site); i == if whole <= ops then whole else ops + 1
  {
    clocks, after := Record(cs, tr, Tick(site), allClocks);
    clocks, i, after := MergeOthers(cs, ops, round, site, start, roll, clocks, after);
    CutAfterTick(tr.steps, Tick(site), MergeSteps(roll, round, site, |cs|), after.steps);
    i := i + 1;
  }

  /** How far the counter is at a turn: below the bound, on it, or one past it inside a turn. */
  ghost predicate CountedTo(roll: Roll, sites: nat, ops: int, i: int, round: nat, site: nat) {
    && site <= sites
    && (i < ops ==> i == RowsBefore(roll, sites, round, site))
    && (i == ops ==> Reaches(roll, sites, ops))
    && (i > ops ==> i == ops + 1 && !Reaches(roll, sites, ops))
  }

  lemma CountedTurn(roll: Roll, sites: nat, ops: int, i: int, round: nat, site: nat)
    requires CountedTo(roll, sites, ops, i, round, site) && i < ops && site < sites
    ensures var whole := i + TurnRows(roll, sites, round, site);
            CountedTo(roll, sites, ops, if whole <= ops then whole else ops + 1, round, site + 1)
  {
    if i + TurnRows(roll, sites, round, site) > ops {
      InsideIsNotReached(roll, sites, ops, round, site);
    } else if i + TurnRows(roll, sites, round, site) == ops {
      assert ReachesAt(roll, sites, ops, round, site + 1);
    }
  }

  /** Before the given turn i rows have been made, by the first of the planned steps. */
  ghost predicate Progress(roll: Roll, sites: nat, ops: int, i: int, round: nat, site: nat, steps: seq<Step>) {
    && |steps| == i && steps <= StepsBefore(roll, sites, round, site)
    && CountedTo(roll, sites, ops, i, round, site)
  }

  lemma ProgressStart(roll: Roll, sites: nat, ops: int)
    requires ops > 0
    ensures Progress(roll, sites, ops, 0, 0, 0, [])
  {
  }

  lemma TurnProgress(roll: Roll, sites: nat, ops: int, i: int, round: nat, site: nat,
      before: seq<Step>, after: seq<Step>, i': int)
    requires Progress(roll, sites, ops, i, round, site, before) && i < ops && site < sites
    requires Cut(before, TurnSteps(roll, sites, round, site), after) && i' - i == |after| - |before|
    requires var whole := i + TurnRows(roll, sites, round, site); i' == if whole <= ops then whole else ops + 1
    ensures Progress(roll, sites, ops, i', round, site + 1, after)
  {
    CountedTurn(roll, sites, ops, i, round, site);
    StepsBeforeCount(roll, sites, round, site);
    assert before == StepsBefore(roll, sites, round, site);
  }

  lemma RoundProgress(roll: Roll, sites: nat, ops: int, i: int, round: nat, site: nat, steps: seq<Step>)
    requires Progress(roll, sites, ops, i, round, site, steps) && (site == sites || i >= ops)
    ensures Progress(roll, sites, ops, i, round + 1, 0, steps)
  {
    StepsBeforeGrow(roll, sites, round, site, round + 1, 0);
  }

  lemma ProgressEnd(roll: Roll, sites: nat, ops: int, i: int, round: nat, steps: seq<Step>)
    requires if ops <= 0 then steps == [] else i >= ops && Progress(roll, sites, ops, i, round, 0, steps)
    ensures Planned(roll, sites, ops, steps)
  {
    forall r: nat | RowsBefore(roll, sites, r, 0) >= |steps| ensures steps <= StepsBefore(roll, sites, r, 0) {
      StepsBeforeCount(roll, sites, r, 0);
      if r <= round {
        StepsBeforeGrow(roll, sites, r, 0, round, 0);
      } else {
        StepsBeforeGrow(roll, sites, round, 0, r, 0);
      }
    }
  }

  /** The turns of a round, while the bound allows. */
  method RoundTurns(cs: seq<array<int>>, ops: int, round: nat, start: int, roll: Roll,
      allClocks: seq<Clock>, ghost tr: Trail)
    returns (clocks: seq<Clock>, i: int, ghost after: Trail)
    requires Separate(cs) && Reached(|cs|, tr) && Generated(cs, tr, allClocks) && cs != [] && start < ops
    requires Progress(roll, |cs|, ops, start, round, 0, tr.steps)
    modifies cs
    ensures Reached(|cs|, after) && Generated(cs, after, clocks)
    ensures i > start && Progress(roll, |cs|, ops, i, round + 1, 0, after.steps)
  {
    clocks, i, after := allClocks, start, tr;
    var site := 0;
    while site < |cs| && i < ops
      invariant Reached(|cs|, after) && Generated(cs, after, clocks)
      invariant Progress(roll, |cs|, ops, i, round, site, after.steps) && i >= start && (site > 0 ==> i > start)
      decreases |cs| - site
    {
      ghost var i1, before := i, after.steps;
      clocks, i, after := SiteTurn(cs, ops, round, site, i, roll, clocks, after);
      TurnProgress(roll, |cs|, ops, i1, round, site, before, after.steps, i);
      site := site + 1;
    }
    RoundProgress(roll, |cs|, ops, i, round, site, after.steps);
  }

  /** Ticks every site in turn; after a tick the site merges each other site or not. The
      generator counts an operation per row, but tests the bound before counting the tick, so
      a bound that falls inside a turn is passed by one row. */
  method GenerateClocks(sites: nat, ops: int, roll: Roll) returns (allClocks: seq<Clock>, ghost steps: seq<Step>)
    requires sites > 0 || ops <= 0
    ensures ValidSteps(sites, steps) && Planned(roll, sites, ops, steps)
    ensures allClocks == ClocksOf(Run(sites, steps).log) && |allClocks| == RowCount(roll, sites, ops)
  {
    allClocks := [];
    var currClocks := InitClocks(sites);
    ghost var tr := Trail([], Init(sites));
    var i, round := 0, 0;
    if ops > 0 { ProgressStart(roll, sites, ops); }
    while i < ops
      invariant fresh(currClocks) && Separate(currClocks) && |currClocks| == sites
      invariant Reached(sites, tr) && Generated(currClocks, tr, allClocks)
      invariant if ops <= 0 then tr.steps == [] else Progress(roll, sites, ops, i, round, 0, tr.steps)
      decreases ops - i
    {
      allClocks, i, tr := RoundTurns(currClocks, ops, round, i, roll, allClocks, tr);
      round := round + 1;
    }
    steps := tr.steps;
    ProgressEnd(roll, sites, ops, i, round, steps);
    RunStamps(sites, steps);
  }

  /** With more operations than sites the first two sites have ticked. */
  lemma PlannedTicks(roll: Roll, sites: nat, ops: int, steps: seq<Step>)
    requires Planned(roll, sites, ops, steps) && ValidSteps(sites, steps) && ops > sites >= 2
    ensures Tick(0) in steps && Tick(1) in steps
  {
    TurnsArePlanned(roll, sites, ops, steps, 0, 0);
    TurnsArePlanned(roll, sites, ops, steps, 0, 1);
    MergesFit(roll, 0, 0, sites);
    var first := RowsBefore(roll, sites, 0, 1);
    assert RowsBefore(roll, sites, 0, 0) == 0 && first == TurnRows(roll, sites, 0, 0) <= sites;
    assert steps[0] == Tick(0) && steps[first] == Tick(1);
  }

  /** The keys and clocks of rows, whose values are arbitrary. */
  function Cells(rows: seq<Row<int, int>>): seq<(int, Clock)> {
    Map((r: Row<int, int>) => (r.k, r.lts), rows)
  }

  function ItemCells(i: int, clocks: seq<Clock>): seq<(int, Clock)> {
    Map((c: Clock) => (i, c), clocks)
  }

  /** Item by item, all clocks in the order they were made. */
  function AllCells(items: nat, clocks: seq<Clock>): seq<(int, Clock)> {
    if items == 0 then [] else AllCells(items - 1, clocks) + ItemCells(items - 1, clocks)
  }

  /** The rows of one item: one per generated clock, with arbitrary values. */
  method AppendItem(before: seq<Row<int, int>>, i: nat, allClocks: seq<Clock>) returns (rows: seq<Row<int, int>>)
    ensures Cells(rows) == Cells(before) + ItemCells(i, allClocks)
  {
    rows := before;
    for j := 0 to |allClocks|
      invariant Cells(rows) == Cells(before) + ItemCells(i, allClocks)[..j]
    {
      var v: int := *;
      rows := rows + [Row(i, v, allClocks[j])];
    }
  }

  /** Every item gets the whole generated history. */
  method GenerateHistory(sites: nat, ops: int, items: nat, roll: Roll)
    returns (rows: seq<Row<int, int>>, ghost steps: seq<Step>)
    requires sites > 0 || ops <= 0
    ensures ValidSteps(sites, steps) && Planned(roll, sites, ops, steps)
    ensures Cells(rows) == AllCells(items, ClocksOf(Run(sites, steps).log))
    ensures Width(rows, sites) && |rows| == items * RowCount(roll, sites, ops)
    ensures forall k :: 0 <= k < items ==> Carries(rows, k, Run(sites, steps).log)
    ensures forall r :: r in rows ==> 0 <= r.k < items
    ensures sites >= 2 && ops > sites ==>
              forall k :: 0 <= k < items ==> ReadKey(rows, k, sites) == PresentOf(rows, k)
  {
    var allClocks;
    allClocks, steps := GenerateClocks(sites, ops, roll);
    rows := [];
    for i := 0 to items
      invariant Cells(rows) == AllCells(i, allClocks)
    {
      rows := AppendItem(rows, i, allClocks);
    }
    HistoryRows(sites, steps, rows, items);
    if sites >= 2 && ops > sites {
      PlannedTicks(roll, sites, ops, steps);
      ItemsReadExactly(sites, steps, rows, items);
    }
  }

  lemma {:induction false} AllCellsCount(items: nat, clocks: seq<Clock>)
    ensures |AllCells(items, clocks)| == items * |clocks|
  {
    if items > 0 { AllCellsCount(items - 1, clocks); }
  }

  lemma {:induction false} AllCellsAre(items: nat, clocks: seq<Clock>)
    ensures forall x :: x in AllCells(items, clocks) <==> 0 <= x.0 < items && x.1 in clocks
  {
    if items > 0 {
      AllCellsAre(items - 1, clocks);
      var last := ItemCells(items - 1, clocks);
      forall x ensures x in last <==> x.0 == items - 1 && x.1 in clocks {
        if x.0 == items - 1 && x.1 in clocks {
          var m :| 0 <= m < |clocks| && clocks[m] == x.1;
          assert last[m] == x;
        }
      }
    }
  }

  lemma RowCell(rows: seq<Row<int, int>>, k: int, c: Clock)
    ensures InTable(rows, k, c) <==> (k, c) in Cells(rows)
  {
    if InTable(rows, k, c) {
      var r :| r in rows && r.k == k && r.lts == c;
      var m :| 0 <= m < |rows| && rows[m] == r;
      assert Cells(rows)[m] == (k, c);
    }
    if (k, c) in Cells(rows) {
      var m :| 0 <= m < |rows| && Cells(rows)[m] == (k, c);
      assert rows[m] in rows;
    }
  }

  /** What the rows hold follows from their keys and clocks. */
  lemma HistoryRows(sites: nat, steps: seq<Step>, rows: seq<Row<int, int>>, items: nat)
    requires ValidSteps(sites, steps) && Cells(rows) == AllCells(items, ClocksOf(Run(sites, steps).log))
    ensures Width(rows, sites) && |rows| == items * |Run(sites, steps).log|
    ensures forall k :: 0 <= k < items ==> Carries(rows, k, Run(sites, steps).log)
    ensures forall r :: r in rows ==> 0 <= r.k < items
  {
    var log := Run(sites, steps).log;
    var clocks := ClocksOf(log);
    InvariantHolds(sites, steps);
    AllCellsCount(items, clocks);
    AllCellsAre(items, clocks);
    forall r | r in rows ensures |r.lts| == sites && 0 <= r.k < items {
      RowCell(rows, r.k, r.lts);
      assert InTable(rows, r.k, r.lts);
      var m :| 0 <= m < |clocks| && clocks[m] == r.lts;
    }
    forall k, c | 0 <= k < items ensures InTable(rows, k, c) <==> InLog(log, c) {
      RowCell(rows, k, c);
      ClockOfLog(log, c);
    }
  }

  lemma ClockOfLog(log: seq<Stamp>, c: Clock)
    ensures c in ClocksOf(log) <==> InLog(log, c)
  {
    if InLog(log, c) {
      var m :| 0 <= m < |log| && log[m].lts == c;
      assert ClocksOf(log)[m] == c;
    }
  }

  lemma ItemsReadExactly(sites: nat, steps: seq<Step>, rows: seq<Row<int, int>>, items: nat)
    requires ValidSteps(sites, steps) && Width(rows, sites) && Tick(0) in steps && Tick(1) in steps
    requires forall k :: 0 <= k < items ==> Carries(rows, k, Run(sites, steps).log)
    ensures forall k :: 0 <= k < items ==> ReadKey(rows, k, sites) == PresentOf(rows, k)
  {
    forall k | 0 <= k < items ensures ReadKey(rows, k, sites) == PresentOf(rows, k) {
      ReadExactOnceTwoSitesTicked(sites, steps, rows, k, 0, 1);
    }
  }
}
