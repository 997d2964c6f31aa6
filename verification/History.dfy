/** Simulated histories: sites tick their own clock entry and merge other sites' clocks, and
    every resulting clock becomes a row. The read query is exact on what such runs produce. */
module History {
  import opened Clocks
  import opened CausalPresent

  datatype Step = Tick(site: nat) | Merge(site: nat, remote: nat)

  /** A clock together with the site that produced it; the tables do not store the site. */
  datatype Stamp = Stamp(site: nat, lts: Clock)

  datatype State = State(curr: seq<Clock>, log: seq<Stamp>)

  predicate ValidStep(n: nat, st: Step) {
    st.site < n && (st.Merge? ==> st.remote < n && st.remote != st.site)
  }

  predicate ValidSteps(n: nat, steps: seq<Step>) {
    forall i :: 0 <= i < |steps| ==> ValidStep(n, steps[i])
  }

  function Init(n: nat): State {
    State(seq(n, _ => seq(n, _ => 0)), [])
  }

  function NewClock(s: State, st: Step): Clock
    requires ValidStep(|s.curr|, st)
  {
    var c := s.curr[st.site];
    match st
    case Tick(i) => if i < |c| then c[i := c[i] + 1] else c
    case Merge(i, j) => Join(c, s.curr[j])
  }

  function Next(s: State, st: Step): State
    requires ValidStep(|s.curr|, st)
  {
    var c := NewClock(s, st);
    State(s.curr[st.site := c], s.log + [Stamp(st.site, c)])
  }

  function Run(n: nat, steps: seq<Step>): (s: State)
    requires ValidSteps(n, steps)
    ensures |s.curr| == n
  {
    if steps == [] then Init(n)
    else Next(Run(n, steps[..|steps| - 1]), steps[|steps| - 1])
  }

  lemma RunSnoc(n: nat, steps: seq<Step>, st: Step)
    requires ValidSteps(n, steps) && ValidStep(n, st)
    ensures ValidSteps(n, steps + [st])
    ensures Run(n, steps + [st]) == Next(Run(n, steps), st)
  {
    assert (steps + [st])[..|steps|] == steps;
  }

  // ---- the invariant ------------------------------------------------------------------

  /** Whoever knows more of site t than row r did when t produced it knows all of r. */
  ghost predicate Knows(log: seq<Stamp>, c: Clock) {
    forall i :: 0 <= i < |log| && log[i].site < |c| && log[i].site < |log[i].lts| ==>
      c[log[i].site] > log[i].lts[log[i].site] ==> Lte(log[i].lts, c)
  }

  ghost predicate Shaped(n: nat, s: State) {
    && |s.curr| == n
    && (forall i :: 0 <= i < n ==> |s.curr[i]| == n)
    && (forall i :: 0 <= i < |s.log| ==> s.log[i].site < n && |s.log[i].lts| == n)
    && (forall i, t :: 0 <= i < n && 0 <= t < n ==> 0 <= s.curr[i][t])
    && (forall i, t :: 0 <= i < |s.log| && 0 <= t < n ==> 0 <= s.log[i].lts[t])
  }

  /** No clock is ahead of site t's own entry, and a site's rows stay below its clock. */
  ghost predicate Bounded(n: nat, s: State)
    requires Shaped(n, s)
  {
    && (forall i, t :: 0 <= i < n && 0 <= t < n ==> s.curr[i][t] <= s.curr[t][t])
    && (forall i, t :: 0 <= i < |s.log| && 0 <= t < n ==> s.log[i].lts[t] <= s.curr[t][t])
    && (forall i :: 0 <= i < |s.log| ==> Lte(s.log[i].lts, s.curr[s.log[i].site]))
  }

  ghost predicate AllKnow(n: nat, s: State)
    requires Shaped(n, s)
  {
    && (forall i :: 0 <= i < n ==> Knows(s.log, s.curr[i]))
    && (forall j :: 0 <= j < |s.log| ==> Knows(s.log, s.log[j].lts))
  }

  /** Some row carries the current entry of site t. */
  ghost predicate Attains(n: nat, s: State, i: int, t: nat)
    requires Shaped(n, s) && t < n
  {
    0 <= i < |s.log| && s.log[i].lts[t] == s.curr[t][t]
  }

  /** Two different rows carry the current entries of sites t and u. */
  ghost predicate Apart(n: nat, s: State, t: nat, u: nat)
    requires Shaped(n, s) && t < n && u < n
  {
    exists i, j :: Attains(n, s, i, t) && Attains(n, s, j, u) && s.log[i].lts != s.log[j].lts
  }

  ghost predicate Represented(n: nat, s: State, t: nat)
    requires Shaped(n, s) && t < n
  {
    exists i :: Attains(n, s, i, t)
  }

  /** Two sites that both ticked are represented by rows with different clocks. */
  ghost predicate Separated(n: nat, s: State)
    requires Shaped(n, s)
  {
    && (forall t :: 0 <= t < n && s.curr[t][t] > 0 ==> Represented(n, s, t))
    && (forall t, u :: 0 <= t < n && 0 <= u < n && t != u && s.curr[t][t] > 0 && s.curr[u][u] > 0 ==>
         Apart(n, s, t, u))
  }

  lemma ShapedStep(n: nat, s: State, st: Step)
    requires Shaped(n, s) && ValidStep(n, st)
    ensures Shaped(n, Next(s, st))
  {
    var c := NewClock(s, st);
    assert |c| == n;
    forall t | 0 <= t < n ensures 0 <= c[t] { assert 0 <= s.curr[st.site][t]; }
  }

  lemma BoundedStep(n: nat, s: State, st: Step)
    requires Shaped(n, s) && Bounded(n, s) && ValidStep(n, st)
    ensures Shaped(n, Next(s, st)) && Bounded(n, Next(s, st))
    ensures Lte(s.curr[st.site], NewClock(s, st))
    ensures forall t :: 0 <= t < n && (t != st.site || st.Merge?) ==> Next(s, st).curr[t][t] == s.curr[t][t]
  {
    ShapedStep(n, s, st);
    var s', c := Next(s, st), NewClock(s, st);
    if st.Merge? {
      JoinIsLeastUpperBound(s.curr[st.site], s.curr[st.remote], c);
      assert c[st.site] == s.curr[st.site][st.site] by {
        assert s.curr[st.remote][st.site] <= s.curr[st.site][st.site];
      }
    }
    forall t | 0 <= t < n ensures c[t] <= s'.curr[t][t] {
      assert s.curr[st.site][t] <= s.curr[t][t];
      if st.Merge? { assert s.curr[st.remote][t] <= s.curr[t][t]; }
    }
    forall i | 0 <= i < |s'.log| ensures Lte(s'.log[i].lts, s'.curr[s'.log[i].site]) {
      if i < |s.log| {
        if s.log[i].site == st.site { LteTransitive(s.log[i].lts, s.curr[st.site], c); }
      } else {
        LteIsPartialOrder(c, c);
      }
    }
  }

  /** The clock made by a step knows every old row. */
  lemma NewClockKnows(n: nat, s: State, st: Step)
    requires Shaped(n, s) && Bounded(n, s) && AllKnow(n, s) && ValidStep(n, st)
    ensures Knows(s.log, NewClock(s, st))
  {
    BoundedStep(n, s, st);
    var a, c := s.curr[st.site], NewClock(s, st);
    forall i | 0 <= i < |s.log| && c[s.log[i].site] > s.log[i].lts[s.log[i].site]
      ensures Lte(s.log[i].lts, c)
    {
      var r := s.log[i];
      if r.site == st.site || a[r.site] > r.lts[r.site] {
        assert Lte(r.lts, a);
        LteTransitive(r.lts, a, c);
      } else {
        assert st.Merge?;
        var b := s.curr[st.remote];
        assert c[r.site] == Max(a[r.site], b[r.site]);
        assert Lte(r.lts, b);
        JoinIsLeastUpperBound(a, b, c);
        LteTransitive(r.lts, b, c);
      }
    }
  }

  lemma AllKnowStep(n: nat, s: State, st: Step)
    requires Shaped(n, s) && Bounded(n, s) && AllKnow(n, s) && ValidStep(n, st)
    ensures Shaped(n, Next(s, st)) && AllKnow(n, Next(s, st))
  {
    BoundedStep(n, s, st);
    NewClockKnows(n, s, st);
    var s', x := Next(s, st), Stamp(st.site, NewClock(s, st));
    forall i | 0 <= i < n ensures Knows(s'.log, s'.curr[i]) {
      assert s'.curr[i][st.site] <= s'.curr[st.site][st.site];
      KnowsSnoc(s.log, s'.curr[i], x);
    }
    forall j | 0 <= j < |s'.log| ensures Knows(s'.log, s'.log[j].lts) {
      assert s'.log[j].lts[st.site] <= s'.curr[st.site][st.site];
      KnowsSnoc(s.log, s'.log[j].lts, x);
    }
  }

  /** A new row is the latest of its site: a clock that counts no more of the site knows it. */
  lemma KnowsSnoc(log: seq<Stamp>, d: Clock, x: Stamp)
    requires Knows(log, d) && x.site < |d| && x.site < |x.lts| && d[x.site] <= x.lts[x.site]
    ensures Knows(log + [x], d)
  {
  }

  lemma StillAttains(n: nat, s: State, st: Step, i: int, t: nat)
    requires Shaped(n, s) && Bounded(n, s) && ValidStep(n, st) && t < n
    requires Attains(n, s, i, t) && (t != st.site || st.Merge?)
    ensures Shaped(n, Next(s, st)) && Attains(n, Next(s, st), i, t)
  {
    BoundedStep(n, s, st);
  }

  /** A fresh tick leaves every older row behind on the ticking site. */
  lemma ApartFromTick(n: nat, s: State, st: Step, t: nat)
    requires Shaped(n, s) && Bounded(n, s) && ValidStep(n, st) && st.Tick?
    requires t < n && t != st.site && Represented(n, s, t)
    ensures Shaped(n, Next(s, st))
    ensures Apart(n, Next(s, st), t, st.site) && Apart(n, Next(s, st), st.site, t)
  {
    BoundedStep(n, s, st);
    var s', last := Next(s, st), |s.log|;
    var i :| Attains(n, s, i, t);
    StillAttains(n, s, st, i, t);
    assert Attains(n, s', last, st.site);
    assert s.log[i].lts[st.site] <= s.curr[st.site][st.site] < NewClock(s, st)[st.site];
    assert s'.log[i].lts != s'.log[last].lts;
  }

  lemma StillApart(n: nat, s: State, st: Step, t: nat, u: nat)
    requires Shaped(n, s) && Bounded(n, s) && ValidStep(n, st)
    requires t < n && u < n && Apart(n, s, t, u) && (st.Merge? || (t != st.site && u != st.site))
    ensures Shaped(n, Next(s, st)) && Apart(n, Next(s, st), t, u)
  {
    var i, j :| Attains(n, s, i, t) && Attains(n, s, j, u) && s.log[i].lts != s.log[j].lts;
    StillAttains(n, s, st, i, t);
    StillAttains(n, s, st, j, u);
  }

  lemma SeparatedStep(n: nat, s: State, st: Step)
    requires Shaped(n, s) && Bounded(n, s) && Separated(n, s) && ValidStep(n, st)
    ensures Shaped(n, Next(s, st)) && Separated(n, Next(s, st))
  {
    BoundedStep(n, s, st);
    var s' := Next(s, st);
    forall t | 0 <= t < n && s'.curr[t][t] > 0 ensures Represented(n, s', t) {
      if t != st.site || st.Merge? {
        var i :| Attains(n, s, i, t);
        StillAttains(n, s, st, i, t);
      } else {
        assert Attains(n, s', |s.log|, st.site);
      }
    }
    forall t, u | 0 <= t < n && 0 <= u < n && t != u && s'.curr[t][t] > 0 && s'.curr[u][u] > 0
      ensures Apart(n, s', t, u)
    {
      if st.Merge? || (t != st.site && u != st.site) {
        StillApart(n, s, st, t, u);
      } else {
        ApartFromTick(n, s, st, if t == st.site then u else t);
      }
    }
  }

  ghost predicate Invariant(n: nat, s: State) {
    Shaped(n, s) && Bounded(n, s) && AllKnow(n, s) && Separated(n, s)
  }

  /** The invariant holds in every state reached by ticks and merges, in any order. */
  lemma {:induction false} InvariantHolds(n: nat, steps: seq<Step>)
    requires ValidSteps(n, steps)
    ensures Invariant(n, Run(n, steps))
  {
    if steps != [] {
      var init, st := steps[..|steps| - 1], steps[|steps| - 1];
      InvariantHolds(n, init);
      var s := Run(n, init);
      BoundedStep(n, s, st);
      AllKnowStep(n, s, st);
      SeparatedStep(n, s, st);
    }
  }

  /** Knowledge, as a property of the rows alone. */
  lemma KnowledgeOfRows(n: nat, steps: seq<Step>, i: nat, j: nat)
    requires ValidSteps(n, steps)
    requires var log := Run(n, steps).log; i < |log| && j < |log|
    ensures var log := Run(n, steps).log;
            && log[i].site < n == |log[i].lts| == |log[j].lts|
            && (log[j].lts[log[i].site] > log[i].lts[log[i].site] ==> Lte(log[i].lts, log[j].lts))
  {
    InvariantHolds(n, steps);
    var log := Run(n, steps).log;
    assert Knows(log, log[j].lts);
  }

  // ---- what it means for the read query -----------------------------------------------

  ghost predicate InLog(log: seq<Stamp>, c: Clock) {
    exists i :: 0 <= i < |log| && log[i].lts == c
  }

  ghost predicate InTable<K, V>(t: seq<Row<K, V>>, k: K, c: Clock) {
    exists r :: r in t && r.k == k && r.lts == c
  }

  /** The rows of key k carry exactly the clocks of the log. */
  ghost predicate Carries<K, V>(t: seq<Row<K, V>>, k: K, log: seq<Stamp>) {
    forall c :: InTable(t, k, c) <==> InLog(log, c)
  }

  lemma StampOf<K, V>(t: seq<Row<K, V>>, k: K, log: seq<Stamp>, r: Row<K, V>) returns (i: nat)
    requires Carries(t, k, log) && r in t && r.k == k
    ensures i < |log| && log[i].lts == r.lts
  {
    assert InTable(t, k, r.lts);
    i :| 0 <= i < |log| && log[i].lts == r.lts;
  }

  lemma RowOf<K, V>(t: seq<Row<K, V>>, k: K, log: seq<Stamp>, i: nat) returns (r: Row<K, V>)
    requires Carries(t, k, log) && i < |log|
    ensures r in t && r.k == k && r.lts == log[i].lts
  {
    assert InLog(log, log[i].lts);
    r :| r in t && r.k == k && r.lts == log[i].lts;
  }

  ghost predicate TwoClocks(log: seq<Stamp>) {
    exists i, j :: 0 <= i < |log| && 0 <= j < |log| && log[i].lts != log[j].lts
  }

  /** Each row knows every row of the log, with producers given by the log. */
  ghost predicate Knowing(n: nat, log: seq<Stamp>) {
    && (forall i :: 0 <= i < |log| ==> log[i].site < n && |log[i].lts| == n)
    && (forall j :: 0 <= j < |log| ==> Knows(log, log[j].lts))
  }

  /** An undominated row reaches the maximum in the column of the site that produced it. */
  lemma ProducerColumn<K, V>(n: nat, log: seq<Stamp>, t: seq<Row<K, V>>, k: K, r: Row<K, V>, i: nat)
    requires Knowing(n, log) && Width(t, n) && Carries(t, k, log)
    requires r in PresentOf(t, k) && i < |log| && log[i].lts == r.lts
    ensures ReachesMax(t, r, log[i].site)
  {
    var own := log[i].site;
    forall q | q in t && q.k == k ensures q.lts[own] <= r.lts[own] {
      if q.lts[own] > r.lts[own] {
        var j := StampOf(t, k, log, q);
        assert Knows(log, log[j].lts);
        assert Dominates(q, r);
      }
    }
    ReachesMaxIff(t, r, own, n);
  }

  lemma KnowledgeCovers<K, V>(n: nat, log: seq<Stamp>, t: seq<Row<K, V>>, k: K)
    requires Knowing(n, log) && Width(t, n) && Carries(t, k, log)
    ensures Covered(t, k, n)
  {
    forall r | r in PresentOf(t, k) ensures r in PotentialMax(t, k, n) {
      var i := StampOf(t, k, log, r);
      ProducerColumn(n, log, t, k, r, i);
    }
  }

  /** Two kept clocks can only be missing when fewer than two sites have ticked. */
  lemma TwoTickedAreKept<K, V>(n: nat, s: State, t: seq<Row<K, V>>, k: K, a: nat, b: nat)
    requires Invariant(n, s) && Width(t, n) && Carries(t, k, s.log)
    requires a < n && b < n && a != b && s.curr[a][a] > 0 && s.curr[b][b] > 0
    ensures TwoClocksKept(t, k, n)
  {
    assert Apart(n, s, a, b);
    var i, j :| Attains(n, s, i, a) && Attains(n, s, j, b) && s.log[i].lts != s.log[j].lts;
    var x := AttainingRowKept(n, s, t, k, i, a);
    var y := AttainingRowKept(n, s, t, k, j, b);
    assert x.lts != y.lts;
  }

  lemma AttainingRowKept<K, V>(n: nat, s: State, t: seq<Row<K, V>>, k: K, i: int, a: nat) returns (x: Row<K, V>)
    requires Invariant(n, s) && Width(t, n) && Carries(t, k, s.log)
    requires a < n && Attains(n, s, i, a)
    ensures x in PotentialMax(t, k, n) && x.lts == s.log[i].lts
  {
    x := RowOf(t, k, s.log, i);
    forall q | q in t && q.k == k ensures q.lts[a] <= x.lts[a] {
      var j := StampOf(t, k, s.log, q);
      assert s.log[j].lts[a] <= s.curr[a][a];
    }
    ReachesMaxIff(t, x, a, n);
  }

  /** With two sites or more, the rows of a history that hold two clocks keep two clocks. */
  lemma TwoClocksAreKept<K, V>(n: nat, s: State, t: seq<Row<K, V>>, k: K)
    requires Invariant(n, s) && Width(t, n) && Carries(t, k, s.log)
    requires n >= 2 && TwoClocks(s.log)
    ensures TwoClocksKept(t, k, n)
  {
    var i, j :| 0 <= i < |s.log| && 0 <= j < |s.log| && s.log[i].lts != s.log[j].lts;
    var a := RowOf(t, k, s.log, i);
    var b := RowOf(t, k, s.log, j);
    if a in PotentialMax(t, k, n) && b in PotentialMax(t, k, n) {
    } else {
      var d, m := if a in PotentialMax(t, k, n) then b else a, if a in PotentialMax(t, k, n) then j else i;
      BehindEverywhere(n, s, t, k, d, m, 0);
      BehindEverywhere(n, s, t, k, d, m, 1);
      TwoTickedAreKept(n, s, t, k, 0, 1);
    }
  }

  lemma BehindEverywhere<K, V>(n: nat, s: State, t: seq<Row<K, V>>, k: K, d: Row<K, V>, m: nat, c: nat)
    requires Invariant(n, s) && Width(t, n) && Carries(t, k, s.log)
    requires c < n && d in t && d.k == k && d !in PotentialMax(t, k, n)
    requires m < |s.log| && s.log[m].lts == d.lts
    ensures s.curr[c][c] > 0
  {
    ReachesMaxIff(t, d, c, n);
    var q :| q in t && q.k == k && q.lts[c] > d.lts[c];
    var j := StampOf(t, k, s.log, q);
    assert 0 <= s.log[m].lts[c] < s.log[j].lts[c] <= s.curr[c][c];
  }

  /** For every run: the read is exact iff nothing was written, or there are at least two
      sites and the rows hold at least two different clocks. */
  lemma ReadExactOnHistories<K, V>(n: nat, steps: seq<Step>, t: seq<Row<K, V>>, k: K)
    requires ValidSteps(n, steps) && Width(t, n) && Carries(t, k, Run(n, steps).log)
    ensures ReadKey(t, k, n) == PresentOf(t, k) <==>
            steps == [] || (n >= 2 && TwoClocks(Run(n, steps).log))
  {
    InvariantHolds(n, steps);
    var s := Run(n, steps);
    KnowledgeCovers(n, s.log, t, k);
    ReadKeyExactIff(t, k, n);
    RunStamps(n, steps);
    if steps == [] {
      if HasKey(t, k) {
        var r :| r in t && r.k == k;
        var i := StampOf(t, k, s.log, r);
      }
    } else {
      var r := RowOf(t, k, s.log, 0);
      assert HasKey(t, k);
      if n >= 2 && TwoClocks(s.log) {
        TwoClocksAreKept(n, s, t, k);
      } else if TwoClocksKept(t, k, n) {
        KeptClocksDiffer(n, s, t, k);
      }
    }
  }

  lemma KeptClocksDiffer<K, V>(n: nat, s: State, t: seq<Row<K, V>>, k: K)
    requires Width(t, n) && Carries(t, k, s.log) && TwoClocksKept(t, k, n)
    ensures n >= 2 && TwoClocks(s.log)
  {
    var a, b :| a in PotentialMax(t, k, n) && b in PotentialMax(t, k, n) && a.lts != b.lts;
    var i := StampOf(t, k, s.log, a);
    var j := StampOf(t, k, s.log, b);
    assert s.log[i].lts != s.log[j].lts;
  }

  lemma {:induction false} RunStamps(n: nat, steps: seq<Step>)
    requires ValidSteps(n, steps)
    ensures |Run(n, steps).log| == |steps|
    ensures forall m :: 0 <= m < |steps| ==> Run(n, steps).log[m].site == steps[m].site
  {
    if steps != [] { RunStamps(n, steps[..|steps| - 1]); }
  }

  /** Where at least two sites have ticked the read is always exact. */
  lemma ReadExactOnceTwoSitesTicked<K, V>(n: nat, steps: seq<Step>, t: seq<Row<K, V>>, k: K, a: nat, b: nat)
    requires ValidSteps(n, steps) && Width(t, n) && Carries(t, k, Run(n, steps).log)
    requires a != b && Tick(a) in steps && Tick(b) in steps
    ensures ReadKey(t, k, n) == PresentOf(t, k)
  {
    InvariantHolds(n, steps);
    TickedEntries(n, steps, a);
    TickedEntries(n, steps, b);
    var s := Run(n, steps);
    assert Apart(n, s, a, b);
    ReadExactOnHistories(n, steps, t, k);
  }

  lemma {:induction false} TickedEntries(n: nat, steps: seq<Step>, a: nat)
    requires ValidSteps(n, steps) && Tick(a) in steps
    ensures a < n && Invariant(n, Run(n, steps)) && Run(n, steps).curr[a][a] > 0
  {
    var init, st := steps[..|steps| - 1], steps[|steps| - 1];
    InvariantHolds(n, steps);
    InvariantHolds(n, init);
    var s := Run(n, init);
    BoundedStep(n, s, st);
    assert steps == init + [st];
    if Tick(a) in init { TickedEntries(n, init, a); }
    assert Lte(s.curr[st.site], NewClock(s, st));
  }
}
