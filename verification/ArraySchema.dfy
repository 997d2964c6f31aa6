/** The array-encoded benchmark tables: one clock per row, CurrentTime holding this site's
    clock per key, and the write transaction NextTime + Write. The writer is site 1, that is
    column 0. */
module ArraySchema {
  import opened Clocks
  import opened Sequences
  import opened CausalPresent
  import opened Options
  import opened History

  /** Keys and values are both bigint. */
  type Table = seq<Row<int, int>>

  /** The clock after m executions of `lts[1] = lts[1] + 1`. */
  function Ahead(c: Clock, m: nat): Clock
    requires |c| > 0
  {
    c[0 := c[0] + m]
  }

  /** The starting clock of a key: its own entry is the table's maximum and no entry is ahead. */
  ghost predicate StartsAt(t: Table, k: int, ct: Clock, n: nat) {
    && |ct| == n > 0
    && ColMax(t, k, 0) == Some(ct[0])
    && forall i :: 1 <= i < n ==> ColMax(t, k, i).Some? && ct[i] <= ColMax(t, k, i).value
  }

  /** r is one of the rows written by transactions storing vs, in order. */
  predicate Written(k: int, ct: Clock, vs: seq<int>, r: Row<int, int>)
    requires |ct| > 0
  {
    exists j :: 0 <= j < |vs| && r == Row(k, vs[j], Ahead(ct, j + 1))
  }

  /** For key k, table u is table t plus the rows written by transactions storing vs. */
  ghost predicate Extended(t: Table, u: Table, k: int, ct: Clock, vs: seq<int>)
    requires |ct| > 0
  {
    forall r: Row<int, int> :: r.k == k ==> (r in u <==> r in t || Written(k, ct, vs, r))
  }

  /** What makes a starting clock safe: every current row it misses also leads some column
      other than the writer's own. It can be evaluated before the first write. */
  ghost predicate TieSafe(t: Table, k: int, ct: Clock, n: nat) {
    forall r :: r in PresentOf(t, k) && !Lte(r.lts, ct) ==> exists i :: 1 <= i < n && ReachesMax(t, r, i)
  }

  // ---- one step of the table ----------------------------------------------------------

  /** A new row displaces exactly the current rows it dominates, and enters unless dominated. */
  lemma PresentAfterInsert(t: Table, w: Row<int, int>, k: int)
    ensures PresentOf(t + [w], k) ==
            (set r | r in PresentOf(t, k) && !Dominates(w, r)) +
            (if w.k == k && Undominated(t, w) then {w} else {})
  {
    assert forall r :: r in t + [w] <==> r in t || r == w;
  }

  lemma AheadOrder(r: Clock, ct: Clock, m: nat)
    requires |r| == |ct| > 0 && r[0] <= ct[0] && m > 0
    ensures Lte(r, Ahead(ct, m)) <==> Lte(r, ct)
    ensures r != Ahead(ct, m)
  {
    if Lte(r, Ahead(ct, m)) {
      forall i | 0 <= i < |r| ensures r[i] <= ct[i] { assert i > 0 ==> r[i] <= Ahead(ct, m)[i]; }
    }
    assert Ahead(ct, m)[0] > r[0];
  }

  // ---- any number of writes -----------------------------------------------------------

  lemma ExtendedRows(t: Table, u: Table, k: int, ct: Clock, vs: seq<int>, n: nat, r: Row<int, int>)
    requires Width(t, n) && StartsAt(t, k, ct, n) && Extended(t, u, k, ct, vs) && r in u && r.k == k
    ensures |r.lts| == n
    ensures r in t ==> r.lts[0] <= ct[0]
    ensures r !in t ==> Written(k, ct, vs, r) && r.lts[0] > ct[0]
    ensures r.lts[0] <= ct[0] + |vs|
    ensures forall i :: 1 <= i < n ==> ColMax(t, k, i).Some? && r.lts[i] <= ColMax(t, k, i).value
  {
    forall i | 0 <= i < n
      ensures r in t ==> |r.lts| == n && ColMax(t, k, i).Some? && r.lts[i] <= ColMax(t, k, i).value
    {
      ColMaxIsMaximum(t, k, i, n);
    }
  }

  /** Columns other than the writer's are led by the same rows as before. */
  lemma SameLeaders(t: Table, u: Table, k: int, ct: Clock, vs: seq<int>, n: nat, r: Row<int, int>, i: nat)
    requires Width(t, n) && Width(u, n) && StartsAt(t, k, ct, n) && Extended(t, u, k, ct, vs)
    requires r in t && r.k == k && 1 <= i < n
    ensures ReachesMax(u, r, i) <==> ReachesMax(t, r, i)
  {
    ReachesMaxIff(t, r, i, n);
    ReachesMaxIff(u, r, i, n);
    ColMaxIsMaximum(t, k, i, n);
    forall q | q in u && q.k == k ensures q.lts[i] <= ColMax(t, k, i).value {
      ExtendedRows(t, u, k, ct, vs, n, q);
    }
  }

  /** After a write the writer's column is led by the latest written row alone. */
  lemma LatestLeads(t: Table, u: Table, k: int, ct: Clock, vs: seq<int>, n: nat)
    returns (w: Row<int, int>)
    requires Width(t, n) && Width(u, n) && StartsAt(t, k, ct, n) && Extended(t, u, k, ct, vs) && vs != []
    ensures w == Row(k, vs[|vs| - 1], Ahead(ct, |vs|))
    ensures w in PresentOf(u, k) && w in PotentialMax(u, k, n)
    ensures forall r :: r in u && r.k == k && ReachesMax(u, r, 0) ==> |r.lts| == n && r.lts[0] == w.lts[0]
  {
    w := Row(k, vs[|vs| - 1], Ahead(ct, |vs|));
    assert Written(k, ct, vs, w);
    forall q | q in u && q.k == k ensures |q.lts| == n && q.lts[0] <= w.lts[0] && !Dominates(q, w) {
      ExtendedRows(t, u, k, ct, vs, n, q);
    }
    ReachesMaxIff(u, w, 0, n);
    assert ReachesMax(u, w, 0);
    forall r | r in u && r.k == k && ReachesMax(u, r, 0) ensures |r.lts| == n && r.lts[0] == w.lts[0] {
      ReachesMaxIff(u, r, 0, n);
      assert w.lts[0] <= r.lts[0];
    }
  }

  /** An old row stays current iff it was and the starting clock does not cover it; of the
      written rows only the latest is current. */
  lemma CurrentAfterWrites(t: Table, u: Table, k: int, ct: Clock, vs: seq<int>, n: nat, r: Row<int, int>)
    requires Width(t, n) && Width(u, n) && StartsAt(t, k, ct, n) && Extended(t, u, k, ct, vs) && vs != []
    ensures r in t ==> (r in PresentOf(u, k) <==> r in PresentOf(t, k) && !Lte(r.lts, ct))
    ensures r !in t ==> (r in PresentOf(u, k) <==> r == Row(k, vs[|vs| - 1], Ahead(ct, |vs|)))
  {
    var w := LatestLeads(t, u, k, ct, vs, n);
    if r.k == k && r in u {
      ExtendedRows(t, u, k, ct, vs, n, r);
      if r in t {
        AheadOrder(r.lts, ct, |vs|);
        forall q | q in u && q !in t && !Lte(r.lts, ct) ensures !Dominates(q, r) {
          if q.k == k {
            var j :| 0 <= j < |vs| && q == Row(k, vs[j], Ahead(ct, j + 1));
            AheadOrder(r.lts, ct, j + 1);
          }
        }
        if Lte(r.lts, ct) { assert Dominates(w, r); }
      } else if r != w {
        var j :| 0 <= j < |vs| && r == Row(k, vs[j], Ahead(ct, j + 1));
        if j < |vs| - 1 {
          assert r.lts[0] < w.lts[0];
          assert Dominates(w, r);
        }
      }
    }
  }

  /** However many writes follow, the read is exact iff there are two sites or more and the
      starting clock was safe: one bad choice at populate time is never repaired. */
  lemma ReadExactAfterWritesIff(t: Table, u: Table, k: int, ct: Clock, vs: seq<int>, n: nat)
    requires Width(t, n) && Width(u, n) && StartsAt(t, k, ct, n) && Extended(t, u, k, ct, vs) && vs != []
    ensures ReadKey(u, k, n) == PresentOf(u, k) <==> n >= 2 && TieSafe(t, k, ct, n)
  {
    var w := LatestLeads(t, u, k, ct, vs, n);
    assert HasKey(u, k);
    ReadKeyExactIff(u, k, n);
    CoveredIffTieSafe(t, u, k, ct, vs, n);
    TwoClocksAfterWrites(t, u, k, ct, vs, n);
  }

  lemma CoveredIffTieSafe(t: Table, u: Table, k: int, ct: Clock, vs: seq<int>, n: nat)
    requires Width(t, n) && Width(u, n) && StartsAt(t, k, ct, n) && Extended(t, u, k, ct, vs) && vs != []
    ensures Covered(u, k, n) <==> TieSafe(t, k, ct, n)
  {
    var w := LatestLeads(t, u, k, ct, vs, n);
    forall r | r in PresentOf(t, k) && !Lte(r.lts, ct)
      ensures r in PresentOf(u, k)
      ensures r in PotentialMax(u, k, n) <==> exists i :: 1 <= i < n && ReachesMax(t, r, i)
    {
      CurrentAfterWrites(t, u, k, ct, vs, n, r);
      ExtendedRows(t, u, k, ct, vs, n, r);
      assert !ReachesMax(u, r, 0);
      forall i | 1 <= i < n ensures ReachesMax(u, r, i) <==> ReachesMax(t, r, i) {
        SameLeaders(t, u, k, ct, vs, n, r, i);
      }
    }
    forall r | r in PresentOf(u, k) ensures r == w || (r in PresentOf(t, k) && !Lte(r.lts, ct)) {
      CurrentAfterWrites(t, u, k, ct, vs, n, r);
    }
  }

  lemma TwoClocksAfterWrites(t: Table, u: Table, k: int, ct: Clock, vs: seq<int>, n: nat)
    requires Width(t, n) && Width(u, n) && StartsAt(t, k, ct, n) && Extended(t, u, k, ct, vs) && vs != []
    ensures TwoClocksKept(u, k, n) <==> n >= 2
  {
    var w := LatestLeads(t, u, k, ct, vs, n);
    if n >= 2 {
      ColMaxIsMaximum(t, k, 1, n);
      var r :| r in t && r.k == k && |r.lts| == n && r.lts[1] == ColMax(t, k, 1).value;
      SameLeaders(t, u, k, ct, vs, n, r, 1);
      ExtendedRows(t, u, k, ct, vs, n, r);
      assert r in PotentialMax(u, k, n) && r.lts[0] < w.lts[0];
    }
  }

  // ---- on histories -------------------------------------------------------------------

  /** The starting clock covers every row its own site produced. */
  ghost predicate CoversOwn(log: seq<Stamp>, ct: Clock) {
    forall i :: 0 <= i < |log| && log[i].site == 0 ==> Lte(log[i].lts, ct)
  }

  lemma CoversOwnIsTieSafe(n: nat, log: seq<Stamp>, t: Table, k: int, ct: Clock)
    requires Knowing(n, log) && Width(t, n) && Carries(t, k, log) && CoversOwn(log, ct)
    ensures TieSafe(t, k, ct, n)
  {
    forall r | r in PresentOf(t, k) && !Lte(r.lts, ct) ensures exists i :: 1 <= i < n && ReachesMax(t, r, i) {
      var i := StampOf(t, k, log, r);
      ProducerColumn(n, log, t, k, r, i);
    }
  }

  /** A write keeps every row knowing every row iff the clock it starts from covers the rows
      of its own site; the written clock then covers them again. */
  lemma WriteKeepsKnowledgeIff(n: nat, log: seq<Stamp>, ct: Clock)
    requires Knowing(n, log) && |ct| == n > 0 && Knows(log, ct)
    requires forall i :: 0 <= i < |log| ==> log[i].lts[0] <= ct[0]
    ensures Knowing(n, log + [Stamp(0, Ahead(ct, 1))]) <==> CoversOwn(log, ct)
    ensures CoversOwn(log, ct) ==> CoversOwn(log + [Stamp(0, Ahead(ct, 1))], Ahead(ct, 1))
  {
    var w := Ahead(ct, 1);
    var log' := log + [Stamp(0, w)];
    assert forall i :: 0 <= i < |log| ==> log'[i] == log[i];
    forall i | 0 <= i < |log| ensures Lte(log[i].lts, w) <==> Lte(log[i].lts, ct) {
      AheadOrder(log[i].lts, ct, 1);
    }
    if CoversOwn(log, ct) {
      forall j | 0 <= j < |log'| ensures Knows(log', log'[j].lts) {
        if j < |log| { assert Knows(log, log[j].lts); }
      }
      LteIsPartialOrder(w, w);
    }
    if Knowing(n, log') {
      assert Knows(log', log'[|log|].lts);
      forall i | 0 <= i < |log| && log[i].site == 0 ensures Lte(log[i].lts, ct) {
        assert log'[i].lts[0] < w[0];
      }
    }
  }

  /** The rows that m writes from a clock add. */
  function WrittenStamps(ct: Clock, m: nat): seq<Stamp>
    requires |ct| > 0
  {
    seq(m, j requires 0 <= j < m => Stamp(0, Ahead(ct, j + 1)))
  }

  lemma AheadTwice(ct: Clock, a: nat, b: nat)
    requires |ct| > 0
    ensures Ahead(Ahead(ct, a), b) == Ahead(ct, a + b)
  {
  }

  lemma StampsCons(ct: Clock, m: nat)
    requires |ct| > 0 && m > 0
    ensures WrittenStamps(ct, m) == [Stamp(0, Ahead(ct, 1))] + WrittenStamps(Ahead(ct, 1), m - 1)
  {
    var l, r := WrittenStamps(ct, m), [Stamp(0, Ahead(ct, 1))] + WrittenStamps(Ahead(ct, 1), m - 1);
    forall k | 0 <= k < m ensures l[k] == r[k] {
      if k > 0 { AheadTwice(ct, 1, k); }
    }
  }

  /** After covering writes the clock covers the rows of its site, and every row knows every row. */
  lemma {:induction false} CoveringWrites(n: nat, log: seq<Stamp>, ct: Clock, m: nat)
    requires Knowing(n, log) && |ct| == n > 0 && Knows(log, ct) && CoversOwn(log, ct)
    requires forall i :: 0 <= i < |log| ==> log[i].lts[0] <= ct[0]
    ensures Knowing(n, log + WrittenStamps(ct, m))
    decreases m
  {
    if m == 0 {
      assert log + WrittenStamps(ct, 0) == log;
    } else {
      var w := Ahead(ct, 1);
      var log' := log + [Stamp(0, w)];
      WriteKeepsKnowledgeIff(n, log, ct);
      assert log'[|log|].lts == w && Knows(log', w);
      forall i | 0 <= i < |log'| ensures log'[i].lts[0] <= w[0] {
        if i < |log| { assert log'[i] == log[i]; }
      }
      CoveringWrites(n, log', w, m - 1);
      StampsCons(ct, m);
      Associate(log, [Stamp(0, w)], WrittenStamps(w, m - 1));
    }
  }

  /** Any number of writes keeps every row knowing every row iff there are none, or the clock they
      start from covers the rows of its own site. */
  lemma WritesKeepKnowledgeIff(n: nat, log: seq<Stamp>, ct: Clock, m: nat)
    requires Knowing(n, log) && |ct| == n > 0 && Knows(log, ct)
    requires forall i :: 0 <= i < |log| ==> log[i].lts[0] <= ct[0]
    ensures Knowing(n, log + WrittenStamps(ct, m)) <==> m == 0 || CoversOwn(log, ct)
  {
    assert log + WrittenStamps(ct, 0) == log;
    if CoversOwn(log, ct) { CoveringWrites(n, log, ct, m); }
    if m > 0 && Knowing(n, log + WrittenStamps(ct, m)) {
      var all := log + WrittenStamps(ct, m);
      var log' := log + [Stamp(0, Ahead(ct, 1))];
      assert all[..|log| + 1] == log';
      KnowingPrefix(n, all, |log| + 1);
      WriteKeepsKnowledgeIff(n, log, ct);
    }
  }

  lemma KnowingPrefix(n: nat, log: seq<Stamp>, m: nat)
    requires Knowing(n, log) && m <= |log|
    ensures Knowing(n, log[..m])
  {
    forall j | 0 <= j < m ensures Knows(log[..m], log[..m][j].lts) { assert Knows(log, log[j].lts); }
  }

  const TIE_STEPS: seq<Step> := [Tick(0), Tick(1), Tick(0), Merge(0, 1), Tick(1)]
  const TIE_TABLE: Table :=
    [Row(7, 1, [1, 0]), Row(7, 2, [0, 1]), Row(7, 3, [2, 0]), Row(7, 4, [2, 1]), Row(7, 5, [0, 2])]

  /** Ties at populate time matter: after one tick each, a second tick of site 1, a merge and a
      tick of site 2, two rows of site 1 share its maximum entry. Starting from the older one,
      the next write makes the read lose a row that nothing supersedes. */
  lemma BadTieLosesARow()
    ensures ValidSteps(2, TIE_STEPS) && Carries(TIE_TABLE, 7, Run(2, TIE_STEPS).log)
    ensures StartsAt(TIE_TABLE, 7, [2, 0], 2)
    ensures var u := TIE_TABLE + [Row(7, 6, [3, 0])];
            && Extended(TIE_TABLE, u, 7, [2, 0], [6])
            && Row(7, 4, [2, 1]) in PresentOf(u, 7) && Row(7, 4, [2, 1]) !in ReadKey(u, 7, 2)
  {
    var t := TIE_TABLE;
    var u, lost := t + [Row(7, 6, [3, 0])], Row(7, 4, [2, 1]);
    assert lost == t[3] && lost in t;
    BadTieHistory();
    BadTieMaxima();
    BadTieExtended(t, u);
    BadTieWidth(t, u);
    BadTieCurrent();
    LostRow(t, u, lost);
  }

  lemma BadTieWidth(t: Table, u: Table)
    requires t == TIE_TABLE && u == t + [Row(7, 6, [3, 0])]
    ensures Width(t, 2) && Width(u, 2)
  {
  }

  lemma LostRow(t: Table, u: Table, lost: Row<int, int>)
    requires t == TIE_TABLE && u == t + [Row(7, 6, [3, 0])] && lost == t[3] && lost.k == 7 && lost in t
    requires Width(t, 2) && Width(u, 2) && StartsAt(t, 7, [2, 0], 2) && Extended(t, u, 7, [2, 0], [6])
    requires lost in PresentOf(t, 7) && !Lte(lost.lts, [2, 0])
    ensures lost in PresentOf(u, 7) && lost !in ReadKey(u, 7, 2)
  {
    CurrentAfterWrites(t, u, 7, [2, 0], [6], 2, lost);
    BadTieBehind(u);
    ReadKeyMembers(u, 7, 2, lost);
  }

  lemma BadTieExtended(t: Table, u: Table)
    requires u == t + [Row(7, 6, [3, 0])]
    ensures Extended(t, u, 7, [2, 0], [6])
  {
    forall r: Row<int, int> | r.k == 7 ensures r in u <==> r in t || Written(7, [2, 0], [6], r) {
      assert [6][0] == 6 && Ahead([2, 0], 1) == [3, 0];
    }
  }

  lemma BadTieBehind(u: Table)
    requires u == TIE_TABLE + [Row(7, 6, [3, 0])]
    ensures u[3] !in PotentialMax(u, 7, 2)
  {
    assert Width(u, 2) && u[3] in u && u[4] in u && u[5] in u;
    ReachesMaxIff(u, u[3], 0, 2);
    ReachesMaxIff(u, u[3], 1, 2);
  }

  lemma BadTieCurrent()
    ensures TIE_TABLE[3] in PresentOf(TIE_TABLE, 7) && !Lte(TIE_TABLE[3].lts, [2, 0])
  {
    var t := TIE_TABLE;
    assert t[3].lts[1] > [2, 0][1];
    forall q | q in t ensures !Dominates(q, t[3]) {
      var i :| 0 <= i < |t| && q == t[i];
      assert i != 3 ==> q.lts[0] < t[3].lts[0] || q.lts[1] < t[3].lts[1];
    }
  }

  lemma BadTieMaxima()
    ensures StartsAt(TIE_TABLE, 7, [2, 0], 2)
  {
    var t := TIE_TABLE;
    assert t[2] in t && Width(t, 2);
    ReachingStarts(t, t[2], 2);
  }

  lemma BadTieHistory()
    ensures ValidSteps(2, TIE_STEPS) && Carries(TIE_TABLE, 7, Run(2, TIE_STEPS).log)
  {
    var t := TIE_TABLE;
    var log := [Stamp(0, [1, 0]), Stamp(1, [0, 1]), Stamp(0, [2, 0]), Stamp(0, [2, 1]), Stamp(1, [0, 2])];
    BadTieRun();
    SameClocks(t, 7, log);
  }

  /** A table listing the clocks of a log under one key carries the log. */
  lemma SameClocks(t: Table, k: int, log: seq<Stamp>)
    requires |t| == |log| && forall i :: 0 <= i < |t| ==> t[i].k == k && t[i].lts == log[i].lts
    ensures Carries(t, k, log)
  {
    forall c ensures InTable(t, k, c) <==> InLog(log, c) {
      if InLog(log, c) {
        var i :| 0 <= i < |log| && log[i].lts == c;
        assert t[i] in t && t[i].lts == c;
      }
      if InTable(t, k, c) {
        var r :| r in t && r.k == k && r.lts == c;
        var i :| 0 <= i < |t| && t[i] == r;
        assert log[i].lts == c;
      }
    }
  }

  lemma BadTieRun()
    ensures ValidSteps(2, TIE_STEPS)
    ensures Run(2, TIE_STEPS).log ==
            [Stamp(0, [1, 0]), Stamp(1, [0, 1]), Stamp(0, [2, 0]), Stamp(0, [2, 1]), Stamp(1, [0, 2])]
  {
    BadTieTicks();
    TieStep(3, [2, 0], [0, 1], [2, 1]);
    TieStep(4, [2, 1], [0, 1], [0, 2]);
    assert TIE_STEPS[..5] == TIE_STEPS;
  }

  lemma BadTieTicks()
    ensures ValidSteps(2, TIE_STEPS[..3]) && Run(2, TIE_STEPS[..3]).curr == [[2, 0], [0, 1]]
    ensures Run(2, TIE_STEPS[..3]).log == [Stamp(0, [1, 0]), Stamp(1, [0, 1]), Stamp(0, [2, 0])]
  {
    assert seq(2, _ => 0) == [0, 0];
    assert Run(2, TIE_STEPS[..0]).curr == [[0, 0], [0, 0]];
    TieStep(0, [0, 0], [0, 0], [1, 0]);
    TieStep(1, [1, 0], [0, 0], [0, 1]);
    TieStep(2, [1, 0], [0, 1], [2, 0]);
  }

  /** Step i of the history leads from clocks a and b to the new clock c. */
  lemma TieStep(i: nat, a: Clock, b: Clock, c: Clock)
    requires i < 5 && |a| == |b| == |c| == 2 && ValidSteps(2, TIE_STEPS[..i])
    requires Run(2, TIE_STEPS[..i]).curr == [a, b]
    requires var st := TIE_STEPS[i];
             if st.Tick? then c == (if st.site == 0 then [a[0] + 1, a[1]] else [b[0], b[1] + 1])
             else c == [Max(a[0], b[0]), Max(a[1], b[1])]
    ensures ValidSteps(2, TIE_STEPS[..i + 1])
    ensures Run(2, TIE_STEPS[..i + 1]).curr == (if TIE_STEPS[i].site == 0 then [c, b] else [a, c])
    ensures Run(2, TIE_STEPS[..i + 1]).log == Run(2, TIE_STEPS[..i]).log + [Stamp(TIE_STEPS[i].site, c)]
  {
    assert TIE_STEPS[..i + 1] == TIE_STEPS[..i] + [TIE_STEPS[i]];
    RunSnoc(2, TIE_STEPS[..i], TIE_STEPS[i]);
    assert NewClock(Run(2, TIE_STEPS[..i]), TIE_STEPS[i]) == c;
  }

  // ---- the tables ---------------------------------------------------------------------

  /** Tables with the same rows of a key read the same for it. */
  lemma SameRowsSameRead(t: Table, u: Table, k: int, n: nat)
    requires Width(t, n) && Width(u, n) && forall r: Row<int, int> :: r.k == k ==> (r in t <==> r in u)
    ensures ReadKey(t, k, n) == ReadKey(u, k, n)
    ensures PresentOf(t, k) == PresentOf(u, k)
  {
    forall r, i | r in t && r.k == k && 0 <= i < n ensures ReachesMax(t, r, i) <==> ReachesMax(u, r, i) {
      ReachesMaxIff(t, r, i, n);
      ReachesMaxIff(u, r, i, n);
    }
    assert PotentialMax(t, k, n) == PotentialMax(u, k, n);
  }

  /** Rows of other keys play no part in a key's read. */
  lemma OtherKeyUntouched(t: Table, w: Row<int, int>, k: int, n: nat)
    requires Width(t, n) && |w.lts| == n && w.k != k
    ensures ReadKey(t + [w], k, n) == ReadKey(t, k, n)
    ensures PresentOf(t + [w], k) == PresentOf(t, k)
  {
    assert forall r :: r in t + [w] <==> r in t || r == w;
    SameRowsSameRead(t, t + [w], k, n);
  }

  /** Another transaction on the key appends one more written row. */
  lemma ExtendedStep(t: Table, u: Table, k: int, ct: Clock, vs: seq<int>, w: Row<int, int>)
    requires |ct| > 0 && Extended(t, u, k, ct, vs)
    ensures w.k != k ==> Extended(t, u + [w], k, ct, vs)
    ensures w.k == k && w.lts == Ahead(ct, |vs| + 1) ==> Extended(t, u + [w], k, ct, vs + [w.v])
  {
    assert forall r :: r in u + [w] <==> r in u || r == w;
    if w.k == k && w.lts == Ahead(ct, |vs| + 1) {
      var more := vs + [w.v];
      forall r: Row<int, int> | r.k == k ensures Written(k, ct, more, r) <==> Written(k, ct, vs, r) || r == w {
        assert more[|vs|] == w.v;
        if Written(k, ct, vs, r) {
          var j :| 0 <= j < |vs| && r == Row(k, vs[j], Ahead(ct, j + 1));
          assert more[j] == vs[j];
        }
      }
    }
  }

  lemma NewRowIsCurrent(t: Table, u: Table, k: int, ct: Clock, vs: seq<int>, n: nat, v: int)
    requires Width(t, n) && Width(u, n) && StartsAt(t, k, ct, n) && Extended(t, u, k, ct, vs)
    ensures var w := Row(k, v, Ahead(ct, |vs| + 1));
            PresentOf(u + [w], k) == (set r | r in PresentOf(u, k) && !Lte(r.lts, w.lts)) + {w}
  {
    var w := Row(k, v, Ahead(ct, |vs| + 1));
    ExtendedStep(t, u, k, ct, vs, w);
    assert Width(u + [w], n) by { assert forall r :: r in u + [w] <==> r in u || r == w; }
    var last := LatestLeads(t, u + [w], k, ct, vs + [v], n);
    PresentAfterInsert(u, w, k);
    assert forall q :: q in u ==> q in u + [w];
    forall r | r in PresentOf(u, k) ensures r.lts != w.lts {
      ExtendedRows(t, u, k, ct, vs, n, r);
    }
  }

  ghost predicate SameKeys<V, W>(a: map<int, V>, b: map<int, W>) {
    forall k :: k in a <==> k in b
  }

  lemma KeysAreSame<V, W>(a: map<int, V>, b: map<int, W>)
    requires SameKeys(a, b)
    ensures a.Keys == b.Keys
  {
    forall k ensures k in a.Keys <==> k in b.Keys {
      assert k in a <==> k in b;
    }
  }

  /** What the populated table, the chosen clocks and the stored values say about the tables. */
  ghost predicate Consistent(initial: Table, rows: Table, n: nat,
      currentTime: map<int, Clock>, start: map<int, Clock>, stored: map<int, seq<int>>)
  {
    && n > 0 && Width(initial, n) && Width(rows, n)
    && SameKeys(start, stored) && SameKeys(start, currentTime)
    && (forall k :: k in start ==> StartsAt(initial, k, start[k], n))
    && (forall k :: k in start ==> Extended(initial, rows, k, start[k], stored[k]))
    && (forall k :: k in start ==> currentTime[k] == Ahead(start[k], |stored[k]|))
  }

  lemma ConsistentStep(initial: Table, rows: Table, n: nat,
      currentTime: map<int, Clock>, start: map<int, Clock>, stored: map<int, seq<int>>, k: int, v: int)
    requires Consistent(initial, rows, n, currentTime, start, stored) && k in currentTime
    ensures |currentTime[k]| > 0
    ensures var w := Row(k, v, Ahead(currentTime[k], 1));
            && Consistent(initial, rows + [w], n, currentTime[k := w.lts], start, stored[k := stored[k] + [v]])
            && PresentOf(rows + [w], k) == (set r | r in PresentOf(rows, k) && !Lte(r.lts, w.lts)) + {w}
  {
    var w := Row(k, v, Ahead(currentTime[k], 1));
    assert w.lts == Ahead(start[k], |stored[k]| + 1);
    NewRowIsCurrent(initial, rows, k, start[k], stored[k], n, v);
    var stored' := stored[k := stored[k] + [v]];
    forall x | x in start ensures Extended(initial, rows + [w], x, start[x], stored'[x]) {
      ExtendedStep(initial, rows, x, start[x], stored[x], w);
    }
    assert forall r :: r in rows + [w] <==> r in rows || r == w;
  }

  /** `select distinct on (k)` among the rows reaching the maximum of site 1: any one of them. */
  method ChooseStart(rs: Table, k: int, n: nat) returns (ct: Clock)
    requires Width(rs, n) && n > 0 && HasKey(rs, k)
    ensures StartsAt(rs, k, ct, n) && InTable(rs, k, ct)
  {
    ColMaxIsMaximum(rs, k, 0, n);
    var r :| r in rs && r.k == k && ReachesMax(rs, r, 0);
    ct := r.lts;
    ReachesMaxIff(rs, r, 0, n);
    ReachingStarts(rs, r, n);
  }

  /** Any row leading site 1 may be the starting row of its key. */
  lemma ReachingStarts(t: Table, r: Row<int, int>, n: nat)
    requires Width(t, n) && n > 0 && r in t && forall q :: q in t && q.k == r.k ==> |q.lts| == n && q.lts[0] <= r.lts[0]
    ensures StartsAt(t, r.k, r.lts, n)
  {
    ReachesMaxIff(t, r, 0, n);
    forall i | 0 <= i < n ensures ColMax(t, r.k, i).Some? && r.lts[i] <= ColMax(t, r.k, i).value {
      ColMaxIsMaximum(t, r.k, i, n);
    }
  }

  method ChooseStarts(rs: Table, n: nat) returns (cts: map<int, Clock>)
    requires Width(rs, n) && n > 0
    ensures cts.Keys == set r | r in rs :: r.k
    ensures forall k :: k in cts ==> StartsAt(rs, k, cts[k], n) && InTable(rs, k, cts[k])
  {
    cts := map[];
    for i := 0 to |rs|
      invariant cts.Keys == set r | r in rs[..i] :: r.k
      invariant forall k :: k in cts ==> StartsAt(rs, k, cts[k], n) && InTable(rs, k, cts[k])
    {
      assert rs[..i + 1] == rs[..i] + [rs[i]];
      if rs[i].k !in cts {
        assert HasKey(rs, rs[i].k);
        var ct := ChooseStart(rs, rs[i].k, n);
        cts := cts[rs[i].k := ct];
      }
    }
    assert rs[..|rs|] == rs;
  }

  lemma NothingStored(rs: Table, n: nat, cts: map<int, Clock>)
    requires Width(rs, n) && n > 0 && forall k :: k in cts ==> StartsAt(rs, k, cts[k], n)
    ensures Consistent(rs, rs, n, cts, cts, map k | k in cts :: [])
  {
    forall k | k in cts ensures Extended(rs, rs, k, cts[k], []) && Ahead(cts[k], 0) == cts[k] { }
  }

  /** What decides whether a key is read exactly: untouched, its populated rows; written to, the
      number of sites and the tie choice. */
  ghost predicate KeyExact(initial: Table, n: nat, k: int, ct: Clock, vs: seq<int>) {
    if vs == [] then ReadKey(initial, k, n) == PresentOf(initial, k) else n >= 2 && TieSafe(initial, k, ct, n)
  }

  /** A key is read exactly, whatever was written to it, iff that is so. */
  lemma ConsistentReadIff(initial: Table, rows: Table, n: nat,
      currentTime: map<int, Clock>, start: map<int, Clock>, stored: map<int, seq<int>>, k: int)
    requires Consistent(initial, rows, n, currentTime, start, stored) && k in start
    ensures ReadKey(rows, k, n) == PresentOf(rows, k) <==> KeyExact(initial, n, k, start[k], stored[k])
  {
    if stored[k] == [] {
      assert Extended(initial, rows, k, start[k], []);
      SameRowsSameRead(initial, rows, k, n);
    } else {
      ReadExactAfterWritesIff(initial, rows, k, start[k], stored[k], n);
    }
  }

  /** And all keys are iff it is so for each of them. */
  lemma ConsistentReadAllIff(initial: Table, rows: Table, n: nat,
      currentTime: map<int, Clock>, start: map<int, Clock>, stored: map<int, seq<int>>)
    requires Consistent(initial, rows, n, currentTime, start, stored)
    ensures ReadAll(rows, start.Keys, n) == AllPresent(rows, start.Keys) <==>
            forall k :: k in start ==> KeyExact(initial, n, k, start[k], stored[k])
  {
    ReadAllExactIff(rows, start.Keys, n);
    forall k | k in start
      ensures ReadKey(rows, k, n) == PresentOf(rows, k) <==> KeyExact(initial, n, k, start[k], stored[k])
    {
      ConsistentReadIff(initial, rows, n, currentTime, start, stored, k);
    }
  }

  /** The array-encoded tables that another encoding stands for, and how they came about. */
  datatype Trace = Trace(
    initial: Table, start: map<int, Clock>, stored: map<int, seq<int>>, table: Table, clocks: map<int, Clock>)

  ghost predicate Traced(n: nat, tr: Trace) {
    Consistent(tr.initial, tr.table, n, tr.clocks, tr.start, tr.stored)
  }

  function StartTrace(rs: Table, cts: map<int, Clock>): Trace {
    Trace(rs, cts, map k | k in cts :: [], rs, cts)
  }

  /** What the write transaction on arrays does. */
  function AfterWrite(tr: Trace, k: int, v: int): Trace
    requires k in tr.clocks && k in tr.stored && |tr.clocks[k]| > 0
  {
    var c := Ahead(tr.clocks[k], 1);
    Trace(tr.initial, tr.start, tr.stored[k := tr.stored[k] + [v]], tr.table + [Row(k, v, c)], tr.clocks[k := c])
  }

  lemma TraceWrite(n: nat, tr: Trace, k: int, v: int)
    requires Traced(n, tr) && k in tr.clocks
    ensures k in tr.stored && |tr.clocks[k]| > 0 && Traced(n, AfterWrite(tr, k, v))
    ensures var w := Row(k, v, Ahead(tr.clocks[k], 1));
            PresentOf(tr.table + [w], k) == (set r | r in PresentOf(tr.table, k) && !Lte(r.lts, w.lts)) + {w}
  {
    ConsistentStep(tr.initial, tr.table, n, tr.clocks, tr.start, tr.stored, k, v);
  }

  /** A result for one key is exact iff the key is read exactly. */
  ghost predicate ExactIff(n: nat, tr: Trace, k: int, result: set<Row<int, int>>) {
    && k in tr.start && k in tr.stored
    && (result == PresentOf(tr.table, k) <==> KeyExact(tr.initial, n, k, tr.start[k], tr.stored[k]))
  }

  /** A result for all keys is exact iff each key is read exactly. */
  ghost predicate AllExactIff(n: nat, tr: Trace, result: set<Row<int, int>>) {
    && tr.start.Keys == tr.stored.Keys
    && (result == AllPresent(tr.table, tr.start.Keys) <==>
        forall k :: k in tr.start ==> KeyExact(tr.initial, n, k, tr.start[k], tr.stored[k]))
  }

  lemma TraceReads(n: nat, tr: Trace)
    requires Traced(n, tr)
    ensures forall k :: k in tr.start ==> ExactIff(n, tr, k, ReadKey(tr.table, k, n))
    ensures AllExactIff(n, tr, ReadAll(tr.table, tr.start.Keys, n))
    ensures tr.start.Keys == tr.clocks.Keys
  {
    forall k | k in tr.start ensures ExactIff(n, tr, k, ReadKey(tr.table, k, n)) {
      ConsistentReadIff(tr.initial, tr.table, n, tr.clocks, tr.start, tr.stored, k);
    }
    ConsistentReadAllIff(tr.initial, tr.table, n, tr.clocks, tr.start, tr.stored);
    KeysAreSame(tr.start, tr.stored);
    KeysAreSame(tr.start, tr.clocks);
  }

  /** ArrayTimestamps and CurrentTime. The trace remembers the populated table, the clock chosen
      for each key and the values stored since, in order. */
  class ArrayTables {
    const sites: nat
    var rows: Table
    var currentTime: map<int, Clock>
    ghost var trace: Trace

    ghost predicate Valid()
      reads this
    {
      Traced(sites, trace) && trace.table == rows && trace.clocks == currentTime
    }

    constructor Populate(rs: Table)
      requires rs != [] && |rs[0].lts| > 0 && Width(rs, |rs[0].lts|)
      ensures Valid() && sites == |rs[0].lts| && trace == StartTrace(rs, trace.start)
      ensures trace.start.Keys == set r | r in rs :: r.k
      ensures forall k :: k in trace.start ==> InTable(rs, k, trace.start[k])
    {
      sites := |rs[0].lts|;
      rows := rs;
      var cts := ChooseStarts(rs, |rs[0].lts|);
      currentTime := cts;
      NothingStored(rs, |rs[0].lts|, cts);
      trace := StartTrace(rs, cts);
    }

    /** `UPDATE CurrentTime SET lts[1] = lts[1] + 1 WHERE k = ... RETURNING lts`. */
    method NextTime(k: int) returns (ts: Option<Clock>)
      requires forall x :: x in currentTime ==> |currentTime[x]| > 0
      modifies this`currentTime
      ensures k in old(currentTime) ==>
                ts == Some(Ahead(old(currentTime)[k], 1)) && currentTime == old(currentTime)[k := ts.value]
      ensures k !in old(currentTime) ==> ts == None && currentTime == old(currentTime)
    {
      if k in currentTime {
        currentTime := currentTime[k := currentTime[k][0 := currentTime[k][0] + 1]];
        ts := Some(currentTime[k]);
      } else {
        ts := None;
      }
    }

    /** `INSERT INTO ArrayTimestamps VALUES (...)`. */
    method Write(k: int, v: int, ts: Clock)
      modifies this`rows
      ensures rows == old(rows) + [Row(k, v, ts)]
    {
      rows := rows + [Row(k, v, ts)];
    }

    /** The write transaction. A key outside CurrentTime yields no timestamp and the insert of
        an empty clock fails, so nothing is stored. */
    method WriteTxn(k: int, v: int) returns (ok: bool)
      requires Valid()
      modifies this
      ensures Valid() && (ok <==> k in old(currentTime))
      ensures !ok ==> trace == old(trace)
      ensures ok ==> k in old(trace).stored && |old(trace).clocks[k]| > 0 && trace == AfterWrite(old(trace), k, v)
      ensures ok ==> PresentOf(rows, k) ==
                     (set r | r in old(PresentOf(rows, k)) && !Lte(r.lts, currentTime[k])) + {Row(k, v, currentTime[k])}
      ensures ok ==> forall x :: x != k ==>
                ReadKey(rows, x, sites) == old(ReadKey(rows, x, sites)) && PresentOf(rows, x) == old(PresentOf(rows, x))
    {
      var ts := NextTime(k);
      if ts.None? {
        return false;
      }
      Write(k, v, ts.value);
      ghost var before, w := old(rows), Row(k, v, ts.value);
      TraceWrite(sites, trace, k, v);
      forall x | x != k
        ensures ReadKey(rows, x, sites) == ReadKey(before, x, sites) && PresentOf(rows, x) == PresentOf(before, x)
      {
        OtherKeyUntouched(before, w, x, sites);
      }
      trace := AfterWrite(trace, k, v);
      return true;
    }

    /** The read statement for one key, with what any sequence of transactions makes of it. */
    method ReadKeyStatement(k: int) returns (result: set<Row<int, int>>)
      requires Valid()
      ensures result == ReadKey(rows, k, sites)
      ensures k in trace.start ==> ExactIff(sites, trace, k, result)
    {
      result := ReadKey(rows, k, sites);
      TraceReads(sites, trace);
    }

    /** The read statement for all keys of CurrentTime. */
    method ReadAllStatement() returns (result: set<Row<int, int>>)
      requires Valid()
      ensures result == ReadAll(rows, currentTime.Keys, sites)
      ensures AllExactIff(sites, trace, result)
    {
      result := ReadAll(rows, currentTime.Keys, sites);
      TraceReads(sites, trace);
    }
  }
}
