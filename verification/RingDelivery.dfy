/** Delivery around the ring. Every site keeps the log of the rows it inserted, its own and
    those received, and a cursor into its predecessor's log. Forwarding takes the next row of
    that log and inserts it, unless the site wrote it: the predecessor does not publish it. */
module RingDelivery {
  import opened Sequences
  import opened Ring

  /** A row: the site that wrote it, its number there, and its contents. */
  datatype Msg<P> = Msg(origin: nat, num: nat, body: P)

  datatype State<P> = State(logs: seq<seq<Msg<P>>>, cur: seq<nat>)

  datatype Step<P> = Write(site: nat, body: P) | Forward(site: nat)

  function Init<P>(n: nat): State<P> {
    State(seq(n, _ => []), seq(n, _ => 0))
  }

  ghost predicate Shaped<P>(n: nat, s: State<P>) {
    && n >= 2 && |s.logs| == |s.cur| == n
    && (forall i :: 0 <= i < n ==> s.cur[i] <= |s.logs[Prev(n, i)]|)
  }

  /** The rows of a log written by site o. */
  function Of<P(!new)>(log: seq<Msg<P>>, o: nat): seq<Msg<P>> {
    Filter((m: Msg<P>) => m.origin == o, log)
  }

  /** What site i has read of its predecessor's log. */
  function Seen<P>(n: nat, s: State<P>, i: nat): seq<Msg<P>>
    requires Shaped(n, s) && i < n
  {
    s.logs[Prev(n, i)][..s.cur[i]]
  }

  function Unseen<P>(n: nat, s: State<P>, i: nat): seq<Msg<P>>
    requires Shaped(n, s) && i < n
  {
    s.logs[Prev(n, i)][s.cur[i]..]
  }

  function DoWrite<P(!new)>(n: nat, s: State<P>, i: nat, body: P): State<P>
    requires Shaped(n, s) && i < n
  {
    s.(logs := s.logs[i := s.logs[i] + [Msg(i, |Of(s.logs[i], i)|, body)]])
  }

  function DoForward<P>(n: nat, s: State<P>, i: nat): State<P>
    requires Shaped(n, s) && i < n && Unseen(n, s, i) != []
  {
    var m := s.logs[Prev(n, i)][s.cur[i]];
    State(if m.origin == i then s.logs else s.logs[i := s.logs[i] + [m]], s.cur[i := s.cur[i] + 1])
  }

  /** Steps of absent sites and forwards with nothing to read change nothing. */
  function Next<P(!new)>(n: nat, s: State<P>, st: Step<P>): State<P>
    requires Shaped(n, s)
  {
    if st.site >= n then s
    else match st
      case Write(i, body) => DoWrite(n, s, i, body)
      case Forward(i) => if Unseen(n, s, i) == [] then s else DoForward(n, s, i)
  }

  lemma ShapedNext<P(!new)>(n: nat, s: State<P>, st: Step<P>)
    requires Shaped(n, s)
    ensures Shaped(n, Next(n, s, st))
  {
  }

  function Run<P(!new)>(n: nat, steps: seq<Step<P>>): (s: State<P>)
    requires n >= 2
    ensures Shaped(n, s)
  {
    if steps == [] then Init(n)
    else
      var s := Run(n, steps[..|steps| - 1]);
      ShapedNext(n, s, steps[|steps| - 1]);
      Next(n, s, steps[|steps| - 1])
  }

  lemma RunSnoc<P(!new)>(n: nat, steps: seq<Step<P>>, st: Step<P>)
    requires n >= 2
    ensures Run(n, steps + [st]) == Next(n, Run(n, steps), st)
  {
    assert (steps + [st])[..|steps|] == steps;
  }

  /** The row filter of a publication, for rows written by a given site. */
  predicate Passes(pub: Publication, owner: int, origin: int) {
    match pub
    case OnlyOwn => origin == owner
    case AllBut(site) => origin != site
  }

  /** In the full mesh every site reads from every other, and is sent exactly what that one wrote. */
  lemma FullMeshPassesOwn(n: nat, i: nat, p: nat, origin: nat)
    requires n >= 2 && i < n && p < n && origin < n
    ensures Wired(n, false, i + 1, p + 1) <==> p != i
    ensures Passes(Published(n, false, p + 1), p + 1, origin + 1) <==> origin == p
  {
  }

  /** The machine follows the wiring: site i reads from its predecessor, whose publication
      drops exactly the rows site i wrote. */
  lemma MachineFollowsWiring(n: nat, i: nat, p: nat, origin: nat)
    requires n >= 2 && i < n && p < n && origin < n
    ensures Wired(n, true, i + 1, p + 1) <==> p == Prev(n, i)
    ensures p == Prev(n, i) ==> (Passes(Published(n, true, p + 1), p + 1, origin + 1) <==> origin != i)
  {
  }

  // ---- the invariant ------------------------------------------------------------------

  /** Every row is numbered by how many rows of its site precede it in the log. */
  ghost predicate Numbered<P(!new)>(log: seq<Msg<P>>) {
    forall a :: 0 <= a < |log| ==> log[a].num == |Of(log[..a], log[a].origin)|
  }

  /** Site i holds, of every other site, exactly what it has read from its predecessor. */
  ghost predicate Delivered<P(!new)>(n: nat, s: State<P>)
    requires Shaped(n, s)
  {
    forall i, o :: 0 <= i < n && 0 <= o < n && o != i ==> Of(s.logs[i], o) == Of(Seen(n, s, i), o)
  }

  /** A row held anywhere is in the log of the site that wrote it. */
  ghost predicate Sourced<P(!new)>(n: nat, s: State<P>)
    requires Shaped(n, s)
  {
    forall i, m :: 0 <= i < n && m in s.logs[i] ==> m.origin < n && m in s.logs[m.origin]
  }

  ghost predicate Before<P>(log: seq<Msg<P>>, x: Msg<P>, y: Msg<P>) {
    exists a, b :: 0 <= a < b < |log| && log[a] == x && log[b] == y
  }

  /** Every row is preceded by whatever its writer's log held before it. */
  ghost predicate CausalFor<P(!new)>(n: nat, s: State<P>, i: nat)
    requires Shaped(n, s) && i < n
  {
    forall x, y :: y in s.logs[i] && y.origin < n && Before(s.logs[y.origin], x, y) ==> Before(s.logs[i], x, y)
  }

  ghost predicate Causal<P(!new)>(n: nat, s: State<P>)
    requires Shaped(n, s)
  {
    forall i :: 0 <= i < n ==> CausalFor(n, s, i)
  }

  ghost predicate Inv<P(!new)>(n: nat, s: State<P>) {
    && Shaped(n, s)
    && (forall i :: 0 <= i < n ==> Numbered(s.logs[i]))
    && Delivered(n, s) && Sourced(n, s) && Causal(n, s)
  }

  lemma OfSnoc<P(!new)>(log: seq<Msg<P>>, m: Msg<P>, o: nat)
    ensures Of(log + [m], o) == if m.origin == o then Of(log, o) + [m] else Of(log, o)
  {
    var p := (x: Msg<P>) => x.origin == o;
    FilterAppend(p, log, [m]);
    assert Filter(p, [m]) == if m.origin == o then [m] else [];
  }

  lemma NumberedSnoc<P(!new)>(log: seq<Msg<P>>, m: Msg<P>)
    requires Numbered(log) && m.num == |Of(log, m.origin)|
    ensures Numbered(log + [m])
  {
    forall a | 0 <= a < |log| + 1 ensures (log + [m])[a].num == |Of((log + [m])[..a], (log + [m])[a].origin)| {
      assert (log + [m])[..a] == log[..a];
      if a == |log| { assert log[..a] == log; }
    }
  }

  lemma OfPrefix<P(!new)>(log: seq<Msg<P>>, a: nat, b: nat, o: nat)
    requires a <= b <= |log|
    ensures |Of(log[..a], o)| <= |Of(log[..b], o)|
    ensures a < b && log[a].origin == o ==> |Of(log[..a], o)| < |Of(log[..b], o)|
  {
    assert log[..b] == log[..a] + log[a..b];
    var p := (x: Msg<P>) => x.origin == o;
    FilterAppend(p, log[..a], log[a..b]);
    if a < b && log[a].origin == o {
      assert log[a..b][0] == log[a];
    }
  }

  /** Numbering makes the rows of a log pairwise different. */
  lemma NumberedIsUnique<P(!new)>(log: seq<Msg<P>>, a: nat, b: nat)
    requires Numbered(log) && a < b < |log| && log[a].origin == log[b].origin
    ensures log[a].num < log[b].num
  {
    OfPrefix(log, a, b, log[a].origin);
  }

  lemma BeforeSnoc<P(!new)>(log: seq<Msg<P>>, m: Msg<P>, x: Msg<P>, y: Msg<P>)
    ensures Before(log, x, y) ==> Before(log + [m], x, y)
    ensures x in log ==> Before(log + [m], x, m)
    ensures Before(log + [m], x, y) && y != m ==> Before(log, x, y)
    ensures Before(log + [m], x, m) && m !in log ==> x in log
  {
    var l := log + [m];
    if Before(log, x, y) {
      var a, b :| 0 <= a < b < |log| && log[a] == x && log[b] == y;
      assert l[a] == x && l[b] == y;
    }
    if x in log {
      var a :| 0 <= a < |log| && log[a] == x;
      assert l[a] == x && l[|log|] == m;
    }
    if Before(l, x, y) && y != m {
      var a, b :| 0 <= a < b < |l| && l[a] == x && l[b] == y;
      assert b < |log| && log[a] == x && log[b] == y;
    }
    if Before(l, x, m) && m !in log {
      var a, b :| 0 <= a < b < |l| && l[a] == x && l[b] == m;
      assert b == |log| && log[a] == x;
    }
  }

  // ---- writing ------------------------------------------------------------------------

  lemma FreshWrite<P(!new)>(n: nat, s: State<P>, i: nat, body: P)
    requires Inv(n, s) && i < n
    ensures forall j :: 0 <= j < n ==> Msg(i, |Of(s.logs[i], i)|, body) !in s.logs[j]
  {
    var log, m := s.logs[i], Msg(i, |Of(s.logs[i], i)|, body);
    assert log[..|log|] == log;
    if m in log {
      var a :| 0 <= a < |log| && log[a] == m;
      OfPrefix(log, a, |log|, i);
    }
  }

  lemma WriteKeepsInv<P(!new)>(n: nat, s: State<P>, i: nat, body: P)
    requires Inv(n, s) && i < n
    ensures Inv(n, DoWrite(n, s, i, body))
  {
    var s', m := DoWrite(n, s, i, body), Msg(i, |Of(s.logs[i], i)|, body);
    FreshWrite(n, s, i, body);
    NumberedSnoc(s.logs[i], m);
    forall j, o | 0 <= j < n && 0 <= o < n && o != j ensures Of(s'.logs[j], o) == Of(Seen(n, s', j), o) {
      if j == i { OfSnoc(s.logs[i], m, o); }
      assert Seen(n, s', j) == Seen(n, s, j);
    }
    forall j ensures 0 <= j < n ==> CausalFor(n, s', j) {
      if 0 <= j < n { WriteKeepsCausal(n, s, i, body, j); }
    }
  }

  lemma WriteKeepsCausal<P(!new)>(n: nat, s: State<P>, i: nat, body: P, j: nat)
    requires Inv(n, s) && i < n && j < n
    ensures CausalFor(n, DoWrite(n, s, i, body), j)
  {
    var s', m := DoWrite(n, s, i, body), Msg(i, |Of(s.logs[i], i)|, body);
    FreshWrite(n, s, i, body);
    forall x, y | y in s'.logs[j] && y.origin < n && Before(s'.logs[y.origin], x, y) ensures Before(s'.logs[j], x, y) {
      if y != m {
        BeforeSnoc(s.logs[i], m, x, y);
        assert CausalFor(n, s, j);
        assert y in s.logs[j] && Before(s.logs[y.origin], x, y);
      }
    }
  }

  // ---- forwarding ---------------------------------------------------------------------

  /** The row about to be forwarded, and that it is not there yet. */
  lemma NextRow<P(!new)>(n: nat, s: State<P>, i: nat) returns (m: Msg<P>)
    requires Inv(n, s) && i < n && Unseen(n, s, i) != []
    ensures m == s.logs[Prev(n, i)][s.cur[i]] && m in s.logs[Prev(n, i)] && m.origin < n
    ensures m.origin != i ==> m.num == |Of(s.logs[i], m.origin)| && m !in s.logs[i]
  {
    var log := s.logs[Prev(n, i)];
    m := log[s.cur[i]];
    assert Numbered(log);
    if m.origin != i {
      assert Of(s.logs[i], m.origin) == Of(Seen(n, s, i), m.origin);
      assert s.logs[i][..|s.logs[i]|] == s.logs[i];
      if m in s.logs[i] {
        var a :| 0 <= a < |s.logs[i]| && s.logs[i][a] == m;
        assert Numbered(s.logs[i]);
        OfPrefix(s.logs[i], a, |s.logs[i]|, m.origin);
      }
    }
  }

  /** A row is added to what site i has read, and to its log unless it is its own. */
  lemma BothSnoc<P(!new)>(log: seq<Msg<P>>, seen: seq<Msg<P>>, m: Msg<P>, i: nat, o: nat)
    requires o != i && Of(log, o) == Of(seen, o)
    ensures Of(if m.origin == i then log else log + [m], o) == Of(seen + [m], o)
  {
    OfSnoc(log, m, o);
    OfSnoc(seen, m, o);
  }

  lemma ForwardedIsDelivered<P(!new)>(n: nat, s: State<P>, i: nat, o: nat)
    requires Inv(n, s) && i < n && Unseen(n, s, i) != [] && o < n && o != i
    ensures Shaped(n, DoForward(n, s, i))
    ensures Of(DoForward(n, s, i).logs[i], o) == Of(Seen(n, DoForward(n, s, i), i), o)
  {
    ReadsOneMore(n, s, i);
    BothSnoc(s.logs[i], Seen(n, s, i), s.logs[Prev(n, i)][s.cur[i]], i, o);
  }

  lemma ReadsOneMore<P>(n: nat, s: State<P>, i: nat)
    requires Shaped(n, s) && i < n && Unseen(n, s, i) != []
    ensures Shaped(n, DoForward(n, s, i))
    ensures var m, s' := s.logs[Prev(n, i)][s.cur[i]], DoForward(n, s, i);
            && Seen(n, s', i) == Seen(n, s, i) + [m]
            && s'.logs[i] == if m.origin == i then s.logs[i] else s.logs[i] + [m]
  {
  }

  lemma ForwardKeepsDelivery<P(!new)>(n: nat, s: State<P>, i: nat)
    requires Inv(n, s) && i < n && Unseen(n, s, i) != []
    ensures Shaped(n, DoForward(n, s, i)) && Delivered(n, DoForward(n, s, i))
  {
    var s' := DoForward(n, s, i);
    forall j, o | 0 <= j < n && 0 <= o < n && o != j ensures Of(s'.logs[j], o) == Of(Seen(n, s', j), o) {
      if j == i {
        ForwardedIsDelivered(n, s, i, o);
      } else {
        assert Seen(n, s', j) == Seen(n, s, j);
      }
    }
  }

  /** Rows of a log occur once, so those before row c come before its index. */
  lemma PastIsSeen<P(!new)>(log: seq<Msg<P>>, c: nat, x: Msg<P>, m: Msg<P>)
    requires Numbered(log) && c < |log| && log[c] == m && Before(log, x, m)
    ensures x in log[..c]
  {
    var a, b :| 0 <= a < b < |log| && log[a] == x && log[b] == m;
    if b > c { NumberedIsUnique(log, c, b); }
    if b < c { NumberedIsUnique(log, b, c); }
    assert log[..c][a] == x;
  }

  /** Whatever precedes the forwarded row at its writer has already arrived. */
  lemma PastHasArrived<P(!new)>(n: nat, s: State<P>, i: nat, x: Msg<P>)
    requires Inv(n, s) && i < n && Unseen(n, s, i) != []
    requires var m := s.logs[Prev(n, i)][s.cur[i]]; m.origin != i && m.origin < n && Before(s.logs[m.origin], x, m)
    ensures x in s.logs[i]
  {
    var m := NextRow(n, s, i);
    assert CausalFor(n, s, Prev(n, i));
    PastIsSeen(s.logs[Prev(n, i)], s.cur[i], x, m);
    assert x in Seen(n, s, i);
    if x.origin == i {
      assert x in s.logs[i];
    } else {
      assert x in Of(Seen(n, s, i), x.origin);
      assert Of(Seen(n, s, i), x.origin) == Of(s.logs[i], x.origin);
    }
  }

  lemma ForwardKeepsCausal<P(!new)>(n: nat, s: State<P>, i: nat, j: nat)
    requires Inv(n, s) && i < n && Unseen(n, s, i) != [] && j < n
    ensures Shaped(n, DoForward(n, s, i)) && CausalFor(n, DoForward(n, s, i), j)
  {
    var s' := DoForward(n, s, i);
    var m := NextRow(n, s, i);
    assert CausalFor(n, s, j);
    if m.origin != i {
      forall x, y | y in s'.logs[j] && y.origin < n && Before(s'.logs[y.origin], x, y)
        ensures Before(s'.logs[j], x, y)
      {
        BeforeSnoc(s.logs[i], m, x, y);
        assert y.origin == i ==> y != m;
        assert Before(s.logs[y.origin], x, y);
        if y in s.logs[j] {
          assert Before(s.logs[j], x, y);
        } else {
          assert j == i && y == m;
          PastHasArrived(n, s, i, x);
        }
      }
    }
  }

  lemma ForwardKeepsInv<P(!new)>(n: nat, s: State<P>, i: nat)
    requires Inv(n, s) && i < n && Unseen(n, s, i) != []
    ensures Inv(n, DoForward(n, s, i))
  {
    var s' := DoForward(n, s, i);
    var m := NextRow(n, s, i);
    ForwardKeepsDelivery(n, s, i);
    if m.origin != i { NumberedSnoc(s.logs[i], m); }
    forall j ensures 0 <= j < n ==> CausalFor(n, s', j) {
      if 0 <= j < n { ForwardKeepsCausal(n, s, i, j); }
    }
  }

  /** The invariant holds in every reachable state. */
  lemma {:induction false} InvHolds<P(!new)>(n: nat, steps: seq<Step<P>>)
    requires n >= 2
    ensures Inv(n, Run(n, steps))
  {
    if steps == [] {
    } else {
      InvHolds(n, steps[..|steps| - 1]);
      var s, st := Run(n, steps[..|steps| - 1]), steps[|steps| - 1];
      if st.site < n {
        match st
        case Write(i, body) => WriteKeepsInv(n, s, i, body);
        case Forward(i) => if Unseen(n, s, i) != [] { ForwardKeepsInv(n, s, i); }
      }
    }
  }

  // ---- what it gives ------------------------------------------------------------------

  /** Causal delivery: if x was in a site's log when it wrote y, every log holding y holds x
      earlier. A log only grows at its end, so "when it wrote y" is "before y". */
  lemma CausalDelivery<P(!new)>(n: nat, steps: seq<Step<P>>, i: nat, x: Msg<P>, y: Msg<P>)
    requires n >= 2 && i < n
    requires var logs := Run(n, steps).logs; y in logs[i] && y.origin < n && Before(logs[y.origin], x, y)
    ensures Before(Run(n, steps).logs[i], x, y)
  {
    InvHolds(n, steps);
    assert CausalFor(n, Run(n, steps), i);
  }

  /** No log ever holds two rows with the same writer and number. */
  lemma DeliveredAtMostOnce<P(!new)>(n: nat, steps: seq<Step<P>>, i: nat, a: nat, b: nat)
    requires n >= 2 && i < n
    requires a < b < |Run(n, steps).logs[i]|
    ensures var log := Run(n, steps).logs[i]; log[a].origin == log[b].origin ==> log[a].num < log[b].num
  {
    InvHolds(n, steps);
    var log := Run(n, steps).logs[i];
    if log[a].origin == log[b].origin { NumberedIsUnique(log, a, b); }
  }

  /** A row is never inserted again where it was written. */
  lemma ForwardKeepsOwnRows<P(!new)>(n: nat, s: State<P>, i: nat, j: nat)
    requires Shaped(n, s) && i < n && j < n
    ensures Shaped(n, Next(n, s, Forward(i))) && Of(Next(n, s, Forward(i)).logs[j], j) == Of(s.logs[j], j)
  {
    if Unseen(n, s, i) != [] { OfSnoc(s.logs[i], s.logs[Prev(n, i)][s.cur[i]], i); }
  }

  ghost predicate Quiescent<P>(n: nat, s: State<P>)
    requires Shaped(n, s)
  {
    forall i :: 0 <= i < n ==> Unseen(n, s, i) == []
  }

  /** Hops from site o forward to site i. */
  function Dist(n: nat, o: nat, i: nat): nat
    requires o < n && i < n
  {
    if i >= o then i - o else i + n - o
  }

  /** With nothing left to forward, every site holds each writer's rows as the writer does. */
  lemma {:induction false} QuiescentAgrees<P(!new)>(n: nat, s: State<P>, o: nat, i: nat)
    requires Inv(n, s) && Quiescent(n, s) && o < n && i < n
    ensures Of(s.logs[i], o) == Of(s.logs[o], o)
    decreases Dist(n, o, i)
  {
    if i != o {
      QuiescentAgrees(n, s, o, Prev(n, i));
      assert Unseen(n, s, i) == [];
      assert Seen(n, s, i) == s.logs[Prev(n, i)];
    }
  }

  lemma OfCount<P(!new)>(log: seq<Msg<P>>, m: Msg<P>)
    ensures multiset(Of(log, m.origin))[m] == multiset(log)[m]
  {
    FilterCount((x: Msg<P>) => x.origin == m.origin, log, m);
  }

  /** Convergence: with nothing left to forward, all logs hold the same rows. */
  lemma QuiescentConverges<P(!new)>(n: nat, s: State<P>, i: nat, j: nat)
    requires Inv(n, s) && Quiescent(n, s) && i < n && j < n
    ensures multiset(s.logs[i]) == multiset(s.logs[j])
  {
    forall m | m in multiset(s.logs[i]) + multiset(s.logs[j])
      ensures multiset(s.logs[i])[m] == multiset(s.logs[j])[m]
    {
      assert m in s.logs[i] || m in s.logs[j];
      QuiescentAgrees(n, s, m.origin, i);
      QuiescentAgrees(n, s, m.origin, j);
      OfCount(s.logs[i], m);
      OfCount(s.logs[j], m);
    }
  }

  lemma NumberedCountsOnce<P(!new)>(log: seq<Msg<P>>, m: Msg<P>)
    requires Numbered(log) && m in log
    ensures multiset(log)[m] == 1
  {
    var a :| 0 <= a < |log| && log[a] == m;
    forall b | 0 <= b < |log| && b != a ensures log[b] != m {
      if log[b] == m { NumberedIsUnique(log, if a < b then a else b, if a < b then b else a); }
    }
    SingleCount(log, a);
  }

  /** Exactly once: every row written anywhere is then in every log, one time. */
  lemma DeliveredExactlyOnce<P(!new)>(n: nat, steps: seq<Step<P>>, o: nat, i: nat, m: Msg<P>)
    requires n >= 2 && o < n && i < n && Quiescent(n, Run(n, steps)) && m in Run(n, steps).logs[o]
    ensures multiset(Run(n, steps).logs[i])[m] == 1
  {
    InvHolds(n, steps);
    var s := Run(n, steps);
    QuiescentConverges(n, s, o, i);
    BagMembers(s.logs[o], s.logs[i]);
    NumberedCountsOnce(s.logs[i], m);
  }

  // ---- termination --------------------------------------------------------------------

  /** Forwarding steps still owed for unread rows at site i: each travels on until the step
      that finds it back at its writer. */
  function Owed<P>(n: nat, rows: seq<Msg<P>>, i: nat): nat
    requires i < n
  {
    if rows == [] then 0
    else (if rows[0].origin < n then Dist(n, i, rows[0].origin) + 1 else 0) + Owed(n, rows[1..], i)
  }

  function Sum(xs: seq<nat>): nat {
    if xs == [] then 0 else xs[0] + Sum(xs[1..])
  }

  function OwedBySite<P>(n: nat, s: State<P>): seq<nat>
    requires Shaped(n, s)
  {
    seq(n, i requires 0 <= i < n => Owed(n, Unseen(n, s, i), i))
  }

  /** The number of forwarding steps left before the ring is quiet. */
  function Measure<P>(n: nat, s: State<P>): nat
    requires Shaped(n, s)
  {
    Sum(OwedBySite(n, s))
  }

  lemma {:induction false} SumUpdate(xs: seq<nat>, i: nat, x: nat)
    requires i < |xs|
    ensures Sum(xs[i := x]) + xs[i] == Sum(xs) + x
  {
    if i == 0 {
      assert xs[0 := x][1..] == xs[1..];
    } else {
      SumUpdate(xs[1..], i - 1, x);
      assert xs[i := x][1..] == xs[1..][i - 1 := x];
    }
  }

  lemma {:induction false} OwedSnoc<P>(n: nat, rows: seq<Msg<P>>, m: Msg<P>, i: nat)
    requires i < n && m.origin < n
    ensures Owed(n, rows + [m], i) == Owed(n, rows, i) + Dist(n, i, m.origin) + 1
  {
    if rows == [] {
      assert ([] + [m])[1..] == [];
    } else {
      OwedSnoc(n, rows[1..], m, i);
      assert (rows + [m])[1..] == rows[1..] + [m];
    }
  }

  /** Writing a row owes exactly n steps: n - 1 deliveries, and the one that stops it. */
  lemma WriteOwesOneRound<P(!new)>(n: nat, s: State<P>, i: nat, body: P)
    requires Shaped(n, s) && i < n
    ensures Measure(n, DoWrite(n, s, i, body)) == Measure(n, s) + n
  {
    var s', m, next := DoWrite(n, s, i, body), Msg(i, |Of(s.logs[i], i)|, body), Succ(n, i);
    assert Unseen(n, s', next) == Unseen(n, s, next) + [m];
    OwedSnoc(n, Unseen(n, s, next), m, next);
    assert forall j :: 0 <= j < n && j != next ==> Unseen(n, s', j) == Unseen(n, s, j);
    var w := OwedBySite(n, s);
    SumUpdate(w, next, w[next] + n);
    assert OwedBySite(n, s') == w[next := w[next] + n];
  }

  /** What site i still owes once its next unread row has been taken. */
  lemma OwedAfterReading<P(!new)>(n: nat, s: State<P>, i: nat, m: Msg<P>)
    requires Inv(n, s) && i < n && Unseen(n, s, i) != [] && m == s.logs[Prev(n, i)][s.cur[i]] && m.origin < n
    ensures Unseen(n, s, i)[1..] == Unseen(n, DoForward(n, s, i), i)
    ensures OwedBySite(n, s)[i] == Dist(n, i, m.origin) + 1 + Owed(n, Unseen(n, DoForward(n, s, i), i), i)
  {
    var s' := DoForward(n, s, i);
    assert s'.logs[Prev(n, i)] == s.logs[Prev(n, i)];
    assert Unseen(n, s, i)[1..] == Unseen(n, s', i);
    assert Unseen(n, s, i)[0] == m;
  }

  /** A row found back at its writer stops there. */
  lemma StoppingPaysOne<P(!new)>(n: nat, s: State<P>, i: nat, m: Msg<P>)
    requires Inv(n, s) && i < n && Unseen(n, s, i) != [] && m == s.logs[Prev(n, i)][s.cur[i]] && m.origin == i
    ensures Measure(n, DoForward(n, s, i)) + 1 == Measure(n, s)
  {
    var s', w := DoForward(n, s, i), OwedBySite(n, s);
    OwedAfterReading(n, s, i, m);
    var x := Owed(n, Unseen(n, s', i), i);
    SumUpdate(w, i, x);
    forall j | 0 <= j < n ensures OwedBySite(n, s')[j] == w[i := x][j] {
      if j != i { assert Unseen(n, s', j) == Unseen(n, s, j); }
    }
    assert OwedBySite(n, s') == w[i := x];
  }

  /** A row passed on owes one step less at the next site. */
  lemma PassingPaysOne<P(!new)>(n: nat, s: State<P>, i: nat, m: Msg<P>)
    requires Inv(n, s) && i < n && Unseen(n, s, i) != [] && m == s.logs[Prev(n, i)][s.cur[i]] && i != m.origin < n
    ensures Measure(n, DoForward(n, s, i)) + 1 == Measure(n, s)
  {
    var s', w, next := DoForward(n, s, i), OwedBySite(n, s), Succ(n, i);
    OwedAfterReading(n, s, i, m);
    PassingMovesOne(n, s, i, m);
    var x, y := Owed(n, Unseen(n, s', i), i), w[next] + Dist(n, i, m.origin);
    SumUpdate(w, i, x);
    SumUpdate(w[i := x], next, y);
    SameOwed(OwedBySite(n, s'), w, i, x, next, y);
  }

  lemma SameOwed(after: seq<nat>, w: seq<nat>, i: nat, x: nat, next: nat, y: nat)
    requires |after| == |w| && i < |w| && next < |w| && i != next && after[i] == x && after[next] == y
    requires forall j :: 0 <= j < |w| && j != i && j != next ==> after[j] == w[j]
    ensures after == w[i := x][next := y]
  {
  }

  /** A row passed on is owed by the successor instead. */
  lemma PassingMovesOne<P(!new)>(n: nat, s: State<P>, i: nat, m: Msg<P>)
    requires Inv(n, s) && i < n && Unseen(n, s, i) != [] && m == s.logs[Prev(n, i)][s.cur[i]] && i != m.origin < n
    ensures var w, w' := OwedBySite(n, s), OwedBySite(n, DoForward(n, s, i));
            && w'[Succ(n, i)] == w[Succ(n, i)] + Dist(n, i, m.origin)
            && forall j :: 0 <= j < n && j != i && j != Succ(n, i) ==> w'[j] == w[j]
  {
    var s', next := DoForward(n, s, i), Succ(n, i);
    assert Unseen(n, s', next) == Unseen(n, s, next) + [m];
    OwedSnoc(n, Unseen(n, s, next), m, next);
    forall j | 0 <= j < n && j != i && j != next ensures Unseen(n, s', j) == Unseen(n, s, j) { }
  }

  /** Every forwarding step pays exactly one of the steps owed. */
  lemma ForwardPaysOne<P(!new)>(n: nat, s: State<P>, i: nat)
    requires Inv(n, s) && i < n && Unseen(n, s, i) != []
    ensures Measure(n, DoForward(n, s, i)) + 1 == Measure(n, s)
  {
    var m := NextRow(n, s, i);
    if m.origin == i { StoppingPaysOne(n, s, i, m); } else { PassingPaysOne(n, s, i, m); }
  }

  /** A forwarding step where there is a row to read takes it: the cursor passes it, the row joins
      the log unless the site wrote it, and one step less is owed. */
  lemma ForwardStep<P(!new)>(n: nat, s: State<P>, i: nat)
    requires Inv(n, s) && i < n && Unseen(n, s, i) != []
    ensures var s', m := Next(n, s, Forward(i)), s.logs[Prev(n, i)][s.cur[i]];
            && Inv(n, s') && s'.cur == s.cur[i := s.cur[i] + 1]
            && s'.logs == s.logs[i := s.logs[i] + if m.origin != i then [m] else []]
            && Measure(n, s') + 1 == Measure(n, s)
  {
    ForwardKeepsInv(n, s, i);
    ForwardPaysOne(n, s, i);
    assert s.logs[i] + [] == s.logs[i];
  }

  /** A write puts its row behind the log of its site, numbered there, and owes a round. */
  lemma WriteStep<P(!new)>(n: nat, s: State<P>, i: nat, body: P)
    requires Inv(n, s) && i < n
    ensures var s' := Next(n, s, Write(i, body));
            && Inv(n, s') && s'.cur == s.cur
            && s'.logs == s.logs[i := s.logs[i] + [Msg(i, |Of(s.logs[i], i)|, body)]]
            && Measure(n, s') == Measure(n, s) + n
  {
    WriteKeepsInv(n, s, i, body);
    WriteOwesOneRound(n, s, i, body);
  }

  /** Forwarding at the given sites in turn, each having something to read. */
  ghost predicate AllProgress<P(!new)>(n: nat, s: State<P>, sites: seq<nat>)
    requires Shaped(n, s)
    decreases |sites|
  {
    sites == [] || (sites[0] < n && Unseen(n, s, sites[0]) != [] &&
        AllProgress(n, Next(n, s, Forward(sites[0])), sites[1..]))
  }

  function Forwards<P>(sites: seq<nat>): seq<Step<P>> {
    Map((i: nat) => Forward(i), sites)
  }

  /** The first of the steps. */
  lemma FirstForward<P(!new)>(n: nat, steps: seq<Step<P>>, i: nat)
    requires n >= 2 && i < n && Unseen(n, Run(n, steps), i) != []
    ensures Run(n, steps + [Forward(i)]) == Next(n, Run(n, steps), Forward(i))
    ensures Measure(n, Run(n, steps + [Forward(i)])) + 1 == Measure(n, Run(n, steps))
  {
    InvHolds(n, steps);
    ForwardStep(n, Run(n, steps), i);
    RunSnoc(n, steps, Forward(i));
  }

  lemma FirstOf<P>(steps: seq<Step<P>>, sites: seq<nat>)
    requires sites != []
    ensures steps + Forwards(sites) == (steps + [Forward(sites[0])]) + Forwards(sites[1..])
  {
  }

  lemma {:induction false} SumZero(xs: seq<nat>)
    ensures Sum(xs) == 0 <==> forall i :: 0 <= i < |xs| ==> xs[i] == 0
  {
    if xs != [] {
      SumZero(xs[1..]);
      if forall i :: 0 <= i < |xs| ==> xs[i] == 0 {
        assert forall i :: 0 <= i < |xs[1..]| ==> xs[1..][i] == xs[i + 1];
      } else {
        var i :| 0 <= i < |xs| && xs[i] != 0;
        if i > 0 { assert xs[1..][i - 1] == xs[i]; }
      }
    }
  }

  lemma NothingOwedIsQuiescent<P(!new)>(n: nat, s: State<P>)
    requires Inv(n, s)
    ensures Measure(n, s) == 0 <==> Quiescent(n, s)
  {
    var w := OwedBySite(n, s);
    SumZero(w);
    forall i | 0 <= i < n ensures w[i] == 0 <==> Unseen(n, s, i) == [] {
      if Unseen(n, s, i) != [] { var m := NextRow(n, s, i); }
    }
  }

  /** After any run, in whatever order the sites then forward, the ring goes quiet after exactly the
      steps owed. */
  lemma {:induction false} DrainsExactly<P(!new)>(n: nat, steps: seq<Step<P>>, sites: seq<nat>)
    requires n >= 2 && AllProgress(n, Run(n, steps), sites)
    ensures |sites| <= Measure(n, Run(n, steps))
    ensures |sites| == Measure(n, Run(n, steps)) <==> Quiescent(n, Run(n, steps + Forwards(sites)))
    decreases |sites|
  {
    if sites == [] {
      InvHolds(n, steps);
      NothingOwedIsQuiescent(n, Run(n, steps));
      assert steps + Forwards<P>([]) == steps;
    } else {
      FirstForward(n, steps, sites[0]);
      FirstOf(steps, sites);
      DrainsExactly(n, steps + [Forward(sites[0])], sites[1..]);
    }
  }

  lemma NotQuiet<P>(n: nat, s: State<P>) returns (i: nat)
    requires Shaped(n, s) && !Quiescent(n, s)
    ensures i < n && Unseen(n, s, i) != []
  {
    i :| 0 <= i < n && Unseen(n, s, i) != [];
  }

  /** And some such order always exists. */
  lemma {:induction false} SomeDrain<P(!new)>(n: nat, s: State<P>) returns (sites: seq<nat>)
    requires Inv(n, s)
    ensures AllProgress(n, s, sites) && |sites| == Measure(n, s)
    decreases Measure(n, s)
  {
    NothingOwedIsQuiescent(n, s);
    if Quiescent(n, s) {
      sites := [];
    } else {
      var i := NotQuiet(n, s);
      ForwardStep(n, s, i);
      var rest := SomeDrain(n, Next(n, s, Forward(i)));
      sites := [i] + rest;
      assert sites[1..] == rest;
    }
  }

  // ---- what is delivered --------------------------------------------------------------

  function Bodies<P>(log: seq<Msg<P>>): seq<P> {
    Map((m: Msg<P>) => m.body, log)
  }

  /** What a site wrote in a run, in order. */
  function WrittenBy<P>(steps: seq<Step<P>>, o: nat): seq<P> {
    if steps == [] then []
    else
      var st := steps[|steps| - 1];
      WrittenBy(steps[..|steps| - 1], o) + if st.Write? && st.site == o then [st.body] else []
  }

  /** The rows of a site in its own log are those it wrote, in order. */
  lemma {:induction false} OwnRowsAreWritten<P(!new)>(n: nat, steps: seq<Step<P>>, o: nat)
    requires n >= 2 && o < n
    ensures Bodies(Of(Run(n, steps).logs[o], o)) == WrittenBy(steps, o)
  {
    if steps != [] {
      var init, st := steps[..|steps| - 1], steps[|steps| - 1];
      var s := Run(n, init);
      OwnRowsAreWritten(n, init, o);
      OwnRowsStep(n, s, st, o);
      MapAppend((m: Msg<P>) => m.body, Of(s.logs[o], o), OwnRow(s, st, o));
    }
  }

  function OwnRow<P(!new)>(s: State<P>, st: Step<P>, o: nat): seq<Msg<P>>
    requires o < |s.logs|
  {
    if st.Write? && st.site == o then [Msg(o, |Of(s.logs[o], o)|, st.body)] else []
  }

  lemma OwnRowsStep<P(!new)>(n: nat, s: State<P>, st: Step<P>, o: nat)
    requires Shaped(n, s) && o < n
    ensures Of(Next(n, s, st).logs[o], o) == Of(s.logs[o], o) + OwnRow(s, st, o)
  {
    if st.site < n {
      match st
      case Write(i, body) => OfSnoc(s.logs[i], Msg(i, |Of(s.logs[i], i)|, body), o);
      case Forward(i) => ForwardKeepsOwnRows(n, s, i, o);
    }
  }

  lemma {:induction false} ForwardsWriteNothing<P>(steps: seq<Step<P>>, sites: seq<nat>, o: nat)
    ensures WrittenBy(steps + Forwards(sites), o) == WrittenBy(steps, o)
  {
    var all := steps + Forwards<P>(sites);
    if sites == [] {
      assert all == steps;
    } else {
      var init := sites[..|sites| - 1];
      assert all[..|all| - 1] == steps + Forwards(init);
      ForwardsWriteNothing(steps, init, o);
    }
  }

  /** After any run and the steps owed, in any order, every log holds of every site exactly what
      that site wrote, in the order it wrote it, and rows of no other. */
  lemma DrainedHoldsAll<P(!new)>(n: nat, steps: seq<Step<P>>, sites: seq<nat>, i: nat, o: nat)
    requires n >= 2 && i < n && o < n
    requires AllProgress(n, Run(n, steps), sites) && |sites| == Measure(n, Run(n, steps))
    ensures var log := Run(n, steps + Forwards(sites)).logs[i];
            Bodies(Of(log, o)) == WrittenBy(steps, o) && forall m :: m in log ==> m.origin < n
  {
    var all := steps + Forwards<P>(sites);
    DrainsExactly(n, steps, sites);
    InvHolds(n, all);
    QuiescentAgrees(n, Run(n, all), o, i);
    OwnRowsAreWritten(n, all, o);
    ForwardsWriteNothing(steps, sites, o);
  }
}
