/** The view over Local and Shared row by row: it groups by all columns and the ctid, which only
    tells the rows of one table apart. */
module PhysicalView {
  import opened CausalPresent
  import opened Sequences
  import opened Crdv
  import RingDelivery

  /** A row with its place in its own table. */
  datatype Physical = Physical(op: Op, ctid: int)

  function OpsOf(t: seq<Physical>): seq<Op> {
    Map((p: Physical) => p.op, t)
  }

  /** GROUP BY all columns: the first of every group of equal rows. */
  function Groups(t: seq<Physical>): seq<Physical>
    decreases |t|
  {
    if t == [] then []
    else
      FilterShrinks((p: Physical) => p != t[0], t);
      [t[0]] + Groups(Filter((p: Physical) => p != t[0], t))
  }

  /** The view over the rows of Local and Shared, in this order. */
  function View(t: seq<Physical>, n: nat): seq<Physical> {
    Groups(Filter((p: Physical) => Shown(OpsOf(t), n, p.op), t))
  }

  ghost predicate NoTwins<T>(t: seq<T>) {
    forall i, j :: 0 <= i < j < |t| ==> t[i] != t[j]
  }

  lemma {:induction false} GroupsMembers(t: seq<Physical>)
    ensures forall p :: p in Groups(t) <==> p in t
    ensures |Groups(t)| <= |t|
    decreases |t|
  {
    if t != [] {
      var rest := Filter((p: Physical) => p != t[0], t);
      FilterShrinks((p: Physical) => p != t[0], t);
      GroupsMembers(rest);
      assert forall p :: p in t <==> p == t[0] || p in rest;
    }
  }

  lemma OthersOf(t: seq<Physical>)
    requires t != []
    ensures var rest := Filter((p: Physical) => p != t[0], t);
            |rest| < |t| && (rest == t[1..] <==> t[0] !in t[1..]) && |rest| <= |t[1..]|
  {
    var other := (p: Physical) => p != t[0];
    FilterShrinks(other, t);
    FilterShrinks(other, t[1..]);
    FilterAll(other, t[1..]);
    assert Filter(other, t) == Filter(other, t[1..]);
    if t[0] in t[1..] { assert t[0] !in Filter(other, t[1..]); }
  }

  /** Grouping changes nothing iff there are no equal rows. */
  lemma {:induction false} GroupsIff(t: seq<Physical>)
    ensures |Groups(t)| == |t| <==> NoTwins(t)
    ensures NoTwins(t) ==> Groups(t) == t
    decreases |t|
  {
    if t != [] {
      var rest := Filter((p: Physical) => p != t[0], t);
      OthersOf(t);
      GroupsIff(rest);
      GroupsMembers(rest);
      if NoTwins(t) {
        assert rest == t[1..];
      } else if t[0] in t[1..] {
        GroupsMembers(rest);
        assert |rest| < |t[1..]| by { ShorterWithout(t); }
      } else {
        assert rest == t[1..] && !NoTwins(rest);
      }
    }
  }

  lemma ShorterWithout(t: seq<Physical>)
    requires t != [] && t[0] in t[1..]
    ensures |Filter((p: Physical) => p != t[0], t)| < |t[1..]|
  {
    var other := (p: Physical) => p != t[0];
    var k :| 0 <= k < |t[1..]| && t[1..][k] == t[0];
    var a, b := t[1..][..k], t[1..][k..];
    assert t[1..] == a + b && b[0] == t[0];
    FilterAppend(other, a, b);
    FilterShrinks(other, a);
    FilterShrinks(other, b);
  }

  lemma {:induction false} FilterOps(t: seq<Physical>, u: seq<Op>, n: nat)
    ensures OpsOf(Filter((p: Physical) => Shown(u, n, p.op), t)) == Filter((r: Op) => Shown(u, n, r), OpsOf(t))
  {
    if t != [] {
      FilterOps(t[1..], u, n);
      assert OpsOf(t)[1..] == OpsOf(t[1..]);
      MapAppend((p: Physical) => p.op, if Shown(u, n, t[0].op) then [t[0]] else [],
                Filter((p: Physical) => Shown(u, n, p.op), t[1..]));
    }
  }

  ghost predicate ShownTwice(t: seq<Physical>, n: nat) {
    exists i, j :: 0 <= i < j < |t| && t[i] == t[j] && Shown(OpsOf(t), n, t[i].op)
  }

  /** The same, row by row. */
  predicate ComesAgain(t: seq<Physical>, u: seq<Op>, n: nat) {
    t != [] && ((Shown(u, n, t[0].op) && t[0] in t[1..]) || ComesAgain(t[1..], u, n))
  }

  lemma {:induction false} ComesAgainIff(t: seq<Physical>, u: seq<Op>, n: nat)
    ensures ComesAgain(t, u, n) <==> exists i, j :: 0 <= i < j < |t| && t[i] == t[j] && Shown(u, n, t[i].op)
  {
    if t != [] {
      ComesAgainIff(t[1..], u, n);
      if i, j :| 0 <= i < j < |t[1..]| && t[1..][i] == t[1..][j] && Shown(u, n, t[1..][i].op) {
        assert t[i + 1] == t[j + 1];
      }
      if t[0] in t[1..] {
        var k :| 0 <= k < |t[1..]| && t[1..][k] == t[0];
        assert t[k + 1] == t[0];
      }
    }
  }

  lemma NoTwinsCons<T>(x: T, rest: seq<T>)
    ensures NoTwins([x] + rest) <==> x !in rest && NoTwins(rest)
  {
    var all := [x] + rest;
    if NoTwins(all) {
      forall k | 0 <= k < |rest| ensures rest[k] != x { assert all[0] == x && all[k + 1] == rest[k]; }
      forall i, j | 0 <= i < j < |rest| ensures rest[i] != rest[j] {
        assert all[i + 1] == rest[i] && all[j + 1] == rest[j];
      }
    }
  }

  lemma {:induction false} TwinsStay(t: seq<Physical>, u: seq<Op>, n: nat)
    ensures NoTwins(Filter((p: Physical) => Shown(u, n, p.op), t)) <==> !ComesAgain(t, u, n)
  {
    if t != [] {
      var rest := Filter((p: Physical) => Shown(u, n, p.op), t[1..]);
      TwinsStay(t[1..], u, n);
      NoTwinsCons(t[0], rest);
      assert [] + rest == rest;
    }
  }

  /** The view shows the rows of `DataAll`, and every one of its copies iff no current row is in
      both tables at the same place. */
  lemma ViewIff(t: seq<Physical>, n: nat)
    ensures OpsOf(View(t, n)) == DataAll(OpsOf(t), n) <==> !ShownTwice(t, n)
    ensures forall r :: r in OpsOf(View(t, n)) <==> r in DataAll(OpsOf(t), n)
  {
    var shown := Filter((p: Physical) => Shown(OpsOf(t), n, p.op), t);
    FilterOps(t, OpsOf(t), n);
    TwinsStay(t, OpsOf(t), n);
    ComesAgainIff(t, OpsOf(t), n);
    GroupsIff(shown);
    GroupsMembers(shown);
    forall r ensures r in OpsOf(View(t, n)) <==> r in OpsOf(shown) {
      SameOps(View(t, n), shown, r);
    }
  }

  lemma SameOps(a: seq<Physical>, b: seq<Physical>, r: Op)
    requires forall p :: p in a <==> p in b
    ensures r in OpsOf(a) <==> r in OpsOf(b)
  {
    if r in OpsOf(a) {
      var k :| 0 <= k < |a| && a[k].op == r;
      assert a[k] in b;
    }
    if r in OpsOf(b) {
      var k :| 0 <= k < |b| && b[k].op == r;
      assert b[k] in a;
    }
  }

  // ---- in a running system -----------------------------------------------------------------

  /** The tables of a site that merged the rows of a and has those of b waiting. */
  ghost predicate Stores(t: seq<Physical>, a: seq<Op>, b: seq<Op>) {
    OpsOf(t) == MergeAll(a) + b
  }

  /** For every run, site and partial merge, the view shows the rows that Local will hold, and all
      of their copies iff no current row is in both tables at the same place. */
  lemma ViewAgrees(n: nat, cmds: seq<Command>, i: nat, a: seq<Op>, b: seq<Op>, t: seq<Physical>)
    requires i < n && multiset(System(n, cmds)[i]) == multiset(a + b) && Stores(t, a, b)
    ensures forall r :: r in OpsOf(View(t, n)) <==> r in MergeAll(a + b)
    ensures OpsOf(View(t, n)) == MergeAll(a + b) <==> !ShownTwice(t, n)
  {
    ReadModesAgree(n, cmds, i, a, b);
    ViewIff(t, n);
  }

  /** Rows that arrived once are in one table, once. */
  lemma ArrivedOnce(t: seq<Physical>, a: seq<Op>, b: seq<Op>, n: nat)
    requires Stores(t, a, b) && NoTwins(a + b)
    ensures !ShownTwice(t, n)
  {
    MergeIsPresent(a);
    KeepIsFilter(a, a);
    assert NoTwins(a) && NoTwins(b) by {
      assert forall k :: 0 <= k < |a| ==> (a + b)[k] == a[k];
      assert forall k :: 0 <= k < |b| ==> (a + b)[|a| + k] == b[k];
    }
    FilterNoTwins((r: Op) => Undominated(a, r), a);
    forall k, l | 0 <= k < l < |t| ensures t[k].op != t[l].op {
      assert OpsOf(t)[k] == t[k].op && OpsOf(t)[l] == t[l].op;
      if k < |MergeAll(a)| <= l { NotInBoth(a, b, t[k].op, t[l].op); }
    }
  }

  lemma NotInBoth(a: seq<Op>, b: seq<Op>, x: Op, y: Op)
    requires NoTwins(a + b) && x in MergeAll(a) && y in b
    ensures x != y
  {
    MergeIsPresent(a);
    KeepMembers(a, a);
    var k :| 0 <= k < |a| && a[k] == x;
    var l :| 0 <= l < |b| && b[l] == y;
    assert (a + b)[k] == x && (a + b)[|a| + l] == y;
  }

  lemma {:induction false} FilterNoTwins<T(!new)>(p: T -> bool, s: seq<T>)
    requires NoTwins(s)
    ensures NoTwins(Filter(p, s))
  {
    if s != [] {
      FilterNoTwins(p, s[1..]);
      assert s[0] !in s[1..];
    }
  }

  // ---- over the ring -----------------------------------------------------------------------

  /** Every row was written by the site its message names, and no site wrote a row twice. */
  ghost predicate WrittenOnce(s: RingDelivery.State<Op>) {
    && (forall i, k :: 0 <= i < |s.logs| && 0 <= k < |s.logs[i]| ==> s.logs[i][k].body.v.site == s.logs[i][k].origin)
    && (forall i :: 0 <= i < |s.logs| ==> OwnOnce(s.logs[i], i))
  }

  ghost predicate OwnOnce(log: seq<RingDelivery.Msg<Op>>, i: nat) {
    forall k, l :: 0 <= k < l < |log| && log[k].origin == log[l].origin == i ==> log[k].body != log[l].body
  }

  lemma {:induction false} RingWrittenOnce(n: nat, cmds: seq<RingCommand>)
    requires n >= 2
    ensures WrittenOnce(RingDelivery.Run(n, RingSteps(n, cmds)))
  {
    if cmds != [] {
      var init, c := cmds[..|cmds| - 1], cmds[|cmds| - 1];
      var steps, all := RingSteps(n, init), RingSteps(n, cmds);
      var s := RingDelivery.Run(n, steps);
      RingWrittenOnce(n, init);
      RingKeepsOpsInv(n, init);
      var more := RingStep(n, OpLogs(s), c);
      if more == [] {
        assert all == steps;
      } else {
        assert all == steps + [more[0]];
        RingDelivery.RunSnoc(n, steps, more[0]);
        StepWrittenOnce(n, s, c);
      }
    }
  }

  lemma StepWrittenOnce(n: nat, s: RingDelivery.State<Op>, c: RingCommand)
    requires RingDelivery.Shaped(n, s) && OpsInv(n, OpLogs(s)) && WrittenOnce(s) && RingStep(n, OpLogs(s), c) != []
    ensures WrittenOnce(RingDelivery.Next(n, s, RingStep(n, OpLogs(s), c)[0]))
  {
    match c
    case Write(i, id, key, data, vis) =>
      var log, w := s.logs[i], NewOp(n, vis, i, id, key, data);
      forall k | 0 <= k < |log| && log[k].origin == i ensures log[k].body != w {
        NewRowIsNew(n, s, vis, w, k);
      }
    case Pass(i) =>
  }

  lemma NewRowIsNew(n: nat, s: RingDelivery.State<Op>, vis: seq<Op>, w: Op, k: nat)
    requires RingDelivery.Shaped(n, s) && WrittenOnce(s) && Writes(n, OpLogs(s), vis, w)
    requires k < |s.logs[w.v.site]| && s.logs[w.v.site][k].origin == w.v.site
    ensures s.logs[w.v.site][k].body != w
  {
    var r := s.logs[w.v.site][k].body;
    assert OpLogs(s)[w.v.site][k] == r && r in OpLogs(s)[w.v.site];
    assert Known(OpLogs(s), r);
    if r.k.0 == w.k.0 { SeenIsBelow(n, OpLogs(s), vis, w, r); }
  }

  /** Over the ring every row arrives everywhere at most once. */
  lemma RingRowsAreDistinct(n: nat, cmds: seq<RingCommand>, i: nat)
    requires n >= 2 && i < n
    ensures NoTwins(OpLogs(RingDelivery.Run(n, RingSteps(n, cmds)))[i])
  {
    var s := RingDelivery.Run(n, RingSteps(n, cmds));
    var log := s.logs[i];
    RingDelivery.InvHolds(n, RingSteps(n, cmds));
    RingWrittenOnce(n, cmds);
    forall k, l | 0 <= k < l < |log| ensures log[k].body != log[l].body {
      if log[k].body == log[l].body { SameOriginDiffers(n, s, i, k, l); }
    }
  }

  lemma SameOriginDiffers(n: nat, s: RingDelivery.State<Op>, i: nat, k: nat, l: nat)
    requires RingDelivery.Inv(n, s) && WrittenOnce(s) && i < n && k < l < |s.logs[i]|
    requires s.logs[i][k].origin == s.logs[i][l].origin
    ensures s.logs[i][k].body != s.logs[i][l].body
  {
    var x, y := s.logs[i][k], s.logs[i][l];
    RingDelivery.NumberedIsUnique(s.logs[i], k, l);
    assert x in s.logs[i] && y in s.logs[i];
    assert x in s.logs[x.origin] && y in s.logs[x.origin];
    var k' :| 0 <= k' < |s.logs[x.origin]| && s.logs[x.origin][k'] == x;
    var l' :| 0 <= l' < |s.logs[x.origin]| && s.logs[x.origin][l'] == y;
    assert OwnOnce(s.logs[x.origin], x.origin);
  }

  /** So once the ring is quiet the views of all sites, row by row, show the same rows, however
      much each site has merged, in whatever order. */
  lemma RingViewsConverge(n: nat, cmds: seq<RingCommand>, i: nat, j: nat,
      a: seq<Op>, b: seq<Op>, c: seq<Op>, d: seq<Op>, t: seq<Physical>, u: seq<Physical>)
    requires n >= 2 && i < n && j < n && Holds(n, cmds, i, a, b) && Holds(n, cmds, j, c, d)
    requires RingDelivery.Quiescent(n, RingDelivery.Run(n, RingSteps(n, cmds)))
    requires Stores(t, a, b) && Stores(u, c, d)
    ensures multiset(OpsOf(View(t, n))) == multiset(OpsOf(View(u, n)))
    ensures OpsOf(View(t, n)) == MergeAll(a + b)
  {
    RingReplicasConverge(n, cmds, i, j, a, b, c, d);
    RingReplicasConverge(n, cmds, j, i, c, d, a, b);
    ViewOfDistinct(n, cmds, i, a, b, t);
    ViewOfDistinct(n, cmds, j, c, d, u);
  }

  lemma ViewOfDistinct(n: nat, cmds: seq<RingCommand>, i: nat, a: seq<Op>, b: seq<Op>, t: seq<Physical>)
    requires n >= 2 && i < n && Holds(n, cmds, i, a, b) && Stores(t, a, b)
    ensures OpsOf(View(t, n)) == DataAll(MergeAll(a) + b, n)
  {
    RingRowsAreDistinct(n, cmds, i);
    NoTwinsBag(OpLogs(RingDelivery.Run(n, RingSteps(n, cmds)))[i], a + b);
    ArrivedOnce(t, a, b, n);
    ViewIff(t, n);
  }

  lemma NoTwinsBag(s: seq<Op>, t: seq<Op>)
    requires multiset(s) == multiset(t) && NoTwins(s)
    ensures NoTwins(t)
  {
    BagMembers(s, t);
    forall i, j | 0 <= i < j < |t| ensures t[i] != t[j] {
      assert t[i] in s;
      var k :| 0 <= k < |s| && s[k] == t[i];
      SingleCount(s, k);
      if t[i] == t[j] { TwiceCount(t, i, j); }
    }
  }
}
