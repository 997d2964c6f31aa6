/** The replicated store itself: timestamps for new rows, the merge of rows into Local, the view
    that reads unmerged rows too, and what all of it gives over a ring. */
module Crdv {
  import opened Clocks
  import opened CausalPresent
  import opened Options
  import opened Sequences
  import RingDelivery

  /** A row's writer and its remaining columns. */
  datatype Body = Body(site: nat, data: string)

  /** Rows are keyed by structure id and element key. */
  type Op = Row<(string, string), Body>

  // ---- merge --------------------------------------------------------------------------

  /** `merge`: a row with a newer version present is skipped; otherwise it replaces its older
      versions. Another copy of a current row is not recognised and is stored again. */
  function MergeOp(local: seq<Op>, op: Op): seq<Op> {
    if exists q :: q in local && Dominates(q, op) then local
    else Filter((o: Op) => !Dominates(op, o), local) + [op]
  }

  function MergeAll(ops: seq<Op>): seq<Op> {
    if ops == [] then [] else MergeOp(MergeAll(ops[..|ops| - 1]), ops[|ops| - 1])
  }

  /** The rows no other row supersedes, in order. */
  function Present(ops: seq<Op>): seq<Op> {
    Keep(ops, ops)
  }

  lemma {:induction false} KeepIsFilter(t: seq<Op>, u: seq<Op>)
    ensures Keep(t, u) == Filter((r: Op) => Undominated(u, r), t)
  {
    if t != [] { KeepIsFilter(t[1..], u); }
  }

  /** Skipping obsolete rows and deleting past ones computes exactly the causal present. */
  lemma {:induction false} MergeIsPresent(ops: seq<Op>)
    ensures MergeAll(ops) == Present(ops)
  {
    if ops != [] {
      var init, x := ops[..|ops| - 1], ops[|ops| - 1];
      assert ops == init + [x];
      MergeIsPresent(init);
      PresentSnoc(init, x);
    }
  }

  lemma PresentSnoc(ops: seq<Op>, x: Op)
    ensures Present(ops + [x]) == MergeOp(Present(ops), x)
  {
    KeepMembers(ops, ops);
    PresentSplit(ops, x);
    if exists q :: q in ops && Dominates(q, x) {
      var q :| q in ops && Dominates(q, x);
      var top := Climb(ops, q);
      if top != q { DominatesTransitive(top, q, x); }
      assert top in Present(ops) && Dominates(top, x);
      forall r | r in Present(ops) ensures !Dominates(x, r) {
        if Dominates(x, r) { DominatesTransitive(q, x, r); }
      }
      FilterAll((r: Op) => !Dominates(x, r), Present(ops));
    }
  }

  /** The old current rows not older than x, then x unless it is older than something. */
  lemma PresentSplit(ops: seq<Op>, x: Op)
    ensures Present(ops + [x]) == Filter((r: Op) => !Dominates(x, r), Present(ops)) +
                                  (if exists q :: q in ops && Dominates(q, x) then [] else [x])
  {
    var all := ops + [x];
    var keepAll := (r: Op) => Undominated(all, r);
    KeepIsFilter(all, all);
    KeepIsFilter(ops, ops);
    assert forall r :: r in all <==> r in ops || r == x;
    FilterAppend(keepAll, ops, [x]);
    FilterTwice((r: Op) => !Dominates(x, r), (r: Op) => Undominated(ops, r), keepAll, ops);
    assert Filter(keepAll, [x]) == if keepAll(x) then [x] else [];
  }

  /** Merging the same rows in any order leaves the same rows in Local. */
  lemma MergeOrderIrrelevant(a: seq<Op>, b: seq<Op>)
    requires multiset(a) == multiset(b)
    ensures multiset(MergeAll(a)) == multiset(MergeAll(b))
  {
    BagMembers(a, b);
    MergeIsPresent(a);
    MergeIsPresent(b);
    KeepIsFilter(a, a);
    KeepIsFilter(b, b);
    var p := (r: Op) => Undominated(a, r);
    var q := (r: Op) => Undominated(b, r);
    FilterBag(p, a, b);
    FilterTwice(p, q, p, b);
    FilterAll(p, Filter(q, b));
    assert forall r :: Undominated(a, r) <==> Undominated(b, r);
  }

  /** A second copy of a current row stays beside the first. */
  lemma MergeKeepsDuplicates(ops: seq<Op>, x: Op)
    requires x in MergeAll(ops)
    ensures multiset(MergeAll(ops + [x]))[x] == multiset(MergeAll(ops))[x] + 1
  {
    MergeIsPresent(ops);
    KeepMembers(ops, ops);
    var local := MergeAll(ops);
    assert (ops + [x])[..|ops|] == ops;
    var p := (o: Op) => !Dominates(x, o);
    FilterCount(p, local, x);
    assert multiset(Filter(p, local) + [x]) == multiset(Filter(p, local)) + multiset{x};
  }

  /** Merging a row a second time changes nothing exactly when the row is no longer current. */
  lemma MergeAgainIff(ops: seq<Op>, x: Op)
    requires x in ops
    ensures MergeAll(ops + [x]) == MergeAll(ops) <==> x !in MergeAll(ops)
  {
    if x in MergeAll(ops) {
      MergeKeepsDuplicates(ops, x);
    } else {
      MergeIsPresent(ops);
      KeepMembers(ops, ops);
      var top := Climb(ops, x);
      assert top in MergeAll(ops) && Dominates(top, x);
      assert (ops + [x])[..|ops|] == ops;
    }
  }

  /** A site's two tables. Rows wait in Shared until a batch of them is merged. */
  class Site {
    var local: seq<Op>
    var shared: seq<Op>
    ghost var merged: seq<Op>

    ghost predicate Valid()
      reads this
    {
      local == Present(merged)
    }

    constructor ()
      ensures Valid() && merged == [] && shared == []
    {
      local, shared, merged := [], [], [];
    }

    method Insert(op: Op)
      modifies this`shared
      ensures shared == old(shared) + [op]
    {
      shared := shared + [op];
    }

    method Merge(op: Op)
      requires Valid()
      modifies this`local, this`merged
      ensures Valid() && merged == old(merged) + [op]
    {
      PresentSnoc(merged, op);
      if q :| q in local && Dominates(q, op) {
        merged := merged + [op];
        return;
      }
      local := Filter((o: Op) => !Dominates(op, o), local);
      local := local + [op];
      merged := merged + [op];
    }

    /** `merge_batch`: merges some of the waiting rows, in whatever order, and deletes them. */
    method MergeBatch(batch: seq<Op>, rest: seq<Op>)
      requires Valid() && multiset(shared) == multiset(batch) + multiset(rest)
      modifies this
      ensures Valid() && merged == old(merged) + batch && shared == rest
      ensures multiset(merged + shared) == old(multiset(merged + shared))
    {
      ghost var before := merged;
      for i := 0 to |batch|
        invariant Valid() && merged == before + batch[..i] && shared == old(shared)
      {
        assert batch[..i + 1] == batch[..i] + [batch[i]];
        Merge(batch[i]);
      }
      assert batch[..|batch|] == batch;
      shared := rest;
    }
  }

  // ---- reading unmerged rows ----------------------------------------------------------

  /** What the `DataAll` view with n sites asks of a row: it reaches some maximum of its key and is
      below no other clock of the key. */
  predicate Shown(t: seq<Op>, n: nat, r: Op) {
    (exists i :: 0 <= i < n && ReachesMax(t, r, i)) &&
    (forall q :: q in t && q.k == r.k ==> !Lte(r.lts, q.lts) || r.lts == q.lts)
  }

  /** The `DataAll` view, up to the grouping of equal physical rows (see PhysicalView). */
  function DataAll(t: seq<Op>, n: nat): seq<Op> {
    Filter((r: Op) => Shown(t, n, r), t)
  }

  /** The view shows only current rows, and all of them iff each reaches a maximum. */
  lemma DataAllExactIff(t: seq<Op>, n: nat)
    ensures DataAll(t, n) == Present(t) <==>
            forall r :: r in Present(t) ==> exists i :: 0 <= i < n && ReachesMax(t, r, i)
  {
    var reaches := (r: Op) => exists i :: 0 <= i < n && ReachesMax(t, r, i);
    var current := (r: Op) => Undominated(t, r);
    var view := (r: Op) => Shown(t, n, r);
    KeepIsFilter(t, t);
    KeepMembers(t, t);
    FilterTwice(reaches, current, view, t);
    if forall r :: r in Present(t) ==> reaches(r) {
      FilterAll(reaches, Present(t));
    }
  }

  /** Rows superseded by something stay superseded when older rows are dropped. */
  lemma SameUndominated(a: seq<Op>, b: seq<Op>, r: Op)
    ensures Undominated(Present(a) + b, r) <==> Undominated(a + b, r)
  {
    KeepMembers(a, a);
    if x :| x in a + b && Dominates(x, r) {
      if x in a {
        var top := Climb(a, x);
        if top != x { DominatesTransitive(top, x, r); }
        assert top in Present(a) + b;
      } else {
        assert x in Present(a) + b;
      }
    }
  }

  /** Merging part of the rows first does not change what is current. */
  lemma PresentAfterPartialMerge(a: seq<Op>, b: seq<Op>)
    ensures Present(MergeAll(a) + b) == Present(a + b)
  {
    MergeIsPresent(a);
    var m := Present(a);
    var p := (r: Op) => Undominated(a + b, r);
    var q := (r: Op) => Undominated(m + b, r);
    forall r ensures q(r) <==> p(r) { SameUndominated(a, b, r); }
    KeepIsFilter(m + b, m + b);
    KeepIsFilter(a + b, a + b);
    KeepIsFilter(a, a);
    FilterAppend(q, m, b);
    FilterAppend(p, a, b);
    FilterCong(p, q, b);
    assert forall r :: p(r) ==> Undominated(a, r) by {
      forall r | p(r) ensures Undominated(a, r) { assert forall x :: x in a ==> x in a + b; }
    }
    FilterTwice(q, (r: Op) => Undominated(a, r), p, a);
  }

  // ---- timestamps ---------------------------------------------------------------------

  /** `max(lts[i + 1])` over the readable rows of a structure. */
  function MaxById(t: seq<Op>, id: string, i: nat): Option<int> {
    if t == [] then None
    else
      var rest := MaxById(t[1..], id, i);
      if t[0].k.0 != id || |t[0].lts| <= i then rest
      else match rest
        case None => Some(t[0].lts[i])
        case Some(m) => Some(Max(t[0].lts[i], m))
  }

  function Coalesce(o: Option<int>): int {
    match o case None => 0 case Some(x) => x
  }

  /** `nextTimestamp`: the join of all readable rows of the structure, plus one at the site's
      own entry. Rows of every key of the structure count. */
  function NextTimestamp(t: seq<Op>, id: string, site: nat, n: nat): Clock {
    seq(n, i requires 0 <= i < n => Coalesce(MaxById(t, id, i)) + if i == site then 1 else 0)
  }

  ghost predicate WellFormed(n: nat, r: Op) {
    |r.lts| == n && r.v.site < n && (forall i :: 0 <= i < n ==> 0 <= r.lts[i]) && 0 < r.lts[r.v.site]
  }

  lemma {:induction false} MaxByIdBounds(t: seq<Op>, id: string, i: nat, r: Op)
    requires r in t && r.k.0 == id && i < |r.lts|
    ensures MaxById(t, id, i).Some? && r.lts[i] <= MaxById(t, id, i).value
  {
    if t[0] != r { MaxByIdBounds(t[1..], id, i, r); }
  }

  lemma {:induction false} MaxByIdAttained(t: seq<Op>, id: string, i: nat) returns (r: Op)
    requires MaxById(t, id, i).Some?
    ensures r in t && r.k.0 == id && i < |r.lts| && r.lts[i] == MaxById(t, id, i).value
  {
    if t[0].k.0 == id && i < |t[0].lts| && t[0].lts[i] == MaxById(t, id, i).value {
      r := t[0];
    } else {
      r := MaxByIdAttained(t[1..], id, i);
    }
  }

  /** Reading Local instead of the full history gives the same timestamp: dropped rows are
      below rows that are kept, so no entry is lost. */
  lemma TimestampFromPruned(n: nat, a: seq<Op>, b: seq<Op>, id: string, site: nat)
    requires Width(a, n)
    ensures NextTimestamp(MergeAll(a) + b, id, site, n) == NextTimestamp(a + b, id, site, n)
  {
    MergeIsPresent(a);
    forall i | 0 <= i < n ensures MaxById(Present(a) + b, id, i) == MaxById(a + b, id, i) {
      if MaxById(Present(a) + b, id, i).Some? { KeptBelowMax(a, b, id, i); }
      if MaxById(a + b, id, i).Some? { KeptReachesMax(n, a, b, id, i); }
    }
  }

  lemma KeptBelowMax(a: seq<Op>, b: seq<Op>, id: string, i: nat)
    requires MaxById(Present(a) + b, id, i).Some?
    ensures var m := MaxById(a + b, id, i); m.Some? && MaxById(Present(a) + b, id, i).value <= m.value
  {
    KeepMembers(a, a);
    var r := MaxByIdAttained(Present(a) + b, id, i);
    MaxByIdBounds(a + b, id, i, r);
  }

  lemma KeptReachesMax(n: nat, a: seq<Op>, b: seq<Op>, id: string, i: nat)
    requires Width(a, n) && i < n && MaxById(a + b, id, i).Some?
    ensures var u := MaxById(Present(a) + b, id, i); u.Some? && MaxById(a + b, id, i).value <= u.value
  {
    KeepMembers(a, a);
    var r := MaxByIdAttained(a + b, id, i);
    var top := r;
    if r in a { top := Climb(a, r); }
    assert r.lts[i] <= top.lts[i];
    MaxByIdBounds(Present(a) + b, id, i, top);
  }

  // ---- the running system -------------------------------------------------------------

  /** The row is in the log of the site that wrote it: it exists. */
  ghost predicate Known(logs: seq<seq<Op>>, r: Op) {
    r.v.site < |logs| && r in logs[r.v.site]
  }

  /** Entry t of a clock counts rows that site t wrote. */
  ghost predicate Backed(logs: seq<seq<Op>>, q: Op, t: nat)
    requires t < |logs| && t < |q.lts|
  {
    q.lts[t] <= 0 || exists r :: Counts(logs, q, t, r)
  }

  ghost predicate Counts(logs: seq<seq<Op>>, q: Op, t: nat, r: Op)
    requires t < |logs| && t < |q.lts|
  {
    r in logs[t] && r.v.site == t && r.k.0 == q.k.0 && t < |r.lts| && r.lts[t] >= q.lts[t]
  }

  /** Whoever has seen site t's row r, or a later one of that structure, has seen all of r. */
  ghost predicate Sees(r: Op, q: Op)
    requires r.v.site < |r.lts| == |q.lts|
  {
    r.k.0 == q.k.0 && q.lts[r.v.site] >= r.lts[r.v.site] ==> Lte(r.lts, q.lts)
  }

  ghost predicate OpsInv(n: nat, logs: seq<seq<Op>>) {
    && |logs| == n
    && (forall i, r :: 0 <= i < n && r in logs[i] ==> Known(logs, r))
    && (forall r :: Known(logs, r) ==> WellFormed(n, r))
    && (forall r, q :: Known(logs, r) && Known(logs, q) ==> Sees(r, q))
    && (forall q, t :: Known(logs, q) && 0 <= t < n ==> Backed(logs, q, t))
  }

  /** Some row of the structure counts row r: what a reader needs to have seen all of r. */
  predicate SeenIn(vis: seq<Op>, r: Op) {
    exists x :: x in vis && x.k.0 == r.k.0 && r.v.site < |x.lts| && r.v.site < |r.lts| &&
                x.lts[r.v.site] >= r.lts[r.v.site]
  }

  /** What a site may stamp a row from: rows it received that leave none of its own rows of the
      structure unseen. */
  predicate Readable(log: seq<Op>, site: nat, id: string, vis: seq<Op>) {
    && (forall r :: r in vis ==> r in log)
    && (forall r :: r in log && r.v.site == site && r.k.0 == id ==> SeenIn(vis, r))
  }

  /** A local write: the new row carries the next timestamp over what the site can read. */
  function NewOp(n: nat, vis: seq<Op>, site: nat, id: string, key: string, data: string): Op {
    Row((id, key), Body(site, data), NextTimestamp(vis, id, site, n))
  }

  /** A write at a site of a system that satisfies the invariant. */
  ghost predicate Writes(n: nat, logs: seq<seq<Op>>, vis: seq<Op>, w: Op) {
    && OpsInv(n, logs) && w.v.site < n && Readable(logs[w.v.site], w.v.site, w.k.0, vis)
    && w == NewOp(n, vis, w.v.site, w.k.0, w.k.1, w.v.data)
  }

  lemma NewOpAbove(n: nat, logs: seq<seq<Op>>, vis: seq<Op>, w: Op, r: Op)
    requires Writes(n, logs, vis, w) && r in vis && r.k.0 == w.k.0
    ensures |r.lts| == n && Lte(r.lts, w.lts) && r.lts[w.v.site] < w.lts[w.v.site]
  {
    assert Known(logs, r);
    forall i | 0 <= i < n ensures r.lts[i] <= Coalesce(MaxById(vis, w.k.0, i)) {
      MaxByIdBounds(vis, w.k.0, i, r);
    }
  }

  /** Every nonzero entry of a new timestamp comes from a readable row, or is the site's own. */
  lemma NewOpEntry(n: nat, logs: seq<seq<Op>>, vis: seq<Op>, w: Op, t: nat) returns (r: Op)
    requires Writes(n, logs, vis, w) && t < n && t != w.v.site && w.lts[t] > 0
    ensures r in vis && Known(logs, r) && r.k.0 == w.k.0 && |r.lts| == n && r.lts[t] == w.lts[t]
  {
    r := MaxByIdAttained(vis, w.k.0, t);
    assert r in logs[w.v.site];
  }

  lemma NewOpWellFormed(n: nat, logs: seq<seq<Op>>, vis: seq<Op>, w: Op)
    requires Writes(n, logs, vis, w)
    ensures WellFormed(n, w)
  {
    forall i | 0 <= i < n ensures 0 <= Coalesce(MaxById(vis, w.k.0, i)) {
      if MaxById(vis, w.k.0, i).Some? {
        var r := MaxByIdAttained(vis, w.k.0, i);
        assert r in logs[w.v.site];
        assert Known(logs, r);
      }
    }
  }

  /** Rows that the readable ones count are below the new row. */
  lemma SeenIsBelow(n: nat, logs: seq<seq<Op>>, vis: seq<Op>, w: Op, r: Op)
    requires Writes(n, logs, vis, w) && Known(logs, r) && r.k.0 == w.k.0 && SeenIn(vis, r)
    ensures |r.lts| == n && Lte(r.lts, w.lts) && r.lts[w.v.site] < w.lts[w.v.site]
  {
    var x :| x in vis && x.k.0 == r.k.0 && r.v.site < |x.lts| && r.v.site < |r.lts| &&
        x.lts[r.v.site] >= r.lts[r.v.site];
    assert x in logs[w.v.site];
    assert Known(logs, x) && Sees(r, x);
    NewOpAbove(n, logs, vis, w, x);
    LteTransitive(r.lts, x.lts, w.lts);
  }

  lemma NewOpSees(n: nat, logs: seq<seq<Op>>, vis: seq<Op>, w: Op, r: Op)
    requires Writes(n, logs, vis, w) && Known(logs, r)
    ensures WellFormed(n, r) && Sees(r, w)
  {
    var t := r.v.site;
    if r.k.0 == w.k.0 && w.lts[t] >= r.lts[t] {
      if t != w.v.site {
        var q := NewOpEntry(n, logs, vis, w, t);
        assert q in vis;
      }
      assert SeenIn(vis, r);
      SeenIsBelow(n, logs, vis, w, r);
    }
  }

  /** No existing row has seen a row that was just written. */
  lemma NewOpUnseen(n: nat, logs: seq<seq<Op>>, vis: seq<Op>, w: Op, q: Op)
    requires Writes(n, logs, vis, w) && Known(logs, q) && q.k.0 == w.k.0
    ensures |q.lts| == n && q.lts[w.v.site] < w.lts[w.v.site]
  {
    var site := w.v.site;
    NewOpWellFormed(n, logs, vis, w);
    assert Backed(logs, q, site) && WellFormed(n, q);
    if q.lts[site] > 0 {
      var r :| Counts(logs, q, site, r);
      assert Known(logs, r);
      SeenIsBelow(n, logs, vis, w, r);
    }
  }

  lemma WriteKeepsOpsInv(n: nat, logs: seq<seq<Op>>, vis: seq<Op>, w: Op)
    requires Writes(n, logs, vis, w)
    ensures OpsInv(n, logs[w.v.site := logs[w.v.site] + [w]])
  {
    var logs' := logs[w.v.site := logs[w.v.site] + [w]];
    NewOpWellFormed(n, logs, vis, w);
    assert forall r :: Known(logs', r) <==> Known(logs, r) || r == w;
    forall r, q | Known(logs', r) && Known(logs', q) ensures Sees(r, q) {
      if r == w && q == w {
        LteIsPartialOrder(w.lts, w.lts);
      } else if r == w {
        if q.k.0 == w.k.0 { NewOpUnseen(n, logs, vis, w, q); }
      } else if q == w {
        NewOpSees(n, logs, vis, w, r);
      }
    }
    forall q, t | Known(logs', q) && 0 <= t < n ensures Backed(logs', q, t) {
      WriteKeepsBacked(n, logs, vis, w, q, t);
    }
  }

  lemma WriteKeepsBacked(n: nat, logs: seq<seq<Op>>, vis: seq<Op>, w: Op, q: Op, t: nat)
    requires Writes(n, logs, vis, w) && t < n && (Known(logs, q) || q == w)
    ensures |q.lts| == n
    ensures Backed(logs[w.v.site := logs[w.v.site] + [w]], q, t)
  {
    var logs' := logs[w.v.site := logs[w.v.site] + [w]];
    NewOpWellFormed(n, logs, vis, w);
    if q == w && t == w.v.site {
      assert Counts(logs', q, t, w);
    } else if q.lts[t] > 0 {
      var p := q;
      if q == w { p := NewOpEntry(n, logs, vis, w, t); }
      assert Known(logs, p) && Backed(logs, p, t);
      var r :| Counts(logs, p, t, r);
      assert Counts(logs', q, t, r);
    }
  }

  lemma DeliverKeepsOpsInv(n: nat, logs: seq<seq<Op>>, site: nat, op: Op)
    requires OpsInv(n, logs) && site < n && Known(logs, op)
    ensures OpsInv(n, logs[site := logs[site] + [op]])
  {
    var logs' := logs[site := logs[site] + [op]];
    assert forall r :: Known(logs', r) <==> Known(logs, r);
    forall q, t | Known(logs', q) && 0 <= t < n ensures Backed(logs', q, t) {
      assert Backed(logs, q, t);
      if q.lts[t] > 0 {
        var r :| Counts(logs, q, t, r);
        assert Counts(logs', q, t, r);
      }
    }
  }

  /** Commands of the system: a write somewhere, stamped from the rows in vis, or the arrival at a
      site of any row another site holds, in any order, possibly twice or never. */
  datatype Command =
    | Put(site: nat, id: string, key: string, data: string, vis: seq<Op>)
    | Deliver(site: nat, source: nat, index: nat)

  /** A write from rows a site cannot read this way is no step of the system. */
  function Execute(n: nat, logs: seq<seq<Op>>, c: Command): seq<seq<Op>>
    requires |logs| == n
  {
    match c
    case Put(site, id, key, data, vis) =>
      if site < n && Readable(logs[site], site, id, vis)
      then logs[site := logs[site] + [NewOp(n, vis, site, id, key, data)]] else logs
    case Deliver(site, source, index) =>
      if site < n && source < n && index < |logs[source]|
      then logs[site := logs[site] + [logs[source][index]]] else logs
  }

  function System(n: nat, cmds: seq<Command>): (logs: seq<seq<Op>>)
    ensures |logs| == n
  {
    if cmds == [] then seq(n, _ => [])
    else Execute(n, System(n, cmds[..|cmds| - 1]), cmds[|cmds| - 1])
  }

  /** The row that a write makes: the columns given, and above every readable row of the structure
      by exactly one of its own. */
  ghost predicate Stamped(n: nat, vis: seq<Op>, site: nat, id: string, key: string, data: string, r: Op) {
    && r.k.0 == id && r.k.1 == key && r.v.site == site && r.v.data == data && |r.lts| == n
    && forall t :: 0 <= t < n ==> IsNextEntry(vis, id, t, r.lts[t] - if t == site then 1 else 0)
  }

  /** m is the largest entry t of the structure's rows, and 0 where there is none. */
  ghost predicate IsNextEntry(vis: seq<Op>, id: string, t: nat, m: int) {
    && (forall x :: x in vis && x.k.0 == id && t < |x.lts| ==> x.lts[t] <= m)
    && ((exists x :: x in vis && x.k.0 == id && t < |x.lts| && x.lts[t] == m) ||
        (m == 0 && forall x :: x in vis && x.k.0 == id ==> |x.lts| <= t))
  }

  lemma {:induction false} NothingToMax(vis: seq<Op>, id: string, t: nat)
    requires MaxById(vis, id, t).None?
    ensures forall x :: x in vis && x.k.0 == id ==> |x.lts| <= t
  {
    if vis != [] { NothingToMax(vis[1..], id, t); }
  }

  lemma NextEntry(vis: seq<Op>, id: string, t: nat)
    ensures IsNextEntry(vis, id, t, Coalesce(MaxById(vis, id, t)))
  {
    forall x | x in vis && x.k.0 == id && t < |x.lts| ensures x.lts[t] <= Coalesce(MaxById(vis, id, t)) {
      MaxByIdBounds(vis, id, t, x);
    }
    if MaxById(vis, id, t).None? {
      NothingToMax(vis, id, t);
    } else {
      var x := MaxByIdAttained(vis, id, t);
    }
  }

  lemma NewOpIsStamped(n: nat, vis: seq<Op>, site: nat, id: string, key: string, data: string)
    ensures Stamped(n, vis, site, id, key, data, NewOp(n, vis, site, id, key, data))
  {
    forall t | 0 <= t < n ensures IsNextEntry(vis, id, t, Coalesce(MaxById(vis, id, t))) { NextEntry(vis, id, t); }
  }

  /** A write puts one row with its columns behind the rows of its site. */
  ghost predicate PutStores(n: nat, logs: seq<seq<Op>>, after: seq<seq<Op>>, vis: seq<Op>,
      site: nat, id: string, key: string, data: string)
    requires site < |logs|
  {
    exists r :: Stamped(n, vis, site, id, key, data, r) && after == logs[site := logs[site] + [r]]
  }

  /** What a command does: a write from readable rows stores its row, an arrival puts a copy of the
      row it names behind those of the site, and nothing else changes. */
  lemma PutEffect(n: nat, cmds: seq<Command>, site: nat, id: string, key: string, data: string, vis: seq<Op>)
    ensures var logs, after := System(n, cmds), System(n, cmds + [Put(site, id, key, data, vis)]);
            if site < n && Readable(logs[site], site, id, vis)
            then PutStores(n, logs, after, vis, site, id, key, data) else after == logs
  {
    assert (cmds + [Put(site, id, key, data, vis)])[..|cmds|] == cmds;
    NewOpIsStamped(n, vis, site, id, key, data);
  }

  lemma DeliverEffect(n: nat, cmds: seq<Command>, site: nat, source: nat, index: nat)
    ensures var logs := System(n, cmds);
            System(n, cmds + [Deliver(site, source, index)]) ==
            if site < n && source < n && index < |logs[source]|
            then logs[site := logs[site] + [logs[source][index]]] else logs
  {
    assert (cmds + [Deliver(site, source, index)])[..|cmds|] == cmds;
  }

  lemma {:induction false} SystemInv(n: nat, cmds: seq<Command>)
    ensures OpsInv(n, System(n, cmds))
  {
    if cmds != [] {
      var logs, c := System(n, cmds[..|cmds| - 1]), cmds[|cmds| - 1];
      SystemInv(n, cmds[..|cmds| - 1]);
      match c
      case Put(site, id, key, data, vis) =>
        if site < n && Readable(logs[site], site, id, vis) {
          WriteKeepsOpsInv(n, logs, vis, NewOp(n, vis, site, id, key, data));
        }
      case Deliver(site, source, index) =>
        if site < n && source < n && index < |logs[source]| {
          assert logs[source][index] in logs[source];
          DeliverKeepsOpsInv(n, logs, site, logs[source][index]);
        }
    }
  }

  // ---- which rows the modes let a site read -------------------------------------------

  lemma MergedIsReceived(a: seq<Op>, b: seq<Op>, r: Op)
    requires r in MergeAll(a) + b
    ensures r in a + b
  {
    MergeIsPresent(a);
    KeepMembers(a, a);
    if r in MergeAll(a) {
      assert r in Present(a);
      assert r in a;
    }
  }

  /** A merged or waiting row of a site's own is counted by a row the site reads. */
  lemma OwnRowIsSeen(n: nat, logs: seq<seq<Op>>, a: seq<Op>, b: seq<Op>, r: Op)
    requires OpsInv(n, logs) && r in a + b && forall x :: x in a + b ==> Known(logs, x)
    ensures SeenIn(MergeAll(a) + b, r)
  {
    var x := r;
    assert Known(logs, r);
    if r in a {
      MergeIsPresent(a);
      KeepMembers(a, a);
      x := Climb(a, r);
      assert x in a + b;
      assert Known(logs, x);
    }
    assert x in MergeAll(a) + b && WellFormed(n, x) && WellFormed(n, r);
  }

  /** `AllRows` over Local with some of the waiting rows: enough to stamp from, as long as the
      site's own rows are merged or among the waiting rows that are read. Synchronous writes are
      merged at once, so the default mode reads Local alone; mode `all` reads every waiting row. */
  lemma LocalIsReadable(n: nat, logs: seq<seq<Op>>, site: nat, id: string, a: seq<Op>, b: seq<Op>)
    requires OpsInv(n, logs) && site < n && (forall r :: r in a + b ==> r in logs[site])
    requires forall r :: r in logs[site] && r.v.site == site && r.k.0 == id ==> r in a + b
    ensures Readable(logs[site], site, id, MergeAll(a) + b)
  {
    forall r | r in MergeAll(a) + b ensures r in logs[site] { MergedIsReceived(a, b, r); }
    forall r | r in logs[site] && r.v.site == site && r.k.0 == id ensures SeenIn(MergeAll(a) + b, r) {
      OwnRowIsSeen(n, logs, a, b, r);
    }
  }

  /** The new row follows all of its site's rows of the structure iff it was stamped from rows
      that count them: what a site must read before it writes. */
  lemma OwnRowsFollowIff(n: nat, logs: seq<seq<Op>>, vis: seq<Op>, w: Op)
    requires OpsInv(n, logs) && w.v.site < n && (forall r :: r in vis ==> r in logs[w.v.site])
    requires w == NewOp(n, vis, w.v.site, w.k.0, w.k.1, w.v.data)
    ensures (forall r :: r in logs[w.v.site] && r.v.site == w.v.site && r.k.0 == w.k.0 ==>
               |r.lts| == n && r.lts[w.v.site] < w.lts[w.v.site]) <==>
            Readable(logs[w.v.site], w.v.site, w.k.0, vis)
  {
    var site, id := w.v.site, w.k.0;
    if Readable(logs[site], site, id, vis) {
      forall r | r in logs[site] && r.v.site == site && r.k.0 == id ensures |r.lts| == n && r.lts[site] < w.lts[site] {
        assert Known(logs, r);
        SeenIsBelow(n, logs, vis, w, r);
      }
    } else {
      var r :| r in logs[site] && r.v.site == site && r.k.0 == id && !SeenIn(vis, r);
      assert Known(logs, r);
      if MaxById(vis, id, site).Some? {
        var x := MaxByIdAttained(vis, id, site);
        assert x in logs[site] && x.lts[site] < r.lts[site];
      }
      assert w.lts[site] <= r.lts[site];
    }
  }

  /** Asynchronous writes with read mode `local` leave a site's own row unread: two writes to one
      element then carry the same clock, and both stay. */
  lemma UnreadWriteIsRepeated()
    ensures var w, x := NewOp(1, [], 0, "id", "key", "old"), NewOp(1, [], 0, "id", "key", "new");
            && System(1, [Put(0, "id", "key", "old", [])])[0] == [w]
            && !Readable([w], 0, "id", []) && w.lts == x.lts == [1]
            && w in MergeAll([w, x]) && x in MergeAll([w, x])
  {
    var w, x := NewOp(1, [], 0, "id", "key", "old"), NewOp(1, [], 0, "id", "key", "new");
    var cmds := [Put(0, "id", "key", "old", [])];
    assert cmds[..0] == [] && System(1, []) == [[]];
    assert System(1, cmds) == Execute(1, System(1, cmds[..0]), cmds[0]);
    assert w in [w] && !SeenIn([], w);
    MergeIsPresent([w, x]);
    KeepMembers([w, x], [w, x]);
    assert [w, x][0] == w && [w, x][1] == x;
  }

  // ---- reading and writing in a running system ------------------------------------------

  /** Any rows a running system produced, kept together, are covered: the view is exact. */
  lemma DataAllExact(n: nat, logs: seq<seq<Op>>, t: seq<Op>)
    requires OpsInv(n, logs) && forall r :: r in t ==> Known(logs, r)
    ensures DataAll(t, n) == Present(t)
  {
    DataAllExactIff(t, n);
    KeepMembers(t, t);
    assert Width(t, n);
    forall r | r in Present(t) ensures exists i :: 0 <= i < n && ReachesMax(t, r, i) {
      var own := r.v.site;
      forall q | q in t && q.k == r.k ensures q.lts[own] <= r.lts[own] {
        assert Sees(r, q);
        assert !Dominates(q, r);
      }
      ReachesMaxIff(t, r, own, n);
    }
  }

  /** The rows of a site, some of them merged in some order. */
  lemma MergedAreKnown(n: nat, logs: seq<seq<Op>>, i: nat, a: seq<Op>, b: seq<Op>)
    requires OpsInv(n, logs) && i < n && multiset(logs[i]) == multiset(a + b)
    ensures forall r :: r in MergeAll(a) + b ==> Known(logs, r)
  {
    BagMembers(logs[i], a + b);
    forall r | r in MergeAll(a) + b ensures Known(logs, r) {
      MergedIsReceived(a, b, r);
      assert r in logs[i];
    }
  }

  /** Any site holding its rows partly merged, in any order, shows them as if all were merged. */
  lemma PartlyMergedView(n: nat, logs: seq<seq<Op>>, i: nat, a: seq<Op>, b: seq<Op>)
    requires OpsInv(n, logs) && i < n && multiset(logs[i]) == multiset(a + b)
    ensures DataAll(MergeAll(a) + b, n) == MergeAll(a + b)
    ensures multiset(MergeAll(a + b)) == multiset(MergeAll(logs[i]))
  {
    MergedAreKnown(n, logs, i, a, b);
    DataAllExact(n, logs, MergeAll(a) + b);
    PresentAfterPartialMerge(a, b);
    MergeIsPresent(a + b);
    MergeOrderIrrelevant(logs[i], a + b);
  }

  /** For every run, every site and every way to have merged some of its rows, in any order:
      reading Local and the waiting rows together shows exactly what Local will hold once the
      waiting rows are merged. */
  lemma ReadModesAgree(n: nat, cmds: seq<Command>, i: nat, a: seq<Op>, b: seq<Op>)
    requires i < n && multiset(System(n, cmds)[i]) == multiset(a + b)
    ensures DataAll(MergeAll(a) + b, n) == MergeAll(a + b)
    ensures multiset(MergeAll(a + b)) == multiset(MergeAll(System(n, cmds)[i]))
  {
    SystemInv(n, cmds);
    PartlyMergedView(n, System(n, cmds), i, a, b);
  }

  /** A write supersedes exactly the rows of its element that its site could read of, and
      nothing supersedes it. */
  lemma WriteSupersedesIff(n: nat, logs: seq<seq<Op>>, vis: seq<Op>, w: Op, r: Op)
    requires Writes(n, logs, vis, w) && Known(logs, r) && r.k == w.k
    ensures Dominates(w, r) <==> SeenIn(vis, r)
    ensures !Dominates(r, w)
  {
    NewOpUnseen(n, logs, vis, w, r);
    if SeenIn(vis, r) {
      SeenIsBelow(n, logs, vis, w, r);
    } else if Dominates(w, r) {
      assert WellFormed(n, r) && 0 < r.lts[r.v.site] <= w.lts[r.v.site];
      if r.v.site != w.v.site {
        var q := NewOpEntry(n, logs, vis, w, r.v.site);
        assert false;
      }
    }
  }

  /** After a write its element shows the new row and what its site had not read. */
  lemma WriteSupersedesVisible(n: nat, logs: seq<seq<Op>>, vis: seq<Op>, w: Op, r: Op)
    requires Writes(n, logs, vis, w) && r.k == w.k
    ensures r in MergeAll(logs[w.v.site] + [w]) <==>
            r == w || (r in MergeAll(logs[w.v.site]) && !SeenIn(vis, r))
  {
    var log, all := logs[w.v.site], logs[w.v.site] + [w];
    MergeIsPresent(log);
    MergeIsPresent(all);
    KeepMembers(log, log);
    KeepMembers(all, all);
    forall q | q in log && q.k == w.k ensures (Dominates(w, q) <==> SeenIn(vis, q)) && !Dominates(q, w) {
      assert Known(logs, q);
      WriteSupersedesIff(n, logs, vis, w, q);
    }
    assert w in all && forall q :: q in all <==> q in log || q == w;
  }

  // ---- over the ring ------------------------------------------------------------------

  datatype RingCommand = Write(site: nat, id: string, key: string, data: string, vis: seq<Op>) | Pass(site: nat)

  function Ops(log: seq<RingDelivery.Msg<Op>>): seq<Op> {
    Map((m: RingDelivery.Msg<Op>) => m.body, log)
  }

  function OpLogs(s: RingDelivery.State<Op>): seq<seq<Op>> {
    Map((log: seq<RingDelivery.Msg<Op>>) => Ops(log), s.logs)
  }

  /** The ring step of a command: a write stamps its row from rows of its site. */
  function RingStep(n: nat, logs: seq<seq<Op>>, c: RingCommand): seq<RingDelivery.Step<Op>> {
    match c
    case Pass(i) => [RingDelivery.Forward(i)]
    case Write(i, id, key, data, vis) =>
      if i < |logs| && Readable(logs[i], i, id, vis)
      then [RingDelivery.Write(i, NewOp(n, vis, i, id, key, data))] else []
  }

  function RingSteps(n: nat, cmds: seq<RingCommand>): seq<RingDelivery.Step<Op>>
    requires n >= 2
  {
    if cmds == [] then []
    else
      var steps := RingSteps(n, cmds[..|cmds| - 1]);
      steps + RingStep(n, OpLogs(RingDelivery.Run(n, steps)), cmds[|cmds| - 1])
  }

  lemma OpsSnoc(log: seq<RingDelivery.Msg<Op>>, m: RingDelivery.Msg<Op>)
    ensures Ops(log + [m]) == Ops(log) + [m.body]
  {
  }

  /** Running over the ring keeps the invariant of the system. */
  lemma {:induction false} RingKeepsOpsInv(n: nat, cmds: seq<RingCommand>)
    requires n >= 2
    ensures OpsInv(n, OpLogs(RingDelivery.Run(n, RingSteps(n, cmds))))
  {
    if cmds != [] {
      RingKeepsOpsInv(n, cmds[..|cmds| - 1]);
      LastKeepsOpsInv(n, RingSteps(n, cmds[..|cmds| - 1]), cmds[|cmds| - 1]);
    }
  }

  lemma LastKeepsOpsInv(n: nat, steps: seq<RingDelivery.Step<Op>>, c: RingCommand)
    requires n >= 2 && OpsInv(n, OpLogs(RingDelivery.Run(n, steps)))
    ensures OpsInv(n, OpLogs(RingDelivery.Run(n, steps + RingStep(n, OpLogs(RingDelivery.Run(n, steps)), c))))
  {
    var s := RingDelivery.Run(n, steps);
    var more := RingStep(n, OpLogs(s), c);
    if more == [] {
      assert steps + more == steps;
    } else {
      assert steps + more == steps + [more[0]];
      RingDelivery.RunSnoc(n, steps, more[0]);
      RingStepKeepsOpsInv(n, s, c);
    }
  }

  lemma RingStepKeepsOpsInv(n: nat, s: RingDelivery.State<Op>, c: RingCommand)
    requires RingDelivery.Shaped(n, s) && OpsInv(n, OpLogs(s)) && RingStep(n, OpLogs(s), c) != []
    ensures OpsInv(n, OpLogs(RingDelivery.Next(n, s, RingStep(n, OpLogs(s), c)[0])))
  {
    var logs, st := OpLogs(s), RingStep(n, OpLogs(s), c)[0];
    var s', i := RingDelivery.Next(n, s, st), st.site;
    match c
    case Write(_, id, key, data, vis) =>
      var m := RingDelivery.Msg(i, |RingDelivery.Of(s.logs[i], i)|, st.body);
      OpsSnoc(s.logs[i], m);
      assert OpLogs(s') == logs[i := logs[i] + [NewOp(n, vis, i, id, key, data)]];
      WriteKeepsOpsInv(n, logs, vis, NewOp(n, vis, i, id, key, data));
    case Pass(_) =>
      if i < n && RingDelivery.Unseen(n, s, i) != [] { PassKeepsOpsInv(n, s, i); }
  }

  lemma PassKeepsOpsInv(n: nat, s: RingDelivery.State<Op>, i: nat)
    requires RingDelivery.Shaped(n, s) && OpsInv(n, OpLogs(s)) && i < n && RingDelivery.Unseen(n, s, i) != []
    ensures OpsInv(n, OpLogs(RingDelivery.DoForward(n, s, i)))
  {
    var s', logs, p := RingDelivery.DoForward(n, s, i), OpLogs(s), RingDelivery.Ring.Prev(n, i);
    var m := s.logs[p][s.cur[i]];
    if m.origin != i {
      OpsSnoc(s.logs[i], m);
      assert logs[p][s.cur[i]] == m.body && m.body in logs[p];
      assert OpLogs(s') == logs[i := logs[i] + [m.body]];
      DeliverKeepsOpsInv(n, logs, i, m.body);
    } else {
      assert OpLogs(s') == logs;
    }
  }

  /** The rows of a site of the ring, of which a are merged, in this order, and b are waiting. */
  ghost predicate Holds(n: nat, cmds: seq<RingCommand>, i: nat, a: seq<Op>, b: seq<Op>)
    requires n >= 2 && i < n
  {
    multiset(OpLogs(RingDelivery.Run(n, RingSteps(n, cmds)))[i]) == multiset(a + b)
  }

  /** Once the ring is quiet, all sites show the same rows in both read modes, whatever was written
      where and stamped from what, in whatever order rows travelled, and however many of them each
      site has merged so far, in whatever order. */
  lemma RingReplicasConverge(n: nat, cmds: seq<RingCommand>,
      i: nat, j: nat, a: seq<Op>, b: seq<Op>, c: seq<Op>, d: seq<Op>)
    requires n >= 2 && i < n && j < n && Holds(n, cmds, i, a, b) && Holds(n, cmds, j, c, d)
    requires RingDelivery.Quiescent(n, RingDelivery.Run(n, RingSteps(n, cmds)))
    ensures DataAll(MergeAll(a) + b, n) == MergeAll(a + b)
    ensures multiset(DataAll(MergeAll(a) + b, n)) == multiset(DataAll(MergeAll(c) + d, n))
    ensures multiset(MergeAll(a + b)) == multiset(MergeAll(c + d))
  {
    var s := RingDelivery.Run(n, RingSteps(n, cmds));
    RingDelivery.InvHolds(n, RingSteps(n, cmds));
    RingDelivery.QuiescentConverges(n, s, i, j);
    MapBag((m: RingDelivery.Msg<Op>) => m.body, s.logs[i], s.logs[j]);
    MergeOrderIrrelevant(OpLogs(s)[i], OpLogs(s)[j]);
    RingKeepsOpsInv(n, cmds);
    PartlyMergedView(n, OpLogs(s), i, a, b);
    PartlyMergedView(n, OpLogs(s), j, c, d);
  }
}
