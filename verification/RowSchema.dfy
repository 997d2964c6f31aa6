/** The row-encoded benchmark tables: data rows carry a tid, and every entry of a clock is a
    row of its own that the read query regroups by tid. */
module RowSchema {
  import opened Clocks
  import opened CausalPresent
  import opened Options
  import opened ArraySchema
  import opened Sequences

  datatype Data = Data(k: int, v: int, tid: int)
  datatype Entry = Entry(k: int, tid: int, site: int, lts: int)

  /** A CurrentTime row of some key: site and entry. */
  type Now = (int, int)

  // ---- array_agg(lts order by site) ---------------------------------------------------

  function InsertBySite(e: Now, s: seq<Now>): seq<Now> {
    if s == [] || e.0 <= s[0].0 then [e] + s else [s[0]] + InsertBySite(e, s[1..])
  }

  function SortBySite(s: seq<Now>): seq<Now> {
    if s == [] then [] else InsertBySite(s[0], SortBySite(s[1..]))
  }

  function Agg(s: seq<Now>): Clock {
    Map((e: Now) => e.1, SortBySite(s))
  }

  ghost predicate Ordered(s: seq<Now>) {
    forall i, j :: 0 <= i < j < |s| ==> s[i].0 <= s[j].0
  }

  /** A clock as one entry per site, counting sites from 1. */
  function Spread(c: Clock): seq<Now> {
    seq(|c|, i requires 0 <= i < |c| => (i + 1, c[i]))
  }

  lemma {:induction false} InsertKeepsOrder(e: Now, s: seq<Now>)
    requires Ordered(s)
    ensures Ordered(InsertBySite(e, s)) && multiset(InsertBySite(e, s)) == multiset(s) + multiset{e}
    ensures InsertBySite(e, s) != [] && (InsertBySite(e, s)[0] == e || (s != [] && InsertBySite(e, s)[0] == s[0]))
  {
    if s == [] || e.0 <= s[0].0 {
    } else {
      var rest := InsertBySite(e, s[1..]);
      InsertKeepsOrder(e, s[1..]);
      assert s == [s[0]] + s[1..];
      assert rest[0] == e || rest[0] == s[1];
      ConsOrdered(s[0], rest);
    }
  }

  lemma ConsOrdered(x: Now, s: seq<Now>)
    requires Ordered(s) && (s == [] || x.0 <= s[0].0)
    ensures Ordered([x] + s)
  {
  }

  lemma {:induction false} SortOrders(s: seq<Now>)
    ensures Ordered(SortBySite(s)) && multiset(SortBySite(s)) == multiset(s)
  {
    if s != [] {
      SortOrders(s[1..]);
      InsertKeepsOrder(s[0], SortBySite(s[1..]));
      assert s == [s[0]] + s[1..];
    }
  }

  ghost predicate StrictlyOrdered(s: seq<Now>) {
    forall i, j :: 0 <= i < j < |s| ==> s[i].0 < s[j].0
  }

  lemma FirstAgrees(a: seq<Now>, b: seq<Now>)
    requires Ordered(a) && StrictlyOrdered(b) && multiset(a) == multiset(b) && b != []
    ensures a != [] && a[0] == b[0]
  {
    var j := Position(b, a);
    var i := Position(a, b);
    assert a[0].0 <= a[j].0;
  }

  /** A bag with one row per site has one ordering. */
  lemma {:induction false} OrderIsUnique(a: seq<Now>, b: seq<Now>)
    requires Ordered(a) && StrictlyOrdered(b) && multiset(a) == multiset(b)
    ensures a == b
    decreases |b|
  {
    if b == [] {
      EmptyBag(a);
    } else {
      FirstAgrees(a, b);
      TailBag(a, b);
      OrderIsUnique(a[1..], b[1..]);
      assert a == [a[0]] + a[1..] && b == [b[0]] + b[1..];
    }
  }

  /** Regrouping undoes splitting, whatever order the entry rows come in. */
  lemma AggOfSpread(s: seq<Now>, c: Clock)
    requires multiset(s) == multiset(Spread(c))
    ensures Agg(s) == c
  {
    SortOrders(s);
    OrderIsUnique(SortBySite(s), Spread(c));
    assert Agg(s) == c;
  }

  // ---- the queries --------------------------------------------------------------------

  function EntriesOf(es: seq<Entry>, k: int, tid: int): seq<Now> {
    Map((e: Entry) => (e.site, e.lts), Filter((e: Entry) => e.k == k && e.tid == tid, es))
  }

  /** `select max(lts) where k = ... and site = ...`. */
  function SiteMax(es: seq<Entry>, k: int, site: int): Option<int> {
    if es == [] then None
    else
      var rest := SiteMax(es[1..], k, site);
      if es[0].k != k || es[0].site != site then rest
      else match rest
        case None => Some(es[0].lts)
        case Some(m) => Some(Max(es[0].lts, m))
  }

  /** The tids with some entry equal to its site's maximum. */
  function KeptTids(es: seq<Entry>, k: int, n: nat): set<int> {
    set e | e in es && e.k == k && 1 <= e.site <= n && SiteMax(es, k, e.site) == Some(e.lts) :: e.tid
  }

  /** `group by k, tid` with the clock rebuilt by array_agg. */
  function PotentialRows(es: seq<Entry>, k: int, n: nat): set<(int, Clock)> {
    set tid | tid in KeptTids(es, k, n) :: (tid, Agg(EntriesOf(es, k, tid)))
  }

  /** The self-join on different clocks, then the join that brings in the values. */
  function JoinedRows(data: seq<Data>, p: set<(int, Clock)>, k: int): set<(Row<int, int>, bool)> {
    set a, b, d | a in p && b in p && a.1 != b.1 && d in data && d.k == k && d.tid == a.0 ::
      (Row(k, d.v, a.1), !Lte(a.1, b.1))
  }

  function ReadKeyRows(data: seq<Data>, es: seq<Entry>, k: int, n: nat): set<Row<int, int>> {
    GroupHaving(JoinedRows(data, PotentialRows(es, k, n), k))
  }

  /** The query over all keys of CurrentTime at once: the joins and the grouping carry the key. */
  function PotentialAll(es: seq<Entry>, keys: set<int>, n: nat): set<(int, (int, Clock))> {
    set k, x | k in keys && x in PotentialRows(es, k, n) :: (k, x)
  }

  function JoinedAll(data: seq<Data>, p: set<(int, (int, Clock))>): set<(Row<int, int>, bool)> {
    set a, b, d | a in p && b in p && a.0 == b.0 && a.1.1 != b.1.1 && d in data && d.k == a.0 && d.tid == a.1.0 ::
      (Row(a.0, d.v, a.1.1), !Lte(a.1.1, b.1.1))
  }

  function ReadAllRows(data: seq<Data>, es: seq<Entry>, keys: set<int>, n: nat): set<Row<int, int>> {
    GroupHaving(JoinedAll(data, PotentialAll(es, keys, n)))
  }

  /** `select array_agg(lts order by site) from (select site, max(lts) ... group by site)`. */
  function CurrTimeRows(es: seq<Entry>, k: int, n: nat): seq<Option<int>> {
    seq(n, i requires 0 <= i < n => SiteMax(es, k, i + 1))
  }

  // ---- the encoding -------------------------------------------------------------------

  /** The entry rows of a data row hold the clock, in some order. */
  ghost predicate Holds(es: seq<Entry>, k: int, tid: int, c: Clock) {
    multiset(EntriesOf(es, k, tid)) == multiset(Spread(c))
  }

  ghost predicate Owned(data: seq<Data>, e: Entry) {
    exists j :: 0 <= j < |data| && data[j].k == e.k && data[j].tid == e.tid
  }

  /** The data and entry tables stand for table t: row j is data row j, under a tid of its own. */
  ghost predicate Encodes(data: seq<Data>, es: seq<Entry>, t: Table, n: nat) {
    && |data| == |t| && Width(t, n)
    && (forall j :: 0 <= j < |t| ==> data[j].k == t[j].k && data[j].v == t[j].v)
    && (forall i, j :: 0 <= i < j < |t| ==> data[i].tid != data[j].tid)
    && (forall j {:trigger Holds(es, data[j].k, data[j].tid, t[j].lts)} ::
          0 <= j < |t| ==> Holds(es, data[j].k, data[j].tid, t[j].lts))
    && (forall m {:trigger Owned(data, es[m])} :: 0 <= m < |es| ==> Owned(data, es[m]))
  }

  lemma EntriesOfMembers(es: seq<Entry>, k: int, tid: int, x: Now)
    ensures x in EntriesOf(es, k, tid) <==> Entry(k, tid, x.0, x.1) in es
  {
    var f, s := Filter((e: Entry) => e.k == k && e.tid == tid, es), EntriesOf(es, k, tid);
    if x in s {
      var m :| 0 <= m < |s| && s[m] == x;
      assert f[m] in f;
    }
    if Entry(k, tid, x.0, x.1) in es {
      var m :| 0 <= m < |f| && f[m] == Entry(k, tid, x.0, x.1);
      assert s[m] == x;
    }
  }

  /** Row j of the table contributes exactly the entries of its clock. */
  lemma EntryOfRow(data: seq<Data>, es: seq<Entry>, t: Table, n: nat, j: nat, i: nat)
    requires Encodes(data, es, t, n) && j < |t| && i < n
    ensures |t[j].lts| == n && Entry(t[j].k, data[j].tid, i + 1, t[j].lts[i]) in es
  {
    assert t[j] in t && Holds(es, data[j].k, data[j].tid, t[j].lts);
    EntryHeld(es, t[j].k, data[j].tid, t[j].lts, i);
  }

  lemma EntryHeld(es: seq<Entry>, k: int, tid: int, c: Clock, i: nat)
    requires Holds(es, k, tid, c) && i < |c|
    ensures Entry(k, tid, i + 1, c[i]) in es
  {
    var x := (i + 1, c[i]);
    assert Spread(c)[i] == x;
    BagMembers(EntriesOf(es, k, tid), Spread(c));
    EntriesOfMembers(es, k, tid, x);
  }

  lemma RowOfEntry(data: seq<Data>, es: seq<Entry>, t: Table, n: nat, e: Entry) returns (j: nat)
    requires Encodes(data, es, t, n) && e in es
    ensures j < |t| && e.k == t[j].k == data[j].k && e.tid == data[j].tid
    ensures |t[j].lts| == n && 1 <= e.site <= n && e.lts == t[j].lts[e.site - 1]
  {
    var m :| 0 <= m < |es| && es[m] == e;
    assert Owned(data, es[m]);
    j :| 0 <= j < |data| && data[j].k == e.k && data[j].tid == e.tid;
    assert t[j] in t && Holds(es, e.k, e.tid, t[j].lts);
    HeldEntry(es, e, t[j].lts);
  }

  lemma HeldEntry(es: seq<Entry>, e: Entry, c: Clock)
    requires Holds(es, e.k, e.tid, c) && e in es
    ensures 1 <= e.site <= |c| && e.lts == c[e.site - 1]
  {
    var x := (e.site, e.lts);
    EntriesOfMembers(es, e.k, e.tid, x);
    BagMembers(EntriesOf(es, e.k, e.tid), Spread(c));
    var i :| 0 <= i < |Spread(c)| && Spread(c)[i] == x;
  }

  lemma {:induction false} SiteMaxBounds(es: seq<Entry>, e: Entry)
    requires e in es
    ensures SiteMax(es, e.k, e.site).Some? && e.lts <= SiteMax(es, e.k, e.site).value
  {
    if es[0] != e { SiteMaxBounds(es[1..], e); }
  }

  lemma {:induction false} SiteMaxAttained(es: seq<Entry>, k: int, site: int) returns (e: Entry)
    requires SiteMax(es, k, site).Some?
    ensures e in es && e.k == k && e.site == site && e.lts == SiteMax(es, k, site).value
  {
    if es[0].k == k && es[0].site == site && es[0].lts == SiteMax(es, k, site).value {
      e := es[0];
    } else {
      e := SiteMaxAttained(es[1..], k, site);
    }
  }

  lemma SiteMaxBelowColMax(data: seq<Data>, es: seq<Entry>, t: Table, n: nat, k: int, i: nat)
    requires Encodes(data, es, t, n) && i < n && SiteMax(es, k, i + 1).Some?
    ensures ColMax(t, k, i).Some? && SiteMax(es, k, i + 1).value <= ColMax(t, k, i).value
  {
    var e := SiteMaxAttained(es, k, i + 1);
    EntryBelowColMax(data, es, t, n, e);
  }

  lemma EntryBelowColMax(data: seq<Data>, es: seq<Entry>, t: Table, n: nat, e: Entry)
    requires Encodes(data, es, t, n) && e in es
    ensures 1 <= e.site <= n && ColMax(t, e.k, e.site - 1).Some? && e.lts <= ColMax(t, e.k, e.site - 1).value
  {
    var j := RowOfEntry(data, es, t, n, e);
    assert t[j] in t;
    InColumn(t, t[j], n, e.site - 1);
  }

  lemma InColumn(t: Table, r: Row<int, int>, n: nat, i: nat)
    requires Width(t, n) && r in t && i < n
    ensures |r.lts| == n && ColMax(t, r.k, i).Some? && r.lts[i] <= ColMax(t, r.k, i).value
  {
    ColMaxIsMaximum(t, r.k, i, n);
  }

  lemma ColMaxBelowSiteMax(data: seq<Data>, es: seq<Entry>, t: Table, n: nat, k: int, i: nat)
    requires Encodes(data, es, t, n) && i < n && ColMax(t, k, i).Some?
    ensures SiteMax(es, k, i + 1).Some? && ColMax(t, k, i).value <= SiteMax(es, k, i + 1).value
  {
    assert Width(t, n);
    ColMaxIsMaximum(t, k, i, n);
    var r :| r in t && r.k == k && |r.lts| == n && r.lts[i] == ColMax(t, k, i).value;
    var j :| 0 <= j < |t| && t[j] == r;
    EntryOfRow(data, es, t, n, j, i);
    SiteMaxBounds(es, Entry(k, data[j].tid, i + 1, r.lts[i]));
  }

  /** The per-site maxima of both encodings agree. */
  lemma SiteMaxIsColMax(data: seq<Data>, es: seq<Entry>, t: Table, n: nat, k: int, i: nat)
    requires Encodes(data, es, t, n) && i < n
    ensures SiteMax(es, k, i + 1) == ColMax(t, k, i)
  {
    if SiteMax(es, k, i + 1).Some? { SiteMaxBelowColMax(data, es, t, n, k, i); }
    if ColMax(t, k, i).Some? { ColMaxBelowSiteMax(data, es, t, n, k, i); }
  }

  lemma CurrTimeRowsIsCurrTime(data: seq<Data>, es: seq<Entry>, t: Table, n: nat, k: int)
    requires Encodes(data, es, t, n)
    ensures CurrTimeRows(es, k, n) == CurrTime(t, k, n)
  {
    forall i | 0 <= i < n ensures CurrTimeRows(es, k, n)[i] == CurrTime(t, k, n)[i] {
      SiteMaxIsColMax(data, es, t, n, k, i);
    }
  }

  /** A tid is kept iff its row reaches the maximum of some site. */
  lemma KeptIffReaches(data: seq<Data>, es: seq<Entry>, t: Table, n: nat, j: nat)
    requires Encodes(data, es, t, n) && j < |t|
    ensures data[j].tid in KeptTids(es, t[j].k, n) <==> t[j] in PotentialMax(t, t[j].k, n)
  {
    if data[j].tid in KeptTids(es, t[j].k, n) { KeptReaches(data, es, t, n, j); }
    if t[j] in PotentialMax(t, t[j].k, n) { ReachesKept(data, es, t, n, j); }
  }

  lemma TidIndex(data: seq<Data>, es: seq<Entry>, t: Table, n: nat, m: nat, j: nat)
    requires Encodes(data, es, t, n) && m < |t| && j < |t| && data[m].tid == data[j].tid
    ensures m == j
  {
  }

  lemma KeptReaches(data: seq<Data>, es: seq<Entry>, t: Table, n: nat, j: nat)
    requires Encodes(data, es, t, n) && j < |t| && data[j].tid in KeptTids(es, t[j].k, n)
    ensures t[j] in PotentialMax(t, t[j].k, n)
  {
    var k := t[j].k;
    var e :| e in es && e.k == k && 1 <= e.site <= n && SiteMax(es, k, e.site) == Some(e.lts) && e.tid == data[j].tid;
    var m := RowOfEntry(data, es, t, n, e);
    TidIndex(data, es, t, n, m, j);
    var i := e.site - 1;
    assert i + 1 == e.site;
    SiteMaxIsColMax(data, es, t, n, k, i);
    ReachingIsPotential(t, t[j], n, i);
  }

  lemma ReachingIsPotential(t: Table, r: Row<int, int>, n: nat, i: nat)
    requires r in t && i < n && i < |r.lts| && ColMax(t, r.k, i) == Some(r.lts[i])
    ensures r in PotentialMax(t, r.k, n)
  {
    assert ReachesMax(t, r, i);
  }

  lemma ReachesKept(data: seq<Data>, es: seq<Entry>, t: Table, n: nat, j: nat)
    requires Encodes(data, es, t, n) && j < |t| && t[j] in PotentialMax(t, t[j].k, n)
    ensures data[j].tid in KeptTids(es, t[j].k, n)
  {
    var k := t[j].k;
    var i :| 0 <= i < n && ReachesMax(t, t[j], i);
    EntryOfRow(data, es, t, n, j, i);
    SiteMaxIsColMax(data, es, t, n, k, i);
    var e := Entry(k, data[j].tid, i + 1, t[j].lts[i]);
    assert e in es && SiteMax(es, k, e.site) == Some(e.lts);
  }

  ghost predicate CandidateRow(data: seq<Data>, t: Table, n: nat, k: int, x: (int, Clock), j: int) {
    0 <= j < |t| && j < |data| && t[j].k == k && t[j].lts == x.1 && data[j].tid == x.0 && t[j] in PotentialMax(t, k, n)
  }

  /** The regrouped candidates are the array candidates, one per row. */
  lemma CandidateOf(data: seq<Data>, es: seq<Entry>, t: Table, n: nat, k: int, x: (int, Clock)) returns (j: nat)
    requires Encodes(data, es, t, n) && x in PotentialRows(es, k, n)
    ensures CandidateRow(data, t, n, k, x, j)
  {
    var e :| e in es && e.k == k && 1 <= e.site <= n && SiteMax(es, k, e.site) == Some(e.lts) && e.tid == x.0;
    j := RowOfEntry(data, es, t, n, e);
    KeptIffReaches(data, es, t, n, j);
    assert Holds(es, data[j].k, data[j].tid, t[j].lts);
    AggOfSpread(EntriesOf(es, k, x.0), t[j].lts);
  }

  lemma CandidateIn(data: seq<Data>, es: seq<Entry>, t: Table, n: nat, r: Row<int, int>) returns (j: nat)
    requires Encodes(data, es, t, n) && r in PotentialMax(t, r.k, n)
    ensures j < |t| && j < |data| && t[j] == r && (data[j].tid, r.lts) in PotentialRows(es, r.k, n)
  {
    j :| 0 <= j < |t| && t[j] == r;
    KeptIffReaches(data, es, t, n, j);
    assert Holds(es, data[j].k, data[j].tid, t[j].lts);
    AggOfSpread(EntriesOf(es, r.k, data[j].tid), t[j].lts);
  }

  lemma JoinedRowsSound(data: seq<Data>, es: seq<Entry>, t: Table, n: nat, k: int, x: (Row<int, int>, bool))
    requires Encodes(data, es, t, n) && x in JoinedRows(data, PotentialRows(es, k, n), k)
    ensures x in SelfJoin(PotentialMax(t, k, n))
  {
    var p := PotentialRows(es, k, n);
    var a, b, d :| a in p && b in p && a.1 != b.1 && d in data && d.k == k && d.tid == a.0 &&
      x == (Row(k, d.v, a.1), !Lte(a.1, b.1));
    var i := CandidateOf(data, es, t, n, k, a);
    var j := CandidateOf(data, es, t, n, k, b);
    TidsAreUnique(data, es, t, n, d, i);
    JoinedPair(t, n, k, t[i], t[j]);
  }

  lemma TidsAreUnique(data: seq<Data>, es: seq<Entry>, t: Table, n: nat, d: Data, i: nat)
    requires Encodes(data, es, t, n) && i < |t| && d in data && d.tid == data[i].tid
    ensures d == data[i]
  {
    var m :| 0 <= m < |data| && data[m] == d;
    TidIndex(data, es, t, n, m, i);
  }

  lemma JoinedPair(t: Table, n: nat, k: int, a: Row<int, int>, b: Row<int, int>)
    requires a in PotentialMax(t, k, n) && b in PotentialMax(t, k, n) && a.k == b.k && a.lts != b.lts
    ensures (a, !Lte(a.lts, b.lts)) in SelfJoin(PotentialMax(t, k, n))
  {
  }

  lemma JoinedRowsComplete(data: seq<Data>, es: seq<Entry>, t: Table, n: nat, k: int, x: (Row<int, int>, bool))
    requires Encodes(data, es, t, n) && x in SelfJoin(PotentialMax(t, k, n))
    ensures x in JoinedRows(data, PotentialRows(es, k, n), k)
  {
    var q := PotentialMax(t, k, n);
    var a, b :| a in q && b in q && a.k == b.k && a.lts != b.lts && x == (a, !Lte(a.lts, b.lts));
    var i := CandidateIn(data, es, t, n, a);
    var j := CandidateIn(data, es, t, n, b);
    var a', b', d := (data[i].tid, a.lts), (data[j].tid, b.lts), data[i];
    assert d in data && d.k == k && d.tid == a'.0;
    assert x == (Row(k, d.v, a'.1), !Lte(a'.1, b'.1));
  }

  /** The row encoding and the array encoding read the same rows. */
  lemma RowReadIsArrayRead(data: seq<Data>, es: seq<Entry>, t: Table, n: nat, k: int)
    requires Encodes(data, es, t, n)
    ensures ReadKeyRows(data, es, k, n) == ReadKey(t, k, n)
  {
    JoinedRowsAgree(data, es, t, n, k);
  }

  lemma JoinedRowsAgree(data: seq<Data>, es: seq<Entry>, t: Table, n: nat, k: int)
    requires Encodes(data, es, t, n)
    ensures JoinedRows(data, PotentialRows(es, k, n), k) == SelfJoin(PotentialMax(t, k, n))
  {
    var rows, joined := JoinedRows(data, PotentialRows(es, k, n), k), SelfJoin(PotentialMax(t, k, n));
    forall x | x in rows ensures x in joined { JoinedRowsSound(data, es, t, n, k, x); }
    forall x | x in joined ensures x in rows { JoinedRowsComplete(data, es, t, n, k, x); }
  }

  lemma JoinedInAll(data: seq<Data>, p: set<(int, (int, Clock))>, q: set<(int, Clock)>, k: int,
      x: (Row<int, int>, bool))
    requires forall a :: a in q <==> (k, a) in p
    requires x in JoinedRows(data, q, k)
    ensures x in JoinedAll(data, p)
  {
    var a, b, d :| a in q && b in q && a.1 != b.1 && d in data && d.k == k && d.tid == a.0 &&
      x == (Row(k, d.v, a.1), !Lte(a.1, b.1));
    var a', b' := (k, a), (k, b);
    assert a' in p && b' in p && x == (Row(a'.0, d.v, a'.1.1), !Lte(a'.1.1, b'.1.1));
  }

  lemma JoinedOfAll(data: seq<Data>, p: set<(int, (int, Clock))>, q: set<(int, Clock)>, x: (Row<int, int>, bool))
    requires forall a :: (x.0.k, a) in p ==> a in q
    requires x in JoinedAll(data, p)
    ensures x in JoinedRows(data, q, x.0.k) && exists a :: (x.0.k, a) in p
  {
    var a, b, d :| a in p && b in p && a.0 == b.0 && a.1.1 != b.1.1 && d in data && d.k == a.0 && d.tid == a.1.0 &&
      x == (Row(a.0, d.v, a.1.1), !Lte(a.1.1, b.1.1));
    assert (a.0, a.1) == a && (b.0, b.1) == b;
    assert a.1 in q && b.1 in q;
  }

  /** A row joined over all keys is joined for its own key. */
  lemma JoinedAllIff(data: seq<Data>, es: seq<Entry>, keys: set<int>, n: nat, x: (Row<int, int>, bool))
    ensures x in JoinedAll(data, PotentialAll(es, keys, n)) <==>
            x.0.k in keys && x in JoinedRows(data, PotentialRows(es, x.0.k, n), x.0.k)
  {
    var k, p, q := x.0.k, PotentialAll(es, keys, n), PotentialRows(es, x.0.k, n);
    assert forall a :: (k, a) in p <==> k in keys && a in q;
    if x in JoinedAll(data, p) { JoinedOfAll(data, p, q, x); }
    if k in keys && x in JoinedRows(data, q, k) { JoinedInAll(data, p, q, k, x); }
  }

  lemma ReadAllRowsIff(data: seq<Data>, es: seq<Entry>, keys: set<int>, n: nat, r: Row<int, int>)
    ensures r in ReadAllRows(data, es, keys, n) <==> r.k in keys && r in ReadKeyRows(data, es, r.k, n)
  {
    var all, one := JoinedAll(data, PotentialAll(es, keys, n)), JoinedRows(data, PotentialRows(es, r.k, n), r.k);
    forall x: (Row<int, int>, bool) | x.0 == r ensures x in all <==> r.k in keys && x in one {
      JoinedAllIff(data, es, keys, n, x);
    }
    GroupHavingOf(all, r);
    GroupHavingOf(one, r);
  }

  /** Reading all keys over entry rows is reading them over arrays. */
  lemma RowReadAllIsArrayRead(data: seq<Data>, es: seq<Entry>, t: Table, keys: set<int>, n: nat)
    requires Encodes(data, es, t, n)
    ensures ReadAllRows(data, es, keys, n) == ReadAll(t, keys, n)
  {
    forall r ensures r in ReadAllRows(data, es, keys, n) <==> r in ReadAll(t, keys, n) {
      ReadAllRowsIff(data, es, keys, n, r);
      RowReadIsArrayRead(data, es, t, n, r.k);
      if r in ReadAll(t, keys, n) {
        var k :| k in keys && r in ReadKey(t, k, n);
        ReadKeyMembers(t, k, n, r);
      }
    }
  }

  // ---- splitting and inserting --------------------------------------------------------

  function ToEntries(k: int, tid: int, now: seq<Now>): seq<Entry> {
    Map((x: Now) => Entry(k, tid, x.0, x.1), now)
  }

  lemma EntriesOfAppend(a: seq<Entry>, b: seq<Entry>, k: int, tid: int)
    ensures EntriesOf(a + b, k, tid) == EntriesOf(a, k, tid) + EntriesOf(b, k, tid)
  {
    FilterAppend((e: Entry) => e.k == k && e.tid == tid, a, b);
  }

  lemma EntriesOfNew(k: int, tid: int, now: seq<Now>, k': int, tid': int)
    ensures EntriesOf(ToEntries(k, tid, now), k', tid') == if k == k' && tid == tid' then now else []
  {
    var p, es := (e: Entry) => e.k == k' && e.tid == tid', ToEntries(k, tid, now);
    assert forall e :: e in es ==> e.k == k && e.tid == tid;
    FilterAll(p, es);
  }

  /** Adding the entry rows of one clock under a fresh tid, in any order, adds that row. */
  lemma EncodesInsert(data: seq<Data>, es: seq<Entry>, t: Table, n: nat, r: Row<int, int>, tid: int, now: seq<Now>)
    requires Encodes(data, es, t, n) && |r.lts| == n && multiset(now) == multiset(Spread(r.lts))
    requires forall d :: d in data ==> d.tid != tid
    ensures Encodes(data + [Data(r.k, r.v, tid)], es + ToEntries(r.k, tid, now), t + [r], n)
  {
    HoldsInsert(data, es, t, n, r, tid, now);
    forall m | 0 <= m < |es + ToEntries(r.k, tid, now)|
      ensures Owned(data + [Data(r.k, r.v, tid)], (es + ToEntries(r.k, tid, now))[m])
    {
      OwnedInsert(data, es, r, tid, now, m);
    }
    WidthOfMore(t, n, r);
    TidsStayApart(data, Data(r.k, r.v, tid));
  }

  lemma HoldsInsert(data: seq<Data>, es: seq<Entry>, t: Table, n: nat, r: Row<int, int>, tid: int, now: seq<Now>)
    requires Encodes(data, es, t, n) && multiset(now) == multiset(Spread(r.lts))
    requires forall d :: d in data ==> d.tid != tid
    ensures var data' := data + [Data(r.k, r.v, tid)];
            forall j :: 0 <= j <= |t| ==>
              Holds(es + ToEntries(r.k, tid, now), data'[j].k, data'[j].tid, (t + [r])[j].lts)
  {
    var data' := data + [Data(r.k, r.v, tid)];
    forall j | 0 <= j <= |t|
      ensures Holds(es + ToEntries(r.k, tid, now), data'[j].k, data'[j].tid, (t + [r])[j].lts)
    {
      if j < |t| {
        assert Holds(es, data[j].k, data[j].tid, t[j].lts) && data[j] in data;
        HoldsStill(es, data[j].k, data[j].tid, t[j].lts, r.k, tid, now);
      } else {
        NoEntriesYet(data, es, r.k, tid);
        HoldsNew(es, r.k, tid, now, r.lts);
      }
    }
  }

  lemma WidthOfMore(t: Table, n: nat, r: Row<int, int>)
    requires Width(t, n) && |r.lts| == n
    ensures Width(t + [r], n)
  {
    forall x | x in t + [r] ensures |x.lts| == n {
      assert x in t || x == r;
    }
  }

  lemma TidsStayApart(data: seq<Data>, d: Data)
    requires forall i, j :: 0 <= i < j < |data| ==> data[i].tid != data[j].tid
    requires forall x :: x in data ==> x.tid != d.tid
    ensures forall i, j :: 0 <= i < j <= |data| ==> (data + [d])[i].tid != (data + [d])[j].tid
  {
    forall i, j | 0 <= i < j <= |data| ensures (data + [d])[i].tid != (data + [d])[j].tid {
      assert data[i] in data;
    }
  }

  lemma HoldsStill(es: seq<Entry>, k: int, tid: int, c: Clock, k': int, tid': int, now: seq<Now>)
    requires Holds(es, k, tid, c) && tid != tid'
    ensures Holds(es + ToEntries(k', tid', now), k, tid, c)
  {
    EntriesOfAppend(es, ToEntries(k', tid', now), k, tid);
    EntriesOfNew(k', tid', now, k, tid);
    assert EntriesOf(es, k, tid) + [] == EntriesOf(es, k, tid);
  }

  lemma HoldsNew(es: seq<Entry>, k: int, tid: int, now: seq<Now>, c: Clock)
    requires EntriesOf(es, k, tid) == [] && multiset(now) == multiset(Spread(c))
    ensures Holds(es + ToEntries(k, tid, now), k, tid, c)
  {
    EntriesOfAppend(es, ToEntries(k, tid, now), k, tid);
    EntriesOfNew(k, tid, now, k, tid);
    assert [] + now == now;
  }

  lemma OwnedInsert(data: seq<Data>, es: seq<Entry>, r: Row<int, int>, tid: int, now: seq<Now>, m: nat)
    requires m < |es + ToEntries(r.k, tid, now)| && (m < |es| ==> Owned(data, es[m]))
    ensures Owned(data + [Data(r.k, r.v, tid)], (es + ToEntries(r.k, tid, now))[m])
  {
    var data' := data + [Data(r.k, r.v, tid)];
    var e := (es + ToEntries(r.k, tid, now))[m];
    if m < |es| {
      var j :| 0 <= j < |data| && data[j].k == e.k && data[j].tid == e.tid;
      assert data'[j] == data[j];
    } else {
      assert data'[|data|] == Data(r.k, r.v, tid);
    }
  }

  lemma NoEntriesYet(data: seq<Data>, es: seq<Entry>, k: int, tid: int)
    requires (forall m :: 0 <= m < |es| ==> Owned(data, es[m])) && forall d :: d in data ==> d.tid != tid
    ensures EntriesOf(es, k, tid) == []
  {
    forall e | e in es ensures e.tid != tid {
      var m :| 0 <= m < |es| && es[m] == e;
      assert Owned(data, es[m]);
      var j :| 0 <= j < |data| && data[j].k == e.k && data[j].tid == e.tid;
      assert data[j] in data;
    }
    FilterAll((e: Entry) => e.k == k && e.tid == tid, es);
  }

  /** One data row per row, then one entry row per clock entry, under the same running tid. */
  method SplitRows(rs: Table, n: nat) returns (data: seq<Data>, entries: seq<Entry>)
    requires Width(rs, n)
    ensures Encodes(data, entries, rs, n) && forall d :: d in data ==> d.tid < |rs|
    ensures |data| == |rs| && forall j :: 0 <= j < |rs| ==> data[j] == Data(rs[j].k, rs[j].v, j)
  {
    data, entries := [], [];
    for tid := 0 to |rs|
      invariant Encodes(data, entries, rs[..tid], n) && forall d :: d in data ==> d.tid < tid
      invariant |data| == tid && forall j :: 0 <= j < tid ==> data[j] == Data(rs[j].k, rs[j].v, j)
    {
      var r := rs[tid];
      var more: seq<Entry> := [];
      for site := 0 to |r.lts|
        invariant more == ToEntries(r.k, tid, Spread(r.lts[..site]))
      {
        more := more + [Entry(r.k, tid, site + 1, r.lts[site])];
      }
      assert r.lts[..|r.lts|] == r.lts && r in rs && rs[..tid + 1] == rs[..tid] + [r];
      EncodesInsert(data, entries, rs[..tid], n, r, tid, Spread(r.lts));
      data := data + [Data(r.k, r.v, tid)];
      entries := entries + more;
    }
    assert rs[..|rs|] == rs;
  }

  /** `select distinct on (k, site)`: for every site, separately, the entry of any one of the
      rows reaching the maximum of site 1. The clock put together need not be a row's clock. */
  method ChooseNow(rs: Table, k: int, n: nat) returns (now: seq<Now>, ghost ct: Clock)
    requires Width(rs, n) && n > 0 && HasKey(rs, k)
    ensures |now| == n && StartsAt(rs, k, Agg(now), n)
    ensures now == Spread(ct) && ct == Agg(now)
  {
    ColMaxIsMaximum(rs, k, 0, n);
    now, ct := [], [];
    for site := 0 to n
      invariant |ct| == site && now == Spread(ct)
      invariant site > 0 ==> ColMax(rs, k, 0) == Some(ct[0])
      invariant forall i :: 1 <= i < site ==> ColMax(rs, k, i).Some? && ct[i] <= ColMax(rs, k, i).value
    {
      var r :| r in rs && r.k == k && ReachesMax(rs, r, 0);
      ReachesMaxIff(rs, r, 0, n);
      assert ColMax(rs, k, 0) == Some(r.lts[0]);
      ColMaxIsMaximum(rs, k, site, n);
      now := now + [(site + 1, r.lts[site])];
      ct := ct + [r.lts[site]];
    }
    AggOfSpread(now, ct);
  }

  /** `UPDATE CurrentTime SET lts = lts + 1 WHERE site = 1`: the new row version goes last. */
  function Bump(now: seq<Now>): seq<Now> {
    if now == [] then []
    else if now[0].0 == 1 then now[1..] + [(1, now[0].1 + 1)]
    else [now[0]] + Bump(now[1..])
  }

  lemma {:induction false} BumpMovesOneRow(now: seq<Now>, x: int) returns (p: nat)
    requires (1, x) in now && forall e :: e in now && e.0 == 1 ==> e == (1, x)
    ensures p < |now| && now[p] == (1, x) && Bump(now) == RemoveAt(now, p) + [(1, x + 1)]
  {
    if now[0].0 == 1 {
      assert now[0] in now;
      p := 0;
    } else {
      assert forall e :: e in now <==> e == now[0] || e in now[1..];
      p := BumpMovesOneRow(now[1..], x);
      p := p + 1;
    }
  }

  lemma SwapOne(a: seq<Now>, b: seq<Now>, p: nat, x: Now, y: Now)
    requires p < |a| && a[p] == x && b != [] && b[0] == x && multiset(a) == multiset(b)
    ensures multiset(RemoveAt(a, p) + [y]) == multiset([y] + b[1..])
  {
    var rest := RemoveAt(a, p);
    RemoveAtBag(a, p);
    RemoveAtBag(b, 0);
    assert RemoveAt(b, 0) == b[1..];
    assert multiset(rest) == multiset(a) - multiset{x};
    assert multiset(b[1..]) == multiset(b) - multiset{x};
    assert multiset(rest + [y]) == multiset(rest) + multiset{y};
    assert multiset([y] + b[1..]) == multiset{y} + multiset(b[1..]);
  }

  /** After the update the entry rows of the key hold the clock advanced at site 1. */
  lemma BumpIsAhead(now: seq<Now>, c: Clock)
    requires |c| > 0 && multiset(now) == multiset(Spread(c))
    ensures multiset(Bump(now)) == multiset(Spread(Ahead(c, 1)))
  {
    var s := Spread(c);
    BagMembers(now, s);
    assert s[0] == (1, c[0]);
    var p := BumpMovesOneRow(now, c[0]);
    SwapOne(now, s, p, (1, c[0]), (1, c[0] + 1));
    assert Spread(Ahead(c, 1)) == [(1, c[0] + 1)] + s[1..];
  }

  method ChooseNows(rs: Table, n: nat) returns (nows: map<int, seq<Now>>, ghost cts: map<int, Clock>)
    requires Width(rs, n) && n > 0
    ensures nows.Keys == cts.Keys == set r | r in rs :: r.k
    ensures forall k :: k in cts ==> StartsAt(rs, k, cts[k], n) && nows[k] == Spread(cts[k])
  {
    nows, cts := map[], map[];
    for i := 0 to |rs|
      invariant nows.Keys == cts.Keys == set r | r in rs[..i] :: r.k
      invariant forall k :: k in cts ==> StartsAt(rs, k, cts[k], n) && nows[k] == Spread(cts[k])
    {
      assert rs[..i + 1] == rs[..i] + [rs[i]];
      if rs[i].k !in nows {
        assert HasKey(rs, rs[i].k);
        var now;
        ghost var ct;
        now, ct := ChooseNow(rs, rs[i].k, n);
        nows, cts := nows[rs[i].k := now], cts[rs[i].k := ct];
      }
    }
    assert rs[..|rs|] == rs;
  }

  /** Data, entry and current rows stand for an array-encoded table and current clocks. */
  ghost predicate Rows(n: nat, data: seq<Data>, es: seq<Entry>, next: int, now: map<int, seq<Now>>, t: Table,
      clocks: map<int, Clock>) {
    && n > 0 && Encodes(data, es, t, n)
    && (forall j :: 0 <= j < |data| ==> data[j].tid < next)
    && SameKeys(clocks, now)
    && (forall k :: k in clocks ==> |clocks[k]| == n && multiset(now[k]) == multiset(Spread(clocks[k])))
  }

  lemma RowsStart(rs: Table, n: nat, data: seq<Data>, es: seq<Entry>, now: map<int, seq<Now>>, cts: map<int, Clock>)
    requires n > 0 && Width(rs, n) && Encodes(data, es, rs, n) && (forall d :: d in data ==> d.tid < |rs|)
    requires now.Keys == cts.Keys && forall k :: k in cts ==> StartsAt(rs, k, cts[k], n) && now[k] == Spread(cts[k])
    ensures Rows(n, data, es, |rs| + 1, now, rs, cts) && Traced(n, StartTrace(rs, cts))
  {
    NothingStored(rs, n, cts);
  }

  lemma RowsWrite(n: nat, data: seq<Data>, es: seq<Entry>, next: int, now: map<int, seq<Now>>, t: Table,
      clocks: map<int, Clock>, k: int, v: int)
    requires Rows(n, data, es, next, now, t, clocks) && k in now
    ensures k in clocks && |clocks[k]| > 0
    ensures var c, bumped := Ahead(clocks[k], 1), Bump(now[k]);
            Rows(n, data + [Data(k, v, next)], es + ToEntries(k, next, bumped), next + 1, now[k := bumped],
                 t + [Row(k, v, c)], clocks[k := c])
  {
    BumpIsAhead(now[k], clocks[k]);
    EncodesInsert(data, es, t, n, Row(k, v, Ahead(clocks[k], 1)), next, Bump(now[k]));
  }

  ghost predicate RowState(n: nat, data: seq<Data>, es: seq<Entry>, next: int, now: map<int, seq<Now>>, tr: Trace) {
    Rows(n, data, es, next, now, tr.table, tr.clocks) && Traced(n, tr)
  }

  lemma RowStateWrite(n: nat, data: seq<Data>, es: seq<Entry>, next: int, now: map<int, seq<Now>>, tr: Trace,
      k: int, v: int)
    requires RowState(n, data, es, next, now, tr) && k in now
    ensures k in tr.clocks && k in tr.stored && |tr.clocks[k]| > 0
    ensures RowState(n, data + [Data(k, v, next)], es + ToEntries(k, next, Bump(now[k])), next + 1,
                     now[k := Bump(now[k])], AfterWrite(tr, k, v))
  {
    RowsWrite(n, data, es, next, now, tr.table, tr.clocks, k, v);
    TraceWrite(n, tr, k, v);
  }

  lemma RowStateKeys(n: nat, data: seq<Data>, es: seq<Entry>, next: int, now: map<int, seq<Now>>, tr: Trace, k: int)
    requires RowState(n, data, es, next, now, tr)
    ensures k in now <==> k in tr.clocks
  {
  }

  /** RowData, RowTimestamps and CurrentTime, the latter grouped by key; `trace` is the
      array-encoded state they stand for, with the populated rows, the starting clocks and the
      writes since. */
  class RowTables {
    const sites: nat
    var data: seq<Data>
    var entries: seq<Entry>
    var nextTid: int
    var currentTime: map<int, seq<Now>>
    ghost var trace: Trace

    ghost predicate Valid()
      reads this
    {
      RowState(sites, data, entries, nextTid, currentTime, trace)
    }

    constructor Populate(rs: Table)
      requires rs != [] && |rs[0].lts| > 0 && Width(rs, |rs[0].lts|)
      ensures Valid() && sites == |rs[0].lts| && trace == StartTrace(rs, trace.start)
      ensures trace.start.Keys == set r | r in rs :: r.k
      ensures nextTid == |rs| + 1 && |data| == |rs|
      ensures forall j :: 0 <= j < |rs| ==> data[j] == Data(rs[j].k, rs[j].v, j)
    {
      var n := |rs[0].lts|;
      var d, es := SplitRows(rs, n);
      var nows;
      ghost var cts;
      nows, cts := ChooseNows(rs, n);
      RowsStart(rs, n, d, es, nows, cts);
      sites, data, entries, currentTime := n, d, es, nows;
      nextTid := |rs| + 1; // setval to the largest tid + 1, which nextval then steps over
      trace := StartTrace(rs, cts);
    }

    /** `NextTime` then `insertRow`: the row gets a fresh tid and copies CurrentTime's entries,
        so it stores what the array encoding would store. The third argument is unused. */
    method WriteTxn(k: int, v: int) returns (ok: bool)
      requires Valid()
      modifies this
      ensures Valid() && (ok <==> k in old(trace).clocks)
      ensures ok ==> k in old(trace).stored && |old(trace).clocks[k]| > 0 && trace == AfterWrite(old(trace), k, v)
      ensures ok ==> data == old(data) + [Data(k, v, old(nextTid))] && nextTid == old(nextTid) + 1
      ensures !ok ==> trace == old(trace) && data == old(data) && nextTid == old(nextTid)
    {
      RowStateKeys(sites, data, entries, nextTid, currentTime, trace, k);
      if k !in currentTime {
        return false;
      }
      RowStateWrite(sites, data, entries, nextTid, currentTime, trace, k, v);
      var now, tid := Bump(currentTime[k]), nextTid;
      currentTime := currentTime[k := now];
      nextTid := tid + 1;
      data := data + [Data(k, v, tid)];
      entries := entries + ToEntries(k, tid, now);
      trace := AfterWrite(trace, k, v);
      ok := true;
    }

    /** The read statement for one key, with what any sequence of transactions makes of it. */
    method ReadKeyStatement(k: int) returns (result: set<Row<int, int>>)
      requires Valid()
      ensures result == if k in trace.clocks then ReadKey(trace.table, k, sites) else {}
      ensures k in trace.start ==> ExactIff(sites, trace, k, result)
    {
      result := if k in currentTime then ReadKeyRows(data, entries, k, sites) else {};
      RowReadIsArrayRead(data, entries, trace.table, sites, k);
      TraceReads(sites, trace);
    }

    /** The read statement for all keys. */
    method ReadAllStatement() returns (result: set<Row<int, int>>)
      requires Valid()
      ensures result == ReadAll(trace.table, trace.clocks.Keys, sites)
      ensures AllExactIff(sites, trace, result)
    {
      result := ReadAllRows(data, entries, currentTime.Keys, sites);
      RowReadAllIsArrayRead(data, entries, trace.table, currentTime.Keys, sites);
      KeysAreSame(trace.clocks, currentTime);
      TraceReads(sites, trace);
    }
  }
}
