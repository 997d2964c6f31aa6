/** Hybrid logical clocks: `next_hlc`, iterated over any sequence of wall-clock readings. */
module HybridClock {
  import opened Clocks

  datatype Hlc = Hlc(p: int, l: int)

  predicate Before(a: Hlc, b: Hlc) {
    a.p < b.p || (a.p == b.p && a.l < b.l)
  }

  /** Of two timestamps that differ exactly one is the earlier; none is before itself. */
  lemma BeforeIsTotal(a: Hlc, b: Hlc)
    ensures !Before(a, a)
    ensures a != b ==> (Before(a, b) <==> !Before(b, a))
  {
  }

  lemma BeforeIsTransitive(a: Hlc, b: Hlc, c: Hlc)
    requires Before(a, b) && Before(b, c)
    ensures Before(a, c)
  {
  }

  function Next(h: Hlc, now: int): Hlc {
    if now > h.p then Hlc(now, 1) else Hlc(h.p, h.l + 1)
  }

  /** `next_hlc` with the wall-clock reading passed in. */
  method NextHlc(currPTime: int, currLTime: int, currentTimeMillis: int)
    returns (outPTime: int, outLTime: int)
    ensures Before(Hlc(currPTime, currLTime), Hlc(outPTime, outLTime)) && outPTime == Max(currPTime, currentTimeMillis)
    ensures Hlc(outPTime, outLTime) == Next(Hlc(currPTime, currLTime), currentTimeMillis)
  {
    if currentTimeMillis > currPTime {
      outPTime := currentTimeMillis;
      outLTime := 1;
    } else {
      outPTime := currPTime;
      outLTime := currLTime + 1;
    }
  }

  /** The clock after reading the wall clock |rs| times, starting from h. */
  function Run(h: Hlc, rs: seq<int>): Hlc {
    if rs == [] then h else Next(Run(h, rs[..|rs| - 1]), rs[|rs| - 1])
  }

  /** Every later timestamp of a run is strictly larger, even when the wall clock goes back. */
  lemma {:induction false} RunStrictlyIncreases(h: Hlc, rs: seq<int>, i: nat)
    requires i < |rs|
    ensures Before(Run(h, rs[..i]), Run(h, rs))
    decreases |rs|
  {
    var init := rs[..|rs| - 1];
    if i < |init| {
      RunStrictlyIncreases(h, init, i);
      assert init[..i] == rs[..i];
    }
    assert Before(Run(h, init), Run(h, rs));
  }

  /** r bounds the starting time and every reading, and is one of them. */
  ghost predicate IsRunningMax(r: int, h: Hlc, rs: seq<int>) {
    && h.p <= r && (forall i :: 0 <= i < |rs| ==> rs[i] <= r)
    && (r == h.p || r in rs)
  }

  lemma {:induction false} PhysicalIsRunningMax(h: Hlc, rs: seq<int>)
    ensures IsRunningMax(Run(h, rs).p, h, rs)
  {
    if rs != [] {
      PhysicalIsRunningMax(h, rs[..|rs| - 1]);
      assert rs == rs[..|rs| - 1] + [rs[|rs| - 1]];
    }
  }

  /** Reading j exceeds everything seen before it. */
  ghost predicate Rises(h: Hlc, rs: seq<int>, j: nat)
    requires j < |rs|
  {
    h.p < rs[j] && forall i :: 0 <= i < j ==> rs[i] < rs[j]
  }

  /** j is the last reading that rose above everything before it; -1 when none did. */
  ghost predicate IsLastRise(h: Hlc, rs: seq<int>, j: int) {
    && -1 <= j < |rs|
    && (0 <= j ==> Rises(h, rs, j))
    && (forall i :: j < i < |rs| && 0 <= i ==> !Rises(h, rs, i))
  }

  /** The logical part only depends on how many calls were made since the last rise. */
  lemma {:induction false} LogicalCountsCallsSinceRise(h: Hlc, rs: seq<int>, j: int)
    requires IsLastRise(h, rs, j)
    ensures Run(h, rs).l == if 0 <= j then |rs| - j else h.l + |rs|
    decreases |rs|
  {
    if rs != [] {
      var n := |rs| - 1;
      var init := rs[..n];
      RisesIffAbovePhysical(h, rs);
      if j < n {
        assert !Rises(h, rs, n);
        assert forall i | 0 <= i < n :: Rises(h, init, i) <==> Rises(h, rs, i);
        LogicalCountsCallsSinceRise(h, init, j);
      }
    }
  }

  lemma RisesIffAbovePhysical(h: Hlc, rs: seq<int>)
    requires rs != []
    ensures Rises(h, rs, |rs| - 1) <==> rs[|rs| - 1] > Run(h, rs[..|rs| - 1]).p
  {
    var init := rs[..|rs| - 1];
    PhysicalIsRunningMax(h, init);
    assert forall i :: 0 <= i < |init| ==> init[i] == rs[i];
  }
}
