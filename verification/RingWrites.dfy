/** What becomes of a write over the ring: its row is stored with its columns, and once the ring is
    quiet every site shows it, or a row that supersedes it. */
module RingWrites {
  import opened Clocks
  import opened CausalPresent
  import opened Crdv
  import opened Sequences
  import RingDelivery

  /** The rows of all sites after the given commands. */
  function Logs(n: nat, cmds: seq<RingCommand>): seq<seq<Op>>
    requires n >= 2
  {
    OpLogs(RingDelivery.Run(n, RingSteps(n, cmds)))
  }

  lemma StepsSnoc(n: nat, cmds: seq<RingCommand>, c: RingCommand)
    requires n >= 2
    ensures RingSteps(n, cmds + [c]) == RingSteps(n, cmds) + RingStep(n, Logs(n, cmds), c)
  {
    assert (cmds + [c])[..|cmds|] == cmds;
  }

  /** A write from readable rows puts one row with its columns behind the rows of its site. */
  lemma WriteIsStored(n: nat, cmds: seq<RingCommand>, i: nat, id: string, key: string, data: string, vis: seq<Op>)
    returns (r: Op)
    requires n >= 2 && i < n && Readable(Logs(n, cmds)[i], i, id, vis)
    ensures Stamped(n, vis, i, id, key, data, r)
    ensures Logs(n, cmds + [Write(i, id, key, data, vis)]) == Logs(n, cmds)[i := Logs(n, cmds)[i] + [r]]
  {
    var steps, s := RingSteps(n, cmds), RingDelivery.Run(n, RingSteps(n, cmds));
    r := NewOp(n, vis, i, id, key, data);
    NewOpIsStamped(n, vis, i, id, key, data);
    StepsSnoc(n, cmds, Write(i, id, key, data, vis));
    RingDelivery.RunSnoc(n, steps, RingDelivery.Write(i, r));
    RingDelivery.InvHolds(n, steps);
    RingDelivery.WriteStep(n, s, i, r);
    OpsSnoc(s.logs[i], RingDelivery.Msg(i, |RingDelivery.Of(s.logs[i], i)|, r));
  }

  /** A write from rows that are not readable does nothing. */
  lemma UnreadableWrite(n: nat, cmds: seq<RingCommand>, i: nat, id: string, key: string, data: string, vis: seq<Op>)
    requires n >= 2 && (i >= n || !Readable(Logs(n, cmds)[i], i, id, vis))
    ensures Logs(n, cmds + [Write(i, id, key, data, vis)]) == Logs(n, cmds)
  {
    StepsSnoc(n, cmds, Write(i, id, key, data, vis));
    assert RingSteps(n, cmds) + [] == RingSteps(n, cmds);
  }

  lemma {:induction false} StepsGrow(n: nat, cmds: seq<RingCommand>, all: seq<RingCommand>)
    requires n >= 2 && cmds <= all
    ensures RingSteps(n, cmds) <= RingSteps(n, all)
    decreases |all|
  {
    if cmds != all { StepsGrow(n, cmds, all[..|all| - 1]); }
  }

  lemma {:induction false} RunGrows(n: nat, steps: seq<RingDelivery.Step<Op>>, all: seq<RingDelivery.Step<Op>>, i: nat)
    requires n >= 2 && i < n && steps <= all
    ensures RingDelivery.Run(n, steps).logs[i] <= RingDelivery.Run(n, all).logs[i]
    decreases |all|
  {
    if steps != all { RunGrows(n, steps, all[..|all| - 1], i); }
  }

  /** No row is ever lost. */
  lemma LogsGrow(n: nat, cmds: seq<RingCommand>, all: seq<RingCommand>, i: nat)
    requires n >= 2 && i < n && cmds <= all
    ensures Logs(n, cmds)[i] <= Logs(n, all)[i]
  {
    StepsGrow(n, cmds, all);
    RunGrows(n, RingSteps(n, cmds), RingSteps(n, all), i);
  }

  /** A row written anywhere is everywhere once the ring is quiet. */
  lemma QuietHasAll(n: nat, cmds: seq<RingCommand>, i: nat, j: nat, r: Op)
    requires n >= 2 && i < n && j < n && RingDelivery.Quiescent(n, RingDelivery.Run(n, RingSteps(n, cmds)))
    ensures r in Logs(n, cmds)[i] <==> r in Logs(n, cmds)[j]
  {
    var s := RingDelivery.Run(n, RingSteps(n, cmds));
    RingDelivery.InvHolds(n, RingSteps(n, cmds));
    RingDelivery.QuiescentConverges(n, s, i, j);
    MapBag((m: RingDelivery.Msg<Op>) => m.body, s.logs[i], s.logs[j]);
    BagMembers(Logs(n, cmds)[i], Logs(n, cmds)[j]);
  }

  /** After a write and anything that follows, once the ring is quiet, every site shows a row of that
      element which is the written one or above it, in both read modes and whatever it has merged. */
  lemma WriteIsShown(n: nat, cmds: seq<RingCommand>, i: nat, id: string, key: string, data: string, vis: seq<Op>,
      more: seq<RingCommand>, j: nat, a: seq<Op>, b: seq<Op>) returns (r: Op, x: Op)
    requires n >= 2 && i < n && j < n && Readable(Logs(n, cmds)[i], i, id, vis)
    requires var all := cmds + [Write(i, id, key, data, vis)] + more;
             Holds(n, all, j, a, b) && RingDelivery.Quiescent(n, RingDelivery.Run(n, RingSteps(n, all)))
    ensures Stamped(n, vis, i, id, key, data, r)
    ensures x in DataAll(MergeAll(a) + b, n) && x in MergeAll(a + b)
    ensures x == r || Dominates(x, r)
  {
    var first := cmds + [Write(i, id, key, data, vis)];
    r := WriteIsStored(n, cmds, i, id, key, data, vis);
    var l := Logs(n, first)[i];
    assert l[|l| - 1] == r;
    LogsGrow(n, first, first + more, i);
    assert Logs(n, first + more)[i][|l| - 1] == r;
    QuietHasAll(n, first + more, i, j, r);
    BagMembers(Logs(n, first + more)[j], a + b);
    x := ShownAbove(a + b, r);
    RingReplicasConverge(n, first + more, j, j, a, b, a, b);
  }

  lemma ShownAbove(t: seq<Op>, r: Op) returns (x: Op)
    requires r in t
    ensures x in MergeAll(t) && (x == r || Dominates(x, r))
  {
    MergeIsPresent(t);
    KeepMembers(t, t);
    x := Climb(t, r);
  }

  function Passes(sites: seq<nat>): seq<RingCommand> {
    Map((i: nat) => Pass(i), sites)
  }

  lemma {:induction false} PassesForward(n: nat, cmds: seq<RingCommand>, sites: seq<nat>)
    requires n >= 2
    ensures RingSteps(n, cmds + Passes(sites)) == RingSteps(n, cmds) + RingDelivery.Forwards(sites)
  {
    if sites == [] {
      assert cmds + Passes(sites) == cmds;
      assert RingSteps(n, cmds) + RingDelivery.Forwards<Op>(sites) == RingSteps(n, cmds);
    } else {
      var init, last := sites[..|sites| - 1], sites[|sites| - 1];
      PassesForward(n, cmds, init);
      LastPass(cmds, RingSteps(n, cmds), sites);
      PassStep(n, cmds + Passes(init), last);
    }
  }

  lemma PassStep(n: nat, cmds: seq<RingCommand>, i: nat)
    requires n >= 2
    ensures RingSteps(n, cmds + [Pass(i)]) == RingSteps(n, cmds) + [RingDelivery.Forward(i)]
  {
    StepsSnoc(n, cmds, Pass(i));
  }

  lemma LastPass(cmds: seq<RingCommand>, steps: seq<RingDelivery.Step<Op>>, sites: seq<nat>)
    requires sites != []
    ensures var init, last := sites[..|sites| - 1], sites[|sites| - 1];
            && cmds + Passes(sites) == (cmds + Passes(init)) + [Pass(last)]
            && steps + RingDelivery.Forwards(sites) ==
               (steps + RingDelivery.Forwards(init)) + [RingDelivery.Forward(last)]
  {
  }

  /** After any commands the ring can go quiet, by as many passes as are owed. */
  lemma RingGoesQuiet(n: nat, cmds: seq<RingCommand>) returns (sites: seq<nat>)
    requires n >= 2
    ensures |sites| == RingDelivery.Measure(n, RingDelivery.Run(n, RingSteps(n, cmds)))
    ensures RingDelivery.Quiescent(n, RingDelivery.Run(n, RingSteps(n, cmds + Passes(sites))))
  {
    var steps := RingSteps(n, cmds);
    RingDelivery.InvHolds(n, steps);
    sites := RingDelivery.SomeDrain(n, RingDelivery.Run(n, steps));
    RingDelivery.DrainsExactly(n, steps, sites);
    PassesForward(n, cmds, sites);
  }
}
