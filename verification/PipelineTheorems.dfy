/** What holds of every run of the exposure pipeline. */
module PipelineTheorems {
  import opened ProcQueue
  import opened Pipeline
  import opened PipelineInvariant

  ghost predicate Reachable(c: Config, s: State) {
    exists s0: State, steps: seq<Step> :: Init(c, s0) && Runs(c, s0, steps, s)
  }

  lemma {:induction false} RunInv(c: Config, s: State, steps: seq<Step>, t: State)
    requires Inv(c, s) && Runs(c, s, steps, t)
    ensures Inv(c, t)
    decreases |steps|
  {
    if steps != [] {
      StepInv(c, s, steps[0]);
      RunInv(c, Apply(c, s, steps[0]), steps[1..], t);
    }
  }

  lemma ReachableInv(c: Config, s: State)
    requires Reachable(c, s)
    ensures Inv(c, s)
  {
    var s0: State, steps: seq<Step> :| Init(c, s0) && Runs(c, s0, steps, s);
    InitInv(c, s0);
    RunInv(c, s0, steps, s);
  }

  // ----- safety -----

  lemma {:induction false} FlatCycles(c: Config, s: State, i: nat)
    requires LogOk(c, s) && i <= |s.hist.past|
    ensures Flat(s.hist.past[..i]) == FullLog(s.hist.added[..i], c.seqno, |s.nodes|)
  {
    if i > 0 {
      FlatCycles(c, s, i - 1);
      assert s.hist.past[..i][..i - 1] == s.hist.past[..i - 1];
      assert s.hist.added[..i][..i - 1] == s.hist.added[..i - 1];
    }
  }

  lemma {:induction false} FullLogPrefix(added: seq<ExpID>, i: nat, seqno: int, N: nat)
    requires i <= |added|
    ensures FullLog(added[..i], seqno, N) <= FullLog(added, seqno, N)
  {
    if i < |added| {
      var most := added[..|added| - 1];
      FullLogPrefix(most, i, seqno, N);
      assert most[..i] == added[..i];
    } else {
      assert added[..i] == added;
    }
  }

  /** In every reachable state the log is a beginning of the one-at-a-time log of the exposures in
      the order they were added: every exposure is started, announced, handed to the picture
      feeds, ended, removed and reopened once, in that order and under one sequence number, and
      each barrier event was caused by the replies of all N nodes. */
  lemma OrderlyLog(c: Config, s: State)
    requires Reachable(c, s)
    ensures Log(s.hist) <= FullLog(s.hist.added, c.seqno, |s.nodes|)
  {
    ReachableInv(c, s);
    OrderlyPieces(c, s);
  }

  lemma OrderlyPieces(c: Config, s: State)
    requires LogOk(c, s)
    ensures Log(s.hist) <= FullLog(s.hist.added, c.seqno, |s.nodes|)
  {
    var i, added, N := |s.hist.past|, s.hist.added, |s.nodes|;
    FlatCycles(c, s, i);
    assert s.hist.past[..i] == s.hist.past;
    if s.hist.now == [] {
      FullLogPrefix(added, i, c.seqno, N);
    } else {
      FullLogPrefix(added, i + 1, c.seqno, N);
      OneMoreCycle(added, i, c.seqno, N);
      BeginsToo(FullLog(added[..i], c.seqno, N), s.hist.now, Cycle(added[i], c.seqno + i + 1, N));
    }
  }

  lemma OneMoreCycle(added: seq<ExpID>, i: nat, seqno: int, N: nat)
    requires i < |added|
    ensures FullLog(added[..i + 1], seqno, N) == FullLog(added[..i], seqno, N) + Cycle(added[i], seqno + i + 1, N)
  {
    assert added[..i + 1][..i] == added[..i];
  }

  lemma BeginsToo(a: seq<Event>, b: seq<Event>, c: seq<Event>)
    requires b <= c
    ensures a + b <= a + c
  {
  }

  lemma {:induction false} FullLogAt(added: seq<ExpID>, seqno: int, N: nat, i: nat, p: nat)
    requires i < |added| && p < 6
    ensures FullLog(added, seqno, N)[6 * i + p] == Cycle(added[i], seqno + i + 1, N)[p]
  {
    var last := |added| - 1;
    if i < last {
      FullLogAt(added[..last], seqno, N, i, p);
    }
  }

  /** The same, event by event: event `j` belongs to exposure number `i` and is step `p` of its
      cycle, where j == 6i + p. */
  lemma LogAt(c: Config, s: State, j: nat) returns (i: nat, p: nat)
    requires Reachable(c, s) && j < |Log(s.hist)|
    ensures p < 6 && j == 6 * i + p && i < |s.hist.added|
    ensures Log(s.hist)[j] == Cycle(s.hist.added[i], c.seqno + i + 1, |s.nodes|)[p]
  {
    OrderlyLog(c, s);
    i, p := j / 6, j % 6;
    FullLogAt(s.hist.added, c.seqno, |s.nodes|, i, p);
  }

  /** Mutual exclusion: between two starts, the first exposure has been reopened, that is, its
      last "clean done" has been counted; and starts follow the order of the queue. */
  lemma OneExposureAtATime(c: Config, s: State, j: nat, k: nat)
    requires Reachable(c, s) && j < k < |Log(s.hist)|
    requires Log(s.hist)[j].Started? && Log(s.hist)[k].Started?
    ensures j + 5 < k && Log(s.hist)[j + 5] == Reopened(Log(s.hist)[j].expID, Everyone(|s.nodes|))
    ensures exists a, b :: && 0 <= a < b < |s.hist.added| && Log(s.hist)[j].expID == s.hist.added[a]
                           && Log(s.hist)[k].expID == s.hist.added[b]
    ensures Log(s.hist)[j].n < Log(s.hist)[k].n
  {
    var a, p := LogAt(c, s, j);
    var b, r := LogAt(c, s, k);
    assert p == 0 && r == 0 && a < b;
    var a', p' := LogAt(c, s, j + 5);
    assert a' == a && p' == 5;
  }

  /** Barriers and causality: a PXF broadcast comes right after the start and the announcement of
      the same exposure under the same number and after all N "smc done"; an end of readout comes
      after the PXF broadcast of that number and after all N transfers. */
  lemma BarriersAndCausality(c: Config, s: State, j: nat)
    requires Reachable(c, s) && j < |Log(s.hist)|
    ensures var log := Log(s.hist); log[j].PxfBegun? ==>
              && log[j].heard == Everyone(|s.nodes|)
              && j >= 2 && log[j - 2] == Started(log[j].expID, log[j].n)
              && log[j - 1] == Announced(log[j].expID, log[j].n)
    ensures var log := Log(s.hist); log[j].ReadoutEnded? ==>
              && log[j].heard == Everyone(|s.nodes|)
              && j >= 1 && log[j - 1].PxfBegun? && log[j - 1].n == log[j].n
  {
    var i, p := LogAt(c, s, j);
    if p == 2 {
      var i1, p1 := LogAt(c, s, j - 1);
      var i2, p2 := LogAt(c, s, j - 2);
      assert i1 == i == i2 && p1 == 1 && p2 == 0;
    } else if p == 3 {
      var i1, p1 := LogAt(c, s, j - 1);
      assert i1 == i && p1 == 2;
    }
  }

  /** A "dca_done" about to be handled names the head of the queue, and a "clean done" about to be
      handled names an exposure that is not in the queue. */
  lemma NamedExposures(c: Config, s: State)
    requires Reachable(c, s)
    ensures s.dca.outbox != [] && s.dca.outbox[0].DcaDone? ==>
              |s.sup.queue| > 0 && s.sup.queue[0].expID == s.dca.outbox[0].expID
    ensures forall k :: 0 <= k < |s.nodes| && s.nodes[k].smcOut != [] && s.nodes[k].smcOut[0].CleanDone? ==>
              !Live(s.sup.queue, s.nodes[k].smcOut[0].expID)
  {
    ReachableInv(c, s);
    if s.dca.outbox != [] && s.dca.outbox[0].DcaDone? {
      DcaDoneNamesTheHead(c, s);
    }
    forall k | 0 <= k < |s.nodes| && s.nodes[k].smcOut != [] && s.nodes[k].smcOut[0].CleanDone?
      ensures !Live(s.sup.queue, s.nodes[k].smcOut[0].expID)
    {
      NodeAt(c, s, k);
      AbsentIdChangesNothing(s.sup.queue, Current(s), Available);
    }
  }

  /** An EndReadout that reaches the DCA finds its readout open, and never more than one readout
      is open. */
  lemma ReadoutIsOpen(c: Config, s: State)
    requires Reachable(c, s)
    ensures |s.dca.readouts| <= 1
    ensures s.dca.inbox != [] && s.dca.inbox[0].EndReadout? ==>
              && s.dca.readouts == {s.dca.inbox[0].n}
              && |s.sup.queue| > 0 && s.dca.expID == s.sup.queue[0].expID
  {
    ReachableInv(c, s);
    if s.dca.inbox != [] && s.dca.inbox[0].EndReadout? {
      EndComesLast(c, s);
      assert Ids(s.sup.queue)[0] == Current(s);
    }
  }

  lemma EndComesLast(c: Config, s: State)
    requires DcaOk(c, s) && s.dca.inbox != [] && s.dca.inbox[0].EndReadout?
    ensures Stage(s) == 4 && s.dca.inbox == [EndReadout(Seqno(c, s))]
    ensures s.dca.readouts == {Seqno(c, s)} && s.dca.expID == Current(s)
  {
    assert Stage(s) == 4;
    AnnouncedBefore(s.dca, Current(s), Seqno(c, s));
  }

  lemma AnnouncedBefore(d: Dca, e: ExpID, n: int)
    requires Announcing(d, e, n, [EndReadout(n)]) && d.inbox != [] && d.inbox[0].EndReadout?
    ensures d.inbox == [EndReadout(n)] && d.readouts == {n} && d.expID == e
  {
    var all := [StartReadout(n), ConfigureImage(n), SetExpID(n, e)] + [EndReadout(n)];
    var left := |d.inbox| - 1;
    assert d.inbox[0] == all[3 - left];
  }

  /** The counters are back to zero whenever the gate is open. */
  lemma CountersReset(c: Config, s: State)
    requires Reachable(c, s)
    ensures GateOpen(s.sup, |s.nodes|) <==> !InFlight(s)
    ensures GateOpen(s.sup, |s.nodes|) ==> s.sup.npxfStarted == 0 && s.sup.npxfTransferred == 0
  {
    ReachableInv(c, s);
  }

  /** A late close, by the trigger host or by another one, can make the active head ready again,
      and the gate still keeps it from being started twice. */
  lemma LateCloseIsHarmless(c: Config, s: State, id: ExpID, trigger: bool)
    requires Reachable(c, s) && InFlight(s) && id > 0
    ensures StepPoll(s.(sup := OnPanClose(s.sup, id, trigger))).hist == s.hist
  {
    ReachableInv(c, s);
  }

  // ----- progress -----

  function NodeWork(node: Node): nat {
    4 * |node.smcIn| + (if node.smcBusy.Some? then 2 else 0) + |node.smcOut|
    + 4 * |node.pxfIn| + (if node.pxfBusy.Some? then 3 else 0) + 2 * |node.pxfOut|
  }

  function TotalWork(nodes: seq<Node>): nat {
    if nodes == [] then 0 else TotalWork(nodes[..|nodes| - 1]) + NodeWork(nodes[|nodes| - 1])
  }

  /** What the stages after the current one will still put into the channels, at most. */
  function WorkAhead(stage: nat, N: nat): nat {
    if stage == 1 then 16 * N + 8
    else if stage == 2 then 16 * N + 2
    else if stage == 3 then 4 * N + 2
    else if stage == 4 then 4 * N
    else 0
  }

  /** Bound on the number of internal steps until the gate opens again. */
  function Measure(s: State): nat {
    WorkAhead(Stage(s), |s.nodes|) + TotalWork(s.nodes) + 2 * |s.dca.inbox| + |s.dca.outbox|
  }

  lemma {:induction false} WorkUpdate(nodes: seq<Node>, k: nat, node: Node)
    requires k < |nodes|
    ensures TotalWork(nodes[k := node]) == TotalWork(nodes) - NodeWork(nodes[k]) + NodeWork(node)
  {
    var last := |nodes| - 1;
    if k < last {
      WorkUpdate(nodes[..last], k, node);
      assert nodes[k := node][..last] == nodes[..last][k := node];
    } else {
      assert nodes[k := node][..last] == nodes[..last];
    }
  }

  function SentWork(out: Out): nat {
    4 * |out.smc| + 4 * |out.pxf|
  }

  function Times(n: nat, w: nat): nat {
    if n == 0 then 0 else Times(n - 1, w) + w
  }

  lemma {:induction false} TimesConstant(n: nat)
    ensures Times(n, 0) == 0 && Times(n, 4) == 4 * n && Times(n, 12) == 12 * n
  {
    if n > 0 {
      TimesConstant(n - 1);
    }
  }

  lemma {:induction false} WorkBroadcast(nodes: seq<Node>, out: Out)
    ensures TotalWork(Broadcast(nodes, out)) == TotalWork(nodes) + Times(|nodes|, SentWork(out))
  {
    if nodes != [] {
      var last := |nodes| - 1;
      WorkBroadcast(nodes[..last], out);
      assert Broadcast(nodes, out)[..last] == Broadcast(nodes[..last], out);
      assert NodeWork(Broadcast(nodes, out)[last]) == NodeWork(nodes[last]) + SentWork(out);
    }
  }

  /** What a handler that sends `out`, worth `w` per node, leaves to do. */
  lemma HandlerWork(s: State, t: State, sup: Sup, out: Out, hist: History, w: nat)
    requires t == Deliver(s, sup, out).(hist := hist) && SentWork(out) == w
    ensures Measure(t) == WorkAhead(|hist.now|, |s.nodes|) + TotalWork(s.nodes) + Times(|s.nodes|, w)
                          + 2 * |s.dca.inbox| + 2 * |out.dca| + |s.dca.outbox|
    ensures w == 0 ==> Times(|s.nodes|, w) == 0
    ensures w == 4 ==> Times(|s.nodes|, w) == 4 * |s.nodes|
    ensures w == 12 ==> Times(|s.nodes|, w) == 12 * |s.nodes|
  {
    WorkBroadcast(s.nodes, out);
    TimesConstant(|s.nodes|);
  }

  lemma NodeStepWork(c: Config, s: State, k: nat, node: Node)
    requires Inv(c, s) && k < |s.nodes| && NodeWork(node) < NodeWork(s.nodes[k])
    ensures Measure(s.(nodes := s.nodes[k := node])) < Measure(s)
  {
    WorkUpdate(s.nodes, k, node);
  }

  /** The Supervisor takes one message from node `k`. */
  function Taken(s: State, k: nat): State
    requires k < |s.nodes| && s.nodes[k].smcOut != []
  {
    s.(nodes := s.nodes[k := s.nodes[k].(smcOut := s.nodes[k].smcOut[1..])])
  }

  lemma TakenWork(s: State, k: nat)
    requires k < |s.nodes| && s.nodes[k].smcOut != []
    ensures TotalWork(Taken(s, k).nodes) == TotalWork(s.nodes) - 1
  {
    WorkUpdate(s.nodes, k, s.nodes[k].(smcOut := s.nodes[k].smcOut[1..]));
  }

  lemma ImageTypeWork(s: State, k: nat)
    requires Enabled(s, SupHearsSmc(k)) && s.nodes[k].smcOut[0].ImageType? && Stage(s) == 1
    ensures Measure(StepSupHearsSmc(s, k)) < Measure(s)
  {
    var t := StepSupHearsSmc(s, k);
    var (sup, out) := OnImageType(s.sup, s.nodes[k].smcOut[0].expID);
    TakenWork(s, k);
    HandlerWork(Taken(s, k), t, sup, out, t.hist, 0);
  }

  lemma SmcDoneWork(s: State, k: nat)
    requires Enabled(s, SupHearsSmc(k)) && s.nodes[k].smcOut[0].SmcDone?
    requires s.sup.npxfStarted + 1 >= |s.nodes| ==> Stage(s) == 2
    ensures Measure(StepSupHearsSmc(s, k)) < Measure(s)
  {
    var t := StepSupHearsSmc(s, k);
    var (sup, out) := OnSmcDone(s.sup, s.nodes[k].smcOut[0].expID, |s.nodes|);
    TakenWork(s, k);
    if s.sup.npxfStarted + 1 >= |s.nodes| {
      HandlerWork(Taken(s, k), t, sup, out, t.hist, 12);
    } else {
      HandlerWork(Taken(s, k), t, sup, out, t.hist, 0);
    }
  }

  lemma CleanDoneWork(s: State, k: nat)
    requires Enabled(s, SupHearsSmc(k)) && s.nodes[k].smcOut[0].CleanDone? && Stage(s) == 5
    ensures Measure(StepSupHearsSmc(s, k)) < Measure(s)
  {
    var t := StepSupHearsSmc(s, k);
    var (sup, out) := OnCleanDone(s.sup, s.nodes[k].smcOut[0].expID);
    TakenWork(s, k);
    HandlerWork(Taken(s, k), t, sup, out, t.hist, 0);
  }

  lemma HearSmcWork(c: Config, s: State, k: nat)
    requires Inv(c, s) && Enabled(s, SupHearsSmc(k))
    ensures Measure(StepSupHearsSmc(s, k)) < Measure(s)
  {
    NodeAt(c, s, k);
    if s.nodes[k].smcOut[0].ImageType? {
      ImageTypeWork(s, k);
    } else if s.nodes[k].smcOut[0].CleanDone? {
      CleanDoneWork(s, k);
    } else {
      if s.sup.npxfStarted + 1 >= |s.nodes| {
        SmcBarrier(c, s, k);
      }
      SmcDoneWork(s, k);
    }
  }

  lemma TransDoneWork(s: State)
    requires Enabled(s, SupHearsDca) && s.dca.outbox[0].TransDone? && Stage(s) == 3
    ensures Measure(StepSupHearsDca(s)) < Measure(s)
  {
    var t := StepSupHearsDca(s);
    var (sup, out) := OnTransDone(s.sup, s.dca.outbox[0].n, |s.nodes|);
    HandlerWork(s.(dca := s.dca.(outbox := s.dca.outbox[1..])), t, sup, out, t.hist, 0);
  }

  lemma DcaDoneWork(s: State)
    requires Enabled(s, SupHearsDca) && s.dca.outbox[0].DcaDone? && Stage(s) == 4
    ensures Measure(StepSupHearsDca(s)) < Measure(s)
  {
    var t := StepSupHearsDca(s);
    var (sup, out) := OnDcaDone(s.sup, s.dca.outbox[0].expID);
    HandlerWork(s.(dca := s.dca.(outbox := s.dca.outbox[1..])), t, sup, out, t.hist, 4);
  }

  lemma SmcTakesWork(c: Config, s: State, k: nat)
    requires Inv(c, s) && Enabled(s, SmcTakes(k))
    ensures Measure(Apply(c, s, SmcTakes(k))) < Measure(s)
  {
    NodeStepWork(c, s, k, StepSmcTakes(c, s.nodes[k], k));
  }

  lemma PxfTakesWork(c: Config, s: State, k: nat)
    requires Inv(c, s) && Enabled(s, PxfTakes(k))
    ensures Measure(Apply(c, s, PxfTakes(k))) < Measure(s)
  {
    NodeStepWork(c, s, k, StepPxfTakes(s.nodes[k]));
  }

  lemma SmcFinishesWork(c: Config, s: State, k: nat)
    requires Inv(c, s) && Enabled(s, SmcFinishes(k))
    ensures Measure(Apply(c, s, SmcFinishes(k))) < Measure(s)
  {
    NodeStepWork(c, s, k, StepSmcFinishes(s.nodes[k]));
  }

  lemma PxfFinishesWork(c: Config, s: State, k: nat, stamped: bool)
    requires Inv(c, s) && Enabled(s, PxfFinishes(k, stamped))
    ensures Measure(Apply(c, s, PxfFinishes(k, stamped))) < Measure(s)
  {
    NodeStepWork(c, s, k, StepPxfFinishes(s.nodes[k], stamped));
  }

  lemma HearDcaWork(c: Config, s: State)
    requires Inv(c, s) && Enabled(s, SupHearsDca)
    ensures Measure(StepSupHearsDca(s)) < Measure(s)
  {
    if s.dca.outbox[0].TransDone? {
      TransDoneWork(s);
    } else {
      DcaDoneWork(s);
    }
  }

  lemma DcaHearsPxfWork(c: Config, s: State, k: nat)
    requires Inv(c, s) && Enabled(s, DcaHearsPxf(k))
    ensures Measure(Apply(c, s, DcaHearsPxf(k))) < Measure(s)
  {
    WorkUpdate(s.nodes, k, s.nodes[k].(pxfOut := s.nodes[k].pxfOut[1..]));
  }

  lemma DcaHearsSupWork(c: Config, s: State)
    requires Inv(c, s) && Enabled(s, DcaHearsSup)
    ensures Measure(Apply(c, s, DcaHearsSup)) < Measure(s)
  {
  }

  /** Every internal step brings the end of the current exposure closer. */
  lemma InternalStepWork(c: Config, s: State, step: Step)
    requires Inv(c, s) && Enabled(s, step) && !External(step)
    ensures Measure(Apply(c, s, step)) < Measure(s)
  {
    match step
    case SmcTakes(k) => SmcTakesWork(c, s, k);
    case SmcFinishes(k) => SmcFinishesWork(c, s, k);
    case PxfTakes(k) => PxfTakesWork(c, s, k);
    case PxfFinishes(k, stamped) => PxfFinishesWork(c, s, k, stamped);
    case DcaHearsPxf(k) => DcaHearsPxfWork(c, s, k);
    case DcaHearsSup => DcaHearsSupWork(c, s);
    case SupHearsSmc(k) => HearSmcWork(c, s, k);
    case SupHearsDca => HearDcaWork(c, s);
  }

  /** The operator and the PAN clients cannot add work to an exposure in flight. */
  lemma ExternalStepWork(c: Config, s: State, step: Step)
    requires Inv(c, s) && Enabled(s, step) && External(step) && InFlight(s)
    ensures Measure(Apply(c, s, step)) == Measure(s)
  {
    if step.Poll? {
      SilenceChangesNothing(s);
    }
  }

  /** While an exposure is in flight some node, or the DCA, or the Supervisor can move; and when
      nothing internal can move, the gate is open. */
  lemma SomethingCanMove(c: Config, s: State) returns (step: Step)
    requires Inv(c, s)
    ensures InFlight(s) ==> Enabled(s, step) && !External(step)
    ensures !InFlight(s) ==> GateOpen(s.sup, |s.nodes|)
  {
    step := Poll;
    if s.dca.inbox != [] {
      step := DcaHearsSup;
    } else if s.dca.outbox != [] {
      step := SupHearsDca;
    } else if InFlight(s) {
      step := NodeCanMove(c, s);
    }
  }

  lemma NodeCanMove(c: Config, s: State) returns (step: Step)
    requires Inv(c, s) && InFlight(s) && s.dca.inbox == [] && s.dca.outbox == []
    ensures Enabled(s, step) && !External(step)
  {
    var k := SomeoneUnheard(s.hist.heard, |s.nodes|);
    NodeAt(c, s, k);
    var node := s.nodes[k];
    step :=
      if node.smcBusy.Some? then SmcFinishes(k)
      else if node.smcIn != [] then SmcTakes(k)
      else if node.smcOut != [] then SupHearsSmc(k)
      else if node.pxfBusy.Some? then PxfFinishes(k, true)
      else if node.pxfIn != [] then PxfTakes(k)
      else DcaHearsPxf(k);
  }

  lemma SomeoneUnheard(heard: set<nat>, N: nat) returns (k: nat)
    requires |heard| < N && heard <= Everyone(N)
    ensures k < N && k !in heard
  {
    EveryoneSize(N);
    if Everyone(N) <= heard {
      SubsetSize(Everyone(N), heard);
      assert false;
    }
    k :| k in Everyone(N) && k !in heard;
  }

  /** Progress: no run of internal steps is longer than the measure ... */
  lemma {:induction false} InternalRunsEnd(c: Config, s: State, steps: seq<Step>, t: State)
    requires Inv(c, s) && Runs(c, s, steps, t)
    requires forall j :: 0 <= j < |steps| ==> !External(steps[j])
    ensures |steps| + Measure(t) <= Measure(s)
    decreases |steps|
  {
    if steps != [] {
      StepInv(c, s, steps[0]);
      InternalStepWork(c, s, steps[0]);
      InternalRunsEnd(c, Apply(c, s, steps[0]), steps[1..], t);
    }
  }

  lemma MoveOn(c: Config, s: State) returns (step: Step, t: State)
    requires Inv(c, s) && InFlight(s)
    ensures Enabled(s, step) && !External(step) && t == Apply(c, s, step)
    ensures Inv(c, t) && Measure(t) < Measure(s)
  {
    step := SomethingCanMove(c, s);
    t := Apply(c, s, step);
    StepInv(c, s, step);
    InternalStepWork(c, s, step);
  }

  /** ... and from every reachable state internal steps alone lead to an open gate ... */
  lemma {:induction false} GateOpensAgain(c: Config, s: State) returns (steps: seq<Step>, t: State)
    requires Inv(c, s)
    ensures Runs(c, s, steps, t) && forall j :: 0 <= j < |steps| ==> !External(steps[j])
    ensures Inv(c, t) && !InFlight(t)
    decreases Measure(s)
  {
    if InFlight(s) {
      var step, s' := MoveOn(c, s);
      var rest;
      rest, t := GateOpensAgain(c, s');
      steps := [step] + rest;
      RunStep(c, s, step, rest, t);
    } else {
      steps, t := [], s;
    }
  }

  lemma RunStep(c: Config, s: State, step: Step, rest: seq<Step>, t: State)
    requires Enabled(s, step) && Runs(c, Apply(c, s, step), rest, t)
    ensures Runs(c, s, [step] + rest, t)
  {
    assert ([step] + rest)[1..] == rest;
  }

  /** ... at which point the next poll starts the head of the queue if it is ready. */
  lemma ReadyHeadStarts(c: Config, s: State)
    requires Reachable(c, s) && !InFlight(s) && Next(s.sup.queue) != 0
    ensures StepPoll(s).hist.now == [Started(s.sup.queue[0].expID, s.sup.imgSeqNo + 1)]
  {
    ReachableInv(c, s);
  }

  // ----- from the shutter to the start -----

  lemma LogGrows(h: History, ev: Event)
    requires !ev.Reopened?
    ensures Log(Record(h, ev)) == Log(h) + [ev]
  {
    assert Flat(h.past) + (h.now + [ev]) == Flat(h.past) + h.now + [ev];
  }

  /** The end of an exposure starts it: with the gate open, a close of the head of the queue by the
      trigger host, or the second close since the last open, is followed by its start under the
      next number as soon as the Supervisor polls. */
  lemma CloseStarts(c: Config, s: State, id: ExpID, trigger: bool)
    requires |s.sup.queue| > 0 && s.sup.queue[0].expID == id > 0 && (trigger || s.sup.closeExp + 1 == 2)
    requires s.sup.dcaDone < 0 || s.sup.dcaDone >= |s.nodes|
    ensures Enabled(s, PanClose(id, trigger))
    ensures var t := Apply(c, s, PanClose(id, trigger));
      && t.sup.queue == s.sup.queue[0 := Entry(id, Ready)] && t.hist == s.hist
      && var u := Apply(c, t, Poll);
      && u.sup.queue == s.sup.queue[0 := Entry(id, Active)] && u.sup.imgSeqNo == s.sup.imgSeqNo + 1
      && Log(u.hist) == Log(s.hist) + [Started(id, s.sup.imgSeqNo + 1)]
      && forall k :: 0 <= k < |s.nodes| ==>
          && u.nodes[k].smcIn == s.nodes[k].smcIn + [SmcSeqno(s.sup.imgSeqNo + 1), SmcProcess(id)]
          && u.nodes[k].pxfIn == s.nodes[k].pxfIn + [PxfSeqno(s.sup.imgSeqNo + 1)]
  {
    assert FoundAt(s.sup.queue, id, 0);
    StatusIsSet(s.sup.queue, id, Ready);
    var q := s.sup.queue[0 := Entry(id, Ready)];
    assert FoundAt(q, id, 0);
    StatusIsSet(q, id, Active);
    LogGrows(s.hist, Started(id, s.sup.imgSeqNo + 1));
  }

  /** An exposure that is open is not started, whatever the gate; nor does a first close by another
      host than the trigger host start it. */
  lemma OpenWaits(c: Config, s: State, id: ExpID)
    requires s.sup.queue == [] && FreshId(s, id)
    ensures Enabled(s, PanOpen(id, true))
    ensures var t := Apply(c, s, PanOpen(id, true));
      && t.sup.queue == [Entry(id, Start)] && t.sup.closeExp == 0
      && Log(Apply(c, t, Poll).hist) == Log(s.hist) && Apply(c, t, Poll).sup == t.sup
      && var u := Apply(c, t, PanClose(id, false));
      && u.sup.queue == [Entry(id, Start)] && u.sup.closeExp == 1 && Apply(c, u, Poll).sup == u.sup
  {
  }

  /** Together: in every reachable state the exposure in flight is completed by internal steps, at
      most as many as the measure says, and the start gate opens. */
  lemma EveryExposureCompletes(c: Config, s: State) returns (steps: seq<Step>, t: State)
    requires Reachable(c, s)
    ensures Runs(c, s, steps, t) && forall j :: 0 <= j < |steps| ==> !External(steps[j])
    ensures |steps| <= Measure(s) && GateOpen(t.sup, |t.nodes|)
  {
    ReachableInv(c, s);
    steps, t := GateOpensAgain(c, s);
    InternalRunsEnd(c, s, steps, t);
  }

  /** How many of the steps are internal. */
  function InternalSteps(steps: seq<Step>): nat {
    if steps == [] then 0 else InternalSteps(steps[1..]) + if External(steps[0]) then 0 else 1
  }

  /** Fairness is all it takes: every run from a reachable state that has as many internal steps as
      the measure says passes through an open gate, whatever polls and PAN messages come between. */
  lemma EveryRunReopens(c: Config, s: State, steps: seq<Step>, t: State) returns (i: nat, u: State)
    requires Reachable(c, s) && Runs(c, s, steps, t) && InternalSteps(steps) >= Measure(s)
    ensures i <= |steps| && Runs(c, s, steps[..i], u) && Runs(c, u, steps[i..], t)
    ensures GateOpen(u.sup, |u.nodes|) && !InFlight(u)
  {
    ReachableInv(c, s);
    i, u := GateOnTheWay(c, s, steps, t);
  }

  lemma StepWork(c: Config, s: State, step: Step)
    requires Inv(c, s) && Enabled(s, step) && InFlight(s)
    ensures var t := Apply(c, s, step);
      Inv(c, t) && if External(step) then Measure(t) == Measure(s) else Measure(t) < Measure(s)
  {
    StepInv(c, s, step);
    if External(step) {
      ExternalStepWork(c, s, step);
    } else {
      InternalStepWork(c, s, step);
    }
  }

  lemma StepsLeft(c: Config, s: State, steps: seq<Step>)
    requires Inv(c, s) && InFlight(s) && InternalSteps(steps) >= Measure(s)
    ensures steps != []
  {
    var step, t := MoveOn(c, s);
  }

  lemma FirstStep(c: Config, s: State, steps: seq<Step>, i: nat, u: State, t: State)
    requires steps != [] && Enabled(s, steps[0]) && i < |steps|
    requires Runs(c, Apply(c, s, steps[0]), steps[1..][..i], u) && Runs(c, u, steps[1..][i..], t)
    ensures Runs(c, s, steps[..i + 1], u) && Runs(c, u, steps[i + 1..], t)
  {
    RunStep(c, s, steps[0], steps[1..][..i], u);
    assert [steps[0]] + steps[1..][..i] == steps[..i + 1] && steps[1..][i..] == steps[i + 1..];
  }

  lemma {:induction false} GateOnTheWay(c: Config, s: State, steps: seq<Step>, t: State) returns (i: nat, u: State)
    requires Inv(c, s) && Runs(c, s, steps, t) && InternalSteps(steps) >= Measure(s)
    ensures i <= |steps| && Runs(c, s, steps[..i], u) && Runs(c, u, steps[i..], t)
    ensures GateOpen(u.sup, |u.nodes|) && !InFlight(u)
    decreases |steps|
  {
    if InFlight(s) {
      StepsLeft(c, s, steps);
      StepWork(c, s, steps[0]);
      i, u := GateOnTheWay(c, Apply(c, s, steps[0]), steps[1..], t);
      FirstStep(c, s, steps, i, u, t);
      i := i + 1;
    } else {
      var move := SomethingCanMove(c, s);
      assert steps[..0] == [] && steps[0..] == steps;
      i, u := 0, s;
    }
  }

  /** Why new IDs must differ from the one being cleaned up: a "clean done" for an ID that is in
      the queue again takes the entry out of the running, and a poll no longer sees it. */
  lemma ReusedIdStalls(s: Sup, e: ExpID, N: nat)
    requires |s.queue| > 0 && s.queue[0] == Entry(e, Ready) && e > 0
    ensures Next(s.queue) == e && Next(OnCleanDone(s, e).0.queue) == 0
    ensures ProcNext(OnCleanDone(s, e).0, N) == (OnCleanDone(s, e).0, SILENT)
  {
    assert Find(s.queue, e, Searched(s.queue)) == 0;
  }
}
