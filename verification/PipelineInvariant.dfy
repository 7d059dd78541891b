/** The invariant of the exposure pipeline and its preservation by every step. */
module PipelineInvariant {
  import opened ProcQueue
  import opened Pipeline

  // ----- where the run is -----

  /** Number of exposures that are completely finished. */
  function Finished(s: State): nat {
    |s.hist.past|
  }

  /** Stage of the exposure in flight: 0 none, 1 started, 2 announced, 3 with the picture feeds,
      4 readout ended, 5 cleaning up. */
  function Stage(s: State): nat {
    |s.hist.now|
  }

  function Current(s: State): ExpID {
    if Finished(s) < |s.hist.added| then s.hist.added[Finished(s)] else 0
  }

  function Seqno(c: Config, s: State): int {
    c.seqno + Finished(s) + 1
  }

  // ----- the parts of the invariant -----

  /** Every finished piece of the log is a full cycle, and the current piece the beginning of
      one, of the exposures in the order they were added. */
  ghost predicate LogOk(c: Config, s: State) {
    var added, past, N := s.hist.added, s.hist.past, |s.nodes|;
    && |past| <= |added|
    && (forall i :: 0 <= i < |past| ==> past[i] == Cycle(added[i], c.seqno + i + 1, N))
    && Stage(s) < 6
    && (Stage(s) > 0 ==>
          |past| < |added| && s.hist.now == Cycle(added[|past|], Seqno(c, s), N)[..Stage(s)])
  }

  /** The queue holds the added exposures that are not removed yet. */
  ghost predicate QueueOk(s: State) {
    var gone := Finished(s) + if Stage(s) == 5 then 1 else 0;
    && gone <= |s.hist.added|
    && Ids(s.sup.queue) == s.hist.added[gone..]
    && DistinctIds(s.sup.queue)
    && (forall k :: 0 <= k < |s.sup.queue| ==> s.sup.queue[k].expID > 0)
    && (Stage(s) == 5 ==> Current(s) > 0 && Current(s) !in Ids(s.sup.queue))
  }

  ghost predicate CountersOk(c: Config, s: State) {
    var p, N, h := Stage(s), |s.nodes|, |s.hist.heard|;
    && s.hist.heard <= Everyone(N)
    && s.sup.imgSeqNo == Seqno(c, s) - (if p == 0 then 1 else 0)
    && s.sup.npxfStarted == (if p == 1 || p == 2 then h else 0)
    && s.sup.npxfTransferred == (if p == 3 then h else 0)
    && (p == 0 || p == 4 ==> s.hist.heard == {})
    && h < N
    && (if p == 0 then GateOpen(s.sup, N) && s.sup.dcaDone <= N
        else s.sup.dcaDone == if p == 5 then h else 0)
  }

  predicate SmcQuiet(node: Node) {
    node.smcIn == [] && node.smcBusy.None? && node.smcOut == []
  }

  predicate PxfQuiet(node: Node) {
    node.pxfIn == [] && node.pxfBusy.None? && node.pxfOut == []
  }

  /** Stages 1 and 2, SMC manager: its one outstanding reply is in exactly one place.  `owes` is
      the image type message if it is still to be handled. */
  predicate SmcWorking(node: Node, e: ExpID, n: int, heard: bool, isMeta: bool, announced: bool) {
    var owes := if isMeta && !announced then [ImageType(e)] else [];
    if node.smcIn != [] then
      && !heard && node.smcBusy.None? && node.smcOut == [] && !(isMeta && announced)
      && (node.smcIn == [SmcSeqno(n), SmcProcess(e)] || (node.smcIn == [SmcProcess(e)] && node.smcSeqno == n))
    else
      && node.pageSeqno == n
      && if node.smcBusy.Some? then !heard && node.smcBusy.value == e && node.smcOut == owes
         else if heard then node.smcOut == [] && owes == []
         else node.smcOut == owes + [SmcDone(e)]
  }

  /** Stages 1 and 2, picture feed: at most the sequence number is on its way. */
  predicate PxfWaiting(node: Node, n: int) {
    && node.pxfBusy.None? && node.pxfOut == []
    && (node.pxfIn == [PxfSeqno(n)] || (node.pxfIn == [] && node.pxfSeqno == n))
  }

  /** Stage 3, picture feed: `passed` says its report has reached the DCA. */
  predicate PxfWorking(node: Node, e: ExpID, n: int, passed: bool) {
    if node.pxfIn != [] then
      && !passed && node.pxfBusy.None? && node.pxfOut == []
      && (|| node.pxfIn == [PxfSeqno(n), PxfSeqno(n), PxfDcaTid, PxfProcess(e)]
          || node.pxfIn == [PxfSeqno(n), PxfDcaTid, PxfProcess(e)]
          || (node.pxfSeqno == n && (node.pxfIn == [PxfDcaTid, PxfProcess(e)] || node.pxfIn == [PxfProcess(e)])))
    else if node.pxfBusy.Some? then !passed && node.pxfSeqno == n && node.pxfOut == []
    else node.pxfOut == if passed then [] else [n]
  }

  /** Stage 5, SMC manager. */
  predicate SmcCleaning(node: Node, e: ExpID, heard: bool) {
    && node.smcBusy.None?
    && if node.smcIn != [] then !heard && node.smcIn == [SmcFinish(e)] && node.smcOut == []
       else node.smcOut == if heard then [] else [CleanDone(e)]
  }

  predicate Reported(d: Dca, n: int, k: nat) {
    TransDone(n, k) in d.outbox
  }

  ghost predicate NodeOk(c: Config, s: State, k: nat)
    requires k < |s.nodes|
  {
    var p, e, n, node, heard := Stage(s), Current(s), Seqno(c, s), s.nodes[k], k in s.hist.heard;
    if p == 0 || p == 4 then SmcQuiet(node) && PxfQuiet(node)
    else if p <= 2 then SmcWorking(node, e, n, heard, k == c.meta, p == 2) && PxfWaiting(node, n)
    else if p == 3 then
      && SmcQuiet(node) && node.pageSeqno == n
      && !(heard && Reported(s.dca, n, k))
      && PxfWorking(node, e, n, heard || Reported(s.dca, n, k))
    else SmcCleaning(node, e, heard) && PxfQuiet(node)
  }

  ghost predicate NodesOk(c: Config, s: State) {
    c.meta < |s.nodes| && c.seqno >= 0 && forall k :: 0 <= k < |s.nodes| ==> NodeOk(c, s, k)
  }

  /** The DCA's inbox is what is left of the announcement, followed by `tail`. */
  predicate Announcing(d: Dca, e: ExpID, n: int, tail: seq<ToDca>) {
    var all := [StartReadout(n), ConfigureImage(n), SetExpID(n, e)] + tail;
    var left := |d.inbox| - |tail|;
    && 0 <= left <= 3
    && d.inbox == all[3 - left..]
    && d.readouts == (if left == 3 then {} else {n})
    && (left == 0 ==> d.expID == e)
  }

  ghost predicate DcaOk(c: Config, s: State) {
    var p, e, n, d := Stage(s), Current(s), Seqno(c, s), s.dca;
    if p == 2 then Announcing(d, e, n, []) && d.outbox == []
    else if p == 3 then
      && Announcing(d, e, n, [])
      && (forall a :: 0 <= a < |d.outbox| ==>
          d.outbox[a].TransDone? && d.outbox[a].n == n && d.outbox[a].node < |s.nodes|)
      && (forall a, b :: 0 <= a < b < |d.outbox| ==> d.outbox[a] != d.outbox[b])
    else if p == 4 && d.inbox != [] then Announcing(d, e, n, [EndReadout(n)]) && d.outbox == []
    else d.inbox == [] && d.readouts == {} && d.outbox == if p == 4 then [DcaDone(e)] else []
  }

  ghost predicate Inv(c: Config, s: State) {
    LogOk(c, s) && QueueOk(s) && CountersOk(c, s) && NodesOk(c, s) && DcaOk(c, s)
  }

  // ----- helpers -----

  lemma NodeAt(c: Config, s: State, k: nat)
    requires NodesOk(c, s) && k < |s.nodes|
    ensures NodeOk(c, s, k)
  {
  }

  lemma {:induction false} EveryoneSize(N: nat)
    ensures |Everyone(N)| == N
  {
    if N > 0 {
      EveryoneSize(N - 1);
    }
  }

  /** Hearing from one more node: either all have been heard from now, or some have not. */
  lemma OneMoreHeard(heard: set<nat>, k: nat, N: nat)
    requires heard <= Everyone(N) && k < N && k !in heard
    ensures |heard + {k}| == |heard| + 1 <= N
    ensures |heard| + 1 == N ==> heard + {k} == Everyone(N)
  {
    EveryoneSize(N);
    SubsetSize(heard + {k}, Everyone(N));
  }

  lemma {:induction false} SubsetSize(a: set<nat>, b: set<nat>)
    requires a <= b
    ensures |a| <= |b|
    ensures |a| == |b| ==> a == b
  {
    if a != {} {
      var x :| x in a;
      SubsetSize(a - {x}, b - {x});
      assert a == (a - {x}) + {x} && b == (b - {x}) + {x};
    }
  }

  /** The log grows by the next event of the current exposure's cycle. */
  lemma LogGrows(c: Config, s: State, t: State, ev: Event)
    requires LogOk(c, s) && Finished(s) < |s.hist.added|
    requires t.hist.added == s.hist.added && |t.nodes| == |s.nodes|
    requires ev == Cycle(Current(s), Seqno(c, s), |s.nodes|)[Stage(s)]
    requires t.hist == Record(s.hist.(heard := t.hist.heard), ev)
    ensures LogOk(c, t)
    ensures Stage(t) == (if Stage(s) == 5 then 0 else Stage(s) + 1)
    ensures Finished(t) == Finished(s) + (if Stage(s) == 5 then 1 else 0)
  {
    var p := Stage(s);
    var cycle := Cycle(Current(s), Seqno(c, s), |s.nodes|);
    assert cycle[..p] + [ev] == cycle[..p + 1];
    assert p == 0 ==> s.hist.now == cycle[..p];
    assert cycle[..6] == cycle;
  }

  /** Only the counters, the queue and the channels changed. */
  lemma SameLog(c: Config, s: State, t: State)
    requires LogOk(c, s) && t.hist.past == s.hist.past && t.hist.now == s.hist.now
    requires |t.nodes| == |s.nodes| && s.hist.added <= t.hist.added
    ensures LogOk(c, t) && Stage(t) == Stage(s) && Finished(t) == Finished(s)
    ensures Finished(s) < |s.hist.added| ==> Current(t) == Current(s)
    ensures Seqno(c, t) == Seqno(c, s)
  {
  }

  lemma SilenceChangesNothing(s: State)
    ensures Deliver(s, s.sup, SILENT) == s
  {
    forall k | 0 <= k < |s.nodes| ensures Broadcast(s.nodes, SILENT)[k] == s.nodes[k] {
      assert s.nodes[k].smcIn + [] == s.nodes[k].smcIn && s.nodes[k].pxfIn + [] == s.nodes[k].pxfIn;
    }
    assert s.dca.inbox + [] == s.dca.inbox;
  }

  // ----- every step keeps the invariant -----

  lemma InitNodes(c: Config, s: State)
    requires Init(c, s)
    ensures NodesOk(c, s)
  {
  }

  lemma InitInv(c: Config, s: State)
    requires Init(c, s)
    ensures Inv(c, s)
  {
    InitNodes(c, s);
    assert LogOk(c, s) && Stage(s) == 0 && Finished(s) == 0;
  }

  lemma PollInv(c: Config, s: State)
    requires Inv(c, s)
    ensures Inv(c, StepPoll(s))
  {
    var t := StepPoll(s);
    var q := s.sup.queue;
    var e := Next(q);
    if e > 0 && GateOpen(s.sup, |s.nodes|) {
      assert Stage(s) == 0;
      assert q[0].expID == Ids(q)[0] == s.hist.added[Finished(s)] == Current(s);
      LogGrows(c, s, t, Started(e, Seqno(c, s)));
      StatusKeepsIds(q, e, Active);
      assert forall k :: 0 <= k < |q| ==> t.sup.queue[k].expID == Ids(t.sup.queue)[k] == q[k].expID;
      forall k | 0 <= k < |t.nodes| ensures NodeOk(c, t, k) {
        NodeAt(c, s, k);
      }
    } else {
      assert Deliver(s, s.sup, SILENT) == s by {
        SilenceChangesNothing(s);
      }
      assert t == s;
    }
  }

  lemma PanOpenInv(c: Config, s: State, id: ExpID, trigger: bool)
    requires Inv(c, s) && FreshId(s, id)
    ensures Inv(c, StepPanOpen(s, id, trigger))
  {
    var t := StepPanOpen(s, id, trigger);
    if trigger {
      SameLog(c, s, t);
      var q := s.sup.queue;
      assert Ids(t.sup.queue) == Ids(q) + [id];
      assert forall k :: 0 <= k < |q| ==> q[k].expID == Ids(q)[k];
      forall k | 0 <= k < |t.nodes| ensures NodeOk(c, t, k) {
        NodeAt(c, s, k);
      }
    } else {
      assert t.hist.added == s.hist.added;
      assert t == s;
    }
  }

  lemma PanCloseInv(c: Config, s: State, id: ExpID, trigger: bool)
    requires Inv(c, s)
    ensures Inv(c, s.(sup := OnPanClose(s.sup, id, trigger)))
  {
    var t := s.(sup := OnPanClose(s.sup, id, trigger));
    SameLog(c, s, t);
    StatusKeepsIds(s.sup.queue, id, Ready);
    assert forall k :: 0 <= k < |t.sup.queue| ==> t.sup.queue[k].expID == Ids(t.sup.queue)[k] == Ids(s.sup.queue)[k];
    forall k | 0 <= k < |t.nodes| ensures NodeOk(c, t, k) {
      NodeAt(c, s, k);
    }
  }

  /** A step inside node `k` that keeps its own part of the invariant. */
  lemma LocalStep(c: Config, s: State, k: nat, node: Node)
    requires Inv(c, s) && k < |s.nodes|
    requires NodeOk(c, s.(nodes := s.nodes[k := node]), k)
    ensures Inv(c, s.(nodes := s.nodes[k := node]))
  {
    var t := s.(nodes := s.nodes[k := node]);
    SameLog(c, s, t);
    forall j | 0 <= j < |t.nodes| ensures NodeOk(c, t, j) {
      NodeAt(c, s, j);
    }
  }

  lemma SmcTakesInv(c: Config, s: State, k: nat)
    requires Inv(c, s) && Enabled(s, SmcTakes(k))
    ensures Inv(c, Apply(c, s, SmcTakes(k)))
  {
    NodeAt(c, s, k);
    LocalStep(c, s, k, StepSmcTakes(c, s.nodes[k], k));
  }

  lemma SmcFinishesInv(c: Config, s: State, k: nat)
    requires Inv(c, s) && Enabled(s, SmcFinishes(k))
    ensures Inv(c, Apply(c, s, SmcFinishes(k)))
  {
    NodeAt(c, s, k);
    LocalStep(c, s, k, StepSmcFinishes(s.nodes[k]));
  }

  lemma PxfTakesInv(c: Config, s: State, k: nat)
    requires Inv(c, s) && Enabled(s, PxfTakes(k))
    ensures Inv(c, Apply(c, s, PxfTakes(k)))
  {
    NodeAt(c, s, k);
    LocalStep(c, s, k, StepPxfTakes(s.nodes[k]));
  }

  lemma PxfFinishesInv(c: Config, s: State, k: nat, stamped: bool)
    requires Inv(c, s) && Enabled(s, PxfFinishes(k, stamped))
    ensures Inv(c, Apply(c, s, PxfFinishes(k, stamped)))
  {
    NodeAt(c, s, k);
    LocalStep(c, s, k, StepPxfFinishes(s.nodes[k], stamped));
  }

  lemma DcaHearsPxfInv(c: Config, s: State, k: nat)
    requires Inv(c, s) && Enabled(s, DcaHearsPxf(k))
    ensures Inv(c, StepDcaHearsPxf(s, k))
  {
    var t := StepDcaHearsPxf(s, k);
    SameLog(c, s, t);
    NodeAt(c, s, k);
    assert Stage(s) == 3 && s.nodes[k].pxfOut == [Seqno(c, s)] && !Reported(s.dca, Seqno(c, s), k);
    forall j | 0 <= j < |t.nodes| ensures NodeOk(c, t, j) {
      NodeAt(c, s, j);
      assert Reported(t.dca, Seqno(c, s), j) <==> j == k || Reported(s.dca, Seqno(c, s), j);
    }
  }

  /** The DCA takes one message of the announcement. */
  lemma AnnouncementStep(d: Dca, e: ExpID, n: int, tail: seq<ToDca>)
    requires Announcing(d, e, n, tail) && |d.inbox| > |tail| && n != 0
    ensures var d' := StepDcaHearsSup(d); Announcing(d', e, n, tail) && d'.outbox == d.outbox
  {
    var all := [StartReadout(n), ConfigureImage(n), SetExpID(n, e)] + tail;
    var left := |d.inbox| - |tail|;
    assert d.inbox[0] == all[3 - left] && d.inbox[1..] == all[4 - left..];
    assert left == 3 ==> d.readouts + {n} == {n};
  }

  lemma DcaHearsSupInv(c: Config, s: State)
    requires Inv(c, s) && Enabled(s, DcaHearsSup)
    ensures Inv(c, Apply(c, s, DcaHearsSup))
  {
    var t := Apply(c, s, DcaHearsSup);
    var e, n := Current(s), Seqno(c, s);
    SameLog(c, s, t);
    if Stage(s) < 4 {
      AnnouncementStep(s.dca, e, n, []);
    } else if |s.dca.inbox| > 1 {
      AnnouncementStep(s.dca, e, n, [EndReadout(n)]);
    }
    forall j | 0 <= j < |t.nodes| ensures NodeOk(c, t, j) {
      NodeAt(c, s, j);
    }
  }

  /** The image type message comes from the META node at stage 1, and is logged. */
  lemma ImageTypeLogged(c: Config, s: State, k: nat)
    requires Inv(c, s) && Enabled(s, SupHearsSmc(k)) && s.nodes[k].smcOut[0].ImageType?
    ensures Stage(s) == 1 && k == c.meta && s.nodes[k].smcOut[0] == ImageType(Current(s))
    ensures var t := StepSupHearsSmc(s, k);
      LogOk(c, t) && Stage(t) == 2 && Finished(t) == Finished(s)
  {
    NodeAt(c, s, k);
    assert Stage(s) == 1 && k == c.meta;
    LogGrows(c, s, StepSupHearsSmc(s, k), Announced(Current(s), Seqno(c, s)));
  }

  lemma ImageTypeInv(c: Config, s: State, k: nat)
    requires Inv(c, s) && Enabled(s, SupHearsSmc(k)) && s.nodes[k].smcOut[0].ImageType?
    ensures Inv(c, StepSupHearsSmc(s, k))
  {
    var t := StepSupHearsSmc(s, k);
    ImageTypeLogged(c, s, k);
    forall j | 0 <= j < |t.nodes| ensures NodeOk(c, t, j) {
      NodeAt(c, s, j);
    }
  }

  lemma SmcDoneAtHead(node: Node, e: ExpID, n: int, heard: bool, isMeta: bool, announced: bool)
    requires SmcWorking(node, e, n, heard, isMeta, announced)
    requires node.smcOut != [] && node.smcOut[0].SmcDone?
    ensures !heard && node.smcIn == [] && node.smcBusy.None? && node.pageSeqno == n
    ensures node.smcOut == [SmcDone(e)] && (isMeta ==> announced)
  {
  }

  /** The last "smc done": every SMC manager is quiet and the image type is announced. */
  lemma SmcBarrier(c: Config, s: State, k: nat)
    requires Inv(c, s) && k < |s.nodes| && (Stage(s) == 1 || Stage(s) == 2)
    requires s.nodes[k].smcOut != [] && s.nodes[k].smcOut[0].SmcDone?
    requires |s.hist.heard| + 1 == |s.nodes|
    ensures Stage(s) == 2
    ensures s.hist.heard + {k} == Everyone(|s.nodes|)
    ensures forall j :: 0 <= j < |s.nodes| ==> var node := s.nodes[j];
              && node.smcIn == [] && node.smcBusy.None? && node.pageSeqno == Seqno(c, s)
              && node.smcOut == (if j == k then [SmcDone(Current(s))] else [])
              && PxfWaiting(node, Seqno(c, s))
  {
    var heard, e, n := s.hist.heard, Current(s), Seqno(c, s);
    NodeAt(c, s, k);
    SmcDoneAtHead(s.nodes[k], e, n, k in heard, k == c.meta, Stage(s) == 2);
    OneMoreHeard(heard, k, |s.nodes|);
    forall j | 0 <= j < |s.nodes|
      ensures var node := s.nodes[j];
              && node.smcIn == [] && node.smcBusy.None? && node.pageSeqno == n
              && node.smcOut == (if j == k then [SmcDone(e)] else [])
              && PxfWaiting(node, n) && (j == c.meta ==> Stage(s) == 2)
    {
      NodeAt(c, s, j);
      assert j in heard + {k};
    }
    assert s.nodes[c.meta].smcIn == [];
  }

  lemma SmcDoneInv(c: Config, s: State, k: nat)
    requires Inv(c, s) && Enabled(s, SupHearsSmc(k)) && s.nodes[k].smcOut[0].SmcDone?
    ensures Inv(c, StepSupHearsSmc(s, k))
  {
    NodeAt(c, s, k);
    if |s.hist.heard| + 1 == |s.nodes| {
      PxfStarts(c, s, k);
    } else {
      SmcCounted(c, s, k);
    }
  }

  /** The state after the last "process smc done" of exposure `e`, sent by node `k`. */
  function PxfBegunState(s: State, k: nat, e: ExpID, n: int): State
    requires k < |s.nodes|
  {
    s.(sup := s.sup.(npxfStarted := 0),
       nodes := Broadcast(s.nodes[k := s.nodes[k].(smcOut := [])],
                          Out([], [PxfSeqno(n), PxfDcaTid, PxfProcess(e)], [])),
       hist := Record(s.hist.(heard := {}), PxfBegun(e, n, Everyone(|s.nodes|))))
  }

  lemma PxfBeginsInv(c: Config, s: State, k: nat)
    requires Inv(c, s) && Stage(s) == 2 && k < |s.nodes|
    requires forall j :: 0 <= j < |s.nodes| ==> var node := s.nodes[j];
               && node.smcIn == [] && node.smcBusy.None? && node.pageSeqno == Seqno(c, s)
               && (j == k || node.smcOut == []) && PxfWaiting(node, Seqno(c, s))
    ensures Inv(c, PxfBegunState(s, k, Current(s), Seqno(c, s)))
  {
    var n, e := Seqno(c, s), Current(s);
    var t := PxfBegunState(s, k, e, n);
    LogGrows(c, s, t, PxfBegun(e, n, Everyone(|s.nodes|)));
    assert QueueOk(t) && CountersOk(c, t);
    forall j | 0 <= j < |t.nodes| ensures NodeOk(c, t, j) {
      PxfBegins(s.nodes[j], t.nodes[j], e, n);
    }
  }

  lemma PxfBegins(node: Node, node': Node, e: ExpID, n: int)
    requires PxfWaiting(node, n)
    requires node' == node.(smcIn := node'.smcIn, smcOut := node'.smcOut,
                            pxfIn := node.pxfIn + [PxfSeqno(n), PxfDcaTid, PxfProcess(e)])
    ensures PxfWorking(node', e, n, false)
  {
    assert [PxfSeqno(n)] + [PxfSeqno(n), PxfDcaTid, PxfProcess(e)]
        == [PxfSeqno(n), PxfSeqno(n), PxfDcaTid, PxfProcess(e)];
  }

  lemma PxfStarts(c: Config, s: State, k: nat)
    requires Inv(c, s) && k < |s.nodes| && (Stage(s) == 1 || Stage(s) == 2)
    requires s.nodes[k].smcOut != [] && s.nodes[k].smcOut[0].SmcDone?
    requires |s.hist.heard| + 1 == |s.nodes|
    ensures Inv(c, StepSupHearsSmc(s, k))
  {
    SmcBarrier(c, s, k);
    PxfBeginsInv(c, s, k);
    BeginsAt(s, k, Current(s), Seqno(c, s));
  }

  lemma BeginsAt(s: State, k: nat, e: ExpID, n: int)
    requires k < |s.nodes| && s.nodes[k].smcOut == [SmcDone(e)]
    requires s.sup.npxfStarted + 1 == |s.nodes| && s.sup.imgSeqNo == n
    requires s.hist.heard + {k} == Everyone(|s.nodes|)
    ensures StepSupHearsSmc(s, k) == PxfBegunState(s, k, e, n)
  {
    assert s.nodes[k].smcOut[1..] == [];
    assert s.dca.inbox + [] == s.dca.inbox;
  }

  lemma SmcCounted(c: Config, s: State, k: nat)
    requires Inv(c, s) && Enabled(s, SupHearsSmc(k)) && s.nodes[k].smcOut[0].SmcDone?
    requires |s.hist.heard| + 1 < |s.nodes|
    ensures Inv(c, StepSupHearsSmc(s, k))
  {
    var t := StepSupHearsSmc(s, k);
    NodeAt(c, s, k);
    OneMoreHeard(s.hist.heard, k, |s.nodes|);
    var u := s.(nodes := s.nodes[k := s.nodes[k].(smcOut := s.nodes[k].smcOut[1..])]);
    SilenceChangesNothing(u.(sup := t.sup));
    assert t.nodes == u.nodes && t.dca == s.dca;
    SameLog(c, s, t);
    forall j | 0 <= j < |t.nodes| ensures NodeOk(c, t, j) {
      NodeAt(c, s, j);
    }
  }

  /** The queue search for a cleaned exposure finds nothing. */
  lemma AbsentIdChangesNothing(q: seq<Entry>, id: ExpID, status: Status)
    requires id !in Ids(q)
    ensures SetStat(q, id, status) == q && !Live(q, id)
  {
    forall k | 0 <= k < |q| ensures !EqualExpID(q[k].expID, id) {
      assert q[k].expID == Ids(q)[k];
    }
  }

  /** A "clean done" comes at stage 5, from a node that had not cleaned up before. */
  lemma CleanDoneArrives(c: Config, s: State, k: nat)
    requires Inv(c, s) && Enabled(s, SupHearsSmc(k)) && s.nodes[k].smcOut[0].CleanDone?
    ensures Stage(s) == 5 && k !in s.hist.heard && s.nodes[k].smcOut == [CleanDone(Current(s))]
    ensures SetStat(s.sup.queue, Current(s), Available) == s.sup.queue && !Live(s.sup.queue, Current(s))
  {
    NodeAt(c, s, k);
    AbsentIdChangesNothing(s.sup.queue, Current(s), Available);
  }

  lemma CleanCounted(c: Config, s: State, k: nat)
    requires Inv(c, s) && Enabled(s, SupHearsSmc(k)) && s.nodes[k].smcOut[0].CleanDone?
    requires |s.hist.heard| + 1 < |s.nodes|
    ensures Inv(c, StepSupHearsSmc(s, k))
  {
    var t := StepSupHearsSmc(s, k);
    CleanDoneArrives(c, s, k);
    CleanDoneIs(s, k);
    OneMoreHeard(s.hist.heard, k, |s.nodes|);
    SameLog(c, s, t);
    forall j | 0 <= j < |t.nodes| ensures NodeOk(c, t, j) {
      NodeAt(c, s, j);
    }
  }

  /** What a "clean done" changes while others are still to come. */
  lemma CleanDoneIs(s: State, k: nat)
    requires k < |s.nodes| && s.nodes[k].smcOut != [] && s.nodes[k].smcOut[0].CleanDone?
    requires !GateOpen(s.sup.(dcaDone := s.sup.dcaDone + 1), |s.nodes|)
    ensures StepSupHearsSmc(s, k) ==
            s.(nodes := s.nodes[k := s.nodes[k].(smcOut := s.nodes[k].smcOut[1..])],
               sup := OnCleanDone(s.sup, s.nodes[k].smcOut[0].expID).0,
               hist := s.hist.(heard := s.hist.heard + {k}))
  {
    var u := s.(nodes := s.nodes[k := s.nodes[k].(smcOut := s.nodes[k].smcOut[1..])]);
    SilenceChangesNothing(u.(sup := OnCleanDone(s.sup, s.nodes[k].smcOut[0].expID).0));
  }

  /** The last "clean done": everyone is idle again. */
  lemma PipelineReopens(c: Config, s: State, k: nat)
    requires Inv(c, s) && Enabled(s, SupHearsSmc(k)) && s.nodes[k].smcOut[0].CleanDone?
    requires |s.hist.heard| + 1 == |s.nodes|
    ensures Inv(c, StepSupHearsSmc(s, k))
  {
    var t := StepSupHearsSmc(s, k);
    CleanDoneArrives(c, s, k);
    OneMoreHeard(s.hist.heard, k, |s.nodes|);
    LogGrows(c, s, t, Reopened(Current(s), Everyone(|s.nodes|)));
    forall j | 0 <= j < |t.nodes| ensures NodeOk(c, t, j) {
      NodeAt(c, s, j);
      assert j in s.hist.heard + {k};
    }
  }

  lemma CleanDoneInv(c: Config, s: State, k: nat)
    requires Inv(c, s) && Enabled(s, SupHearsSmc(k)) && s.nodes[k].smcOut[0].CleanDone?
    ensures Inv(c, StepSupHearsSmc(s, k))
  {
    CleanDoneArrives(c, s, k);
    OneMoreHeard(s.hist.heard, k, |s.nodes|);
    if |s.hist.heard| + 1 == |s.nodes| {
      PipelineReopens(c, s, k);
    } else {
      CleanCounted(c, s, k);
    }
  }

  /** The last "dca_trans_done": every picture feed is quiet and no report is left. */
  lemma PxfBarrier(c: Config, s: State)
    requires Inv(c, s) && Enabled(s, SupHearsDca) && s.dca.outbox[0].TransDone?
    requires |s.hist.heard| + 1 == |s.nodes|
    ensures Stage(s) == 3 && s.dca.outbox == [TransDone(Seqno(c, s), s.dca.outbox[0].node)]
    ensures s.hist.heard + {s.dca.outbox[0].node} == Everyone(|s.nodes|)
    ensures forall j :: 0 <= j < |s.nodes| ==> SmcQuiet(s.nodes[j]) && PxfQuiet(s.nodes[j])
  {
    var N, heard, n, k := |s.nodes|, s.hist.heard, Seqno(c, s), s.dca.outbox[0].node;
    assert s.dca.outbox[0] == TransDone(n, k);
    NodeAt(c, s, k);
    OneMoreHeard(heard, k, N);
    forall j | 0 <= j < N
      ensures SmcQuiet(s.nodes[j]) && PxfQuiet(s.nodes[j]) && (Reported(s.dca, n, j) ==> j == k)
    {
      NodeAt(c, s, j);
      assert j in heard + {k};
    }
    if |s.dca.outbox| > 1 {
      var m := s.dca.outbox[1];
      assert Reported(s.dca, n, m.node);
      assert false;
    }
  }

  lemma TransDoneInv(c: Config, s: State)
    requires Inv(c, s) && Enabled(s, SupHearsDca) && s.dca.outbox[0].TransDone?
    ensures Inv(c, StepSupHearsDca(s))
  {
    if |s.hist.heard| + 1 == |s.nodes| {
      ReadoutEnds(c, s);
    } else {
      TransferCounted(c, s);
    }
  }

  /** EndReadout queues up behind whatever is left of the announcement. */
  lemma AnnouncementThenEnd(d: Dca, e: ExpID, n: int)
    requires Announcing(d, e, n, [])
    ensures Announcing(d.(inbox := d.inbox + [EndReadout(n)], outbox := []), e, n, [EndReadout(n)])
  {
    var all := [StartReadout(n), ConfigureImage(n), SetExpID(n, e)];
    assert all + [] == all;
    assert all[3 - |d.inbox|..] + [EndReadout(n)] == (all + [EndReadout(n)])[3 - |d.inbox|..];
  }

  /** The state after the last "dca_trans_done" of readout `n`. */
  function ReadoutEndedState(s: State, n: int): State {
    s.(sup := s.sup.(npxfTransferred := 0),
       dca := s.dca.(inbox := s.dca.inbox + [EndReadout(n)], outbox := []),
       hist := Record(s.hist.(heard := {}), ReadoutEnded(n, Everyone(|s.nodes|))))
  }

  lemma ReadoutEndsInv(c: Config, s: State)
    requires Inv(c, s) && Stage(s) == 3
    requires forall j :: 0 <= j < |s.nodes| ==> SmcQuiet(s.nodes[j]) && PxfQuiet(s.nodes[j])
    ensures Inv(c, ReadoutEndedState(s, Seqno(c, s)))
  {
    var n, t := Seqno(c, s), ReadoutEndedState(s, Seqno(c, s));
    LogGrows(c, s, t, ReadoutEnded(n, Everyone(|s.nodes|)));
    AnnouncementThenEnd(s.dca, Current(s), n);
    assert QueueOk(t) && CountersOk(c, t);
    forall j | 0 <= j < |t.nodes| ensures NodeOk(c, t, j) {
      assert t.nodes[j] == s.nodes[j];
    }
  }

  lemma ReadoutEnds(c: Config, s: State)
    requires Inv(c, s) && Enabled(s, SupHearsDca) && s.dca.outbox[0].TransDone?
    requires |s.hist.heard| + 1 == |s.nodes|
    ensures Inv(c, StepSupHearsDca(s))
  {
    var n := Seqno(c, s);
    PxfBarrier(c, s);
    ReadoutEndsInv(c, s);
    EndsAt(s, n);
  }

  lemma EndsAt(s: State, n: int)
    requires |s.dca.outbox| == 1 && s.dca.outbox[0].TransDone? && s.dca.outbox[0].n == n
    requires s.sup.npxfTransferred + 1 == |s.nodes|
    requires s.hist.heard + {s.dca.outbox[0].node} == Everyone(|s.nodes|)
    ensures StepSupHearsDca(s) == ReadoutEndedState(s, n)
  {
    SilenceChangesNothing(s);
    assert s.dca.outbox[1..] == [];
  }

  lemma TransferCounted(c: Config, s: State)
    requires Inv(c, s) && Enabled(s, SupHearsDca) && s.dca.outbox[0].TransDone?
    requires |s.hist.heard| + 1 < |s.nodes|
    ensures Inv(c, StepSupHearsDca(s))
  {
    var t := StepSupHearsDca(s);
    var n, k := Seqno(c, s), s.dca.outbox[0].node;
    assert s.dca.outbox[0] == TransDone(n, k);
    NodeAt(c, s, k);
    OneMoreHeard(s.hist.heard, k, |s.nodes|);
    SilenceChangesNothing(s.(sup := t.sup, dca := s.dca.(outbox := s.dca.outbox[1..])));
    assert t.nodes == s.nodes && t.dca == s.dca.(outbox := s.dca.outbox[1..]);
    SameLog(c, s, t);
    ReportTaken(s.dca, n, k);
    forall j | 0 <= j < |t.nodes| ensures NodeOk(c, t, j) {
      NodeAt(c, s, j);
    }
  }

  /** The DCA's oldest report leaves its outbox. */
  lemma ReportTaken(d: Dca, n: int, k: nat)
    requires d.outbox != [] && d.outbox[0] == TransDone(n, k)
    requires forall a, b :: 0 <= a < b < |d.outbox| ==> d.outbox[a] != d.outbox[b]
    ensures var d' := d.(outbox := d.outbox[1..]);
      !Reported(d', n, k) && forall j :: Reported(d, n, j) <==> j == k || Reported(d', n, j)
  {
    assert d.outbox == [d.outbox[0]] + d.outbox[1..];
  }

  /** The exposure that "dca_done" names is the head of the queue. */
  lemma DcaDoneNamesTheHead(c: Config, s: State)
    requires Inv(c, s) && Enabled(s, SupHearsDca) && s.dca.outbox[0].DcaDone?
    ensures Stage(s) == 4 && s.dca.inbox == [] && s.dca.readouts == {}
    ensures s.dca.outbox == [DcaDone(Current(s))]
    ensures |s.sup.queue| > 0 && s.sup.queue[0].expID == Current(s)
  {
    assert Ids(s.sup.queue)[0] == Current(s);
  }

  lemma HeadRemoved(q: seq<Entry>, added: seq<ExpID>, i: nat)
    requires i < |added| && Ids(q) == added[i..] && DistinctIds(q)
    ensures var q' := SetStat(q, added[i], Done);
      q' == q[1..] && Ids(q') == added[i + 1..] && Ids(q)[..1] == [added[i]] && added[i] !in Ids(q')
  {
    assert Ids(q)[0] == added[i] == q[0].expID;
    DoneRemovesTheHead(q, 0);
    assert q[0 := Entry(q[0].expID, Done)][1..] == q[1..];
  }

  lemma DcaDoneInv(c: Config, s: State)
    requires Inv(c, s) && Enabled(s, SupHearsDca) && s.dca.outbox[0].DcaDone?
    ensures Inv(c, StepSupHearsDca(s))
  {
    var t := StepSupHearsDca(s);
    var q, e := s.sup.queue, Current(s);
    DcaDoneNamesTheHead(c, s);
    HeadRemoved(q, s.hist.added, Finished(s));
    LogGrows(c, s, t, Removed(e, [e]));
    assert forall k :: 0 <= k < |t.sup.queue| ==> t.sup.queue[k] == q[k + 1];
    forall j | 0 <= j < |t.nodes| ensures NodeOk(c, t, j) {
      NodeAt(c, s, j);
    }
  }

  /** Every step of the system keeps the invariant. */
  lemma StepInv(c: Config, s: State, step: Step)
    requires Inv(c, s) && Enabled(s, step)
    ensures Inv(c, Apply(c, s, step))
  {
    match step
    case Poll => PollInv(c, s);
    case PanOpen(id, trigger) => PanOpenInv(c, s, id, trigger);
    case PanClose(id, trigger) => PanCloseInv(c, s, id, trigger);
    case SmcTakes(k) => SmcTakesInv(c, s, k);
    case SmcFinishes(k) => SmcFinishesInv(c, s, k);
    case PxfTakes(k) => PxfTakesInv(c, s, k);
    case PxfFinishes(k, stamped) => PxfFinishesInv(c, s, k, stamped);
    case DcaHearsPxf(k) => DcaHearsPxfInv(c, s, k);
    case DcaHearsSup => DcaHearsSupInv(c, s);
    case SupHearsSmc(k) =>
      if s.nodes[k].smcOut[0].ImageType? {
        ImageTypeInv(c, s, k);
      } else if s.nodes[k].smcOut[0].SmcDone? {
        SmcDoneInv(c, s, k);
      } else {
        CleanDoneInv(c, s, k);
      }
    case SupHearsDca =>
      if s.dca.outbox[0].TransDone? {
        TransDoneInv(c, s);
      } else {
        DcaDoneInv(c, s);
      }
  }
}
