/** The exposure pipeline as a protocol: the Supervisor (super/supIO.c, super/supClient.c,
    super/supPanHandler.c), N node pairs of an SMC manager and a picture feed
    (smcmgr/mbusMsgHandler.c, smcmgr/smcProcess.c, pxf/mbusMsgHandler.c) and one Data Capture
    Agent (mosdca/mosdca.c).

    Every channel is a FIFO sequence of messages from one sender to one receiver.  A run is any
    interleaving of the steps below.  The Supervisor keeps three counters and the queue and
    never looks at who sent a reply, so what it does is right only because of an invariant of
    the whole system.
 */
module Pipeline {
  import opened Options
  import opened ProcQueue

  // ----- messages -----

  datatype ToSmc = SmcSeqno(n: int) | SmcProcess(expID: ExpID) | SmcFinish(expID: ExpID)
  datatype FromSmc = ImageType(expID: ExpID) | SmcDone(expID: ExpID) | CleanDone(expID: ExpID)
  datatype ToPxf = PxfSeqno(n: int) | PxfDcaTid | PxfProcess(expID: ExpID)
  datatype ToDca = StartReadout(n: int) | ConfigureImage(n: int) | SetExpID(n: int, expID: ExpID)
                 | EndReadout(n: int)
  /** `node` names the picture feed whose transfer the message reports.  It is not part of the
      message text and no step of the Supervisor depends on it. */
  datatype FromDca = TransDone(n: int, node: nat) | DcaDone(expID: ExpID)

  /** What one Supervisor handler sends: a broadcast to every SMC manager, a broadcast to every
      picture feed, and messages to the Data Capture Agent. */
  datatype Out = Out(smc: seq<ToSmc>, pxf: seq<ToPxf>, dca: seq<ToDca>)

  const SILENT := Out([], [], [])

  // ----- the Supervisor's handlers -----

  datatype Sup = Sup(queue: seq<Entry>, npxfStarted: int, npxfTransferred: int, dcaDone: int,
                     imgSeqNo: int, closeExp: int)

  /** The start gate of `supProcNext`. */
  predicate GateOpen(s: Sup, N: nat) {
    s.dcaDone < 0 || s.dcaDone >= N
  }

  /** `supProcNext`, the GUI's poll. */
  function ProcNext(s: Sup, N: nat): (Sup, Out) {
    var e := Next(s.queue);
    if e > 0 && GateOpen(s, N) then
      var n := s.imgSeqNo + 1;
      var left := s.dcaDone - N;
      (s.(queue := SetStat(s.queue, e, Active), imgSeqNo := n, dcaDone := if left < 0 then 0 else left),
       Out([SmcSeqno(n), SmcProcess(e)], [PxfSeqno(n)], []))
    else
      (s, SILENT)
  }

  /** "dca_done". */
  function OnDcaDone(s: Sup, e: ExpID): (Sup, Out) {
    (s.(queue := SetStat(s.queue, e, Done)), Out([SmcFinish(e)], [], []))
  }

  /** "dca_trans_done". */
  function OnTransDone(s: Sup, n: int, N: nat): (Sup, Out) {
    var count := s.npxfTransferred + 1;
    if count >= N then (s.(npxfTransferred := count - N), Out([], [], [EndReadout(n)]))
    else (s.(npxfTransferred := count), SILENT)
  }

  /** "imagetype". */
  function OnImageType(s: Sup, e: ExpID): (Sup, Out) {
    (s, Out([], [], [StartReadout(s.imgSeqNo), ConfigureImage(s.imgSeqNo), SetExpID(s.imgSeqNo, e)]))
  }

  /** "clean done". */
  function OnCleanDone(s: Sup, e: ExpID): (Sup, Out) {
    (s.(queue := SetStat(s.queue, e, Available), dcaDone := s.dcaDone + 1), SILENT)
  }

  /** "process smc done". */
  function OnSmcDone(s: Sup, e: ExpID, N: nat): (Sup, Out) {
    var count := s.npxfStarted + 1;
    if count >= N then
      (s.(npxfStarted := count - N), Out([], [PxfSeqno(s.imgSeqNo), PxfDcaTid, PxfProcess(e)], []))
    else (s.(npxfStarted := count), SILENT)
  }

  /** A PAN client opens an exposure; only the trigger host's message queues it. */
  function OnPanOpen(s: Sup, e: ExpID, trigger: bool): Sup
    requires |s.queue| < SZ_PROC_QUEUE
  {
    if trigger then s.(queue := s.queue + [Entry(e, Start)], closeExp := 0) else s
  }

  /** A PAN client closes an exposure: the trigger host's close, or the second close since the
      last open, makes it ready, whatever its status was. */
  function OnPanClose(s: Sup, e: ExpID, trigger: bool): Sup {
    var count := s.closeExp + 1;
    if trigger || count == 2 then s.(queue := SetStat(s.queue, e, Ready), closeExp := count)
    else s.(closeExp := count)
  }

  // ----- the whole system -----

  /** One node pair with its channels: the SMC manager, then the picture feed. */
  datatype Node = Node(smcIn: seq<ToSmc>, smcBusy: Option<ExpID>, smcSeqno: int, pageSeqno: int,
                       smcOut: seq<FromSmc>,
                       pxfIn: seq<ToPxf>, pxfBusy: Option<ExpID>, pxfSeqno: int, pxfOut: seq<int>)

  datatype Dca = Dca(inbox: seq<ToDca>, expID: ExpID, readouts: set<int>, outbox: seq<FromDca>)

  /** What the Supervisor did, as an observer sees it: an event for each message it broadcasts
      or sends to the DCA, for the queue entry it removes and for the gate opening again.  The
      sets hold the nodes whose replies were counted since the previous barrier. */
  datatype Event =
    | Started(expID: ExpID, n: int)
    | Announced(expID: ExpID, n: int)
    | PxfBegun(expID: ExpID, n: int, heard: set<nat>)
    | ReadoutEnded(n: int, heard: set<nat>)
    | Removed(named: ExpID, removed: seq<ExpID>)
    | Reopened(expID: ExpID, heard: set<nat>)

  /** History variables; no step reads them except to extend them.  The log of events is kept cut
      into pieces: `past` holds the pieces that end in a `Reopened`, `now` what came since. */
  datatype History = History(added: seq<ExpID>, past: seq<seq<Event>>, now: seq<Event>, heard: set<nat>)

  function Record(h: History, ev: Event): History {
    if ev.Reopened? then h.(past := h.past + [h.now + [ev]], now := [])
    else h.(now := h.now + [ev])
  }

  function Flat(pieces: seq<seq<Event>>): seq<Event> {
    if pieces == [] then [] else Flat(pieces[..|pieces| - 1]) + pieces[|pieces| - 1]
  }

  /** All events so far, in order. */
  function Log(h: History): seq<Event> {
    Flat(h.past) + h.now
  }

  datatype State = State(sup: Sup, nodes: seq<Node>, dca: Dca, hist: History)

  /** Fixed facts of a run: which node holds the page with the image type keyword, and the
      sequence number the Supervisor starts from. */
  datatype Config = Config(meta: nat, seqno: int)

  const MAX_CONTEXT := 8

  const IDLE_NODE := Node([], None, 0, 0, [], [], None, 0, [])

  ghost predicate Init(c: Config, s: State) {
    && c.meta < |s.nodes| && c.seqno >= 0
    && s.sup == Sup([], 0, 0, -999, c.seqno, 0)
    && (forall k :: 0 <= k < |s.nodes| ==> s.nodes[k] == IDLE_NODE)
    && s.dca == Dca([], 0, {}, [])
    && s.hist == History([], [], [], {})
  }

  function Broadcast(nodes: seq<Node>, out: Out): (r: seq<Node>)
    ensures |r| == |nodes|
    ensures forall k :: 0 <= k < |nodes| ==>
              r[k] == nodes[k].(smcIn := nodes[k].smcIn + out.smc, pxfIn := nodes[k].pxfIn + out.pxf)
  {
    seq(|nodes|, k requires 0 <= k < |nodes| =>
      nodes[k].(smcIn := nodes[k].smcIn + out.smc, pxfIn := nodes[k].pxfIn + out.pxf))
  }

  /** The Supervisor moved to `sup` and sent `out`. */
  function Deliver(s: State, sup: Sup, out: Out): State {
    s.(sup := sup, nodes := Broadcast(s.nodes, out), dca := s.dca.(inbox := s.dca.inbox + out.dca))
  }

  datatype Step =
    | Poll
    | PanOpen(id: ExpID, trigger: bool)
    | PanClose(id: ExpID, trigger: bool)
    | SmcTakes(k: nat)        // SMC manager k handles its next message
    | SmcFinishes(k: nat)     // SMC manager k is done with the pages
    | PxfTakes(k: nat)        // picture feed k handles its next message
    | PxfFinishes(k: nat, stamped: bool)  // picture feed k has sent its pages
    | DcaHearsPxf(k: nat)
    | DcaHearsSup
    | SupHearsSmc(k: nat)
    | SupHearsDca

  /** Some exposure was started and its last "clean done" is still to come. */
  predicate InFlight(s: State) {
    s.hist.now != []
  }

  /** Assumption on the observers: a new exposure ID is positive and differs from those in the
      queue and from the one in flight.  A full queue ends the Supervisor, so it allows no
      further open. */
  predicate FreshId(s: State, id: ExpID) {
    && id > 0 && |s.sup.queue| < SZ_PROC_QUEUE && id !in Ids(s.sup.queue)
    && (InFlight(s) ==> s.hist.now[0].Started? && id != s.hist.now[0].expID)
  }

  predicate Enabled(s: State, step: Step) {
    match step
    case Poll => true
    case PanOpen(id, _) => FreshId(s, id)
    case PanClose(id, _) => id > 0
    case SmcTakes(k) => k < |s.nodes| && s.nodes[k].smcBusy.None? && s.nodes[k].smcIn != []
    case SmcFinishes(k) => k < |s.nodes| && s.nodes[k].smcBusy.Some?
    case PxfTakes(k) => k < |s.nodes| && s.nodes[k].pxfBusy.None? && s.nodes[k].pxfIn != []
    case PxfFinishes(k, _) => k < |s.nodes| && s.nodes[k].pxfBusy.Some?
    case DcaHearsPxf(k) => k < |s.nodes| && s.nodes[k].pxfOut != []
    case DcaHearsSup => s.dca.inbox != []
    case SupHearsSmc(k) => k < |s.nodes| && s.nodes[k].smcOut != []
    case SupHearsDca => s.dca.outbox != []
  }

  /** Steps of the operator and of the PAN clients, which come from outside the pipeline. */
  predicate External(step: Step) {
    step.Poll? || step.PanOpen? || step.PanClose?
  }

  function StepPoll(s: State): State {
    var (sup, out) := ProcNext(s.sup, |s.nodes|);
    Deliver(s, sup, out).(hist :=
      if |out.smc| == 2 then Record(s.hist, Started(out.smc[1].expID, out.smc[0].n)) else s.hist)
  }

  function StepPanOpen(s: State, id: ExpID, trigger: bool): State
    requires FreshId(s, id)
  {
    s.(sup := OnPanOpen(s.sup, id, trigger),
       hist := s.hist.(added := s.hist.added + if trigger then [id] else []))
  }

  /** `myHandler` of the SMC manager: MB_SET of the sequence number, MB_START of an exposure
      (which stamps its pages and, on the node that holds the keyword page, reports the image
      type before anything else is sent) and MB_FINISH. */
  function StepSmcTakes(c: Config, node: Node, k: nat): Node
    requires node.smcIn != []
  {
    var node' := node.(smcIn := node.smcIn[1..]);
    match node.smcIn[0]
    case SmcSeqno(n) => node'.(smcSeqno := n)
    case SmcProcess(e) =>
      node'.(smcBusy := Some(e), pageSeqno := node.smcSeqno,
             smcOut := node.smcOut + if k == c.meta then [ImageType(e)] else [])
    case SmcFinish(e) => node'.(smcOut := node.smcOut + [CleanDone(e)])
  }

  function StepSmcFinishes(node: Node): Node
    requires node.smcBusy.Some?
  {
    node.(smcBusy := None, smcOut := node.smcOut + [SmcDone(node.smcBusy.value)])
  }

  /** `myHandler` of the picture feed.  It ignores "dca_tid" when that comes as MB_START. */
  function StepPxfTakes(node: Node): Node
    requires node.pxfIn != []
  {
    var node' := node.(pxfIn := node.pxfIn[1..]);
    match node.pxfIn[0]
    case PxfSeqno(n) => node'.(pxfSeqno := n)
    case PxfDcaTid => node'
    case PxfProcess(e) => node'.(pxfBusy := Some(e))
  }

  /** `pxfProcess` then `dhsTransferComplete`: if the exposure has a page on this node, the
      sequence number stamped on the page replaces the one that was set. */
  function StepPxfFinishes(node: Node, stamped: bool): Node {
    var n := if stamped then node.pageSeqno else node.pxfSeqno;
    node.(pxfBusy := None, pxfSeqno := n, pxfOut := node.pxfOut + [n])
  }

  function StepDcaHearsPxf(s: State, k: nat): State
    requires k < |s.nodes| && s.nodes[k].pxfOut != []
  {
    var node := s.nodes[k];
    s.(nodes := s.nodes[k := node.(pxfOut := node.pxfOut[1..])],
       dca := s.dca.(outbox := s.dca.outbox + [TransDone(node.pxfOut[0], k)]))
  }

  /** The DCA's requests.  "dca_done" carries the exposure ID set last, and is sent whether or
      not the sequence number names an open readout. */
  function StepDcaHearsSup(d: Dca): Dca
    requires d.inbox != []
  {
    var d' := d.(inbox := d.inbox[1..]);
    match d.inbox[0]
    case StartReadout(n) =>
      if n != 0 && |d.readouts| < MAX_CONTEXT then d'.(readouts := d.readouts + {n}) else d'
    case ConfigureImage(n) => d'
    case SetExpID(n, e) => d'.(expID := e)
    case EndReadout(n) => d'.(readouts := d.readouts - {n}, outbox := d.outbox + [DcaDone(d.expID)])
  }

  function StepSupHearsSmc(s: State, k: nat): State
    requires k < |s.nodes| && s.nodes[k].smcOut != []
  {
    var m := s.nodes[k].smcOut[0];
    var t := s.(nodes := s.nodes[k := s.nodes[k].(smcOut := s.nodes[k].smcOut[1..])]);
    match m
    case ImageType(e) =>
      var (sup, out) := OnImageType(s.sup, e);
      Deliver(t, sup, out).(hist := Record(s.hist, Announced(e, out.dca[0].n)))
    case SmcDone(e) =>
      var (sup, out) := OnSmcDone(s.sup, e, |s.nodes|);
      var heard := s.hist.heard + {k};
      Deliver(t, sup, out).(hist :=
        if out.pxf == [] then s.hist.(heard := heard)
        else Record(s.hist.(heard := {}), PxfBegun(out.pxf[2].expID, out.pxf[0].n, heard)))
    case CleanDone(e) =>
      var (sup, out) := OnCleanDone(s.sup, e);
      var heard := s.hist.heard + {k};
      Deliver(t, sup, out).(hist :=
        if !GateOpen(sup, |s.nodes|) then s.hist.(heard := heard)
        else Record(s.hist.(heard := {}), Reopened(e, heard)))
  }

  function StepSupHearsDca(s: State): State
    requires s.dca.outbox != []
  {
    var m := s.dca.outbox[0];
    var t := s.(dca := s.dca.(outbox := s.dca.outbox[1..]));
    match m
    case TransDone(n, k) =>
      var (sup, out) := OnTransDone(s.sup, n, |s.nodes|);
      var heard := s.hist.heard + {k};
      Deliver(t, sup, out).(hist :=
        if out.dca == [] then s.hist.(heard := heard)
        else Record(s.hist.(heard := {}), ReadoutEnded(out.dca[0].n, heard)))
    case DcaDone(e) =>
      var (sup, out) := OnDcaDone(s.sup, e);
      var gone := |s.sup.queue| - |sup.queue|;
      Deliver(t, sup, out).(hist :=
        Record(s.hist, Removed(e, if 0 <= gone then Ids(s.sup.queue)[..gone] else [])))
  }

  function Apply(c: Config, s: State, step: Step): State
    requires Enabled(s, step)
  {
    match step
    case Poll => StepPoll(s)
    case PanOpen(id, trigger) => StepPanOpen(s, id, trigger)
    case PanClose(id, trigger) => s.(sup := OnPanClose(s.sup, id, trigger))
    case SmcTakes(k) => s.(nodes := s.nodes[k := StepSmcTakes(c, s.nodes[k], k)])
    case SmcFinishes(k) => s.(nodes := s.nodes[k := StepSmcFinishes(s.nodes[k])])
    case PxfTakes(k) => s.(nodes := s.nodes[k := StepPxfTakes(s.nodes[k])])
    case PxfFinishes(k, stamped) => s.(nodes := s.nodes[k := StepPxfFinishes(s.nodes[k], stamped)])
    case DcaHearsPxf(k) => StepDcaHearsPxf(s, k)
    case DcaHearsSup => s.(dca := StepDcaHearsSup(s.dca))
    case SupHearsSmc(k) => StepSupHearsSmc(s, k)
    case SupHearsDca => StepSupHearsDca(s)
  }

  /** `steps` is a run from `s` that ends in `t`. */
  predicate Runs(c: Config, s: State, steps: seq<Step>, t: State)
    decreases |steps|
  {
    if steps == [] then s == t
    else Enabled(s, steps[0]) && Runs(c, Apply(c, s, steps[0]), steps[1..], t)
  }

  // ----- what a log should look like -----

  function Everyone(N: nat): (all: set<nat>)
    ensures forall k :: k in all <==> 0 <= k < N
  {
    if N == 0 then {} else Everyone(N - 1) + {N - 1}
  }

  /** The life of one exposure: started, announced to the DCA, handed to the picture feeds after
      every SMC manager replied, ended after every picture feed's transfer, removed from the
      queue, and finished once every SMC manager has cleaned up. */
  function Cycle(e: ExpID, n: int, N: nat): seq<Event> {
    [Started(e, n), Announced(e, n), PxfBegun(e, n, Everyone(N)), ReadoutEnded(n, Everyone(N)),
     Removed(e, [e]), Reopened(e, Everyone(N))]
  }

  /** All exposures one after the other, in the order they were added. */
  function FullLog(added: seq<ExpID>, seqno: int, N: nat): (log: seq<Event>)
    ensures |log| == 6 * |added|
  {
    if added == [] then []
    else FullLog(added[..|added| - 1], seqno, N) + Cycle(added[|added| - 1], seqno + |added|, N)
  }
}
