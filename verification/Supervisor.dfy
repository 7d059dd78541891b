/** The Supervisor's handlers as the program has them: counters and the ring updated in place.
    Each method is proved to do what the handler functions of `Pipeline` say, so that the
    theorems about runs are theorems about this code. */
module Supervisor {
  import opened ProcQueue
  import opened Pipeline

  class Super {
    const ring: Ring
    const numProcMgrs: nat
    var npxfStarted: int
    var npxfTransferred: int
    var dcaDone: int
    var imgSeqNo: int
    var openExp: int
    var closeExp: int

    ghost predicate Valid()
      reads this, ring, ring.queue
    {
      ring.Valid()
    }

    ghost function View(): Sup
      requires Valid()
      reads this, ring, ring.queue
    {
      Sup(ring.Contents(), npxfStarted, npxfTransferred, dcaDone, imgSeqNo, closeExp)
    }

    /** The exposure found in the queue of `was` has the status, DONE takes the head off, and
        nothing else in the queue has changed. */
    ghost predicate StatusNow(was: Sup, expID: ExpID, status: Status)
      requires Valid()
      reads this, ring, ring.queue
    {
      && (forall k: nat :: FoundAt(was.queue, expID, k) ==>
            View().queue == if status == Done then was.queue[k := Entry(expID, Done)][1..]
                            else was.queue[k := Entry(expID, status)])
      && (FoundNowhere(was.queue, expID) ==> View().queue == was.queue)
    }

    constructor (numProcMgrs: nat, imgSeqNo: int)
      ensures Valid() && fresh(ring) && fresh(ring.queue)
      ensures this.numProcMgrs == numProcMgrs
      ensures View() == Sup([], 0, 0, -999, imgSeqNo, 0)
    {
      this.numProcMgrs := numProcMgrs;
      this.imgSeqNo := imgSeqNo;
      npxfStarted, npxfTransferred, dcaDone := 0, 0, -999;
      openExp, closeExp := 0, 0;
      var r := new Ring();
      r.PqInit();
      ring := r;
    }

    /** `supProcNext`. */
    method SupProcNext() returns (out: Out)
      requires Valid()
      modifies this, ring, ring.queue
      ensures Valid()
      ensures (View(), out) == ProcNext(old(View()), numProcMgrs)
      ensures var q := old(View().queue);
        if |q| > 0 && q[0].status == Ready && q[0].expID > 0 && (old(dcaDone) < 0 || old(dcaDone) >= numProcMgrs) then
          && View().queue == q[0 := Entry(q[0].expID, Active)] && imgSeqNo == old(imgSeqNo) + 1
          && dcaDone == (if old(dcaDone) < numProcMgrs then 0 else old(dcaDone) - numProcMgrs)
          && out == Out([SmcSeqno(imgSeqNo), SmcProcess(q[0].expID)], [PxfSeqno(imgSeqNo)], [])
        else View() == old(View()) && out == Out([], [], [])
      ensures npxfStarted == old(npxfStarted) && npxfTransferred == old(npxfTransferred) && closeExp == old(closeExp)
    {
      out := SILENT;
      StatusIsSet(View().queue, Next(View().queue), Active);
      var expID := ring.PqNext();
      if expID > 0 && (dcaDone < 0 || dcaDone >= numProcMgrs) {
        ring.PqSetStat(expID, Active);
        imgSeqNo := imgSeqNo + 1;
        out := out.(pxf := out.pxf + [PxfSeqno(imgSeqNo)]);
        out := out.(smc := out.smc + [SmcSeqno(imgSeqNo)]);
        out := out.(smc := out.smc + [SmcProcess(expID)]);
        assert out == Out([SmcSeqno(imgSeqNo), SmcProcess(expID)], [PxfSeqno(imgSeqNo)], []);
        dcaDone := dcaDone - numProcMgrs;
        dcaDone := if dcaDone < 0 then 0 else dcaDone;
      }
    }

    /** "dca_done" in `supIOHandler`. */
    method DcaDone(expID: ExpID) returns (out: Out)
      requires Valid()
      modifies this, ring, ring.queue
      ensures Valid() <==> expID != 0 || old(|View().queue|) >= SZ_PROC_QUEUE - 1
      ensures Valid() ==> (View(), out) == OnDcaDone(old(View()), expID)
      ensures Valid() ==> StatusNow(old(View()), expID, Done)
      ensures out == Out([SmcFinish(expID)], [], [])
    {
      StatusIsSet(View().queue, expID, Done);
      ring.PqSetStat(expID, Done);
      out := SILENT.(smc := [SmcFinish(expID)]);
    }

    /** "dca_trans_done". */
    method DcaTransDone(seqno: int) returns (out: Out)
      requires Valid()
      modifies this
      ensures Valid()
      ensures (View(), out) == OnTransDone(old(View()), seqno, numProcMgrs)
      ensures if old(npxfTransferred) + 1 >= numProcMgrs then
                npxfTransferred == old(npxfTransferred) + 1 - numProcMgrs && out == Out([], [], [EndReadout(seqno)])
              else npxfTransferred == old(npxfTransferred) + 1 && out == Out([], [], [])
    {
      out := SILENT;
      npxfTransferred := npxfTransferred + 1;
      if npxfTransferred >= numProcMgrs {
        out := out.(dca := [EndReadout(seqno)]);
        npxfTransferred := npxfTransferred - numProcMgrs;
      }
    }

    /** "imagetype". */
    method ImageType(expID: ExpID) returns (out: Out)
      requires Valid()
      ensures (View(), out) == OnImageType(View(), expID)
      ensures out == Out([], [], [StartReadout(imgSeqNo), ConfigureImage(imgSeqNo), SetExpID(imgSeqNo, expID)])
    {
      out := SILENT;
      out := out.(dca := out.dca + [StartReadout(imgSeqNo)]);
      out := out.(dca := out.dca + [ConfigureImage(imgSeqNo)]);
      out := out.(dca := out.dca + [SetExpID(imgSeqNo, expID)]);
      assert out.dca == [StartReadout(imgSeqNo), ConfigureImage(imgSeqNo), SetExpID(imgSeqNo, expID)];
    }

    /** "clean done". */
    method CleanDone(expID: ExpID) returns (out: Out)
      requires Valid()
      modifies this, ring, ring.queue
      ensures Valid()
      ensures (View(), out) == OnCleanDone(old(View()), expID)
      ensures StatusNow(old(View()), expID, Available) && dcaDone == old(dcaDone) + 1 && out == Out([], [], [])
    {
      StatusIsSet(View().queue, expID, Available);
      out := SILENT;
      ring.PqSetStat(expID, Available);
      dcaDone := dcaDone + 1;
    }

    /** "process smc done". */
    method SmcDone(expID: ExpID) returns (out: Out)
      requires Valid()
      modifies this
      ensures Valid()
      ensures (View(), out) == OnSmcDone(old(View()), expID, numProcMgrs)
      ensures if old(npxfStarted) + 1 >= numProcMgrs then
                && npxfStarted == old(npxfStarted) + 1 - numProcMgrs
                && out == Out([], [PxfSeqno(imgSeqNo), PxfDcaTid, PxfProcess(expID)], [])
              else npxfStarted == old(npxfStarted) + 1 && out == Out([], [], [])
    {
      out := SILENT;
      npxfStarted := npxfStarted + 1;
      if npxfStarted >= numProcMgrs {
        out := out.(pxf := out.pxf + [PxfSeqno(imgSeqNo)]);
        out := out.(pxf := out.pxf + [PxfDcaTid]);
        out := out.(pxf := out.pxf + [PxfProcess(expID)]);
        assert out.pxf == [PxfSeqno(imgSeqNo), PxfDcaTid, PxfProcess(expID)];
        npxfStarted := npxfStarted - numProcMgrs;
      }
    }

    /** OPEN of an exposure in `superHandleClient`; `ok` is false when the full queue ends the
        process. */
    method PanOpenExp(expID: ExpID, trigger: bool) returns (ok: bool)
      requires Valid()
      modifies this, ring, ring.queue
      ensures Valid() <==> expID != 0 || !trigger || !ok
      ensures ok <==> (trigger ==> old(|View().queue|) < SZ_PROC_QUEUE)
      ensures Valid() && ok && old(|View().queue|) < SZ_PROC_QUEUE ==> View() == OnPanOpen(old(View()), expID, trigger)
      ensures !trigger ==> View() == old(View())
      ensures Valid() && trigger && ok ==>
                View().queue == old(View().queue) + [Entry(expID, Start)] && closeExp == 0
    {
      ok := true;
      openExp := openExp + 1;
      if trigger {
        ok := ring.PqAdd(expID);
        if ok {
          closeExp := 0;
        }
      }
    }

    /** CLOSE of an exposure in `superHandleClient`: by the trigger host, or the second one since
        the last open, it makes the exposure ready. */
    method PanCloseExp(expID: ExpID, trigger: bool)
      requires Valid()
      modifies this, ring, ring.queue
      ensures Valid() <==>
                expID != 0 || !(trigger || old(closeExp) + 1 == 2) || old(|View().queue|) >= SZ_PROC_QUEUE - 1
      ensures Valid() ==> View() == OnPanClose(old(View()), expID, trigger)
      ensures closeExp == old(closeExp) + 1
      ensures Valid() ==> if trigger || closeExp == 2 then StatusNow(old(View()), expID, Ready)
                          else View().queue == old(View().queue)
    {
      StatusIsSet(View().queue, expID, Ready);
      closeExp := closeExp + 1;
      if trigger || closeExp == 2 {
        ring.PqSetStat(expID, Ready);
      }
    }
  }
}
