/** The processing queue of the Supervisor (super/supQueue.c).

    The queue is a ring of 512 nodes linked through `next`.  Its abstract value is the
    sequence of live entries, oldest first; the functions at the top of this module say what
    each operation does to that sequence, and the class `Ring` is proved to do exactly that.
 */
module ProcQueue {

  const SZ_PROC_QUEUE: nat := 512

  /** An exposure ID in units of 1e-6, the precision with which the system prints and compares
      exposure IDs.  Zero marks a node that is not in use. */
  type ExpID = int

  datatype Status = Available | Start | Ready | Active | Done

  datatype Entry = Entry(expID: ExpID, status: Status)

  /** `smcEqualExpID`: two IDs are the same when they differ by less than the tolerance, which
      is one unit here. */
  predicate EqualExpID(a: ExpID, b: ExpID) {
    if a < b then b - a < 1 else a - b < 1
  }

  // ----- what the operations do to the sequence of live entries -----

  /** The search of `pqSetStat` visits 511 nodes, one fewer than the ring has. */
  function Searched(q: seq<Entry>): nat {
    if |q| < SZ_PROC_QUEUE then |q| else SZ_PROC_QUEUE - 1
  }

  /** Position of the first of the first `n` entries that carries `id`, or `n`. */
  function Find(q: seq<Entry>, id: ExpID, n: nat): (k: nat)
    requires n <= |q|
    ensures k <= n
    ensures k < n ==> EqualExpID(q[k].expID, id)
    ensures forall j :: 0 <= j < k ==> !EqualExpID(q[j].expID, id)
  {
    if n == 0 then 0
    else
      var k := Find(q, id, n - 1);
      if k < n - 1 || EqualExpID(q[n - 1].expID, id) then k else n
  }

  predicate Live(q: seq<Entry>, id: ExpID) {
    exists k :: 0 <= k < |q| && EqualExpID(q[k].expID, id)
  }

  /** `pqSetStat`: the matching entry gets the status, and PQ_DONE then removes the HEAD entry,
      whichever entry matched. */
  function SetStat(q: seq<Entry>, id: ExpID, status: Status): seq<Entry> {
    var k := Find(q, id, Searched(q));
    if k == Searched(q) then q
    else
      var q' := q[k := Entry(q[k].expID, status)];
      if status == Done then q'[1..] else q'
  }

  /** `pqNext`: the head's ID if the head is ready, else 0. */
  function Next(q: seq<Entry>): ExpID {
    if |q| > 0 && q[0].status == Ready then q[0].expID else 0
  }

  /** `pqGetStat`: its loop ends where it starts when the ring is full. */
  function GetStat(q: seq<Entry>, id: ExpID): Status {
    if |q| == SZ_PROC_QUEUE || Find(q, id, |q|) == |q| then Available
    else q[Find(q, id, |q|)].status
  }

  function Ids(q: seq<Entry>): (ids: seq<ExpID>)
    ensures |ids| == |q|
  {
    seq(|q|, k requires 0 <= k < |q| => q[k].expID)
  }

  predicate DistinctIds(q: seq<Entry>) {
    forall j, k :: 0 <= j < k < |q| ==> q[j].expID != q[k].expID
  }

  // ----- properties of the operations -----

  /** Entry `k` is the one that a search for `id` finds: the first of that ID, and not the 512-th. */
  predicate FoundAt(q: seq<Entry>, id: ExpID, k: nat) {
    k < |q| && k < 511 && q[k].expID == id && forall j :: 0 <= j < k ==> q[j].expID != id
  }

  predicate FoundNowhere(q: seq<Entry>, id: ExpID) {
    forall k :: 0 <= k < |q| && k < 511 ==> q[k].expID != id
  }

  /** The entry that was found has the status, the others are as before; DONE takes the head off. */
  lemma StatusIsSet(q: seq<Entry>, id: ExpID, status: Status)
    ensures forall k: nat :: FoundAt(q, id, k) ==>
              SetStat(q, id, status) == if status == Done then q[k := Entry(id, Done)][1..]
                                        else q[k := Entry(id, status)]
    ensures FoundNowhere(q, id) ==> SetStat(q, id, status) == q
  {
    var n := if |q| < 512 then |q| else 511;
    var f := Find(q, id, n);
    forall k: nat | FoundAt(q, id, k) ensures f == k {
    }
  }

  /** The status that is asked for is that of the first entry of the ID; nothing is found in a ring
      of 512. */
  lemma StatusIsRead(q: seq<Entry>, id: ExpID)
    ensures forall k: nat :: |q| < 512 && FoundAt(q, id, k) ==> GetStat(q, id) == q[k].status
    ensures |q| == 512 || (|q| < 512 && FoundNowhere(q, id)) ==> GetStat(q, id) == Available
  {
    forall k: nat | |q| < 512 && FoundAt(q, id, k) ensures Find(q, id, |q|) == k {
    }
  }

  /** Up to 511 live entries the search is complete: it finds an ID exactly when it is live. */
  lemma SearchIsComplete(q: seq<Entry>, id: ExpID)
    ensures |q| < 512 ==> (Find(q, id, Searched(q)) < Searched(q) <==> Live(q, id))
    ensures |q| == 512 ==> (Find(q, id, Searched(q)) < Searched(q) <==> Live(q[..511], id))
  {
    var k := Find(q, id, Searched(q));
    if |q| == 512 && k < Searched(q) {
      assert q[..511][k] == q[k];
    }
  }

  /** Marking an entry done removes exactly that entry if and only if it is the head. */
  lemma DoneRemovesTheHead(q: seq<Entry>, k: nat)
    requires DistinctIds(q) && k < Searched(q)
    ensures Ids(SetStat(q, q[k].expID, Done)) == Ids(q)[1..]
    ensures q[k].expID !in Ids(SetStat(q, q[k].expID, Done)) <==> k == 0
  {
    assert Find(q, q[k].expID, Searched(q)) == k;
    var r := SetStat(q, q[k].expID, Done);
    assert Ids(r) == Ids(q)[1..];
    if k > 0 {
      assert Ids(r)[k - 1] == q[k].expID;
    } else {
      assert forall j :: 0 <= j < |r| ==> Ids(r)[j] == q[j + 1].expID;
    }
  }

  /** Any other status leaves the IDs alone. */
  lemma StatusKeepsIds(q: seq<Entry>, id: ExpID, status: Status)
    requires status != Done
    ensures Ids(SetStat(q, id, status)) == Ids(q)
    ensures DistinctIds(q) ==> DistinctIds(SetStat(q, id, status))
  {
  }

  /** A full ring hides every entry from `pqGetStat`, and its newest entry from `pqSetStat`. */
  lemma FullRingHidesEntries(q: seq<Entry>, status: Status)
    requires |q| == 512 && DistinctIds(q)
    ensures SetStat(q, q[511].expID, status) == q
    ensures forall k :: 0 <= k < |q| ==> GetStat(q, q[k].expID) == Available
  {
    var id := q[511].expID;
    var k := Find(q, id, Searched(q));
    if k < Searched(q) {
      assert false;
    }
  }

  // ----- the ring -----

  datatype RingNode = RingNode(expID: ExpID, status: Status, next: nat)

  predicate Free(n: RingNode) {
    n.expID == 0 && n.status == Available
  }

  /** The node `k` links after node `first`. */
  function Slot(first: nat, k: nat): (s: nat)
    requires first < SZ_PROC_QUEUE && k <= SZ_PROC_QUEUE
    ensures s < SZ_PROC_QUEUE
  {
    if first + k < SZ_PROC_QUEUE then first + k else first + k - SZ_PROC_QUEUE
  }

  class Ring {
    const queue: array<RingNode>
    var qFirst: nat
    var qLast: nat
    var qCount: int

    /** Every node outside the live window is free, and every live node has an ID. */
    ghost predicate Valid()
      reads this, queue
    {
      && queue.Length == SZ_PROC_QUEUE
      && qFirst < SZ_PROC_QUEUE
      && 0 <= qCount <= SZ_PROC_QUEUE
      && qLast == Slot(qFirst, if qCount == 0 then SZ_PROC_QUEUE - 1 else qCount - 1)
      && (forall i :: 0 <= i < SZ_PROC_QUEUE ==> queue[i].next == Slot(i, 1))
      && (forall k :: 0 <= k < qCount ==> queue[Slot(qFirst, k)].expID != 0)
      && (forall k :: qCount <= k < SZ_PROC_QUEUE ==> Free(queue[Slot(qFirst, k)]))
    }

    ghost function Contents(): (q: seq<Entry>)
      requires Valid()
      reads this, queue
      ensures |q| == qCount
    {
      seq(qCount, k requires 0 <= k < qCount && Valid() reads this, queue =>
        Entry(queue[Slot(qFirst, k)].expID, queue[Slot(qFirst, k)].status))
    }

    /** Static storage: all zero, not yet linked. */
    constructor ()
      ensures fresh(queue) && queue.Length == SZ_PROC_QUEUE
      ensures forall i :: 0 <= i < SZ_PROC_QUEUE ==> Free(queue[i])
    {
      queue := new RingNode[SZ_PROC_QUEUE](_ => RingNode(0, Available, 0));
      qFirst, qLast, qCount := 0, 0, 0;
    }

    /** `pqInit`.  Its loop stops one node early, so the last node is as it was before: the
        result is an empty queue exactly when that node was free already. */
    method PqInit()
      requires queue.Length == SZ_PROC_QUEUE
      modifies this, queue
      ensures Valid() <==> old(Free(queue[SZ_PROC_QUEUE - 1]))
      ensures Valid() ==> Contents() == []
    {
      var i := 0;
      while i < SZ_PROC_QUEUE - 1
        invariant 0 <= i <= SZ_PROC_QUEUE - 1
        invariant forall j :: 0 <= j < i ==> queue[j] == RingNode(0, Available, j + 1)
        invariant queue[SZ_PROC_QUEUE - 1] == old(queue[SZ_PROC_QUEUE - 1])
      {
        queue[i] := RingNode(0, Available, i + 1);
        i := i + 1;
      }
      queue[i] := queue[i].(next := 0);
      qFirst := 0;
      qLast := SZ_PROC_QUEUE - 1;
      queue[qLast] := queue[qLast].(next := qFirst);
      qCount := 0;
      assert Slot(qFirst, SZ_PROC_QUEUE - 1) == SZ_PROC_QUEUE - 1;
    }

    /** `pqAdd`.  A full queue ends the process; `ok` is false and nothing changes.  An entry with
        the ID 0 could not be told from a free node. */
    method PqAdd(expID: ExpID) returns (ok: bool)
      requires Valid()
      modifies this, queue
      ensures Valid() <==> expID != 0 || !ok
      ensures ok <==> old(|Contents()|) < SZ_PROC_QUEUE
      ensures Valid() ==> Contents() == old(Contents()) + if ok then [Entry(expID, Start)] else []
    {
      var p := queue[qLast].next;
      if qCount == SZ_PROC_QUEUE {
        ok := false;
        return;
      }
      assert p == Slot(qFirst, qCount);
      queue[p] := queue[p].(expID := expID, status := Start);
      qLast := p;
      qCount := qCount + 1;
      ok := true;
      assert forall k :: 0 <= k < SZ_PROC_QUEUE && k != qCount - 1 ==> Slot(qFirst, k) != p;
      assert p == Slot(qFirst, qCount - 1);
      if expID != 0 {
        assert Contents() == old(Contents()) + [Entry(expID, Start)];
      }
    }

    /** `pqNext`. */
    method PqNext() returns (expID: ExpID)
      requires Valid()
      ensures expID == Next(Contents())
      ensures expID == if |Contents()| > 0 && Contents()[0].status == Ready then Contents()[0].expID else 0
    {
      assert Slot(qFirst, 0) == qFirst;
      if queue[qFirst].status == Ready {
        expID := queue[qFirst].expID;
      } else {
        expID := 0;
      }
    }

    /** `pqSetStat`: a search of the whole ring, freed nodes included, that is still exactly the
        sequence operation; only the ID 0 finds a free node, which is harmed unless it is made
        available. */
    method PqSetStat(expID: ExpID, status: Status)
      requires Valid()
      modifies this, queue
      ensures Valid() <==> expID != 0 || status == Available || old(|Contents()|) >= SZ_PROC_QUEUE - 1
      ensures Valid() ==> Contents() == SetStat(old(Contents()), expID, status)
    {
      ghost var q := Contents();
      var i := 0;
      var p := qFirst;
      while i < SZ_PROC_QUEUE - 1
        invariant 0 <= i <= SZ_PROC_QUEUE - 1 && p == Slot(qFirst, i)
        invariant Valid() && Contents() == q && qCount == |q|
        invariant forall j :: 0 <= j < i && j < |q| ==> !EqualExpID(q[j].expID, expID)
        invariant expID == 0 ==> i <= |q|
      {
        if EqualExpID(queue[p].expID, expID) {
          if i < qCount {
            assert q[i].expID == queue[p].expID;
            assert Find(q, expID, Searched(q)) == i;
            SetNode(i, p, status);
            if status == Done {
              PopHead();
            }
          } else {
            SetFreeNode(p, status);
          }
          return;
        }
        p := queue[p].next;
        i := i + 1;
      }
      assert Find(q, expID, Searched(q)) == Searched(q);
    }

    /** The same on the first free node: its status is set, and DONE takes the head off. */
    method SetFreeNode(p: nat, status: Status)
      requires Valid() && qCount < SZ_PROC_QUEUE && p == Slot(qFirst, qCount)
      modifies this, queue
      ensures Valid() <==> status == Available
      ensures Valid() ==> Contents() == old(Contents())
    {
      assert forall k :: 0 <= k < SZ_PROC_QUEUE && k != qCount ==> Slot(qFirst, k) != p;
      queue[p] := queue[p].(status := status);
      if status == Done {
        var oldFirst := qFirst;
        queue[oldFirst] := queue[oldFirst].(expID := 0, status := Available);
        qFirst := queue[qFirst].next;
        qCount := qCount - 1;
        if qCount >= 0 {
          assert Slot(qFirst, qCount) == p && Slot(oldFirst, 0) == oldFirst != p;
        }
      } else {
        assert Slot(qFirst, qCount) == p;
      }
    }

    method SetNode(ghost i: nat, p: nat, status: Status)
      requires Valid() && i < qCount && p == Slot(qFirst, i)
      modifies queue
      ensures Valid()
      ensures Contents() == old(Contents())[i := Entry(old(Contents())[i].expID, status)]
    {
      queue[p] := queue[p].(status := status);
      assert forall k :: 0 <= k < SZ_PROC_QUEUE && k != i ==> Slot(qFirst, k) != p;
    }

    method PopHead()
      requires Valid() && qCount > 0
      modifies this, queue
      ensures Valid() && Contents() == old(Contents())[1..]
    {
      var oldFirst := qFirst;
      assert Slot(oldFirst, 0) == oldFirst;
      queue[oldFirst] := queue[oldFirst].(expID := 0, status := Available);
      qFirst := queue[qFirst].next;
      qCount := qCount - 1;
      assert forall k :: 0 <= k < SZ_PROC_QUEUE - 1 ==> Slot(qFirst, k) == Slot(oldFirst, k + 1);
      assert Slot(qFirst, SZ_PROC_QUEUE - 1) == oldFirst;
    }

    /** `pqGetStat`. */
    method PqGetStat(expID: ExpID) returns (status: Status)
      requires Valid()
      ensures status == GetStat(Contents(), expID)
    {
      ghost var q := Contents();
      var p := qFirst;
      ghost var i := 0;
      while p != queue[qLast].next
        invariant 0 <= i <= qCount && p == Slot(qFirst, i)
        invariant qCount == SZ_PROC_QUEUE ==> i == 0
        invariant forall j :: 0 <= j < i ==> !EqualExpID(q[j].expID, expID)
        decreases qCount - i
      {
        if EqualExpID(queue[p].expID, expID) {
          assert q[i].expID == queue[p].expID && Find(q, expID, |q|) == i;
          return queue[p].status;
        }
        p := queue[p].next;
        i := i + 1;
      }
      status := Available;
    }

    /** `pqDataWaiting`: the head is waiting exactly when `pqNext` would name it. */
    method PqDataWaiting() returns (waiting: bool)
      requires Valid()
      ensures waiting <==> |Contents()| > 0 && Contents()[0].status == Ready
    {
      assert Slot(qFirst, 0) == qFirst;
      waiting := qCount > 0 && queue[qFirst].status == Ready;
    }
  }
}
