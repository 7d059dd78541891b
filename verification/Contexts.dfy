/** The readout contexts of the data capture agent and the cache of the one used last
    (mosdca/mosdca.c: setContext, getContext, freeContext). */
module Contexts {

  const MAX_CONTEXT: nat := 8

  /** The first slot that holds `seqno`, or -1; 0 marks a free slot. */
  function First(table: seq<int>, seqno: int): (i: int)
    ensures -1 <= i < |table| && (i >= 0 ==> table[i] == seqno)
    ensures forall k :: 0 <= k < (if i < 0 then |table| else i) ==> table[k] != seqno
  {
    if table == [] then -1
    else if table[0] == seqno then 0
    else
      var r := First(table[1..], seqno);
      assert forall k :: 1 <= k < |table| ==> table[k] == table[1..][k - 1];
      if r < 0 then -1 else r + 1
  }

  /** No sequence number has two contexts. */
  predicate Unique(table: seq<int>) {
    forall i, j :: 0 <= i < j < |table| && table[i] != 0 ==> table[i] != table[j]
  }

  /** What `getContext` finds: the slot used last, if it is the one, or else the first one. */
  function Found(table: seq<int>, last: int, seqno: int): int
    requires -1 <= last < |table|
  {
    if last >= 0 && table[last] == seqno then last else First(table, seqno)
  }

  /** Remembering the slot used last changes no answer exactly when no sequence number has two
      contexts. */
  lemma CacheIsInvisible(table: seq<int>)
    ensures Unique(table) <==>
      forall last, seqno :: -1 <= last < |table| && seqno != 0 ==> Found(table, last, seqno) == First(table, seqno)
  {
    if !Unique(table) {
      var i, j :| 0 <= i < j < |table| && table[i] != 0 && table[i] == table[j];
      assert Found(table, j, table[i]) == j != First(table, table[i]);
    }
  }

  class ContextTable {
    var table: seq<int>
    var last: int      // the slot used last, or -1

    ghost predicate Valid()
      reads this
    {
      |table| == MAX_CONTEXT && -1 <= last < MAX_CONTEXT && (last >= 0 ==> table[last] != 0)
    }

    constructor ()
      ensures Valid() && Unique(table) && last == -1 && |table| == 8 && forall i :: 0 <= i < MAX_CONTEXT ==>
                table[i] == 0
    {
      table, last := seq(MAX_CONTEXT, _ => 0), -1;
    }

    /** `setContext`: the first free slot; a second context for the same number is not refused. */
    method SetContext(seqno: int) returns (ctx: int)
      requires Valid()
      modifies this
      ensures Valid()
      ensures ctx == if seqno == 0 then -1 else First(old(table), 0)
      ensures ctx == -1 <==> seqno == 0 || forall i :: 0 <= i < 8 ==> old(table)[i] != 0
      ensures table == (if ctx < 0 then old(table) else old(table)[ctx := seqno])
      ensures last == if ctx < 0 then old(last) else ctx
      ensures old(Unique(table)) ==> (Unique(table) <==> ctx < 0 || First(old(table), seqno) < 0)
    {
      if seqno == 0 {
        return -1;
      }
      var i := 0;
      while i < MAX_CONTEXT
        invariant 0 <= i <= MAX_CONTEXT && table == old(table) && last == old(last)
        invariant forall k :: 0 <= k < i ==> table[k] != 0
      {
        if table[i] == 0 {
          table := table[i := seqno];
          last := i;
          assert forall k :: 0 <= k < |table| && k != i ==> table[k] == old(table)[k];
          return i;
        }
        i := i + 1;
      }
      ctx := -1;
    }

    /** `getContext`, for a sequence number that is not zero. */
    method GetContext(seqno: int) returns (ctx: int)
      requires Valid() && seqno != 0
      modifies `last
      ensures Valid() && ctx == Found(table, old(last), seqno)
      ensures last == if ctx < 0 then old(last) else ctx
      ensures Unique(table) ==> ctx == First(table, seqno)
    {
      CacheIsInvisible(table);
      if last >= 0 && table[last] == seqno {
        return last;
      }
      var i := 0;
      while i < MAX_CONTEXT
        invariant 0 <= i <= MAX_CONTEXT && last == old(last)
        invariant forall k :: 0 <= k < i ==> table[k] != seqno
      {
        if table[i] == seqno {
          last := i;
          return i;
        }
        i := i + 1;
      }
      ctx := -1;
    }

    /** `freeContext`, for a sequence number that is not zero: its first slot is free again and is
        no longer the one used last. */
    method FreeContext(seqno: int) returns (status: int)
      requires Valid() && seqno != 0
      modifies this
      ensures Valid() && status == if First(old(table), seqno) < 0 then -1 else 0
      ensures var i := First(old(table), seqno);
        if i < 0 then table == old(table) && last == old(last)
        else table == old(table)[i := 0] && last == if old(last) == i then -1 else old(last)
      ensures old(Unique(table)) ==> Unique(table) && First(table, seqno) < 0
    {
      var i := 0;
      while i < MAX_CONTEXT
        invariant 0 <= i <= MAX_CONTEXT && table == old(table) && last == old(last)
        invariant forall k :: 0 <= k < i ==> table[k] != seqno
      {
        if table[i] == seqno {
          if last == i {
            last := -1;
          }
          table := table[i := 0];
          assert forall k :: 0 <= k < |table| && k != i ==> table[k] == old(table)[k];
          return 0;
        }
        i := i + 1;
      }
      status := -1;
    }
  }

  /** A number that is set twice has two answers: the second context right away, and the first one
      as soon as another context has been used. */
  method TwoAnswers() returns (before: int, after: int)
    ensures before == 1 && after == 0
  {
    var t := new ContextTable();
    var a := t.SetContext(5);
    assert t.table[0] == 5 && t.table[1] == 0;
    var b := t.SetContext(5);
    assert t.table[0] == t.table[1] == 5 && t.table[2] == 0;
    before := t.GetContext(5);
    var c := t.SetContext(7);
    assert t.table[0] == 5 && t.table[2] == 7 && t.last == 2;
    after := t.GetContext(5);
  }
}
