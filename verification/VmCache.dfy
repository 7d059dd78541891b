/** The list of cached file segments (mosdca/vmcache.c): doubly linked, most recently used first,
    with reference counts and an account of the bytes in use. */
module VmCache {
  import opened Arithmetic

  class Segment {
    var next: Segment?
    var prev: Segment?
    var refcnt: int
    const inode: int
    const device: int
    const offset: nat
    const nbytes: nat

    constructor (inode: int, device: int, offset: nat, nbytes: nat)
      ensures this.inode == inode && this.device == device && this.offset == offset && this.nbytes == nbytes
      ensures next == null && prev == null && refcnt == 0
    {
      this.inode, this.device, this.offset, this.nbytes := inode, device, offset, nbytes;
      next, prev, refcnt := null, null, 0;
    }
  }

  // ----- lists of segments -----

  function Cut(s: seq<Segment>, j: nat): (r: seq<Segment>)
    requires j < |s|
    ensures |r| == |s| - 1
  {
    s[..j] + s[j + 1..]
  }

  predicate Distinct(s: seq<Segment>) {
    forall i, j :: 0 <= i < j < |s| ==> s[i] != s[j]
  }

  /** The links visit the list forwards and backwards. */
  ghost predicate Linked(s: seq<Segment>)
    reads s`next, s`prev
  {
    && (forall i {:trigger s[i].next} :: 0 <= i < |s| ==> s[i].next == if i + 1 < |s| then s[i + 1] else null)
    && (forall i {:trigger s[i].prev} :: 0 <= i < |s| ==> s[i].prev == if i > 0 then s[i - 1] else null)
  }

  /** A linked list has no cycle: no segment is on it twice. */
  lemma {:induction false} LinkedDistinct(s: seq<Segment>, i: nat, j: nat)
    requires Linked(s) && i < j < |s|
    ensures s[i] != s[j]
  {
    if i > 0 {
      LinkedDistinct(s, i - 1, j - 1);
    }
    assert s[i].prev == (if i > 0 then s[i - 1] else null) && s[j].prev == if j > 0 then s[j - 1] else null;
  }

  lemma OnlyAt(s: seq<Segment>, i: nat, j: nat)
    requires Linked(s) && i < |s| && j < |s|
    ensures s[i] == s[j] <==> i == j
  {
    if i < j {
      LinkedDistinct(s, i, j);
    } else if j < i {
      LinkedDistinct(s, j, i);
    }
  }

  lemma Ends(s: seq<Segment>, t: int, j: nat)
    requires Linked(s) && j < |s| && -1 <= t < |s|
    ensures s[0] == s[j] <==> j == 0
    ensures t >= 0 ==> (s[t] == s[j] <==> j == t)
  {
    OnlyAt(s, 0, j);
    if t >= 0 {
      OnlyAt(s, t, j);
    }
  }

  lemma AllDistinct(s: seq<Segment>)
    requires Linked(s)
    ensures Distinct(s)
  {
    forall i, j | 0 <= i < j < |s| ensures s[i] != s[j] {
      LinkedDistinct(s, i, j);
    }
  }

  function Bytes(s: seq<Segment>): nat {
    if s == [] then 0 else Bytes(s[..|s| - 1]) + s[|s| - 1].nbytes
  }

  lemma {:induction false} BytesConcat(a: seq<Segment>, b: seq<Segment>)
    ensures Bytes(a + b) == Bytes(a) + Bytes(b)
  {
    if b == [] {
      assert a + b == a;
    } else {
      BytesConcat(a, b[..|b| - 1]);
      assert (a + b)[..|a + b| - 1] == a + b[..|b| - 1];
    }
  }

  lemma BytesOne(s: Segment)
    ensures Bytes([s]) == s.nbytes
  {
    assert [s][..0] == [] && Bytes([]) == 0;
  }

  lemma BytesCut(s: seq<Segment>, j: nat)
    requires j < |s|
    ensures Bytes(s) == Bytes(Cut(s, j)) + s[j].nbytes
  {
    Parts(s, j);
    BytesBetween(s[..j], s[j], s[j + 1..]);
  }

  lemma Parts(s: seq<Segment>, j: nat)
    requires j < |s|
    ensures s == s[..j] + ([s[j]] + s[j + 1..])
  {
  }

  lemma BytesBetween(a: seq<Segment>, x: Segment, b: seq<Segment>)
    ensures Bytes(a + ([x] + b)) == Bytes(a + b) + x.nbytes
  {
    BytesFront(b, x);
    BytesConcat(a, [x] + b);
    BytesConcat(a, b);
  }

  lemma BytesFront(s: seq<Segment>, sp: Segment)
    ensures Bytes([sp] + s) == Bytes(s) + sp.nbytes
  {
    BytesConcat([sp], s);
    BytesOne(sp);
  }

  // ----- pages -----

  function PageStart(offset: nat, pagesize: nat): (r: nat)
    requires pagesize > 0
    ensures r <= offset < r + pagesize && r % pagesize == 0
  {
    assert offset == offset / pagesize * pagesize + offset % pagesize;
    Divides(offset / pagesize, 0, pagesize);
    offset - offset % pagesize
  }

  /** The pages that hold a region of a file: their offset and size. */
  function Pages(offset: nat, nbytes: nat, pagesize: nat): (r: (nat, nat))
    requires pagesize > 0 && nbytes > 0
    ensures r.0 <= offset && offset + nbytes <= r.0 + r.1 && r.0 % pagesize == 0
  {
    var x1 := PageStart(offset + nbytes - 1, pagesize) + pagesize - 1;
    (PageStart(offset, pagesize), x1 - PageStart(offset, pagesize) + 1)
  }

  /** The region is widened to whole pages: from the start of the page of its first byte to the end
      of the page of its last byte. */
  lemma PagesAre(offset: nat, nbytes: nat, pagesize: nat)
    requires pagesize > 0 && nbytes > 0
    ensures var (x, n) := Pages(offset, nbytes, pagesize);
      && x == offset / pagesize * pagesize
      && x + n == (offset + nbytes - 1) / pagesize * pagesize + pagesize
  {
  }

  // ----- which segments make room -----

  /** The size of the cache, and one more than the largest unsigned number of the machine. */
  datatype Capacity = Capacity(size: nat, ulong: nat) {
    /** What is free while `used` bytes are in use: an unsigned difference. */
    function Room(used: int): int {
      if used <= size then size - used else size - used + ulong
    }
  }

  /** That is the difference modulo the range of the unsigned numbers. */
  lemma RoomIs(cap: Capacity, used: nat)
    requires cap.size < cap.ulong && used < cap.ulong
    ensures cap.Room(used) == (cap.size - used) % cap.ulong
  {
    var x, n := cap.size - used, cap.ulong;
    assert x == x / n * n + x % n;
    if used <= cap.size {
      SameQuotient(n, x / n, x % n, 0, x);
    } else {
      SameQuotient(n, x / n, x % n, -1, x + n);
    }
  }

  /** The list once unreferenced segments were freed, from its end on, until more than `nbytes` of
      the cache are free.  `used` bytes are in use at the start. */
  function Evicted(s: seq<Segment>, busy: set<Segment>, used: int, cap: Capacity, nbytes: nat): (r: seq<Segment>)
  {
    if s == [] || cap.Room(used) > nbytes then s
    else
      var most, last := s[..|s| - 1], s[|s| - 1];
      if last in busy then Evicted(most, busy, used, cap, nbytes) + [last]
      else Evicted(most, busy, used - last.nbytes, cap, nbytes)
  }

  /** The segments of `s` that are not referenced. */
  function Unreferenced(s: seq<Segment>, busy: set<Segment>): (r: seq<Segment>)
  {
    if s == [] then []
    else
      var r := Unreferenced(s[..|s| - 1], busy);
      if s[|s| - 1] !in busy then r + [s[|s| - 1]] else r
  }

  lemma InAppend(s: seq<Segment>, last: Segment)
    ensures forall x :: x in s + [last] <==> x in s || x == last
  {
    assert (s + [last])[|s|] == last;
    forall x | x in s ensures x in s + [last] {
      var k :| 0 <= k < |s| && s[k] == x;
      assert (s + [last])[k] == x;
    }
  }

  /** Only unreferenced segments are freed. */
  lemma {:induction false} EvictedKeeps(s: seq<Segment>, busy: set<Segment>, used: int, cap: Capacity, nbytes: nat)
    ensures forall x :: x in Evicted(s, busy, used, cap, nbytes) ==> x in s
    ensures forall x :: x in s && x in busy ==> x in Evicted(s, busy, used, cap, nbytes)
  {
    if s != [] && cap.Room(used) <= nbytes {
      var most, last := s[..|s| - 1], s[|s| - 1];
      assert s == most + [last];
      InAppend(most, last);
      if last in busy {
        EvictedKeeps(most, busy, used, cap, nbytes);
        InAppend(Evicted(most, busy, used, cap, nbytes), last);
      } else {
        EvictedKeeps(most, busy, used - last.nbytes, cap, nbytes);
      }
    }
  }

  /** The segments of `s` that are referenced. */
  function Referenced(s: seq<Segment>, busy: set<Segment>): (r: seq<Segment>)
  {
    if s == [] then []
    else
      var r := Referenced(s[..|s| - 1], busy);
      if s[|s| - 1] in busy then r + [s[|s| - 1]] else r
  }

  /** `r` is `s` with its unreferenced segments from `n` on freed; segment `n` was needed, and in the
      end more than `nbytes` are free or nothing is left to free. */
  predicate FreedFrom(s: seq<Segment>, busy: set<Segment>, r: seq<Segment>, n: nat, used: int, cap: Capacity,
                      nbytes: nat)
  {
    && n <= |s| && r == s[..n] + Referenced(s[n..], busy)
    && (n < |s| ==> s[n] !in busy && cap.Room(used - Bytes(Unreferenced(s[n + 1..], busy))) <= nbytes)
    && (cap.Room(used - Bytes(Unreferenced(s[n..], busy))) > nbytes || Unreferenced(s[..n], busy) == [])
  }

  /** Segments are freed least recently used first, and no more of them than needed. */
  lemma {:induction false} LeastRecentlyUsedFirst(s: seq<Segment>, busy: set<Segment>, used: int, cap: Capacity,
                                                  nbytes: nat) returns (n: nat)
    ensures FreedFrom(s, busy, Evicted(s, busy, used, cap, nbytes), n, used, cap, nbytes)
    decreases |s|
  {
    if s == [] || cap.Room(used) > nbytes {
      n := |s|;
      NothingFreed(s, busy, used, cap, nbytes);
    } else {
      var most, last := s[..|s| - 1], s[|s| - 1];
      assert s == most + [last];
      if last in busy {
        var r := Evicted(most, busy, used, cap, nbytes);
        var n0 := LeastRecentlyUsedFirst(most, busy, used, cap, nbytes);
        n := KeptLast(most, last, busy, r, n0, used, cap, nbytes);
      } else {
        var r := Evicted(most, busy, used - last.nbytes, cap, nbytes);
        n := LeastRecentlyUsedFirst(most, busy, used - last.nbytes, cap, nbytes);
        FreedLast(most, last, busy, r, n, used, cap, nbytes);
      }
    }
  }

  lemma NothingFreed(s: seq<Segment>, busy: set<Segment>, used: int, cap: Capacity, nbytes: nat)
    requires s == [] || cap.Room(used) > nbytes
    ensures FreedFrom(s, busy, s, |s|, used, cap, nbytes)
  {
    assert s[..|s|] + [] == s && s[|s|..] == [];
  }

  lemma KeptLast(most: seq<Segment>, last: Segment, busy: set<Segment>, r: seq<Segment>, n0: nat, used: int,
                 cap: Capacity, nbytes: nat) returns (n: nat)
    requires FreedFrom(most, busy, r, n0, used, cap, nbytes) && last in busy && cap.Room(used) <= nbytes
    ensures FreedFrom(most + [last], busy, r + [last], n, used, cap, nbytes)
  {
    var s := most + [last];
    if n0 == |most| {
      n := |s|;
      KeptWhole(most, last, busy);
    } else {
      n := n0;
      KeptFront(most, last, busy, n);
      Regroup(s[..n], Referenced(most[n..], busy), [last]);
      SameBytes(most, last, busy, n);
      SameBytes(most, last, busy, n + 1);
    }
  }

  lemma KeptWhole(most: seq<Segment>, last: Segment, busy: set<Segment>)
    requires last in busy
    ensures var s := most + [last];
      && s[..|s|] == s && s[|s|..] == [] && s[..|s|] + Referenced([], busy) == s
      && most[..|most|] + Referenced(most[|most|..], busy) == most
      && Unreferenced(s, busy) == Unreferenced(most, busy) && most[..|most|] == most && most[|most|..] == []
  {
    OneMore(most, last, busy);
  }

  lemma KeptFront(most: seq<Segment>, last: Segment, busy: set<Segment>, n: nat)
    requires n < |most| && last in busy
    ensures var s := most + [last];
      && s[..n] == most[..n] && s[n] == most[n]
      && Referenced(s[n..], busy) == Referenced(most[n..], busy) + [last]
  {
    OneBehind(most, last, busy, n);
  }

  lemma Regroup(a: seq<Segment>, b: seq<Segment>, c: seq<Segment>)
    ensures a + b + c == a + (b + c)
  {
  }

  lemma SameBytes(most: seq<Segment>, last: Segment, busy: set<Segment>, n: nat)
    requires n <= |most|
    ensures Bytes(Unreferenced((most + [last])[n..], busy))
         == Bytes(Unreferenced(most[n..], busy)) + if last !in busy then last.nbytes else 0
  {
    OneBehind(most, last, busy, n);
  }

  lemma FreedLast(most: seq<Segment>, last: Segment, busy: set<Segment>, r: seq<Segment>, n: nat, used: int,
                  cap: Capacity, nbytes: nat)
    requires FreedFrom(most, busy, r, n, used - last.nbytes, cap, nbytes) && last !in busy && cap.Room(used) <= nbytes
    ensures FreedFrom(most + [last], busy, r, n, used, cap, nbytes)
  {
    var s := most + [last];
    SameFront(most, last, busy, n);
    SameBytes(most, last, busy, n);
    MoreFree(cap, used, last.nbytes, Bytes(Unreferenced(most[n..], busy)));
    if n < |most| {
      SameBytes(most, last, busy, n + 1);
      MoreFree(cap, used, last.nbytes, Bytes(Unreferenced(most[n + 1..], busy)));
    } else {
      NothingAfter(s, busy);
    }
  }

  lemma SameFront(most: seq<Segment>, last: Segment, busy: set<Segment>, n: nat)
    requires n <= |most| && last !in busy
    ensures var s := most + [last];
      && s[..n] == most[..n] && s[n] == (if n < |most| then most[n] else last)
      && Referenced(s[n..], busy) == Referenced(most[n..], busy)
  {
    OneBehind(most, last, busy, n);
  }

  lemma MoreFree(cap: Capacity, used: int, nbytes: nat, b: nat)
    ensures cap.Room(used - (b + nbytes)) == cap.Room(used - nbytes - b)
  {
  }

  lemma NothingAfter(s: seq<Segment>, busy: set<Segment>)
    ensures s[|s|..] == [] && Bytes(Unreferenced([], busy)) == 0
  {
  }

  lemma OneMore(s: seq<Segment>, last: Segment, busy: set<Segment>)
    ensures Unreferenced(s + [last], busy) == Unreferenced(s, busy) + (if last !in busy then [last] else [])
    ensures Referenced(s + [last], busy) == Referenced(s, busy) + (if last in busy then [last] else [])
    ensures Bytes(Unreferenced(s + [last], busy)) ==
              Bytes(Unreferenced(s, busy)) + if last !in busy then last.nbytes else 0
  {
    assert (s + [last])[..|s|] == s;
    if last !in busy {
      BytesConcat(Unreferenced(s, busy), [last]);
      BytesOne(last);
    }
  }

  /** The last segment is the last of every end part. */
  lemma OneBehind(most: seq<Segment>, last: Segment, busy: set<Segment>, n: nat)
    requires n <= |most|
    ensures var s := most + [last];
      && Unreferenced(s[n..], busy) == Unreferenced(most[n..], busy) + (if last !in busy then [last] else [])
      && Referenced(s[n..], busy) == Referenced(most[n..], busy) + (if last in busy then [last] else [])
      && Bytes(Unreferenced(s[n..], busy)) ==
          Bytes(Unreferenced(most[n..], busy)) + if last !in busy then last.nbytes else 0
  {
    var s := most + [last];
    assert s[n..] == most[n..] + [last];
    OneMore(most[n..], last, busy);
  }

  /** Referenced segments at the end are passed over. */
  lemma {:induction false} EvictedThrough(front: seq<Segment>, behind: seq<Segment>, busy: set<Segment>, used: int,
                                          cap: Capacity, nbytes: nat)
    requires cap.Room(used) <= nbytes && Unreferenced(behind, busy) == []
    ensures Evicted(front + behind, busy, used, cap, nbytes) == Evicted(front, busy, used, cap, nbytes) + behind
    decreases |behind|
  {
    if behind == [] {
      assert front + behind == front;
    } else {
      var most, last := behind[..|behind| - 1], behind[|behind| - 1];
      assert (front + behind)[..|front + behind| - 1] == front + most && behind == most + [last];
      EvictedThrough(front, most, busy, used, cap, nbytes);
    }
  }

  lemma {:induction false} SomeUnreferenced(s: seq<Segment>, busy: set<Segment>) returns (i: nat)
    requires Unreferenced(s, busy) != []
    ensures i < |s| && s[i] !in busy
  {
    i := if s[|s| - 1] !in busy then |s| - 1 else 0;
    if s[|s| - 1] in busy {
      i := SomeUnreferenced(s[..|s| - 1], busy);
    }
  }

  lemma {:induction false} NoneUnreferenced(s: seq<Segment>, busy: set<Segment>, i: nat)
    requires Unreferenced(s, busy) == [] && i < |s|
    ensures s[i] in busy
  {
    if i < |s| - 1 {
      NoneUnreferenced(s[..|s| - 1], busy, i);
    }
  }

  lemma {:induction false} ReferencedBusy(s: seq<Segment>, busy: set<Segment>)
    ensures forall x :: x in Referenced(s, busy) ==> x in busy
  {
    if s != [] {
      ReferencedBusy(s[..|s| - 1], busy);
    }
  }

  /** An unreferenced segment that is left is in front of those that were freed. */
  lemma LeftInFront(s: seq<Segment>, busy: set<Segment>, r: seq<Segment>, n: nat, i: nat)
    requires Distinct(s) && n <= |s| && i < |s| && s[i] !in busy
    requires r == s[..n] + Referenced(s[n..], busy) && s[i] in r
    ensures i < n
  {
    ReferencedBusy(s[n..], busy);
    assert s[i] in s[..n];
  }

  /** If an unreferenced segment behind the first `k` is kept although room was needed, the least
      recently used ones are not freed first. */
  lemma NotInOrder(s: seq<Segment>, k: nat, front: seq<Segment>, busy: set<Segment>, n: nat, used: int, cap: Capacity,
                   nbytes: nat)
    requires Distinct(s) && k <= |s| && cap.Room(used) <= nbytes && Unreferenced(s[k..], busy) != []
    ensures !FreedFrom(s, busy, front + s[k..], n, used, cap, nbytes)
  {
    var r := front + s[k..];
    assert s[|s|..] == [] && Bytes(Unreferenced([], busy)) == 0;
    if FreedFrom(s, busy, r, n, used, cap, nbytes) {
      var i := SomeUnreferenced(s[k..], busy);
      assert s[k..][i] == s[k + i] && r[|front| + i] == s[k + i];
      LeftInFront(s, busy, r, n, k + i);
      assert Unreferenced(s[..n], busy) != [] by {
        if Unreferenced(s[..n], busy) == [] {
          NoneUnreferenced(s[..n], busy, k + i);
        }
      }
      if n < |s| {
        assert s[k..][n - k] == s[n] && r[|front| + n - k] == s[n];
        LeftInFront(s, busy, r, n, n);
      }
    }
  }

  ghost predicate FreedInOrder(s: seq<Segment>, busy: set<Segment>, r: seq<Segment>, used: int, cap: Capacity,
                               nbytes: nat) {
    exists n :: FreedFrom(s, busy, r, n, used, cap, nbytes)
  }

  /** Freeing from segment `k - 1` on. */
  lemma OrderKept(s: seq<Segment>, k: nat, busy: set<Segment>, used: int, cap: Capacity, nbytes: nat)
    requires Distinct(s) && k <= |s|
    ensures var r := if cap.Room(used) > nbytes then s else Evicted(s[..k], busy, used, cap, nbytes) + s[k..];
      FreedInOrder(s, busy, r, used, cap, nbytes) <==> cap.Room(used) > nbytes || Unreferenced(s[k..], busy) == []
  {
    if cap.Room(used) > nbytes {
      NothingFreed(s, busy, used, cap, nbytes);
    } else if Unreferenced(s[k..], busy) == [] {
      var n := LeastRecentlyUsedFirst(s, busy, used, cap, nbytes);
      assert s == s[..k] + s[k..];
      EvictedThrough(s[..k], s[k..], busy, used, cap, nbytes);
    } else {
      var front := Evicted(s[..k], busy, used, cap, nbytes);
      forall n ensures !FreedFrom(s, busy, front + s[k..], n, used, cap, nbytes) {
        NotInOrder(s, k, front, busy, n, used, cap, nbytes);
      }
    }
  }

  // ----- linking -----

  /** Takes `sp`, segment `j` of the list, out of it. */
  method Unlink(sp: Segment, ghost s: seq<Segment>, ghost j: nat)
    requires Linked(s) && j < |s| && s[j] == sp
    modifies s`next, s`prev
    ensures Linked(Cut(s, j)) && sp.next == old(sp.next) && sp.prev == old(sp.prev)
  {
    AllDistinct(s);
    assert sp.next == (if j + 1 < |s| then s[j + 1] else null) && sp.prev == (if j > 0 then s[j - 1] else null) by {
      assert s[j].next == sp.next && s[j].prev == sp.prev;
    }
    if sp.next != null {
      sp.next.prev := sp.prev;
    }
    if sp.prev != null {
      sp.prev.next := sp.next;
    }
    var r := Cut(s, j);
    forall i | 0 <= i < |r| ensures r[i].next == if i + 1 < |r| then r[i + 1] else null {
      assert old(s[if i < j then i else i + 1].next) ==
          if (if i < j then i else i + 1) + 1 < |s| then s[(if i < j then i else i + 1) + 1] else null;
    }
    forall i | 0 <= i < |r| ensures r[i].prev == if i > 0 then r[i - 1] else null {
      assert old(s[if i < j then i else i + 1].prev) ==
          if (if i < j then i else i + 1) > 0 then s[(if i < j then i else i + 1) - 1] else null;
    }
  }

  /** Puts `sp`, which is not in the list, at its head. */
  method LinkFirst(sp: Segment, head: Segment?, ghost s: seq<Segment>)
    requires Linked(s) && sp !in s && head == if s == [] then null else s[0]
    modifies sp`next, sp`prev, s`prev
    ensures Linked([sp] + s)
  {
    AllDistinct(s);
    sp.next := head;
    sp.prev := null;
    if head != null {
      head.prev := sp;
    }
    var r := [sp] + s;
    forall i | 0 <= i < |r| ensures r[i].next == if i + 1 < |r| then r[i + 1] else null {
      if i > 0 {
        assert r[i] == s[i - 1] && old(s[i - 1].next) == if i < |s| then s[i] else null;
      }
    }
    forall i | 0 <= i < |r| ensures r[i].prev == if i > 0 then r[i - 1] else null {
      if i > 0 {
        assert r[i] == s[i - 1] && old(s[i - 1].prev) == if i - 1 > 0 then s[i - 2] else null;
      }
    }
  }

  predicate SameFile(sp: Segment, inode: int, device: int) {
    sp.inode == inode && sp.device == device
  }

  predicate Holds(sp: Segment, x: nat) {
    sp.offset <= x < sp.offset + sp.nbytes
  }

  /** Where the list starts, where the recorded tail is on it, and the bytes it uses. */
  predicate Shape(head: Segment?, tail: Segment?, used: int, list: seq<Segment>, tailAt: int) {
    && head == (if list == [] then null else list[0])
    && -1 <= tailAt < |list| && tail == (if tailAt < 0 then null else list[tailAt])
    && used == Bytes(list)
  }

  predicate Within(s: seq<Segment>, repr: set<Segment>) {
    forall i :: 0 <= i < |s| ==> s[i] in repr
  }

  /** Where the recorded tail is once segment `j`, not the first, was moved to the head. */
  function MovedTail(tailAt: int, j: nat): int {
    if tailAt < 0 || j < tailAt then tailAt else if j == tailAt then 0 else tailAt + 1
  }

  lemma ShapeMoved(head: Segment?, tail: Segment?, used: int, s: seq<Segment>, tailAt: int, j: nat, repr: set<Segment>)
    requires Shape(head, tail, used, s, tailAt) && 0 < j < |s| && Within(s, repr)
    ensures Shape(s[j], tail, used, [s[j]] + Cut(s, j), MovedTail(tailAt, j)) && Within([s[j]] + Cut(s, j), repr)
    ensures Cut(s, j)[0] == s[0] == head
  {
    BytesCut(s, j);
    BytesFront(Cut(s, j), s[j]);
  }

  lemma ShapeFront(head: Segment?, tail: Segment?, used: int, s: seq<Segment>, tailAt: int, sp: Segment,
                   repr: set<Segment>)
    requires Shape(head, tail, used, s, tailAt) && Within(s, repr)
    ensures Shape(sp, if tail == null then sp else tail, used + sp.nbytes, [sp] + s, tailAt + 1)
    ensures Within([sp] + s, repr + {sp})
  {
    BytesFront(s, sp);
  }

  /** The shape of the list once segment `j` is taken out. */
  lemma ShapeCut(head: Segment?, tail: Segment?, used: int, s: seq<Segment>, tailAt: int, j: nat, next: Segment?,
                 prev: Segment?, repr: set<Segment>)
    requires Shape(head, tail, used, s, tailAt) && j < |s| && Within(s, repr)
    requires (head == s[j] <==> j == 0) && (tail == s[j] <==> j == tailAt)
    requires next == (if j + 1 < |s| then s[j + 1] else null) && prev == (if j > 0 then s[j - 1] else null)
    ensures Shape(if head == s[j] then next else head, if tail == s[j] then prev else tail, used - s[j].nbytes,
                  Cut(s, j), if j <= tailAt then tailAt - 1 else tailAt)
    ensures Within(Cut(s, j), repr)
  {
    BytesCut(s, j);
  }

  /** The first segment of the file that holds byte `x`, or -1. */
  function FindCover(s: seq<Segment>, inode: int, device: int, x: nat): (j: int)
    ensures -1 <= j < |s|
    ensures j >= 0 ==> SameFile(s[j], inode, device) && Holds(s[j], x)
  {
    if s == [] then -1
    else if SameFile(s[0], inode, device) && Holds(s[0], x) then 0
    else
      var r := FindCover(s[1..], inode, device, x);
      if r < 0 then -1 else r + 1
  }

  /** The first segment of the file that starts at byte `x`, or -1. */
  function FindStart(s: seq<Segment>, inode: int, device: int, x: nat): (j: int)
    ensures -1 <= j < |s|
    ensures j >= 0 ==> SameFile(s[j], inode, device) && s[j].offset == x
  {
    if s == [] then -1
    else if SameFile(s[0], inode, device) && s[0].offset == x then 0
    else
      var r := FindStart(s[1..], inode, device, x);
      if r < 0 then -1 else r + 1
  }

  /** Segment `j` is the first of file (`inode`, `device`) that byte `x` of the file is in. */
  ghost predicate FirstWith(s: seq<Segment>, j: nat, inode: int, device: int, x: nat) {
    j < |s| && HasByte(s[j], inode, device, x) && forall i :: 0 <= i < j ==> !HasByte(s[i], inode, device, x)
  }

  ghost predicate HasByte(sp: Segment, inode: int, device: int, x: nat) {
    sp.inode == inode && sp.device == device && sp.offset <= x && x < sp.offset + sp.nbytes
  }

  /** What the search of `vm_cacheregion` finds. */
  lemma {:induction false} CoverIs(s: seq<Segment>, inode: int, device: int, x: nat)
    ensures var j := FindCover(s, inode, device, x);
      if j < 0 then forall i :: 0 <= i < |s| ==> !HasByte(s[i], inode, device, x)
      else FirstWith(s, j, inode, device, x)
  {
    if s != [] && !(SameFile(s[0], inode, device) && Holds(s[0], x)) {
      CoverIs(s[1..], inode, device, x);
      assert forall i :: 0 < i < |s| ==> s[i] == s[1..][i - 1];
    }
  }

  /** What the search of the other operations finds. */
  lemma {:induction false} StartIs(s: seq<Segment>, inode: int, device: int, x: nat)
    ensures var j := FindStart(s, inode, device, x);
      && (j >= 0 ==> s[j].inode == inode && s[j].device == device && s[j].offset == x)
      && forall i :: 0 <= i < |s| && (j < 0 || i < j) ==>
           !(s[i].inode == inode && s[i].device == device && s[i].offset == x)
  {
    if s != [] && !(SameFile(s[0], inode, device) && s[0].offset == x) {
      StartIs(s[1..], inode, device, x);
      assert forall i :: 0 < i < |s| ==> s[i] == s[1..][i - 1];
    }
  }

  class Cache {
    var head: Segment?
    var tail: Segment?
    var enabled: bool
    var cacheused: int
    const cap: Capacity
    const pagesize: nat
    ghost var list: seq<Segment>   // the segments, from the head on
    ghost var tailAt: int          // where `tail` is in the list, -1 if it is null
    ghost var repr: set<Segment>   // the segments, and those that were freed

    ghost predicate Valid()
      reads this, repr
    {
      && pagesize > 0 && Shape(head, tail, cacheused, list, tailAt) && Within(list, repr) && Linked(list)
      && (forall x :: x in repr ==> x.refcnt >= 0)
    }

    constructor (enabled: bool, cap: Capacity, pagesize: nat)
      requires pagesize > 0
      ensures Valid() && list == [] && repr == {}
      ensures this.enabled == enabled && this.cap == cap && this.pagesize == pagesize
    {
      this.enabled, this.cap, this.pagesize := enabled, cap, pagesize;
      head, tail, cacheused, list, tailAt, repr := null, null, 0, [], -1, {};
    }

    /** `freespace`. */
    function FreeSpace(): int
      reads this`cacheused
    {
      cap.Room(cacheused)
    }

    /** The referenced segments. */
    ghost function Busy(): set<Segment>
      reads this`repr, repr`refcnt
    {
      set x | x in repr && x.refcnt != 0
    }

    /** What `ReserveSpace` leaves: segments are freed from the recorded tail on, which need not be
        the last segment. */
    ghost function Reserved(nbytes: nat): seq<Segment>
      requires -1 <= tailAt < |list|
      reads this, repr`refcnt
    {
      if !enabled || FreeSpace() > nbytes then list
      else Evicted(list[..tailAt + 1], Busy(), cacheused, cap, nbytes) + list[tailAt + 1..]
    }

    /** Segment `sp` is freed. */
    method Remove(sp: Segment, ghost j: nat)
      requires Valid() && j < |list| && list[j] == sp && sp.refcnt == 0
      modifies `head, `tail, `cacheused, `list, `tailAt, repr`next, repr`prev
      ensures Valid() && list == Cut(old(list), j) && cacheused == old(cacheused) - sp.nbytes
      ensures sp.prev == old(sp.prev) && tailAt == if j <= old(tailAt) then old(tailAt) - 1 else old(tailAt)
    {
      Neighbours(list, j);
      Ends(list, tailAt, j);
      ShapeCut(head, tail, cacheused, list, tailAt, j, sp.next, sp.prev, repr);
      Unlink(sp, list, j);
      Forget(sp, j);
    }

    /** The ends of the list and the account, once `sp` is unlinked. */
    method Forget(sp: Segment, ghost j: nat)
      requires j < |list|
      modifies `head, `tail, `cacheused, `list, `tailAt
      ensures cacheused == old(cacheused) - sp.nbytes
      ensures head == (if old(head) == sp then sp.next else old(head))
      ensures tail == (if old(tail) == sp then sp.prev else old(tail))
      ensures list == Cut(old(list), j) && tailAt == if j <= old(tailAt) then old(tailAt) - 1 else old(tailAt)
    {
      cacheused := cacheused - sp.nbytes;
      if head == sp {
        head := sp.next;
      }
      if tail == sp {
        tail := sp.prev;
      }
      list, tailAt := Cut(list, j), if j <= tailAt then tailAt - 1 else tailAt;
    }

    /** The segments behind the first `k` have been looked at; going on from segment `sp` in front
        of them ends in `target`. */
    ghost predicate Reserving(sp: Segment?, k: nat, busy: set<Segment>, nbytes: nat, target: seq<Segment>)
      reads this, repr
    {
      && Valid() && k <= |list| && sp == (if k == 0 then null else list[k - 1])
      && busy == Busy()
      && if FreeSpace() > nbytes then target == list
         else target == Evicted(list[..k], busy, cacheused, cap, nbytes) + list[k..]
    }

    /** One segment is looked at, and freed if it is not referenced. */
    method Consider(sp: Segment, nbytes: nat, ghost k: nat, ghost busy: set<Segment>, ghost target: seq<Segment>)
      returns (prev: Segment?)
      requires k > 0 && Reserving(sp, k, busy, nbytes, target) && FreeSpace() <= nbytes
      modifies `head, `tail, `cacheused, `list, `tailAt, repr`next, repr`prev
      ensures Reserving(prev, k - 1, busy, nbytes, target)
    {
      Neighbours(list, k - 1);
      if sp.refcnt == 0 {
        EvictFree(list, k, busy, cacheused, cap, nbytes, target);
        Remove(sp, k - 1);
      } else {
        EvictKeep(list, k, busy, cacheused, cap, nbytes, target);
      }
      prev := sp.prev;
    }

    /** `vm_reservespace`. */
    method ReserveSpace(nbytes: nat) returns (status: int)
      requires Valid()
      modifies `head, `tail, `cacheused, `list, `tailAt, repr`next, repr`prev
      ensures Valid() && list == old(Reserved(nbytes))
      ensures old(FreeSpace()) > nbytes ==> tail == old(tail) && cacheused == old(cacheused)
      ensures status == if !enabled || FreeSpace() >= nbytes then 0 else -1
    {
      if !enabled {
        return 0;
      }
      ghost var target, busy := Reserved(nbytes), Busy();
      ghost var k: nat := tailAt + 1;
      var freespace := FreeSpace();
      var sp := tail;
      while sp != null
        invariant Reserving(sp, k, busy, nbytes, target) && freespace == FreeSpace()
        invariant old(FreeSpace()) > nbytes ==> freespace > nbytes && tail == old(tail) && cacheused == old(cacheused)
        decreases k
      {
        if freespace > nbytes {
          break;
        }
        sp := Consider(sp, nbytes, k, busy, target);
        k := k - 1;
        freespace := FreeSpace();
      }
      NothingBehind(list, busy, cacheused, cap, nbytes);
      status := if freespace >= nbytes then 0 else -1;
    }

    /** No operation frees a segment that is referenced. */
    lemma ReferencedStay(nbytes: nat)
      requires Valid()
      ensures forall i :: 0 <= i < |list| && list[i].refcnt != 0 ==> list[i] in Reserved(nbytes)
    {
      var front, behind := list[..tailAt + 1], list[tailAt + 1..];
      EvictedKeeps(front, Busy(), cacheused, cap, nbytes);
      forall i | 0 <= i < |list| && list[i].refcnt != 0 ensures list[i] in Reserved(nbytes) {
        if i <= tailAt {
          assert front[i] in front;
        } else {
          assert behind[i - tailAt - 1] in behind;
        }
      }
    }

    /** Segments are freed least recently used first, and no more than needed. */
    ghost predicate FreesInOrder(nbytes: nat)
      requires Valid()
      reads this, repr
    {
      FreedInOrder(list, Busy(), Reserved(nbytes), cacheused, cap, nbytes)
    }

    /** That is what happens if and only if there is room already or nothing behind the recorded
        tail could be freed. */
    lemma OrderIsKept(nbytes: nat)
      requires Valid() && enabled
      ensures FreesInOrder(nbytes) <==> FreeSpace() > nbytes || Unreferenced(list[tailAt + 1..], Busy()) == []
    {
      AllDistinct(list);
      OrderKept(list, tailAt + 1, Busy(), cacheused, cap, nbytes);
    }

    /** Segment `sp` moves to the head of the list; the recorded tail stays what it is. */
    method MoveToHead(sp: Segment, ghost j: nat)
      requires Valid() && 0 < j < |list| && list[j] == sp
      modifies `head, `list, `tailAt, repr`next, repr`prev
      ensures Valid() && list == [sp] + Cut(old(list), j) && tailAt == MovedTail(old(tailAt), j)
    {
      ShapeMoved(head, tail, cacheused, list, tailAt, j, repr);
      AllDistinct(list);
      Unlink(sp, list, j);
      LinkFirst(sp, head, Cut(list, j));
      head := sp;
      list, tailAt := [sp] + Cut(list, j), MovedTail(tailAt, j);
    }

    /** The search loops: the first segment of the file that holds byte `x`. */
    method SearchCover(inode: int, device: int, x: nat, ghost found: int) returns (sp: Segment?)
      requires Valid() && found == FindCover(list, inode, device, x)
      ensures sp == if found < 0 then null else list[found]
    {
      sp := head;
      ghost var k := 0;
      while sp != null
        invariant 0 <= k <= |list| && sp == (if k < |list| then list[k] else null)
        invariant var r := FindCover(list[k..], inode, device, x); found == if r < 0 then -1 else r + k
        decreases |list| - k
      {
        Neighbours(list, k);
        if SameFile(sp, inode, device) && Holds(sp, x) {
          return;
        }
        assert list[k..][1..] == list[k + 1..];
        sp, k := sp.next, k + 1;
      }
    }

    /** The first segment of the file that starts at byte `x`. */
    method SearchStart(inode: int, device: int, x: nat, ghost found: int) returns (sp: Segment?)
      requires Valid() && found == FindStart(list, inode, device, x)
      ensures sp == if found < 0 then null else list[found]
    {
      sp := head;
      ghost var k := 0;
      while sp != null
        invariant 0 <= k <= |list| && sp == (if k < |list| then list[k] else null)
        invariant var r := FindStart(list[k..], inode, device, x); found == if r < 0 then -1 else r + k
        decreases |list| - k
      {
        Neighbours(list, k);
        if SameFile(sp, inode, device) && sp.offset == x {
          return;
        }
        assert list[k..][1..] == list[k + 1..];
        sp, k := sp.next, k + 1;
      }
    }

    /** The end of `vm_cacheregion`, for a segment that is on the list: it moves to the head and has
        one more reference. */
    method Refresh(sp: Segment, ghost j: nat)
      requires Valid() && j < |list| && list[j] == sp
      modifies `head, `tail, `list, `tailAt, repr`next, repr`prev, sp`refcnt
      ensures Valid() && list == [sp] + Cut(old(list), j) && sp.refcnt == old(sp.refcnt) + 1
      ensures tailAt == if j == 0 then old(tailAt) else if old(tailAt) < 0 then 0 else MovedTail(old(tailAt), j)
    {
      OnlyAt(list, 0, j);
      if head != sp {
        MoveToHead(sp, j);
        if tail == null {
          tail := sp;
          tailAt := 0;
        }
      } else {
        assert list == [sp] + Cut(list, 0);
      }
      sp.refcnt := sp.refcnt + 1;
    }

    /** A new segment goes to the head of the list. */
    method AddSegment(inode: int, device: int, offset: nat, nbytes: nat) returns (sp: Segment)
      requires Valid()
      modifies `head, `tail, `list, `tailAt, `repr, `cacheused, repr`prev
      ensures Valid() && fresh(sp) && list == [sp] + old(list) && repr == old(repr) + {sp}
      ensures sp.inode == inode && sp.device == device && sp.offset == offset && sp.nbytes == nbytes && sp.refcnt == 0
      ensures tailAt == old(tailAt) + 1 && cacheused == old(cacheused) + nbytes
      ensures tail == if old(tail) == null then sp else old(tail)
    {
      sp := new Segment(inode, device, offset, nbytes);
      ShapeFront(head, tail, cacheused, list, tailAt, sp, repr);
      LinkFirst(sp, head, list);
      head := sp;
      cacheused := cacheused + nbytes;
      if tail == null {
        tail := sp;
      }
      list, tailAt, repr := [sp] + list, tailAt + 1, repr + {sp};
    }

    /** The region is not cached: space is reserved, and the file is mapped if that can be done. */
    method MapRegion(inode: int, device: int, x: nat, n: nat, mapped: bool) returns (sp: Segment?)
      requires Valid()
      modifies `head, `tail, `list, `tailAt, `repr, `cacheused, repr
      ensures Valid() && fresh(repr - old(repr)) && forall x :: x in old(repr) ==> x.refcnt == old(x.refcnt)
      ensures mapped && old(FreeSpace()) > n ==>
                cacheused == old(cacheused) + n && tail == if old(tail) == null then sp else old(tail)
      ensures if !mapped then sp == null && list == old(Reserved(n)) else
        && sp != null && fresh(sp) && list == [sp] + old(Reserved(n)) && sp.refcnt == 1
        && SameFile(sp, inode, device) && sp.offset == x && sp.nbytes == n
    {
      var status := ReserveSpace(n);
      if !mapped {
        return null;
      }
      sp := AddSegment(inode, device, x, n);
      sp.refcnt := sp.refcnt + 1;
    }

    /** `vm_cacheregion`: the segment, or null.  `mapped` says whether the file can be mapped. */
    method CacheRegion(inode: int, device: int, offset: nat, nbytes: nat, mapped: bool) returns (sp: Segment?)
      requires Valid() && nbytes > 0
      modifies `head, `tail, `list, `tailAt, `repr, `cacheused, repr
      ensures Valid() && forall x :: x in old(repr) && x != sp ==> x.refcnt == old(x.refcnt)
      ensures fresh(repr - old(repr))
      ensures var (x, n) := Pages(offset, nbytes, pagesize);
        var j := old(FindCover(list, inode, device, x));
        if j < 0 then
          if mapped then
            && sp != null && fresh(sp) && list == [sp] + old(Reserved(n)) && sp.refcnt == 1
            && SameFile(sp, inode, device) && sp.offset == x && sp.nbytes == n
            && (old(FreeSpace()) > n ==>
                  cacheused == old(cacheused) + n && tail == if old(tail) == null then sp else old(tail))
          else sp == null && list == old(Reserved(n))
        else if Holds(old(list)[j], x + n - 1) then
          sp == old(list)[j] && list == [sp] + Cut(old(list), j) && sp.refcnt == old(list[j].refcnt) + 1
        else sp == null && list == old(list)
      ensures var x := offset / pagesize * pagesize;
        var end := (offset + nbytes - 1) / pagesize * pagesize + pagesize;
        if forall i :: 0 <= i < |old(list)| ==> !HasByte(old(list)[i], inode, device, x) then
          mapped ==> sp != null && fresh(sp) && sp.offset == x && sp.offset + sp.nbytes == end
        else
          exists j: nat :: FirstWith(old(list), j, inode, device, x) &&
            if end <= old(list)[j].offset + old(list)[j].nbytes then sp == old(list)[j] else sp == null
    {
      var (x, n) := Pages(offset, nbytes, pagesize);
      PagesAre(offset, nbytes, pagesize);
      CoverIs(list, inode, device, x);
      LastByte(list, FindCover(list, inode, device, x), x, n);
      sp := CachePages(inode, device, x, n, mapped);
    }

    /** The segment that holds the first byte of a region holds the last one if it does not end
        before the region. */
    static lemma LastByte(s: seq<Segment>, j: int, x: nat, n: nat)
      requires -1 <= j < |s| && n > 0 && (j >= 0 ==> Holds(s[j], x))
      ensures j >= 0 ==> (Holds(s[j], x + n - 1) <==> x + n <= s[j].offset + s[j].nbytes)
    {
    }

    /** The same for whole pages. */
    method CachePages(inode: int, device: int, x: nat, n: nat, mapped: bool) returns (sp: Segment?)
      requires Valid() && n > 0
      modifies `head, `tail, `list, `tailAt, `repr, `cacheused, repr
      ensures Valid() && forall x :: x in old(repr) && x != sp ==> x.refcnt == old(x.refcnt)
      ensures fresh(repr - old(repr))
      ensures var j := old(FindCover(list, inode, device, x));
        if j < 0 then
          if mapped then
            && sp != null && fresh(sp) && list == [sp] + old(Reserved(n)) && sp.refcnt == 1
            && SameFile(sp, inode, device) && sp.offset == x && sp.nbytes == n
            && (old(FreeSpace()) > n ==>
                  cacheused == old(cacheused) + n && tail == if old(tail) == null then sp else old(tail))
          else sp == null && list == old(Reserved(n))
        else if Holds(old(list)[j], x + n - 1) then
          sp == old(list)[j] && list == [sp] + Cut(old(list), j) && sp.refcnt == old(list[j].refcnt) + 1
        else sp == null && list == old(list)
    {
      ghost var j := FindCover(list, inode, device, x);
      sp := SearchCover(inode, device, x, j);
      if sp != null {
        sp := Hit(sp, x + n - 1, j);
      } else {
        sp := MapRegion(inode, device, x, n, mapped);
      }
    }

    /** A cached segment holds the first byte: it is used again if it holds the last one too. */
    method Hit(found: Segment, last: nat, ghost j: nat) returns (sp: Segment?)
      requires Valid() && j < |list| && list[j] == found
      modifies `head, `tail, `list, `tailAt, repr
      ensures Valid() && repr == old(repr) && forall x :: x in old(repr) && x != sp ==> x.refcnt == old(x.refcnt)
      ensures if Holds(found, last) then
                sp == found && list == [sp] + Cut(old(list), j) && sp.refcnt == old(found.refcnt) + 1
              else sp == null && list == old(list)
    {
      if !Holds(found, last) {
        return null;
      }
      sp := found;
      assert sp in repr;
      Refresh(sp, j);
    }

    /** `vm_uncache`: one reference less, or none if they are cancelled; without references the
        segment is freed if that is asked for or the cache is disabled. */
    method Uncache(sp: Segment, destroy: bool, cancel: bool, unmapped: bool, ghost j: nat) returns (status: int)
      requires Valid() && j < |list| && list[j] == sp
      modifies `head, `tail, `list, `tailAt, `cacheused, repr`next, repr`prev, sp`refcnt
      ensures Valid()
      ensures sp.refcnt == if cancel || old(sp.refcnt) == 0 then 0 else old(sp.refcnt) - 1
      ensures var freed := sp.refcnt == 0 && (destroy || !enabled);
        && list == (if freed then Cut(old(list), j) else old(list)) && status == (if freed && !unmapped then -1 else 0)
        && (!freed ==> tail == old(tail))
    {
      status := 0;
      sp.refcnt := sp.refcnt - 1;
      if sp.refcnt < 0 || cancel {
        sp.refcnt := 0;
      }
      if sp.refcnt == 0 && (destroy || !enabled) {
        if !unmapped {
          status := -1;
        }
        Remove(sp, j);
      }
    }

    /** `vm_uncacheregion`. */
    method UncacheRegion(inode: int, device: int, offset: nat, nbytes: nat, destroy: bool, cancel: bool, unmapped: bool)
      returns (status: int)
      requires Valid() && nbytes > 0
      modifies `head, `tail, `list, `tailAt, `cacheused, repr
      ensures Valid()
      ensures var j := old(FindStart(list, inode, device, PageStart(offset, pagesize)));
        if j < 0 then status == -1 && list == old(list) && forall x :: x in repr ==> x.refcnt == old(x.refcnt)
        else
          var sp := old(list)[j];
          && sp.refcnt == (if cancel || old(list[j].refcnt) == 0 then 0 else old(list[j].refcnt) - 1)
          && (forall x :: x in repr && x != sp ==> x.refcnt == old(x.refcnt))
          && list == (if sp.refcnt == 0 && (destroy || !enabled) then Cut(old(list), j) else old(list))
          && status == (if sp.refcnt == 0 && (destroy || !enabled) && !unmapped then -1 else 0)
          && (sp.refcnt != 0 || (!destroy && enabled) ==> tail == old(tail))
    {
      ghost var j := FindStart(list, inode, device, PageStart(offset, pagesize));
      var sp := SearchStart(inode, device, PageStart(offset, pagesize), j);
      if sp == null {
        return -1;
      }
      assert sp in repr;
      status := Uncache(sp, destroy, cancel, unmapped, j);
    }

    /** `vm_refreshregion`: a cached segment moves to the head; the recorded tail stays what it is,
        even if it is that segment. */
    method RefreshRegion(inode: int, device: int, offset: nat) returns (status: int)
      requires Valid()
      modifies `head, `list, `tailAt, repr`next, repr`prev
      ensures Valid() && tail == old(tail)
      ensures old(tailAt == |list| - 1) ==> var j := old(FindStart(list, inode, device, PageStart(offset, pagesize)));
        tailAt == |list| - 1 <==> !enabled || j <= 0 || j + 1 < |list|
      ensures var j := old(FindStart(list, inode, device, PageStart(offset, pagesize)));
        if !enabled || j < 0 then list == old(list) && status == if enabled then -1 else 0
        else status == 0 && list == [old(list)[j]] + Cut(old(list), j)
    {
      if !enabled {
        return 0;
      }
      ghost var j := FindStart(list, inode, device, PageStart(offset, pagesize));
      var sp := SearchStart(inode, device, PageStart(offset, pagesize), j);
      if sp == null {
        return -1;
      }
      OnlyAt(list, 0, j);
      if head != sp {
        MoveToHead(sp, j);
      } else {
        assert list == [sp] + Cut(list, 0);
      }
      status := 0;
    }
  }

  lemma NothingBehind(s: seq<Segment>, busy: set<Segment>, used: int, cap: Capacity, nbytes: nat)
    ensures Evicted(s[..0], busy, used, cap, nbytes) + s[0..] == s
  {
  }

  /** The last segment of the part that is looked at is referenced, and stays. */
  lemma EvictKeep(s: seq<Segment>, k: nat, busy: set<Segment>, used: int, cap: Capacity, nbytes: nat,
                  target: seq<Segment>)
    requires 0 < k <= |s| && cap.Room(used) <= nbytes && s[k - 1] in busy
    requires target == Evicted(s[..k], busy, used, cap, nbytes) + s[k..]
    ensures target == Evicted(s[..k - 1], busy, used, cap, nbytes) + s[k - 1..]
  {
    assert s[..k][..k - 1] == s[..k - 1];
    assert [s[k - 1]] + s[k..] == s[k - 1..];
  }

  /** It is not referenced, and goes. */
  lemma EvictFree(s: seq<Segment>, k: nat, busy: set<Segment>, used: int, cap: Capacity, nbytes: nat,
                  target: seq<Segment>)
    requires 0 < k <= |s| && cap.Room(used) <= nbytes && s[k - 1] !in busy
    requires target == Evicted(s[..k], busy, used, cap, nbytes) + s[k..]
    ensures var s', used' := Cut(s, k - 1), used - s[k - 1].nbytes;
      target == if cap.Room(used') > nbytes then s' else Evicted(s'[..k - 1], busy, used', cap, nbytes) + s'[k - 1..]
  {
    assert s[..k][..k - 1] == s[..k - 1] == Cut(s, k - 1)[..k - 1] && Cut(s, k - 1)[k - 1..] == s[k..];
  }

  lemma Neighbours(s: seq<Segment>, j: nat)
    requires Linked(s) && j < |s|
    ensures s[j].next == (if j + 1 < |s| then s[j + 1] else null) && s[j].prev == (if j > 0 then s[j - 1] else null)
  {
  }

  // ----- a recorded tail that is not the last segment -----

  /** Four bytes of a file that is not cached, while there is room. */
  method CacheFile(c: Cache, inode: int) returns (sp: Segment)
    requires c.Valid() && c.FreeSpace() > 4 && FindCover(c.list, inode, 1, 0) < 0
    modifies c`head, c`tail, c`list, c`tailAt, c`repr, c`cacheused, c.repr
    ensures c.Valid() && fresh(sp) && fresh(c.repr - old(c.repr)) && c.list == [sp] + old(c.list)
    ensures sp.inode == inode && sp.device == 1 && sp.offset == 0 && sp.nbytes == 4 && sp.refcnt == 1
    ensures c.cacheused == old(c.cacheused) + 4 && c.tail == if old(c.tail) == null then sp else old(c.tail)
    ensures forall x :: x in old(c.repr) ==> x.refcnt == old(x.refcnt)
  {
    sp := c.CachePages(inode, 1, 0, 4, true);
  }

  /** Its references are given up; it stays cached. */
  method Release(c: Cache, sp: Segment, ghost j: nat)
    requires c.Valid() && c.enabled && j < |c.list| && c.list[j] == sp && sp.refcnt == 1
    modifies c`head, c`tail, c`list, c`tailAt, c`cacheused, c.repr`next, c.repr`prev, sp`refcnt
    ensures c.Valid() && c.list == old(c.list) && c.tail == old(c.tail) && sp.refcnt == 0
    ensures c.cacheused == old(c.cacheused)
  {
    var status := c.Uncache(sp, false, false, true, j);
  }

  method TwoFiles() returns (c: Cache, a: Segment, b: Segment)
    ensures fresh(c) && fresh(c.repr) && c.Valid() && c.enabled && c.pagesize == 1 && c.list == [b, a] && a != b
    ensures c.tail == a
    ensures a.refcnt == b.refcnt == 1 && c.FreeSpace() == 1
    ensures a.inode == 1 && a.device == 1 && a.offset == 0 && b.inode == 2
  {
    c := new Cache(true, Capacity(9, 100), 1);
    a := CacheFile(c, 1);
    assert c.list == [a];
    b := CacheFile(c, 2);
    assert c.list == [b, a];
  }

  /** Two segments are cached, the older one is used again, and neither is referenced any more:
      the recorded tail is the segment that was used last. */
  method StaleTail() returns (c: Cache, a: Segment, b: Segment)
    ensures fresh(c) && fresh(c.repr) && c.Valid() && c.enabled && c.list == [a, b] && a != b && c.tail == a
    ensures a.refcnt == 0 && b.refcnt == 0 && c.FreeSpace() == 1
  {
    c, a, b := TwoFiles();
    Release(c, a, 1);
    Release(c, b, 0);
    Touch(c, a, b);
  }

  /** The older segment is used again. */
  method Touch(c: Cache, a: Segment, b: Segment)
    requires c.Valid() && c.enabled && c.pagesize == 1 && c.list == [b, a]
    requires a.inode == 1 && a.device == 1 && a.offset == 0 && b.inode == 2
    modifies c`head, c`list, c`tailAt, c.repr`next, c.repr`prev
    ensures c.Valid() && c.list == [a, b] && c.tail == old(c.tail)
  {
    Second(a, b);
    assert PageStart(0, c.pagesize) == 0;
    var status := c.RefreshRegion(1, 1, 0);
  }

  lemma Second(a: Segment, b: Segment)
    requires a.inode == 1 && a.device == 1 && a.offset == 0 && b.inode == 2
    ensures FindStart([b, a], 1, 1, 0) == 1 && [a] + Cut([b, a], 1) == [a, b]
  {
    assert [b, a][1..] == [a];
  }

  /** Then room is made by freeing the segment used last; the other one stays however much is
      asked for. */
  method NewestFreedFirst(nbytes: nat) returns (c: Cache, a: Segment, b: Segment)
    requires nbytes > 0
    ensures c.Valid() && c.list == [b] && b.refcnt == 0
  {
    c, a, b := StaleTail();
    FirstOnly(c, a, b, nbytes);
    var status := c.ReserveSpace(nbytes);
  }

  lemma FirstOnly(c: Cache, a: Segment, b: Segment, nbytes: nat)
    requires c.Valid() && c.enabled && c.list == [a, b] && a != b && c.tail == a && a.refcnt == 0 && b.refcnt == 0
    requires c.FreeSpace() <= nbytes
    ensures c.Reserved(nbytes) == [b] && !c.FreesInOrder(nbytes)
  {
    assert c.tailAt == 0 && c.list[..1] == [a] && c.list[1..] == [b];
    assert [a][..0] == [] && [b][..0] == [] && Unreferenced([b], c.Busy()) == [] + [b];
    assert Evicted([a], c.Busy(), c.cacheused, c.cap, nbytes) == [];
    c.OrderIsKept(nbytes);
  }
}
