/** The representation of a keyword database (mosdca/kwdb.c): an item table whose items are on
    one list in insertion order and on one of 797 hash threads, and a character arena that holds
    their strings.  This module says, on values, what it means for the links and the arena to
    represent a sequence of entries; `Kwdb` keeps it true. */
module KwdbModel {
  import opened Text

  /** Item descriptor: string offsets into the arena, recorded capacities and two links. */
  datatype Item = Item(name: nat, value: nat, vallen: nat, typ: nat, typelen: nat, comment: nat,
                       comlen: nat, nexthash: nat, nextglob: nat)

  const NO_ITEM := Item(0, 0, 0, 0, 0, 0, 0, 0, 0)

  /** What an entry says: four strings, empty when absent. */
  datatype Entry = Entry(name: string, value: string, typ: string, comment: string)

  /** Entry pointers of the live entries and what they hold. */
  type Entries = map<nat, Entry>

  datatype Field = NameField | ValueField | TypeField | CommentField

  // ----- the list of all entries -----

  ghost predicate Increasing(order: seq<nat>) {
    forall i, j :: 0 <= i < j < |order| ==> order[i] < order[j]
  }

  /** The global list visits exactly `order`. */
  ghost predicate ListOk(itab: seq<Item>, head: nat, tail: nat, order: seq<nat>) {
    && Increasing(order)
    && (forall i :: 0 <= i < |order| ==> 0 < order[i] < |itab|)
    && head == (if order == [] then 0 else order[0])
    && tail == (if order == [] then 0 else order[|order| - 1])
    && (forall i {:trigger itab[order[i]].nextglob} :: 0 <= i < |order| ==>
          itab[order[i]].nextglob == if i + 1 < |order| then order[i + 1] else 0)
  }

  /** `s` without its occurrences of `x`. */
  function Without(s: seq<nat>, x: nat): seq<nat> {
    if s == [] then []
    else if s[0] == x then Without(s[1..], x)
    else [s[0]] + Without(s[1..], x)
  }

  lemma {:induction false} WithoutMembers(s: seq<nat>, x: nat)
    ensures forall y :: y in Without(s, x) <==> y in s && y != x
    ensures x !in s ==> Without(s, x) == s
  {
    if s != [] {
      WithoutMembers(s[1..], x);
    }
  }

  /** `s` without its element at `i`. */
  function Cut<T>(s: seq<T>, i: nat): (r: seq<T>)
    requires i < |s|
    ensures |r| == |s| - 1
    ensures forall k :: 0 <= k < |r| ==> r[k] == s[if k < i then k else k + 1]
  {
    s[..i] + s[i + 1..]
  }

  lemma CutMembers(s: seq<nat>, i: nat)
    requires i < |s| && forall a, b :: 0 <= a < b < |s| ==> s[a] != s[b]
    ensures forall y :: y in Cut(s, i) <==> y in s && y != s[i]
  {
    forall y | y in s && y != s[i] ensures y in Cut(s, i) {
      var k :| 0 <= k < |s| && s[k] == y;
      assert Cut(s, i)[if k < i then k else k - 1] == y;
    }
  }

  lemma DistinctTail(s: seq<nat>)
    requires s != [] && forall a, b :: 0 <= a < b < |s| ==> s[a] != s[b]
    ensures forall a, b :: 0 <= a < b < |s[1..]| ==> s[1..][a] != s[1..][b]
    ensures s[0] !in s[1..]
  {
  }

  lemma {:induction false} WithoutAt(s: seq<nat>, i: nat)
    requires i < |s| && forall a, b :: 0 <= a < b < |s| ==> s[a] != s[b]
    ensures Without(s, s[i]) == Cut(s, i)
  {
    var rest := s[1..];
    DistinctTail(s);
    if i > 0 {
      WithoutAt(rest, i - 1);
      assert Cut(s, i) == [s[0]] + Cut(rest, i - 1);
    } else {
      WithoutMembers(rest, s[0]);
      assert Cut(s, 0) == rest;
    }
  }

  // ----- the hash threads -----

  /** Starting with item `first`, the `nexthash` links visit exactly `chain`. */
  ghost predicate ChainOk(itab: seq<Item>, first: nat, chain: seq<nat>) {
    && first == (if chain == [] then 0 else chain[0])
    && (forall k :: 0 <= k < |chain| ==> 0 < chain[k] < |itab|)
    && (forall k {:trigger itab[chain[k]].nexthash} :: 0 <= k < |chain| ==>
          itab[chain[k]].nexthash == if k + 1 < |chain| then chain[k + 1] else 0)
    && (forall j, k :: 0 <= j < k < |chain| ==> chain[j] != chain[k])
  }

  /** `place` maps the named entries to their threads: `chains` holds each on its thread, and
      nothing else. */
  ghost predicate PlacesOk(chains: seq<seq<nat>>, place: map<nat, nat>)
    requires |chains| == NTHREADS
  {
    && (forall h, ep {:trigger ep in chains[h]} {:trigger chains[h], place[ep]} :: 0 <= h < NTHREADS ==>
          (ep in chains[h] <==> ep in place && place[ep] == h))
    && (forall ep :: ep in place ==> place[ep] < NTHREADS)
  }

  /** Threads with the newest entry first, as they are unless an entry was renamed. */
  ghost predicate NewestFirst(chains: seq<seq<nat>>) {
    forall h :: 0 <= h < |chains| ==> Decreasing(chains[h])
  }

  /** The thread of every named entry is that of its name. */
  ghost function PlaceOf(entries: Entries): map<nat, nat> {
    map ep | ep in entries && entries[ep].name != [] :: HashOf(entries[ep].name)
  }

  lemma NewestPush(chains: seq<seq<nat>>, h: nat, ep: nat)
    requires NewestFirst(chains) && h < |chains|
    requires forall k :: 0 <= k < |chains[h]| ==> chains[h][k] < ep
    ensures NewestFirst(chains[h := [ep] + chains[h]])
  {
  }

  // ----- lookups -----

  /** The entries of `chain` named `key`, in the order of the chain. */
  ghost function Matches(chain: seq<nat>, entries: Entries, key: string): (r: seq<nat>)
    requires forall ep :: ep in chain ==> ep in entries
    ensures forall ep :: ep in r <==> ep in chain && SameName(entries[ep].name, key)
  {
    if chain == [] then []
    else
      var r := Matches(chain[1..], entries, key);
      if SameName(entries[chain[0]].name, key) then [chain[0]] + r else r
  }

  /** The entries named `key`, most recently added first: the reverse of their list order. */
  ghost function MostRecentFirst(order: seq<nat>, entries: Entries, key: string): (r: seq<nat>)
    requires forall ep :: ep in order ==> ep in entries
    ensures forall ep :: ep in r <==> ep in order && SameName(entries[ep].name, key)
  {
    if order == [] then []
    else
      var last := order[|order| - 1];
      var r := MostRecentFirst(order[..|order| - 1], entries, key);
      if SameName(entries[last].name, key) then [last] + r else r
  }

  /** What a search of `chain` for `key` meets, in that order: the items, deleted or not, in whose
      slots that name is stored. */
  ghost function Matching(chain: seq<nat>, names: seq<string>, key: string): (r: seq<nat>)
    ensures forall x :: x in r <==> x in chain && x < |names| && SameName(names[x], key)
  {
    if chain == [] then []
    else
      var r := Matching(chain[1..], names, key);
      if chain[0] < |names| && SameName(names[chain[0]], key) then [chain[0]] + r else r
  }

  /** The names of the entries are those stored in their slots. */
  ghost predicate NamesAgree(entries: Entries, names: seq<string>) {
    forall x :: x in entries ==> x < |names| && names[x] == entries[x].name
  }

  /** One step of a search: `found` from instance `j` on is what the rest of the chain holds. */
  lemma SearchStep(chain: seq<nat>, names: seq<string>, key: string, found: seq<nat>, j: nat)
    requires chain != [] && chain[0] < |names| && j <= |found| && Matching(chain, names, key) == found[j..]
    ensures if SameName(names[chain[0]], key) then
              j < |found| && found[j] == chain[0] && Matching(chain[1..], names, key) == found[j + 1..]
            else Matching(chain[1..], names, key) == found[j..]
  {
    if SameName(names[chain[0]], key) {
      assert found[j..][0] == chain[0] && found[j..][1..] == found[j + 1..];
    }
  }

  lemma {:induction false} MatchingLive(chain: seq<nat>, entries: Entries, names: seq<string>, key: string)
    requires NamesAgree(entries, names) && forall x :: x in chain ==> x in entries
    ensures Matching(chain, names, key) == Matches(chain, entries, key)
  {
    if chain != [] {
      assert chain[0] in chain;
      MatchingLive(chain[1..], entries, names, key);
    }
  }

  lemma {:induction false} MatchingConcat(a: seq<nat>, b: seq<nat>, names: seq<string>, key: string)
    ensures Matching(a + b, names, key) == Matching(a, names, key) + Matching(b, names, key)
  {
    if a == [] {
      assert a + b == b;
    } else {
      assert (a + b)[1..] == a[1..] + b;
      MatchingConcat(a[1..], b, names, key);
    }
  }

  lemma {:induction false} NoneMatching(chain: seq<nat>, names: seq<string>, key: string)
    requires forall x :: x in chain && x < |names| ==> !SameName(names[x], key)
    ensures Matching(chain, names, key) == []
  {
    if chain != [] {
      assert chain[0] in chain;
      NoneMatching(chain[1..], names, key);
    }
  }

  ghost predicate Decreasing(s: seq<nat>) {
    forall j, k :: 0 <= j < k < |s| ==> s[j] > s[k]
  }

  lemma {:induction false} MatchesDecrease(chain: seq<nat>, entries: Entries, key: string)
    requires Decreasing(chain) && forall ep :: ep in chain ==> ep in entries
    ensures Decreasing(Matches(chain, entries, key))
  {
    if chain != [] {
      MatchesDecrease(chain[1..], entries, key);
      var r := Matches(chain[1..], entries, key);
      assert forall k :: 0 <= k < |r| ==> r[k] in chain[1..];
    }
  }

  lemma {:induction false} MostRecentDecreases(order: seq<nat>, entries: Entries, key: string)
    requires Increasing(order) && forall ep :: ep in order ==> ep in entries
    ensures Decreasing(MostRecentFirst(order, entries, key))
  {
    if order != [] {
      var most := order[..|order| - 1];
      MostRecentDecreases(most, entries, key);
      var r := MostRecentFirst(most, entries, key);
      assert forall k :: 0 <= k < |r| ==> r[k] in most;
    }
  }

  lemma Member(s: seq<nat>) returns (x: nat)
    requires |s| > 0
    ensures x in s
  {
    x := s[0];
  }

  lemma {:induction false} SameDecreasing(a: seq<nat>, b: seq<nat>)
    requires Decreasing(a) && Decreasing(b) && forall x :: x in a <==> x in b
    ensures a == b
  {
    if |a| == 0 && |b| > 0 {
      var x := Member(b);
      assert false;
    } else if |b| == 0 && |a| > 0 {
      var x := Member(a);
      assert false;
    } else if |a| > 0 {
      assert a[0] in b && b[0] in a;
      assert a[0] == b[0];
      assert forall x :: x in a[1..] <==> x in a && x != a[0];
      assert forall x :: x in b[1..] <==> x in b && x != b[0];
      SameDecreasing(a[1..], b[1..]);
      assert a == [a[0]] + a[1..] && b == [b[0]] + b[1..];
    }
  }

  /** With the newest entry first on every thread, walking the thread of `key` meets the matching
      entries from the most recently added to the oldest. */
  lemma ThreadIsMostRecentFirst(chains: seq<seq<nat>>, order: seq<nat>, entries: Entries, key: string)
    requires |chains| == NTHREADS && PlacesOk(chains, PlaceOf(entries)) && NewestFirst(chains)
    requires Increasing(order) && (forall ep :: ep in order <==> ep in entries)
    requires key != []
    ensures Matches(chains[HashOf(key)], entries, key) == MostRecentFirst(order, entries, key)
  {
    var chain := chains[HashOf(key)];
    var a, b := Matches(chain, entries, key), MostRecentFirst(order, entries, key);
    MatchesDecrease(chain, entries, key);
    MostRecentDecreases(order, entries, key);
    forall ep ensures ep in a <==> ep in b {
      if ep in b {
        SameNameSameHash(entries[ep].name, key);
        assert entries[ep].name != [] && ep in PlaceOf(entries);
      }
    }
    SameDecreasing(a, b);
  }

  lemma ChainTail(itab: seq<Item>, first: nat, chain: seq<nat>)
    requires ChainOk(itab, first, chain) && chain != []
    ensures 0 < first < |itab| && ChainOk(itab, itab[first].nexthash, chain[1..])
  {
    forall k | 0 <= k < |chain[1..]|
      ensures itab[chain[1..][k]].nexthash == if k + 1 < |chain[1..]| then chain[1..][k + 1] else 0
    {
      assert chain[1..][k] == chain[k + 1] &&
          itab[chain[k + 1]].nexthash == if k + 2 < |chain| then chain[k + 2] else 0;
    }
    assert itab[chain[0]].nexthash == if 1 < |chain| then chain[1] else 0;
  }

  // ----- the arena -----

  function Off(it: Item, f: Field): nat {
    match f
    case NameField => it.name
    case ValueField => it.value
    case TypeField => it.typ
    case CommentField => it.comment
  }

  /** Recorded capacity of a field; a name is never overwritten and has none recorded. */
  function Cap(it: Item, f: Field, e: Entry): nat {
    match f
    case NameField => |e.name|
    case ValueField => it.vallen
    case TypeField => it.typelen
    case CommentField => it.comlen
  }

  function Get(e: Entry, f: Field): string {
    match f
    case NameField => e.name
    case ValueField => e.value
    case TypeField => e.typ
    case CommentField => e.comment
  }

  function With(e: Entry, f: Field, s: string): Entry {
    match f
    case NameField => e.(name := s)
    case ValueField => e.(value := s)
    case TypeField => e.(typ := s)
    case CommentField => e.(comment := s)
  }

  /** The item with field `f` stored at `off` in `cap` characters. */
  function Placed(it: Item, f: Field, off: nat, cap: nat): Item {
    match f
    case NameField => it.(name := off)
    case ValueField => it.(value := off, vallen := cap)
    case TypeField => it.(typ := off, typelen := cap)
    case CommentField => it.(comment := off, comlen := cap)
  }

  /** Which field of which entry a character of the arena belongs to. */
  datatype Owner = Nobody | Owned(ep: nat, field: Field)

  /** String `s` is stored at `off`, within `cap` characters and a terminator that all belong to
      field `f` of entry `ep`; offset 0 is the shared empty string. */
  ghost predicate StringOk(sbuf: seq<char>, owner: seq<Owner>, ep: nat, f: Field, off: nat, cap: nat, s: string) {
    && |s| <= cap && Holds(sbuf, off, s)
    && (off == 0 ==> cap == 0)
    && (off > 0 ==> off + cap < |owner| && forall p :: off <= p <= off + cap ==> owner[p] == Owned(ep, f))
  }

  ghost predicate ArenaOk(itab: seq<Item>, sbuf: seq<char>, owner: seq<Owner>, entries: Entries) {
    && 0 < |owner| <= |sbuf| && sbuf[0] == NUL && owner[0] == Nobody
    && (forall ep :: ep in entries ==> ep < |itab|)
    && (forall ep, f :: ep in entries ==>
          StringOk(sbuf, owner, ep, f, Off(itab[ep], f), Cap(itab[ep], f, entries[ep]), Get(entries[ep], f)))
  }

  /** Characters that nobody but `(ep, f)` owns are unchanged, and no owner lost a character. */
  ghost predicate OthersKept(sbuf: seq<char>, owner: seq<Owner>, sbuf': seq<char>, owner': seq<Owner>, ep: nat,
                             f: Field) {
    && |owner| <= |owner'| && owner'[..|owner|] == owner
    && |owner| <= |sbuf| <= |sbuf'| && |owner'| <= |sbuf'|
    && (forall p :: 0 <= p < |owner| && owner[p] != Owned(ep, f) ==> sbuf'[p] == sbuf[p])
  }

  /** The name stored in every slot is in place; an entry that is deleted leaves its name there. */
  ghost predicate NamesOk(itab: seq<Item>, sbuf: seq<char>, owner: seq<Owner>, names: seq<string>) {
    && |names| == |itab| && 0 < |owner| <= |sbuf| && sbuf[0] == NUL && owner[0] == Nobody
    && (forall x :: 0 <= x < |itab| ==> StringOk(sbuf, owner, x, NameField, itab[x].name, |names[x]|, names[x]))
  }

  lemma KeptString(sbuf: seq<char>, owner: seq<Owner>, sbuf': seq<char>, owner': seq<Owner>, ep: nat, f: Field,
                   ep1: nat, f1: Field, off: nat, cap: nat, s: string)
    requires StringOk(sbuf, owner, ep1, f1, off, cap, s) && (ep1 != ep || f1 != f)
    requires OthersKept(sbuf, owner, sbuf', owner', ep, f)
    requires 0 < |owner| && owner[0] == Nobody
    ensures StringOk(sbuf', owner', ep1, f1, off, cap, s)
  {
    forall p | 0 <= p < |owner| ensures owner'[p] == owner[p] {
      assert owner'[..|owner|][p] == owner[p];
    }
    forall k | 0 <= k < |s| ensures sbuf'[off + k] == s[k] {
      assert sbuf[off..off + |s|][k] == s[k];
    }
  }

  /** Everything but field `(ep, f)` is still in place after a change that only touched it. */
  lemma KeptArena(itab: seq<Item>, sbuf: seq<char>, owner: seq<Owner>, entries: Entries,
                  sbuf': seq<char>, owner': seq<Owner>, ep: nat, f: Field)
    requires ArenaOk(itab, sbuf, owner, entries) && OthersKept(sbuf, owner, sbuf', owner', ep, f)
    ensures sbuf'[0] == NUL && owner'[0] == Nobody
    ensures forall ep1, f1 :: ep1 in entries && (ep1 != ep || f1 != f) ==>
              StringOk(sbuf', owner', ep1, f1, Off(itab[ep1], f1), Cap(itab[ep1], f1, entries[ep1]),
                  Get(entries[ep1], f1))
  {
    assert owner'[..|owner|][0] == owner[0];
    forall ep1, f1 | ep1 in entries && (ep1 != ep || f1 != f)
      ensures StringOk(sbuf', owner', ep1, f1, Off(itab[ep1], f1), Cap(itab[ep1], f1, entries[ep1]),
                Get(entries[ep1], f1))
    {
      KeptString(sbuf, owner, sbuf', owner', ep, f, ep1, f1,
                 Off(itab[ep1], f1), Cap(itab[ep1], f1, entries[ep1]), Get(entries[ep1], f1));
    }
  }

  /** A new entry's string does not touch the others. */
  lemma NewString(itab: seq<Item>, sbuf: seq<char>, owner: seq<Owner>, entries: Entries,
                  sbuf': seq<char>, owner': seq<Owner>, ep: nat, f: Field)
    requires ArenaOk(itab, sbuf, owner, entries) && OthersKept(sbuf, owner, sbuf', owner', ep, f) && ep !in entries
    ensures ArenaOk(itab, sbuf', owner', entries)
  {
    KeptArena(itab, sbuf, owner, entries, sbuf', owner', ep, f);
  }

  /** All four strings of a new entry are in place. */
  lemma NewEntry(itab: seq<Item>, sbuf: seq<char>, owner: seq<Owner>, entries: Entries, ep: nat, it: Item, e: Entry)
    requires ArenaOk(itab, sbuf, owner, entries) && ep < |itab| && ep !in entries
    requires StringOk(sbuf, owner, ep, NameField, it.name, |e.name|, e.name)
    requires StringOk(sbuf, owner, ep, ValueField, it.value, it.vallen, e.value)
    requires StringOk(sbuf, owner, ep, TypeField, it.typ, it.typelen, e.typ)
    requires StringOk(sbuf, owner, ep, CommentField, it.comment, it.comlen, e.comment)
    ensures ArenaOk(itab[ep := it], sbuf, owner, entries[ep := e])
  {
    var itab', entries' := itab[ep := it], entries[ep := e];
    forall ep1, f1 | ep1 in entries'
      ensures StringOk(sbuf, owner, ep1, f1, Off(itab'[ep1], f1), Cap(itab'[ep1], f1, entries'[ep1]),
                Get(entries'[ep1], f1))
    {
      if ep1 != ep {
        assert ep1 in entries && itab'[ep1] == itab[ep1];
      }
    }
  }

  /** Field `f` of entry `ep` is stored anew; nothing else changes. */
  lemma ChangedString(itab: seq<Item>, sbuf: seq<char>, owner: seq<Owner>, entries: Entries,
                      sbuf': seq<char>, owner': seq<Owner>, ep: nat, f: Field, off: nat, cap: nat, s: string)
    requires ArenaOk(itab, sbuf, owner, entries) && OthersKept(sbuf, owner, sbuf', owner', ep, f)
    requires ep in entries && StringOk(sbuf', owner', ep, f, off, cap, s) && (f == NameField ==> cap == |s|)
    ensures ArenaOk(itab[ep := Placed(itab[ep], f, off, cap)], sbuf', owner', entries[ep := With(entries[ep], f, s)])
  {
    KeptArena(itab, sbuf, owner, entries, sbuf', owner', ep, f);
    var itab', entries' := itab[ep := Placed(itab[ep], f, off, cap)], entries[ep := With(entries[ep], f, s)];
    forall ep1, f1 | ep1 in entries'
      ensures StringOk(sbuf', owner', ep1, f1, Off(itab'[ep1], f1), Cap(itab'[ep1], f1, entries'[ep1]),
                Get(entries'[ep1], f1))
    {
      if ep1 == ep && f1 == f {
        assert Get(entries'[ep1], f1) == s && Off(itab'[ep1], f1) == off && Cap(itab'[ep1], f1, entries'[ep1]) == cap;
      } else {
        assert ep1 in entries && Get(entries'[ep1], f1) == Get(entries[ep1], f1);
        assert Off(itab'[ep1], f1) == Off(itab[ep1], f1);
        assert Cap(itab'[ep1], f1, entries'[ep1]) == Cap(itab[ep1], f1, entries[ep1]);
      }
    }
  }

  /** Links do not matter to the arena, and entries may be dropped. */
  lemma ArenaFrame(itab: seq<Item>, itab': seq<Item>, sbuf: seq<char>, owner: seq<Owner>, entries: Entries,
                   entries': Entries)
    requires ArenaOk(itab, sbuf, owner, entries) && SameStrings(itab, itab')
    requires forall ep :: ep in entries' ==> ep in entries && entries'[ep] == entries[ep]
    ensures ArenaOk(itab', sbuf, owner, entries')
  {
    forall ep1, f1 | ep1 in entries'
      ensures StringOk(sbuf, owner, ep1, f1, Off(itab'[ep1], f1), Cap(itab'[ep1], f1, entries'[ep1]),
                Get(entries'[ep1], f1))
    {
      assert Off(itab'[ep1], f1) == Off(itab[ep1], f1);
      assert Cap(itab'[ep1], f1, entries[ep1]) == Cap(itab[ep1], f1, entries[ep1]);
    }
  }

  /** A live entry's strings can be read back from the arena. */
  lemma ReadBack(itab: seq<Item>, sbuf: seq<char>, owner: seq<Owner>, entries: Entries, ep: nat, f: Field)
    requires ArenaOk(itab, sbuf, owner, entries) && ep in entries
    ensures Off(itab[ep], f) <= |sbuf| && CStr(sbuf, Off(itab[ep], f)) == Get(entries[ep], f)
    ensures NoNul(Get(entries[ep], f))
  {
    assert StringOk(sbuf, owner, ep, f, Off(itab[ep], f), Cap(itab[ep], f, entries[ep]), Get(entries[ep], f));
    HoldsIsCStr(sbuf, Off(itab[ep], f), Get(entries[ep], f));
  }

  lemma StoredName(itab: seq<Item>, sbuf: seq<char>, owner: seq<Owner>, names: seq<string>, x: nat)
    requires NamesOk(itab, sbuf, owner, names) && x < |itab|
    ensures itab[x].name <= |sbuf| && CStr(sbuf, itab[x].name) == names[x] && NoNul(names[x])
  {
    HoldsIsCStr(sbuf, itab[x].name, names[x]);
  }

  /** A string of another field, or of no slot's name, does not touch the stored names. */
  lemma NamesKept(itab: seq<Item>, sbuf: seq<char>, owner: seq<Owner>, names: seq<string>, sbuf': seq<char>,
                  owner': seq<Owner>, ep: nat, f: Field)
    requires NamesOk(itab, sbuf, owner, names) && OthersKept(sbuf, owner, sbuf', owner', ep, f)
    ensures sbuf'[0] == NUL && owner'[0] == Nobody
    ensures forall x :: 0 <= x < |itab| && (x != ep || f != NameField) ==>
              StringOk(sbuf', owner', x, NameField, itab[x].name, |names[x]|, names[x])
  {
    assert owner'[..|owner|][0] == owner[0];
    forall x | 0 <= x < |itab| && (x != ep || f != NameField)
      ensures StringOk(sbuf', owner', x, NameField, itab[x].name, |names[x]|, names[x])
    {
      KeptString(sbuf, owner, sbuf', owner', ep, f, x, NameField, itab[x].name, |names[x]|, names[x]);
    }
  }

  /** Slot `ep` has a new name. */
  lemma NameChanged(itab: seq<Item>, sbuf: seq<char>, owner: seq<Owner>, names: seq<string>, sbuf': seq<char>,
                    owner': seq<Owner>, ep: nat, it: Item, name: string)
    requires NamesOk(itab, sbuf, owner, names) && OthersKept(sbuf, owner, sbuf', owner', ep, NameField)
    requires ep < |itab| && StringOk(sbuf', owner', ep, NameField, it.name, |name|, name)
    ensures NamesOk(itab[ep := it], sbuf', owner', names[ep := name])
  {
    NamesKept(itab, sbuf, owner, names, sbuf', owner', ep, NameField);
  }

  /** Neither links nor strings of other fields matter to the stored names. */
  lemma NamesFrame(itab: seq<Item>, itab': seq<Item>, sbuf: seq<char>, owner: seq<Owner>, names: seq<string>)
    requires NamesOk(itab, sbuf, owner, names) && |itab'| == |itab|
    requires forall x :: 0 <= x < |itab| ==> itab'[x].name == itab[x].name
    ensures NamesOk(itab', sbuf, owner, names)
  {
  }

  lemma KeptTwice(s0: seq<char>, o0: seq<Owner>, s1: seq<char>, s2: seq<char>, o2: seq<Owner>, ep: nat, f: Field)
    requires OthersKept(s0, o0, s1, o0, ep, f) && OthersKept(s1, o0, s2, o2, ep, f)
    ensures OthersKept(s0, o0, s2, o2, ep, f)
  {
  }

  /** Writing inside the capacity of field `(ep, f)` touches nobody else. */
  lemma WriteInside(sbuf: seq<char>, owner: seq<Owner>, ep: nat, f: Field, off: nat, cap: nat, s: string,
                    bytes: seq<char>)
    requires 0 < |owner| <= |sbuf| && sbuf[0] == NUL && owner[0] == Nobody
    requires StringOk(sbuf, owner, ep, f, off, cap, s)
    requires |bytes| <= cap || (|bytes| <= cap + 1 && bytes[|bytes| - 1] == NUL)
    ensures off + |bytes| <= |sbuf| && OthersKept(sbuf, owner, Poke(sbuf, off, bytes), owner, ep, f)
  {
  }

  /** After clearing and copying in place, the field holds the new string. */
  lemma OverwriteHolds(sbuf: seq<char>, owner: seq<Owner>, ep: nat, f: Field, off: nat, cap: nat, s: string, t: string)
    requires 0 < |owner| <= |sbuf| && StringOk(sbuf, owner, ep, f, off, cap, s) && NoNul(t) && |t| <= cap
    ensures off + cap + 1 <= |sbuf| && off + |t| + 1 <= |sbuf|
    ensures StringOk(Poke(Poke(sbuf, off, seq(cap, _ => NUL)), off, t + [NUL]), owner, ep, f, off, cap, t)
  {
    var r := Poke(Poke(sbuf, off, seq(cap, _ => NUL)), off, t + [NUL]);
    assert r[off..off + |t|] == t;
  }

  lemma PlaceSame(entries: Entries, ep: nat, e: Entry)
    requires ep in entries && e.name == entries[ep].name
    ensures PlaceOf(entries[ep := e]) == PlaceOf(entries)
  {
  }

  // ----- steps on the links -----

  /** Every link leads to a slot of the table.  No name is on thread 0, which is that of the empty
      key: names are ASCII. */
  ghost predicate LinksOk(itab: seq<Item>, hashtbl: seq<nat>) {
    && |hashtbl| == NTHREADS && hashtbl[0] == 0
    && (forall h :: 0 <= h < NTHREADS ==> hashtbl[h] < |itab|)
    && (forall x :: 0 <= x < |itab| ==> itab[x].nexthash < |itab|)
  }

  /** The tables agree on everything but the links. */
  ghost predicate SameStrings(a: seq<Item>, b: seq<Item>) {
    |a| == |b| && forall i :: 0 <= i < |a| ==>
      b[i] == a[i].(nexthash := b[i].nexthash, nextglob := b[i].nextglob)
  }

  ghost predicate SameHashLinks(a: seq<Item>, b: seq<Item>) {
    |a| == |b| && forall i :: 0 <= i < |a| ==> b[i].nexthash == a[i].nexthash
  }

  ghost predicate SameGlobLinks(a: seq<Item>, b: seq<Item>) {
    |a| == |b| && forall i :: 0 <= i < |a| ==> b[i].nextglob == a[i].nextglob
  }

  lemma ChainFrame(itab: seq<Item>, itab': seq<Item>, first: nat, chain: seq<nat>)
    requires ChainOk(itab, first, chain) && |itab| <= |itab'|
    requires forall ep :: ep in chain && ep < |itab| ==> itab'[ep].nexthash == itab[ep].nexthash
    ensures ChainOk(itab', first, chain)
  {
    forall k | 0 <= k < |chain| ensures itab'[chain[k]].nexthash == itab[chain[k]].nexthash {
      assert chain[k] in chain;
    }
  }

  /** The tables once item `j` of a thread is passed over by the link that led to it. */
  function OffThread(itab: seq<Item>, chain: seq<nat>, j: nat): (r: seq<Item>)
    requires j < |chain| && forall k :: 0 <= k < |chain| ==> chain[k] < |itab|
    ensures |r| == |itab|
  {
    if j == 0 then itab
    else itab[chain[j - 1] := itab[chain[j - 1]].(nexthash := itab[chain[j]].nexthash)]
  }

  lemma OffClosed(itab: seq<Item>, hashtbl: seq<nat>, chain: seq<nat>, h: nat, j: nat)
    requires LinksOk(itab, hashtbl) && 0 < h < NTHREADS && j < |chain|
    requires forall k :: 0 <= k < |chain| ==> chain[k] < |itab|
    ensures LinksOk(OffThread(itab, chain, j), if j == 0 then hashtbl[h := itab[chain[j]].nexthash] else hashtbl)
  {
  }

  lemma OffThreadKeeps(itab: seq<Item>, chain: seq<nat>, j: nat)
    requires j < |chain| && (forall k :: 0 <= k < |chain| ==> chain[k] < |itab|)
    requires forall a, b :: 0 <= a < b < |chain| ==> chain[a] != chain[b]
    ensures var itab' := OffThread(itab, chain, j);
      SameStrings(itab, itab') && SameGlobLinks(itab, itab') && itab'[chain[j]] == itab[chain[j]]
  {
  }

  lemma ChainRemove(itab: seq<Item>, first: nat, chain: seq<nat>, j: nat, itab': seq<Item>)
    requires ChainOk(itab, first, chain) && j < |chain|
    requires j == 0 ==> itab' == itab
    requires j > 0 ==> itab' == itab[chain[j - 1] := itab[chain[j - 1]].(nexthash := itab[chain[j]].nexthash)]
    ensures ChainOk(itab', if j == 0 then itab[chain[0]].nexthash else first, Cut(chain, j))
  {
    var rest := Cut(chain, j);
    forall k | 0 <= k < |rest|
      ensures 0 < rest[k] < |itab'| && itab'[rest[k]].nexthash == if k + 1 < |rest| then rest[k + 1] else 0
    {
      var i := if k < j then k else k + 1;
      assert rest[k] == chain[i] && (k + 1 < |rest| ==> rest[k + 1] == chain[if k + 1 < j then k + 1 else k + 2]);
      var link := itab[chain[i]].nexthash;
      var at := itab[chain[j]].nexthash;
      if i + 1 == j {
        assert itab'[rest[k]].nexthash == at;
      } else {
        assert itab'[rest[k]].nexthash == link;
      }
    }
    assert itab[chain[0]].nexthash == if 1 < |chain| then chain[1] else 0;
  }

  lemma ListFrame(itab: seq<Item>, itab': seq<Item>, head: nat, tail: nat, order: seq<nat>)
    requires ListOk(itab, head, tail, order) && SameGlobLinks(itab, itab')
    ensures ListOk(itab', head, tail, order)
  {
    forall i | 0 <= i < |order| ensures itab'[order[i]].nextglob == itab[order[i]].nextglob {
    }
  }

  /** A new last entry of the list. */
  lemma ListAppend(itab: seq<Item>, head: nat, tail: nat, order: seq<nat>, itab': seq<Item>, ep: nat)
    requires ListOk(itab, head, tail, order) && |itab| <= |itab'|
    requires 0 < ep < |itab'| && forall i :: 0 <= i < |order| ==> order[i] < ep
    requires itab'[ep].nextglob == 0 && (tail != 0 ==> itab'[tail].nextglob == ep)
    requires forall i :: 0 <= i < |itab| && i != ep && i != tail ==> itab'[i].nextglob == itab[i].nextglob
    ensures ListOk(itab', if head == 0 then ep else head, ep, order + [ep])
  {
  }

  /** Entry `j` of the list taken out. */
  lemma ListRemove(itab: seq<Item>, head: nat, tail: nat, order: seq<nat>, j: nat, itab': seq<Item>)
    requires ListOk(itab, head, tail, order) && j < |order|
    requires j == 0 ==> SameGlobLinks(itab, itab')
    requires j > 0 ==>
               SameGlobLinks(itab[order[j - 1] := itab[order[j - 1]].(nextglob := itab[order[j]].nextglob)], itab')
    ensures ListOk(itab', if j == 0 then itab[order[0]].nextglob else head,
                   if j + 1 < |order| then tail else if j == 0 then 0 else order[j - 1], Cut(order, j))
  {
    var rest := Cut(order, j);
    forall k | 0 <= k < |rest|
      ensures 0 < rest[k] < |itab'| && itab'[rest[k]].nextglob == if k + 1 < |rest| then rest[k + 1] else 0
    {
      var i := if k < j then k else k + 1;
      assert rest[k] == order[i] && (k + 1 < |rest| ==> rest[k + 1] == order[if k + 1 < j then k + 1 else k + 2]);
      var link := itab[order[i]].nextglob;
      var at := itab[order[j]].nextglob;
      if i + 1 == j {
        assert itab'[rest[k]].nextglob == at;
      } else {
        assert itab'[rest[k]].nextglob == link;
      }
    }
    assert itab[order[0]].nextglob == if 1 < |order| then order[1] else 0;
  }

  // ----- a new item, all links at once -----

  /** The table once `it` is item `index` and follows the old tail. */
  function AfterTail(itab: seq<Item>, tail: nat, index: nat, it: Item): (r: seq<Item>)
    requires index < |itab| && tail < |itab|
    ensures |r| == |itab|
  {
    var t := itab[index := it];
    if tail != 0 then t[tail := t[tail].(nextglob := index)] else t
  }

  /** The table once item `index` is also linked to the previous first item of its thread. */
  function OnThread(itab: seq<Item>, index: nat, first: nat): (r: seq<Item>)
    requires index < |itab|
    ensures |r| == |itab|
  {
    if first != 0 then itab[index := itab[index].(nexthash := first)] else itab
  }

  lemma LinkedList(itab: seq<Item>, head: nat, tail: nat, order: seq<nat>, index: nat, it: Item, first: nat)
    requires ListOk(itab, head, tail, order) && 0 < index < |itab| && it.nextglob == 0
    requires forall i :: 0 <= i < |order| ==> order[i] < index
    ensures ListOk(OnThread(AfterTail(itab, tail, index, it), index, first),
                   if head == 0 then index else head, index, order + [index])
  {
    var t := AfterTail(itab, tail, index, it);
    ListAppend(itab, head, tail, order, t, index);
    ListFrame(t, OnThread(t, index, first), if head == 0 then index else head, index, order + [index]);
  }

  lemma LinkedStrings(itab: seq<Item>, tail: nat, index: nat, it: Item, first: nat)
    requires index < |itab| && tail < |itab|
    ensures SameStrings(itab[index := it], OnThread(AfterTail(itab, tail, index, it), index, first))
  {
  }

  // ----- lookups after a deletion or a renaming -----

  /** Entry `ep` renamed to something else than `key`, or dropped from the chain, no longer
      matches `key`; the others match as before and in the same order. */
  lemma {:induction false} MatchesWithout(chain: seq<nat>, entries: Entries, entries': Entries, key: string, ep: nat)
    requires forall x :: x in chain ==> x in entries
    requires forall x :: x in chain && x != ep ==> x in entries' && entries'[x].name == entries[x].name
    ensures forall x :: x in Without(chain, ep) ==> x in entries'
    ensures Matches(Without(chain, ep), entries', key) == Without(Matches(chain, entries, key), ep)
  {
    if chain != [] {
      MatchesWithout(chain[1..], entries, entries', key, ep);
      WithoutMembers(chain[1..], ep);
      assert chain[0] in chain;
      if chain[0] != ep {
        var r := Without(chain[1..], ep);
        assert Without(chain, ep)[1..] == r;
      }
    }
  }

  /** Removing an entry keeps the newest first. */
  lemma NewestWithout(chains: seq<seq<nat>>, h: nat, ep: nat)
    requires NewestFirst(chains) && h < |chains|
    ensures NewestFirst(chains[h := Without(chains[h], ep)])
  {
    DecreasingWithout(chains[h], ep);
  }

  lemma {:induction false} DecreasingWithout(s: seq<nat>, x: nat)
    requires Decreasing(s)
    ensures Decreasing(Without(s, x))
  {
    if s != [] {
      DecreasingWithout(s[1..], x);
      WithoutMembers(s[1..], x);
      var r := Without(s[1..], x);
      assert forall k :: 0 <= k < |r| ==> r[k] in s[1..];
    }
  }

  lemma {:induction false} MatchesSame(chain: seq<nat>, entries: Entries, entries': Entries, key: string)
    requires forall x :: x in chain ==> x in entries && x in entries' && entries'[x].name == entries[x].name
    ensures Matches(chain, entries', key) == Matches(chain, entries, key)
  {
    if chain != [] {
      assert chain[0] in chain;
      MatchesSame(chain[1..], entries, entries', key);
    }
  }

  /** What a lookup of `key` finds once `ep`, named `name`, is first on its thread and gone from
      wherever it was. */
  function AfterNaming(found: seq<nat>, ep: nat, name: string, key: string): seq<nat> {
    (if name != [] && SameName(name, key) then [ep] else []) + Without(found, ep)
  }

  /** The threads once `ep`, named `name`, has been taken off thread `h` (if that was its thread)
      and put first on its own. */
  function Renamed(chains: seq<seq<nat>>, ep: nat, name: string, name': string): (r: seq<seq<nat>>)
    requires |chains| == NTHREADS
    ensures |r| == NTHREADS
  {
    var base := if name == [] then chains else chains[HashOf(name) := Without(chains[HashOf(name)], ep)];
    if name' == [] then base else base[HashOf(name') := [ep] + base[HashOf(name')]]
  }

  lemma RenamedFinds(chains: seq<seq<nat>>, entries: Entries, entries': Entries, ep: nat, name: string, name': string,
                     key: string)
    requires |chains| == NTHREADS && PlacesOk(chains, PlaceOf(entries))
    requires if ep in entries then name == entries[ep].name else name == []
    requires entries' == if ep in entries then entries[ep := entries[ep].(name := name')] else entries'
    requires ep in entries' && entries'[ep].name == name'
    requires forall x :: x != ep ==> (x in entries <==> x in entries') && (x in entries ==> entries'[x] == entries[x])
    requires forall x :: x in chains[HashOf(key)] ==> x in entries
    ensures forall x :: x in Renamed(chains, ep, name, name')[HashOf(key)] ==> x in entries'
    ensures Matches(Renamed(chains, ep, name, name')[HashOf(key)], entries', key)
         == AfterNaming(Matches(chains[HashOf(key)], entries, key), ep, name', key)
  {
    var chain := chains[HashOf(key)];
    MatchesWithout(chain, entries, entries', key, ep);
    WithoutMembers(chain, ep);
    RenamedThread(chains, entries, ep, name, name', HashOf(key));
    if name' != [] && SameName(name', key) {
      SameNameSameHash(name', key);
    }
    if name' != [] && HashOf(name') == HashOf(key) {
      MatchesFirst(ep, Without(chain, ep), entries', key);
    }
  }

  lemma MatchesFirst(ep: nat, rest: seq<nat>, entries: Entries, key: string)
    requires ep in entries && forall x :: x in rest ==> x in entries
    ensures Matches([ep] + rest, entries, key)
         == (if SameName(entries[ep].name, key) then [ep] else []) + Matches(rest, entries, key)
  {
    assert ([ep] + rest)[1..] == rest;
  }

  lemma RenamedThread(chains: seq<seq<nat>>, entries: Entries, ep: nat, name: string, name': string, h: nat)
    requires |chains| == NTHREADS && PlacesOk(chains, PlaceOf(entries)) && h < NTHREADS
    requires if ep in entries then name == entries[ep].name else name == []
    ensures Renamed(chains, ep, name, name')[h] ==
            (if name' != [] && HashOf(name') == h then [ep] else []) + Without(chains[h], ep)
  {
    WithoutMembers(chains[h], ep);
    assert name == [] || HashOf(name) != h ==> ep !in chains[h];
  }

  /** Deleting leaves the other matches as they are. */
  lemma DeletedFinds(chains: seq<seq<nat>>, entries: Entries, ep: nat, key: string)
    requires |chains| == NTHREADS && PlacesOk(chains, PlaceOf(entries)) && ep in entries
    requires forall x :: x in chains[HashOf(key)] ==> x in entries
    ensures forall x :: x in Renamed(chains, ep, entries[ep].name, [])[HashOf(key)] ==> x in entries - {ep}
    ensures Matches(Renamed(chains, ep, entries[ep].name, [])[HashOf(key)], entries - {ep}, key)
         == Without(Matches(chains[HashOf(key)], entries, key), ep)
  {
    var chain := chains[HashOf(key)];
    MatchesWithout(chain, entries, entries - {ep}, key, ep);
    WithoutMembers(chain, ep);
    assert entries[ep].name == [] || HashOf(entries[ep].name) != HashOf(key) ==>
        ep !in chain && Without(chain, ep) == chain;
  }

  lemma PlaceMinus(entries: Entries, ep: nat)
    ensures PlaceOf(entries - {ep}) == PlaceOf(entries) - {ep}
  {
  }

  /** The list, its members and its bounds once entry `j` is taken out. */
  ghost predicate ListInUse(itab: seq<Item>, head: nat, tail: nat, nitems: int, itemsused: nat, order: seq<nat>,
                            entries: Entries) {
    && 1 <= itemsused <= |itab|
    && ListOk(itab, head, tail, order)
    && (forall ep :: ep in order <==> ep in entries)
    && (forall ep :: ep in entries ==> 0 < ep < itemsused)
    && nitems == |order|
  }

  /** The table once entry `j` of the list is passed over. */
  function PassedOver(itab: seq<Item>, order: seq<nat>, j: nat): (r: seq<Item>)
    requires j < |order| && forall i :: 0 <= i < |order| ==> order[i] < |itab|
    ensures |r| == |itab|
  {
    if j == 0 then itab
    else itab[order[j - 1] := itab[order[j - 1]].(nextglob := itab[order[j]].nextglob)]
  }

  lemma RemovedList(itab: seq<Item>, head: nat, tail: nat, nitems: int, itemsused: nat, order: seq<nat>,
                    entries: Entries, j: nat)
    requires ListInUse(itab, head, tail, nitems, itemsused, order, entries) && j < |order|
    ensures Without(order, order[j]) == Cut(order, j)
    ensures var ep := order[j];
      ListInUse(PassedOver(itab, order, j), if j == 0 then itab[ep].nextglob else head,
                if tail != ep then tail else if j == 0 then 0 else order[j - 1],
                nitems - 1, if tail == ep then itemsused - 1 else itemsused, Cut(order, j), entries - {ep})
  {
    WithoutAt(order, j);
    ListRemove(itab, head, tail, order, j, PassedOver(itab, order, j));
    CutMembers(order, j);
    TailIsLargest(order, j);
    assert order[j] in order && order[j] in entries;
    forall x | x in entries - {order[j]} ensures tail == order[j] ==> x < itemsused - 1 {
      assert x in order;
    }
  }

  lemma PassedOverKeeps(itab: seq<Item>, order: seq<nat>, j: nat)
    requires j < |order| && forall i :: 0 <= i < |order| ==> order[i] < |itab|
    ensures SameStrings(itab, PassedOver(itab, order, j)) && SameHashLinks(itab, PassedOver(itab, order, j))
  {
  }

  lemma IndexOf(s: seq<nat>, x: nat) returns (j: nat)
    requires x in s
    ensures j < |s| && s[j] == x
  {
    j :| 0 <= j < |s| && s[j] == x;
  }

  lemma TailIsLargest(order: seq<nat>, j: nat)
    requires Increasing(order) && j < |order|
    ensures order[|order| - 1] == order[j] <==> j + 1 == |order|
    ensures forall x :: x in order && x != order[|order| - 1] ==> x < order[|order| - 1]
  {
  }

  // ----- the entries as a sequence -----

  /** What the database holds, in list order. */
  ghost function Listing(order: seq<nat>, entries: Entries): (r: seq<Entry>)
    requires forall ep :: ep in order ==> ep in entries
    ensures |r| == |order| && forall i :: 0 <= i < |order| ==> r[i] == entries[order[i]]
  {
    seq(|order|, i requires 0 <= i < |order| => assert order[i] in order; entries[order[i]])
  }

  lemma ListingAppend(order: seq<nat>, entries: Entries, ep: nat, e: Entry)
    requires (forall x :: x in order ==> x in entries) && ep !in entries
    ensures forall x :: x in order + [ep] ==> x in entries[ep := e]
    ensures Listing(order + [ep], entries[ep := e]) == Listing(order, entries) + [e]
  {
    forall i | 0 <= i < |order| ensures Listing(order + [ep], entries[ep := e])[i] == Listing(order, entries)[i] {
      assert order[i] in order;
    }
  }

  lemma ListingRemove(order: seq<nat>, entries: Entries, j: nat)
    requires (forall x :: x in order ==> x in entries) && j < |order|
    requires forall x :: x in Cut(order, j) ==> x in entries - {order[j]}
    ensures Listing(Cut(order, j), entries - {order[j]}) == Cut(Listing(order, entries), j)
  {
    forall i | 0 <= i < |order| - 1
      ensures Listing(Cut(order, j), entries - {order[j]})[i] == Listing(order, entries)[if i < j then i else i + 1]
    {
      assert Cut(order, j)[i] in Cut(order, j);
    }
  }
}
