/** Headers of a mapped image file: `dsim_ReadHeader` and `dsim_WriteHeader` (mosdca/dsim.c) over
    the keyword database, its FITS reader and writer, and the file emulation. */
module DsimHeader {
  import opened Text
  import opened KwdbModel
  import opened KwdbThreads
  import opened Kwdb
  import opened FitsCard
  import opened FitsFile
  import opened FitsRoundTrip
  import Dsim

  /** Where a header is: its first byte, its capacity in cards, and how many reserved cards come
      first. */
  datatype Header = Header(offset: nat, maxcards: nat, nreserved: nat) {
    /** The first byte after the reserved cards. */
    function Start(): nat {
      offset + CARDLEN * nreserved
    }

    /** The first byte after the header. */
    function Limit(): nat {
      offset + CARDLEN * maxcards
    }

    predicate InFile(size: nat) {
      nreserved <= maxcards && Limit() <= size
    }
  }

  /** The index of the last entry named `name`, or -1; the empty name names nothing. */
  function LastNamed(es: seq<Entry>, name: string): (j: int)
    ensures -1 <= j < |es|
    ensures j >= 0 ==> name != [] && SameName(es[j].name, name)
    ensures name != [] ==> forall i :: j < i < |es| ==> !SameName(es[i].name, name)
  {
    if es == [] || name == [] then -1
    else if SameName(es[|es| - 1].name, name) then |es| - 1
    else LastNamed(es[..|es| - 1], name)
  }

  /** `es` without its last entry named `name`. */
  function RemoveLast(es: seq<Entry>, name: string): (r: seq<Entry>)
    ensures |r| <= |es|
  {
    var j := LastNamed(es, name);
    if j < 0 then es else Cut(es, j)
  }

  /** `es` without the last entry of each of the names, one name after the other. */
  function Stripped(es: seq<Entry>, names: seq<string>): (r: seq<Entry>)
    ensures |r| <= |es|
  {
    if names == [] then es else Stripped(RemoveLast(es, names[0]), names[1..])
  }

  function Names(es: seq<Entry>): (r: seq<string>)
    ensures |r| == |es| && forall i :: 0 <= i < |es| ==> r[i] == es[i].name
  {
    seq(|es|, i requires 0 <= i < |es| => es[i].name)
  }

  /** The reserved entries of a header: its first cards, up to END. */
  function Reserved(data: seq<char>, h: Header, stale: string): seq<Entry>
    requires h.offset <= |data|
  {
    DropBlank(ReadCards(data[h.offset..], if h.nreserved == 0 then -1 else h.nreserved, stale))
  }

  // ----- reading -----

  /** `dsim_ReadHeader`.  The descriptor used is 0 whatever slot was opened; while no slot is in
      use, that is the slot. */
  method ReadHeader(f: MappedFile, offset: nat, maxentries: nat, name: string, stale: string) returns (kwdb: Database?)
    requires f.NoneOpen() && offset <= |f.data| && Storable(stale)
    requires NoNul(name) && |name| + 2 <= DEF_SZSBUF
    modifies f`fdtable
    ensures f.NoneOpen()
    ensures kwdb != null && fresh(kwdb) && kwdb.Valid() && NewestFirst(kwdb.chains)
    ensures kwdb.Contents()
         == DropBlank(ReadCards(f.data[offset..], if maxentries == 0 then -1 else maxentries, stale))
  {
    kwdb := new Database(name);
    assert !f.fdtable[0].used;
    var slot := f.Open();
    var fd := if slot < 0 then 1 else 0;
    if fd != 0 {
      return null;
    }
    Scan(kwdb, f, offset, maxentries, stale);
  }

  /** The header at `offset` is read through slot 0. */
  method Scan(kwdb: Database, f: MappedFile, offset: nat, maxentries: nat, stale: string)
    requires kwdb.Valid() && kwdb.Contents() == [] && NewestFirst(kwdb.chains)
    requires f.IsOpen() && offset <= |f.data| && Storable(stale)
    modifies kwdb, f`fdtable
    ensures kwdb.Valid() && NewestFirst(kwdb.chains) && f.NoneOpen()
    ensures kwdb.Contents()
         == DropBlank(ReadCards(f.data[offset..], if maxentries == 0 then -1 else maxentries, stale))
  {
    kwdb.TidyIsRoomy();
    var at := f.Lseek(offset);
    var ncards := ReadFITS(kwdb, f, maxentries, stale, offset);
    f.Close(0);
    ghost var es := ReadCards(f.data[offset..], if maxentries == 0 then -1 else maxentries, stale);
    assert [] + es == es;
  }

  // ----- deleting what is reserved -----

  /** While the threads keep the newest entry first, instance 0 of a name is the last of the list
      with that name. */
  lemma InstanceIsLast(db: Database, name: string)
    requires db.LinksValid() && NewestFirst(db.chains)
    ensures var j := LastNamed(db.Contents(), name);
      Instance(db.Found(name), 0) == if j < 0 then 0 else db.order[j]
  {
    var j := LastNamed(db.Contents(), name);
    if name == [] {
      db.NothingUnnamed();
    } else {
      db.FoundIsMostRecentFirst(name);
      FirstIsLast(db.order, db.entries, name, j);
    }
  }

  lemma EmptySeq(s: seq<nat>)
    requires forall x :: x !in s
    ensures s == []
  {
    if s != [] {
      var x := Member(s);
    }
  }

  lemma FirstIsLast(order: seq<nat>, entries: Entries, name: string, j: int)
    requires Increasing(order) && (forall x :: x in order ==> x in entries)
    requires -1 <= j < |order| && (j >= 0 ==> SameName(entries[order[j]].name, name))
    requires forall i :: j < i < |order| ==> order[i] in entries && !SameName(entries[order[i]].name, name)
    ensures Instance(MostRecentFirst(order, entries, name), 0) == if j < 0 then 0 else order[j]
  {
    var m := MostRecentFirst(order, entries, name);
    MostRecentDecreases(order, entries, name);
    if j >= 0 {
      assert order[j] in m;
      var k := IndexOf(m, order[j]);
      assert m[0] in m;
      var i := IndexOf(order, m[0]);
      assert i <= j;
    } else {
      forall x ensures x !in m {
        if x in m {
          var i := IndexOf(order, x);
        }
      }
      EmptySeq(m);
    }
  }

  /** `s` without its first `n` elements. */
  function DropN<T>(s: seq<T>, n: nat): seq<T> {
    if n >= |s| then [] else s[n..]
  }

  lemma DropTwice<T>(s: seq<T>, a: nat, b: nat)
    ensures DropN(DropN(s, a), b) == DropN(s, a + b)
  {
  }

  /** The entries of the list that are still live. */
  ghost function Kept(order: seq<nat>, entries: Entries): seq<nat> {
    if order == [] then []
    else (if order[0] in entries then [order[0]] else []) + Kept(order[1..], entries)
  }

  lemma {:induction false} KeptAll(order: seq<nat>, entries: Entries)
    requires forall x :: x in order ==> x in entries
    ensures Kept(order, entries) == order
  {
    if order != [] {
      assert order[0] in order;
      KeptAll(order[1..], entries);
    }
  }

  lemma {:induction false} KeptWithout(order: seq<nat>, entries: Entries, x: nat)
    ensures Without(Kept(order, entries), x) == Kept(order, entries - {x})
  {
    if order != [] {
      KeptWithout(order[1..], entries, x);
      var r := Kept(order[1..], entries);
      assert ([order[0]] + r)[1..] == r && [] + r == r;
    }
  }

  /** Names that are the same up to case are looked up alike. */
  lemma FoundAlike(db: Database, name: string, key: string)
    requires db.LinksValid() && SameName(name, key)
    ensures db.Found(name) == db.Found(key)
  {
    SameNameSameHash(name, key);
    db.ThreadMembers(HashOf(key));
    MatchesAlike(db.chains[HashOf(key)], db.entries, name, key);
  }

  lemma {:induction false} MatchesAlike(chain: seq<nat>, entries: Entries, name: string, key: string)
    requires (forall x :: x in chain ==> x in entries) && SameName(name, key)
    ensures Matches(chain, entries, name) == Matches(chain, entries, key)
  {
    if chain != [] {
      assert chain[0] in chain;
      MatchesAlike(chain[1..], entries, name, key);
    }
  }

  ghost predicate Distinct(s: seq<nat>) {
    forall a, b :: 0 <= a < b < |s| ==> s[a] != s[b]
  }

  lemma {:induction false} MatchesDistinct(chain: seq<nat>, entries: Entries, key: string)
    requires (forall x :: x in chain ==> x in entries) && Distinct(chain)
    ensures Distinct(Matches(chain, entries, key))
  {
    if chain != [] {
      DistinctTail(chain);
      MatchesDistinct(chain[1..], entries, key);
      PushDistinct(chain[0], Matches(chain[1..], entries, key));
    }
  }

  lemma PushDistinct(x: nat, r: seq<nat>)
    requires Distinct(r) && x !in r
    ensures Distinct([x] + r)
  {
  }

  /** What is found under `key` once instance 0 of `name` is gone. */
  lemma FirstGone(db: Database, name: string, key: string)
    requires db.LinksValid() && key != [] && db.Found(name) != []
    ensures Without(db.Found(key), db.Found(name)[0]) == DropN(db.Found(key), if SameName(name, key) then 1 else 0)
  {
    var x := db.Found(name)[0];
    assert x in db.Found(name);
    if SameName(name, key) {
      FoundAlike(db, name, key);
      db.ThreadMembers(HashOf(key));
      assert ChainOk(db.itab, db.hashtbl[HashOf(key)], db.walks[HashOf(key)]);
      DistinctPrefix(db.chains[HashOf(key)], db.walks[HashOf(key)]);
      MatchesDistinct(db.chains[HashOf(key)], db.entries, key);
      assert Matches(db.chains[HashOf(key)], db.entries, key) == db.Found(key);
      WithoutAt(db.Found(key), 0);
    } else {
      WithoutMembers(db.Found(key), x);
    }
  }

  /** A live entry is deleted. */
  method DeleteLive(kwdb: Database, xp: nat, ghost tidy: bool, ghost newest: bool)
    requires InOrder(kwdb, tidy, newest) && xp in kwdb.entries
    modifies kwdb
    ensures InOrder(kwdb, tidy, newest)
    ensures kwdb.order == Without(old(kwdb.order), xp) && kwdb.entries == old(kwdb.entries) - {xp}
    ensures forall key :: kwdb.Found(key) == Without(old(kwdb.Found(key)), xp)
  {
    var status := kwdb.DeleteEntry(xp);
  }

  /** Instance 0 of `name` is deleted, if there is one. */
  method DeleteNamed(kwdb: Database, name: string, ghost tidy: bool, ghost newest: bool)
    requires InOrder(kwdb, tidy, newest) && NoNul(name)
    modifies kwdb
    ensures InOrder(kwdb, tidy, newest)
    ensures kwdb.order == Without(old(kwdb.order), Instance(old(kwdb.Found(name)), 0))
    ensures kwdb.entries == old(kwdb.entries) - {Instance(old(kwdb.Found(name)), 0)}
    ensures Instance(old(kwdb.Found(name)), 0) in old(kwdb.entries) ==>
              old(kwdb.entries)[Instance(old(kwdb.Found(name)), 0)].name != []
    ensures forall key :: key != [] ==>
              kwdb.Found(key) == DropN(old(kwdb.Found(key)), if SameName(name, key) then 1 else 0)
    ensures newest ==> kwdb.Contents() == RemoveLast(old(kwdb.Contents()), name)
  {
    var xp := kwdb.Lookup(name, 0);
    if newest {
      InstanceIsLast(kwdb, name);
      RemovesOne(kwdb, LastNamed(kwdb.Contents(), name));
    }
    NotZero(kwdb, name, xp);
    Dropping(kwdb, name, xp);
    if xp != 0 {
      DeleteLive(kwdb, xp, tidy, newest);
    }
  }

  lemma Dropping(db: Database, name: string, xp: nat)
    requires db.LinksValid() && xp == Instance(db.Found(name), 0)
    ensures xp in db.entries ==> db.entries[xp].name != []
    ensures forall key :: key != [] ==>
              (if xp == 0 then db.Found(key) else Without(db.Found(key), xp))
              == DropN(db.Found(key), if SameName(name, key) then 1 else 0)
  {
    if name == [] {
      db.NothingUnnamed();
    }
    NotZero(db, name, xp);
    forall key | key != []
      ensures (if xp == 0 then db.Found(key) else Without(db.Found(key), xp))
              == DropN(db.Found(key), if SameName(name, key) then 1 else 0)
    {
      if db.Found(name) == [] {
        if SameName(name, key) {
          FoundAlike(db, name, key);
        }
      } else {
        db.NoEntryZero(name);
        FirstGone(db, name, key);
      }
    }
    if xp in db.entries && db.Found(name) != [] {
      assert db.Found(name)[0] in db.Found(name);
    }
  }

  lemma NotZero(db: Database, name: string, xp: nat)
    requires db.LinksValid() && xp == Instance(db.Found(name), 0)
    ensures if xp == 0 then Without(db.order, 0) == db.order && db.entries - {0} == db.entries else xp in db.entries
  {
    if db.Found(name) != [] {
      assert db.Found(name)[0] in db.Found(name);
    }
    WithoutMembers(db.order, 0);
  }

  lemma RemovesOne(db: Database, j: int)
    requires db.ListValid() && -1 <= j < |db.order|
    ensures j >= 0 ==> && (forall x :: x in Without(db.order, db.order[j]) ==> x in db.entries - {db.order[j]})
                       && Listing(Without(db.order, db.order[j]), db.entries - {db.order[j]}) == Cut(db.Contents(), j)
  {
    if j >= 0 {
      WithoutAt(db.order, j);
      CutMembers(db.order, j);
      ListingRemove(db.order, db.entries, j);
    }
  }

  /** `kwdb_KWName`, for entry `i` of the list, and the entry after it. */
  method NameAt(db: Database, ep: nat, ghost i: nat) returns (name: string, next: nat)
    requires db.StoreValid() && i < |db.order| && db.order[i] == ep
    ensures name == db.Contents()[i].name && NoNul(name)
    ensures next == if i + 1 < |db.order| then db.order[i + 1] else 0
  {
    assert ep in db.order;
    NameClean(db, ep);
    var e;
    e, next := EntryAt(db, ep, i);
    name := e.name;
  }

  lemma NameClean(db: Database, ep: nat)
    requires db.StoreValid() && ep in db.entries
    ensures NoNul(db.entries[ep].name)
  {
    var it, e := db.itab[ep], db.entries[ep];
    assert StringOk(db.sbuf, db.owner, ep, NameField, Off(it, NameField), Cap(it, NameField, e), Get(e, NameField));
  }

  /** The names whose last entries go: those of the reserved entries, and END. */
  function Doomed(es: seq<Entry>): seq<string> {
    Names(es) + ["END"]
  }

  lemma NextDoomed(es: seq<Entry>, i: nat)
    requires i < |es|
    ensures Doomed(es)[i..] == [es[i].name] + Doomed(es)[i + 1..]
  {
  }

  lemma LastDoomed(es: seq<Entry>)
    ensures Doomed(es)[0..] == Doomed(es) && Doomed(es)[|es|..] == ["END"]
  {
  }

  lemma StripFirst(es: seq<Entry>, name: string, names: seq<string>)
    ensures Stripped(es, [name] + names) == Stripped(RemoveLast(es, name), names)
  {
    assert ([name] + names)[1..] == names;
  }

  /** A database from which entries of the names `doomed` are to be deleted; `tidy` says that its
      threads are tidy, `newest` that they keep the newest entry first. */
  datatype Before = Before(order: seq<nat>, entries: Entries, chains: seq<seq<nat>>, es: seq<Entry>, tidy: bool,
                           newest: bool, doomed: seq<string>) {
    ghost predicate Ok() {
      |chains| == NTHREADS &&
      forall h, x {:trigger x in chains[h]} :: 0 <= h < NTHREADS && x in chains[h] ==> x in entries
    }

    ghost function Found(key: string): seq<nat>
      requires Ok()
    {
      Matches(chains[HashOf(key)], entries, key)
    }
  }

  ghost function Now(db: Database, doomed: seq<string>): (r: Before)
    requires db.LinksValid()
    reads db
    ensures r.Ok() && forall key :: r.Found(key) == db.Found(key)
  {
    assert forall h, x {:trigger x in db.chains[h]} :: 0 <= h < NTHREADS && x in db.chains[h] ==>
        x in PlaceOf(db.entries);
    Before(db.order, db.entries, db.chains, db.Contents(), db.walks == db.chains, NewestFirst(db.chains), doomed)
  }

  /** Entries for the names but `left` are gone: of every name those that lookups met first. */
  ghost predicate Cleaning(db: Database, b: Before, left: seq<string>)
    requires b.Ok()
    reads db
  {
    && InOrder(db, b.tidy, b.newest)
    && Fewer(db.entries, b.entries) && db.order == Kept(b.order, db.entries)
    && (forall key :: key != [] ==>
          DropN(db.Found(key), CountNames(left, key)) == DropN(b.Found(key), CountNames(b.doomed, key)))
    && (b.newest ==> Stripped(db.Contents(), left) == Stripped(b.es, b.doomed))
  }

  /** All are gone: of every name as many of the entries that lookups met first as `doomed` has
      such names; the others are unchanged and in their order.  While the threads keep the newest
      entry first, those are the last ones of the list. */
  ghost predicate Cleaned(db: Database, b: Before)
    requires b.Ok()
    reads db
  {
    && InOrder(db, b.tidy, b.newest)
    && Fewer(db.entries, b.entries) && db.order == Kept(b.order, db.entries)
    && (forall key :: key != [] ==> db.Found(key) == DropN(b.Found(key), CountNames(b.doomed, key)))
    && (b.newest ==> db.Contents() == Stripped(b.es, b.doomed))
  }

  lemma NoneLeft(db: Database, b: Before)
    requires b.Ok() && Cleaning(db, b, [])
    ensures Cleaned(db, b)
  {
    assert forall key :: DropN(db.Found(key), CountNames([], key)) == db.Found(key);
  }

  /** The entries that copy a reserved keyword, and END, are deleted from the database: of every
      name as many of the entries that lookups meet first as there are such names. */
  method DeleteReserved(rskw: Database, kwdb: Database)
    requires rskw != kwdb && rskw.StoreValid() && kwdb.Serviceable()
    modifies kwdb
    ensures Cleaned(kwdb, old(Now(kwdb, Doomed(rskw.Contents()))))
    ensures Thinned(kwdb, old(Now(kwdb, Doomed(rskw.Contents()))), old(rskw.Contents()))
  {
    ghost var b := Now(kwdb, Doomed(rskw.Contents()));
    Untouched(kwdb, Doomed(rskw.Contents()));
    DeleteCopies(rskw, kwdb, b);
    DeleteEnd(kwdb, b);
    CleanedThins(kwdb, b, rskw.Contents());
  }

  /** The entries that copy a reserved keyword. */
  method DeleteCopies(rskw: Database, kwdb: Database, ghost b: Before)
    requires rskw != kwdb && rskw.StoreValid() && b.Ok() && Cleaning(kwdb, b, Doomed(rskw.Contents()))
    modifies kwdb
    ensures Cleaning(kwdb, b, ["END"])
  {
    ghost var i := 0;
    LastDoomed(rskw.Contents());
    var ep := rskw.head;
    while ep != 0
      invariant 0 <= i <= |rskw.order| && ep == if i < |rskw.order| then rskw.order[i] else 0
      invariant Cleaning(kwdb, b, Doomed(rskw.Contents())[i..])
      decreases |rskw.order| - i
    {
      ep := DeleteCopy(rskw, kwdb, ep, i, b);
      i := i + 1;
    }
  }

  lemma Untouched(db: Database, doomed: seq<string>)
    requires db.Serviceable()
    ensures Cleaning(db, Now(db, doomed), doomed)
  {
    KeptAll(db.order, db.entries);
  }

  method DeleteEnd(kwdb: Database, ghost b: Before)
    requires b.Ok() && Cleaning(kwdb, b, ["END"])
    modifies kwdb
    ensures Cleaned(kwdb, b)
  {
    assert ["END"] + [] == ["END"];
    DeleteNext(kwdb, "END", [], b);
    NoneLeft(kwdb, b);
  }

  /** Entry `i` of the reserved ones, and the entry after it. */
  method DeleteCopy(rskw: Database, kwdb: Database, ep: nat, ghost i: nat, ghost b: Before) returns (next: nat)
    requires rskw != kwdb && rskw.StoreValid() && i < |rskw.order| && rskw.order[i] == ep
    requires b.Ok() && Cleaning(kwdb, b, Doomed(rskw.Contents())[i..])
    modifies kwdb
    ensures next == if i + 1 < |rskw.order| then rskw.order[i + 1] else 0
    ensures Cleaning(kwdb, b, Doomed(rskw.Contents())[i + 1..])
  {
    var name;
    name, next := NameAt(rskw, ep, i);
    NextDoomed(rskw.Contents(), i);
    DeleteNext(kwdb, name, Doomed(rskw.Contents())[i + 1..], b);
  }

  /** One name of those that are left, the others being `names`. */
  method DeleteNext(kwdb: Database, name: string, ghost names: seq<string>, ghost b: Before)
    requires b.Ok() && Cleaning(kwdb, b, [name] + names) && NoNul(name)
    modifies kwdb
    ensures Cleaning(kwdb, b, names)
  {
    KeptWithout(b.order, kwdb.entries, Instance(kwdb.Found(name), 0));
    StripFirst(kwdb.Contents(), name, names);
    DeleteNamed(kwdb, name, b.tidy, b.newest);
    forall key | key != []
      ensures DropN(kwdb.Found(key), CountNames(names, key)) == DropN(b.Found(key), CountNames(b.doomed, key))
    {
      OneMoreGone(old(kwdb.Found(key)), kwdb.Found(key), name, names, key);
    }
  }

  lemma OneMoreGone(found: seq<nat>, found': seq<nat>, name: string, names: seq<string>, key: string)
    requires found' == DropN(found, if SameName(name, key) then 1 else 0)
    ensures DropN(found', CountNames(names, key)) == DropN(found, CountNames([name] + names, key))
  {
    CountFirst(name, names, key);
    DropTwice(found, if SameName(name, key) then 1 else 0, CountNames(names, key));
  }

  lemma CountFirst(name: string, names: seq<string>, key: string)
    ensures CountNames([name] + names, key) == CountNames(names, key) + if SameName(name, key) then 1 else 0
  {
    assert ([name] + names)[1..] == names;
  }

  /** Some entries are gone, the others are unchanged. */
  ghost predicate Fewer(entries': Entries, entries: Entries) {
    forall x :: x in entries' ==> x in entries && entries'[x] == entries[x]
  }

  // ----- writing -----

  /** What a header holds behind its reserved cards: the cards, blank cards and END. */
  function Filling(es: seq<Entry>, room: nat): (r: string)
    requires |es| + 1 <= room
    ensures |r| == CARDLEN * room
  {
    Cards(es + BlankEntries(room - |es| - 1)) + EndCard()
  }

  /** The blank cards after those that were written; `all` are the entries followed by blank ones. */
  method FillBlank(f: MappedFile, first: nat, maxcards: nat, ghost all: seq<Entry>, ghost k: nat,
                   ghost data: seq<char>, ghost pos: nat)
    returns (status: int)
    requires Wrote(f, all, k, data, pos) && first + |all| - k == maxcards
    requires pos + CARDLEN * |all| <= |data| && forall i :: k <= i < |all| ==> all[i] == BLANK
    modifies f
    ensures status == 0 && Wrote(f, all, |all|, data, pos)
  {
    var card := Blanks(CARDLEN);
    var i := first;
    ghost var n := k;
    while i < maxcards
      invariant k <= n <= |all| && i + |all| - n == maxcards && Wrote(f, all, n, data, pos)
    {
      var written := WriteBlank(f, card, all, n, data, pos);
      if written != CARDLEN {
        return -1;
      }
      i, n := i + 1, n + 1;
    }
    assert n == |all|;
    status := 0;
  }

  /** There is room for one more blank card. */
  method WriteBlank(f: MappedFile, card: string, ghost all: seq<Entry>, ghost n: nat, ghost data: seq<char>,
                    ghost pos: nat)
    returns (written: nat)
    requires Wrote(f, all, n, data, pos) && n < |all| && all[n] == BLANK && card == Blanks(CARDLEN)
    requires pos + CARDLEN * |all| <= |data|
    modifies f
    ensures written == CARDLEN && Wrote(f, all, n + 1, data, pos)
  {
    BlankCards();
    written := WriteCard(f, card, all, n, data, pos);
  }

  /** The blank cards and the END card, after the cards of `es`. */
  method FillUp(f: MappedFile, nreserved: nat, ncards: nat, maxcards: nat, ghost es: seq<Entry>,
                ghost data: seq<char>, ghost pos: nat)
    returns (status: int)
    requires ncards == |es| && nreserved + ncards + 1 <= maxcards
    requires pos + CARDLEN * (maxcards - nreserved) <= |data| && Wrote(f, es, |es|, data, pos)
    modifies f
    ensures f.IsOpen() && status == 0 && f.data == Poke(data, pos, Filling(es, maxcards - nreserved))
  {
    ghost var all := es + BlankEntries(maxcards - nreserved - ncards - 1);
    assert all[..ncards] == es[..ncards];
    status := FillBlank(f, nreserved + ncards + 1, maxcards, all, ncards, data, pos);
    if status == 0 {
      status := WriteEnd(f, all, data, pos);
    }
  }

  method WriteEnd(f: MappedFile, ghost all: seq<Entry>, ghost data: seq<char>, ghost pos: nat) returns (status: int)
    requires Wrote(f, all, |all|, data, pos) && pos + CARDLEN * (|all| + 1) <= |data|
    modifies f
    ensures f.IsOpen() && status == 0 && f.data == Poke(data, pos, Cards(all) + EndCard())
  {
    assert all[..|all|] == all;
    var card := EndCard();
    var n := f.Write(card, pos + CARDLEN * |all|);
    assert card[..n] == card;
    PokeNext(data, pos, Cards(all), card);
    status := if n != CARDLEN then -1 else 0;
  }

  /** `dsim_WriteHeader` on a mapped file. */
  method WriteHeader(f: MappedFile, h: Header, kwdb: Database, name: string, stale: string) returns (status: int)
    requires f.NoneOpen() && h.InFile(|f.data|) && kwdb.Serviceable() && Storable(stale)
    requires NoNul(name) && |name| + 2 <= DEF_SZSBUF
    modifies f, kwdb
    ensures f.NoneOpen()
    ensures Cleaned(kwdb, old(Now(kwdb, Doomed(Reserved(f.data, h, stale)))))
    ensures var es, room := kwdb.Contents(), h.maxcards - h.nreserved;
      if |es| + 1 <= room then status == 0 && f.data == Poke(old(f.data), h.Start(), Filling(es, room))
      else status == -1 && f.data == old(f.data)
    ensures status == 0 ==> HeaderHolds(old(f.data), f.data, h, kwdb.Contents())
    ensures var reserved := Reserved(old(f.data), h, stale);
      Thinned(kwdb, old(Now(kwdb, Doomed(Reserved(f.data, h, stale)))), reserved)
  {
    var rskw := ReadHeader(f, h.offset, h.nreserved, name, stale);
    DeleteReserved(rskw, kwdb);
    status := WriteCards(f, h, kwdb);
  }

  /** The second half of `dsim_WriteHeader`. */
  method WriteCards(f: MappedFile, h: Header, kwdb: Database) returns (status: int)
    requires f.NoneOpen() && h.InFile(|f.data|) && kwdb.StoreValid()
    modifies f
    ensures f.NoneOpen()
    ensures var es, room := kwdb.Contents(), h.maxcards - h.nreserved;
      if |es| + 1 <= room then status == 0 && f.data == Poke(old(f.data), h.Start(), Filling(es, room))
      else status == -1 && f.data == old(f.data)
    ensures status == 0 ==> HeaderHolds(old(f.data), f.data, h, kwdb.Contents())
  {
    status := -1;
    assert !f.fdtable[0].used;
    var slot := f.Open();
    var fd := if slot < 0 then 1 else 0;
    if fd != 0 {
      assert false;
      return;
    }
    var at := f.Lseek(h.offset + h.nreserved * CARDLEN);
    if h.nreserved + kwdb.nitems + 1 <= h.maxcards {
      status := FillHeader(f, h, kwdb);
    }
    f.Close(fd);
    if status == 0 {
      HeaderInBytes(old(f.data), f.data, h, kwdb.Contents());
    }
  }

  method FillHeader(f: MappedFile, h: Header, kwdb: Database) returns (status: int)
    requires f.OpenAt(h.Start()) && h.InFile(|f.data|) && kwdb.StoreValid()
    requires |kwdb.Contents()| + 1 <= h.maxcards - h.nreserved
    modifies f
    ensures f.IsOpen() && status == 0
    ensures f.data == Poke(old(f.data), h.Start(), Filling(kwdb.Contents(), h.maxcards - h.nreserved))
  {
    ghost var data := f.data;
    var ncards := WriteFITS(kwdb, f, h.Start());
    if ncards < 0 {
      return -1;
    }
    status := FillUp(f, h.nreserved, ncards, h.maxcards, kwdb.Contents(), data, h.Start());
  }

  // ----- what the written header holds -----

  /** Card `i` from byte `start` on. */
  function Slot(data: seq<char>, start: nat, i: nat): seq<char>
    requires start + CARDLEN * (i + 1) <= |data|
  {
    data[start + CARDLEN * i..start + CARDLEN * i + CARDLEN]
  }

  /** The header `h` of the new file: its reserved cards and everything outside it are unchanged,
      the entries follow in order, then blank cards, and END is its last card. */
  lemma HeaderFilled(data: seq<char>, data': seq<char>, h: Header, es: seq<Entry>)
    requires h.InFile(|data|) && |es| + 1 <= h.maxcards - h.nreserved
    requires data' == Poke(data, h.Start(), Filling(es, h.maxcards - h.nreserved))
    ensures |data'| == |data| && data'[..h.Start()] == data[..h.Start()] && data'[h.Limit()..] == data[h.Limit()..]
    ensures Slot(data', h.offset, h.maxcards - 1) == EndCard()
    ensures forall i :: 0 <= i < h.maxcards - h.nreserved - 1 ==>
              Slot(data', h.Start(), i) == if i < |es| then CardOf(es[i]) else Blanks(CARDLEN)
  {
    var blanks := h.maxcards - h.nreserved - |es| - 1;
    AroundPoke(data, data', h.Start(), Cards(es + BlankEntries(blanks)), EndCard());
    forall i | 0 <= i < |es| + blanks
      ensures Slot(data', h.Start(), i) == if i < |es| then CardOf(es[i]) else Blanks(CARDLEN) {
      SlotFilled(data, data', h.Start(), es, blanks, i);
    }
  }

  /** The header `h` of the file `data'`, byte by byte: card `i` of those behind the reserved ones
      shows entry `i`, the other cards are blank, the last one says END, and nothing else has
      changed. */
  ghost predicate HeaderHolds(data: seq<char>, data': seq<char>, h: Header, es: seq<Entry>) {
    var start, room := h.offset + 80 * h.nreserved, h.maxcards - h.nreserved;
    && 0 < room && h.offset + 80 * h.maxcards <= |data'| == |data|
    && (forall k :: 0 <= k < |data| && !(start <= k < h.offset + 80 * h.maxcards) ==> data'[k] == data[k])
    && |es| < room && (forall i :: 0 <= i < |es| ==> ShowsAt(data', start + 80 * i, es[i]))
    && (forall k :: start + 80 * |es| <= k < h.offset + 80 * (h.maxcards - 1) ==> data'[k] == ' ')
    && EndsAt(data', h.offset + 80 * (h.maxcards - 1))
  }

  ghost predicate EndsAt(data: seq<char>, at: nat) {
    && at + 80 <= |data| && data[at] == 'E' && data[at + 1] == 'N' && data[at + 2] == 'D'
    && forall k :: at + 3 <= k < at + 80 ==> data[k] == ' '
  }

  lemma HeaderInBytes(data: seq<char>, data': seq<char>, h: Header, es: seq<Entry>)
    requires h.InFile(|data|) && |es| + 1 <= h.maxcards - h.nreserved
    requires data' == Poke(data, h.Start(), Filling(es, h.maxcards - h.nreserved))
    ensures HeaderHolds(data, data', h, es)
  {
    HeaderFilled(data, data', h, es);
    SlotsHold(data, data', h, es);
  }

  lemma SlotsHold(data: seq<char>, data': seq<char>, h: Header, es: seq<Entry>)
    requires h.InFile(|data|) && |data'| == |data| && |es| + 1 <= h.maxcards - h.nreserved
    requires data'[..h.Start()] == data[..h.Start()] && data'[h.Limit()..] == data[h.Limit()..]
    requires Slot(data', h.offset, h.maxcards - 1) == EndCard()
    requires forall i :: 0 <= i < |es| ==> Slot(data', h.Start(), i) == CardOf(es[i])
    requires forall i :: |es| <= i < h.maxcards - h.nreserved - 1 ==> Slot(data', h.Start(), i) == Blanks(CARDLEN)
    ensures HeaderHolds(data, data', h, es)
  {
    var n := h.maxcards - h.nreserved - |es| - 1;
    EntriesAt(data', h.Start(), es);
    BlanksAt(data', h.Start(), |es|, n);
    EndAt(data', h.offset, h.maxcards - 1);
    forall k | 0 <= k < h.Start() || h.Limit() <= k < |data| ensures data'[k] == data[k] {
      Outside(data, data', h.Start(), h.Limit(), k);
    }
  }

  lemma EntriesAt(data: seq<char>, start: nat, es: seq<Entry>)
    requires start + CARDLEN * |es| <= |data|
    requires forall i :: 0 <= i < |es| ==> Slot(data, start, i) == CardOf(es[i])
    ensures forall i :: 0 <= i < |es| ==> ShowsAt(data, start + 80 * i, es[i])
  {
    forall i | 0 <= i < |es| ensures ShowsAt(data, start + 80 * i, es[i]) {
      assert data[start + 80 * i..start + 80 * i + 80] == Slot(data, start, i);
      ThatCard(data, start + 80 * i, es[i]);
    }
  }

  lemma Outside(data: seq<char>, data': seq<char>, start: nat, limit: nat, k: nat)
    requires start <= limit <= |data'| == |data| && data'[..start] == data[..start] && data'[limit..] == data[limit..]
    requires k < start || limit <= k < |data|
    ensures data'[k] == data[k]
  {
    if k < start {
      assert data'[..start][k] == data[..start][k];
    } else {
      assert data'[limit..][k - limit] == data[limit..][k - limit];
    }
  }

  lemma BlanksAt(data: seq<char>, start: nat, from: nat, n: nat)
    requires start + CARDLEN * (from + n) <= |data|
    requires forall i :: from <= i < from + n ==> Slot(data, start, i) == Blanks(CARDLEN)
    ensures forall k :: start + 80 * from <= k < start + 80 * (from + n) ==> data[k] == ' '
  {
    forall k | start + 80 * from <= k < start + 80 * (from + n) ensures data[k] == ' ' {
      var i := (k - start) / 80;
      assert Slot(data, start, i)[k - start - 80 * i] == ' ';
    }
  }

  lemma EndAt(data: seq<char>, start: nat, i: nat)
    requires start + CARDLEN * (i + 1) <= |data| && Slot(data, start, i) == EndCard()
    ensures EndsAt(data, start + 80 * i)
  {
    var at := start + 80 * i;
    forall k | 0 <= k < 80 ensures data[at + k] == EndCard()[k] {
      assert Slot(data, start, i)[k] == data[at + k];
    }
    forall k | at + 3 <= k < at + 80 ensures data[k] == ' ' {
      assert data[at + (k - at)] == EndCard()[k - at];
    }
  }

  lemma AroundPoke(data: seq<char>, data': seq<char>, start: nat, a: string, b: string)
    requires start + |a| + |b| <= |data| && data' == Poke(data, start, a + b)
    ensures data'[..start] == data[..start] && data'[start + |a| + |b|..] == data[start + |a| + |b|..]
    ensures data'[start + |a|..start + |a| + |b|] == b
  {
  }

  lemma SlotFilled(data: seq<char>, data': seq<char>, start: nat, es: seq<Entry>, blanks: nat, i: nat)
    requires start + CARDLEN * (|es| + blanks + 1) <= |data| && i < |es| + blanks
    requires data' == Poke(data, start, Cards(es + BlankEntries(blanks)) + EndCard())
    ensures Slot(data', start, i) == if i < |es| then CardOf(es[i]) else Blanks(CARDLEN)
  {
    var all := es + BlankEntries(blanks);
    BlankCards();
    CardAt(all, i);
    SlotShows(data, data', start, Cards(all), EndCard(), CARDLEN * i);
  }

  lemma SlotShows(data: seq<char>, data': seq<char>, start: nat, cards: string, end: string, k: nat)
    requires start + |cards| + |end| <= |data| && data' == Poke(data, start, cards + end) && k + CARDLEN <= |cards|
    ensures data'[start + k..start + k + CARDLEN] == cards[k..k + CARDLEN]
  {
  }

  /** Reading a written header back gives the reserved entries, then the written ones, as their
      cards say. */
  lemma WrittenHeaderReadsBack(data: seq<char>, data': seq<char>, h: Header, rs: seq<Entry>, es: seq<Entry>,
                               stale: string)
    requires h.InFile(|data|) && |es| + 1 <= h.maxcards - h.nreserved
    requires data' == Poke(data, h.Start(), Filling(es, h.maxcards - h.nreserved))
    requires |rs| == h.nreserved && data[h.offset..h.Start()] == Cards(rs)
    requires AllWellFormed(rs) && AllWellFormed(es)
    ensures DropBlank(ReadCards(data'[h.offset..], -1, stale)) == DropBlank(NormalAll(rs + es, stale))
  {
    var n := h.maxcards - h.nreserved - |es| - 1;
    var rest := data[h.Limit()..];
    ReservedThenFilled(rs, es, BlankEntries(n));
    Pieces(data, data', h.offset, Cards(rs), Cards(es + BlankEntries(n)), EndCard(), rest);
    BlankFillIsDropped(rs + es, n, rest, stale);
  }

  lemma ReservedThenFilled(rs: seq<Entry>, es: seq<Entry>, blank: seq<Entry>)
    ensures Cards(rs + es + blank) == Cards(rs) + Cards(es + blank)
  {
    AssocEntries(rs, es, blank);
    CardsConcat(rs, es + blank);
  }

  lemma AssocEntries(a: seq<Entry>, b: seq<Entry>, c: seq<Entry>)
    ensures a + (b + c) == a + b + c
  {
  }

  lemma Pieces(data: seq<char>, data': seq<char>, off: nat, a: string, b: string, c: string, rest: string)
    requires off + |a| + |b| + |c| <= |data| && data[off..off + |a|] == a && rest == data[off + |a| + |b| + |c|..]
    requires data' == Poke(data, off + |a|, b + c)
    ensures data'[off..] == a + b + (c + rest)
  {
    assert data'[off..off + |a|] == a;
    assert data'[off + |a|..off + |a| + |b| + |c|] == b + c;
    assert data'[off + |a| + |b| + |c|..] == rest;
  }

  // ----- copies of reserved keywords -----

  /** How many entries are named `key`. */
  function Count(es: seq<Entry>, key: string): nat {
    if es == [] then 0
    else Count(es[..|es| - 1], key) + if SameName(es[|es| - 1].name, key) then 1 else 0
  }

  function CountNames(names: seq<string>, key: string): nat {
    if names == [] then 0 else CountNames(names[1..], key) + if SameName(names[0], key) then 1 else 0
  }

  lemma {:induction false} CountConcat(a: seq<Entry>, b: seq<Entry>, key: string)
    ensures Count(a + b, key) == Count(a, key) + Count(b, key)
  {
    if b == [] {
      assert a + b == a;
    } else {
      CountConcat(a, b[..|b| - 1], key);
      assert (a + b)[..|a + b| - 1] == a + b[..|b| - 1];
    }
  }

  lemma CountCut(es: seq<Entry>, j: nat, key: string)
    requires j < |es|
    ensures Count(es, key) == Count(Cut(es, j), key) + if SameName(es[j].name, key) then 1 else 0
  {
    var a, e, b := es[..j], [es[j]], es[j + 1..];
    assert es == a + (e + b);
    CountConcat(a, e + b, key);
    CountConcat(e, b, key);
    CountConcat(a, b, key);
    assert Count(e, key) == (if SameName(es[j].name, key) then 1 else 0) by {
      assert Count([], key) == 0;
    }
  }

  lemma {:induction false} CountPositive(es: seq<Entry>, key: string)
    requires Count(es, key) > 0
    ensures exists i :: 0 <= i < |es| && SameName(es[i].name, key)
  {
    if !SameName(es[|es| - 1].name, key) {
      CountPositive(es[..|es| - 1], key);
      var i :| 0 <= i < |es| - 1 && SameName(es[..|es| - 1][i].name, key);
      assert SameName(es[i].name, key);
    }
  }

  /** As many entries are named `key` as there are places with such a name. */
  lemma {:induction false} CountIs(es: seq<Entry>, key: string)
    ensures Count(es, key) == |set i | 0 <= i < |es| && SameName(es[i].name, key)|
  {
    if es != [] {
      var last := |es| - 1;
      var most, all := set i | 0 <= i < last && SameName(es[..last][i].name, key),
        set i | 0 <= i < |es| && SameName(es[i].name, key);
      CountIs(es[..last], key);
      assert all == if SameName(es[last].name, key) then most + {last} else most;
    }
  }

  /** The names that go: those of the reserved entries, and END once. */
  lemma DoomedCount(es: seq<Entry>, key: string)
    ensures CountNames(Doomed(es), key) == Count(es, key) + if SameName(key, "END") then 1 else 0
  {
    NamesCount(es, ["END"], key);
    assert ["END"][1..] == [];
  }

  lemma {:induction false} NamesCount(es: seq<Entry>, more: seq<string>, key: string)
    ensures CountNames(Names(es) + more, key) == Count(es, key) + CountNames(more, key)
  {
    if es == [] {
      assert Names(es) + more == more;
    } else {
      var last := |es| - 1;
      NamesCount(es[..last], [es[last].name] + more, key);
      assert Names(es) + more == Names(es[..last]) + ([es[last].name] + more);
      CountFirst(es[last].name, more, key);
    }
  }

  /** Of every name as many matches are gone, the first ones, as there are reserved entries of that
      name, and one END. */
  ghost predicate Thinned(db: Database, b: Before, reserved: seq<Entry>)
    requires b.Ok()
    reads db
  {
    db.LinksValid() && forall key :: key != [] ==>
        var n := Count(reserved, key) + if SameName(key, "END") then 1 else 0;
        db.Found(key) == if n >= |b.Found(key)| then [] else b.Found(key)[n..]
  }

  lemma CleanedThins(db: Database, b: Before, reserved: seq<Entry>)
    requires b.Ok() && Cleaned(db, b) && b.doomed == Doomed(reserved)
    ensures Thinned(db, b, reserved)
  {
    forall key | key != []
      ensures CountNames(b.doomed, key) == Count(reserved, key) + if SameName(key, "END") then 1 else 0 {
      DoomedCount(reserved, key);
    }
  }

  /** One entry goes for each of the names, if there is one left: a keyword survives exactly when
      the database held more entries of that name than there are names to delete. */
  lemma {:induction false} StrippedCount(es: seq<Entry>, names: seq<string>, key: string)
    requires key != []
    ensures var n, k := Count(es, key), CountNames(names, key);
      Count(Stripped(es, names), key) == if n > k then n - k else 0
  {
    if names != [] {
      var name := names[0];
      var j := LastNamed(es, name);
      if j >= 0 {
        CountCut(es, j, key);
      } else if SameName(name, key) && Count(es, key) > 0 {
        CountPositive(es, key);
        assert false;
      }
      StrippedCount(RemoveLast(es, name), names[1..], key);
    }
  }

  /** A reserved keyword that the database holds twice: the older copy is still written. */
  lemma CopySurvives(reserved: Entry, older: Entry, newer: Entry)
    requires reserved.name == older.name == newer.name == "NAXIS"
    ensures Stripped([older, newer], Doomed([reserved])) == [older]
  {
    var both := [older, newer];
    assert LastNamed(both, "NAXIS") == 1 && Cut(both, 1) == [older];
    OtherName(older);
    assert Doomed([reserved]) == ["NAXIS"] + ["END"] && ["END"] == ["END"] + [];
    StripFirst(both, "NAXIS", ["END"]);
    StripFirst([older], "END", []);
  }

  lemma OtherName(e: Entry)
    requires e.name == "NAXIS"
    ensures LastNamed([e], "END") == -1
  {
    assert Lower("NAXIS")[0] == 'n' && Lower("END")[0] == 'e';
    assert [e][..0] == [];
  }

  // ----- headers of a configured file -----

  /** In a file that was laid out, every header has room for its reserved cards and lies in the
      file. */
  lemma LaidHeaderInFile(ims: seq<Dsim.Image>, at: nat, defcards: nat, sizeofLong: nat, i: nat)
    requires (forall k :: 0 <= k < |ims| ==> Dsim.ImageOk(ims[k])) && i < |ims|
    requires at % Dsim.BLKLEN == 0 && defcards > 0
    ensures var r := Dsim.LaidAll(ims, at, defcards, sizeofLong);
      Header(r[i].hdrOffset, r[i].maxkeywords, Dsim.ReservedCards(ims[i])).InFile(Dsim.EndOf(r, at))
  {
    var r := Dsim.LaidAll(ims, at, defcards, sizeofLong);
    Dsim.LayoutTiles(ims, at, defcards, sizeofLong);
    Dsim.LaidAt(ims, at, defcards, sizeofLong, i);
    Dsim.ReservedCardsFit(ims[i], Dsim.EndOf(r[..i], at), defcards, sizeofLong);
    Dsim.EndsBefore(r, at, i);
    assert Dsim.ExtensionAt(r[i], Dsim.EndOf(r[..i], at));
  }
}
