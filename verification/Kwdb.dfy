/** The keyword database (mosdca/kwdb.c), updated in place.  `Serviceable` ties the item table and
    the arena to the list order, the threads and the strings of the entries, and means that every
    lookup is right; every operation says how those change, and the two that can end service say
    exactly when.  `Valid` adds that the threads are tidy: they hold their own entries only. */
module Kwdb {
  import opened Options
  import opened Text
  import opened KwdbModel
  import opened KwdbThreads

  const DEF_SZSBUF: nat := 1024000
  const DEF_NKEYWORDS: nat := 2048

  /** Threads that nothing is on. */
  function NoThreads(): (r: seq<seq<nat>>)
    ensures |r| == NTHREADS && forall h :: 0 <= h < NTHREADS ==> r[h] == []
  {
    seq(NTHREADS, _ => [])
  }

  /** The `n`-th of `s`, or 0. */
  function Instance(s: seq<nat>, n: int): nat {
    if 0 <= n < |s| then s[n] else 0
  }

  /** A string that a caller may hand over: no terminator inside, and not longer than one growth
      step of the arena. */
  predicate Storable(s: string) {
    NoNul(s) && |s| < DEF_SZSBUF
  }

  predicate Nameable(s: string) {
    Storable(s) && Ascii(s)
  }

  predicate StorableEntry(e: Entry) {
    Nameable(e.name) && Storable(e.value) && Storable(e.typ) && Storable(e.comment)
  }

  /** Everything that the threads visit is below `n`. */
  ghost predicate AllBelow(walks: seq<seq<nat>>, n: nat) {
    forall h, x {:trigger x in walks[h]} :: 0 <= h < |walks| && x in walks[h] ==> x < n
  }

  class Database {
    var itab: seq<Item>
    var sbuf: seq<char>
    var hashtbl: seq<nat>
    var kwdbname: nat
    var nitems: int
    var itemsused: nat
    var sbufused: nat
    var head: nat
    var tail: nat

    ghost var order: seq<nat>          // live entries in list order
    ghost var entries: Entries         // what they hold
    ghost var chains: seq<seq<nat>>    // the entries of each hash thread
    ghost var walks: seq<seq<nat>>     // what its links visit: those, then strays
    ghost var owner: seq<Owner>        // who owns each used character of the arena
    ghost var names: seq<string>       // the name stored in every slot, of a live entry or not

    /** Serviceable, and the threads hold their own entries only. */
    ghost predicate Valid()
      reads this
    {
      Serviceable() && walks == chains
    }

    /** In service: the list, the strings and the threads are right, and so is every lookup. */
    ghost predicate Serviceable()
      reads this
    {
      StoreValid() && LinksValid()
    }

    /** The list and the strings are right, whatever the threads are like. */
    ghost predicate StoreValid()
      reads this
    {
      && ListValid() && LinksOk(itab, hashtbl)
      && |owner| == sbufused && ArenaOk(itab, sbuf, owner, entries) && NamesOk(itab, sbuf, owner, names)
    }

    ghost predicate LinksValid()
      reads this
    {
      ListValid() && ThreadsServe(itab, hashtbl, walks, chains, entries, names)
    }

    ghost predicate ListValid()
      reads this
    {
      ListInUse(itab, head, tail, nitems, itemsused, order, entries)
    }

    /** What the database holds, in list order. */
    ghost function Contents(): (r: seq<Entry>)
      requires ListValid()
      reads this
      ensures |r| == |order|
    {
      Listing(order, entries)
    }

    /** The entries named `key`, in the order in which a lookup meets them. */
    ghost function Found(key: string): (r: seq<nat>)
      requires LinksValid()
      reads this
      ensures forall ep :: ep in r ==> ep in entries
    {
      ThreadMembers(HashOf(key));
      Matches(chains[HashOf(key)], entries, key)
    }

    lemma ThreadMembers(h: nat)
      requires LinksValid() && h < NTHREADS
      ensures forall ep :: ep in chains[h] ==> ep in entries && entries[ep].name != [] && HashOf(entries[ep].name) == h
    {
    }

    /** Whatever the threads are like: every lookup of `key` ends, and instance by instance it
        finds `found`. */
    ghost predicate LooksUp(key: string, found: seq<nat>)
      requires |hashtbl| == NTHREADS
      reads this
    {
      LookedUp(itab, hashtbl, names, key, found)
    }

    /** In service, lookups find the entries of that name, never strays. */
    lemma FoundIsLookedUp(key: string)
      requires Serviceable()
      ensures ChainOk(itab, hashtbl[HashOf(key)], walks[HashOf(key)])
      ensures Matching(walks[HashOf(key)], names, key) == Found(key) && LooksUp(key, Found(key))
    {
      if key == [] {
        NothingUnnamed();
        assert ChainOk(itab, hashtbl[0], walks[0]);
      } else {
        WalkFinds(itab, hashtbl, walks, chains, entries, names, key);
      }
    }

    /** Lookups find every live entry of the name, and nothing else. */
    lemma FoundIsComplete(ep: nat, key: string)
      requires LinksValid() && key != []
      ensures ep in Found(key) <==> ep in entries && SameName(entries[ep].name, key)
    {
      if ep in entries && SameName(entries[ep].name, key) {
        SameNameSameHash(entries[ep].name, key);
        assert ep in PlaceOf(entries);
      }
    }

    /** Nothing is found under the empty name. */
    lemma NothingUnnamed()
      requires LinksValid()
      ensures Found([]) == []
    {
      ThreadMembers(HashOf([]));
      var chain := chains[HashOf([])];
      MatchingLive(chain, entries, names, []);
      NoneMatching(chain, names, []);
    }

    /** While the threads keep the newest entry first, a lookup meets the entries of that name
        from the most recently added one to the oldest one. */
    lemma FoundIsMostRecentFirst(key: string)
      requires LinksValid() && NewestFirst(chains) && key != []
      ensures Found(key) == MostRecentFirst(order, entries, key)
      ensures forall i, j :: 0 <= i < j < |Found(key)| ==> Found(key)[i] > Found(key)[j]
    {
      ThreadIsMostRecentFirst(chains, order, entries, key);
      MostRecentDecreases(order, entries, key);
    }

    /** `kwdb_Open`. */
    constructor (name: string)
      requires NoNul(name) && |name| + 2 <= DEF_SZSBUF
      ensures Valid() && order == [] && NewestFirst(chains) && itemsused == 1 && walks == NoThreads()
      ensures kwdbname <= |sbuf| && CStr(sbuf, kwdbname) == name
    {
      sbuf := [NUL] + name + seq(DEF_SZSBUF - 1 - |name|, _ => NUL);
      kwdbname := 1;
      sbufused := |name| + 2;
      itab := seq(DEF_NKEYWORDS, _ => NO_ITEM);
      hashtbl := seq(NTHREADS, _ => 0);
      nitems, itemsused, head, tail := 0, 1, 0, 0;
      order, entries := [], map[];
      chains, walks := NoThreads(), NoThreads();
      names := seq(DEF_NKEYWORDS, _ => []);
      owner := seq(|name| + 2, _ => Nobody);
      new;
      assert sbuf[1..1 + |name|] == name;
      HoldsIsCStr(sbuf, 1, name);
    }

    /** `addstr`: the string is appended to the arena, for field `f` of entry `ep`. */
    method AddStr(text: string, ghost ep: nat, ghost f: Field) returns (offset: nat)
      requires |owner| == sbufused && 0 < sbufused <= |sbuf| && sbuf[0] == NUL && owner[0] == Nobody
      requires Storable(text)
      modifies `sbuf, `sbufused, `owner
      ensures |owner| == sbufused
      ensures OthersKept(old(sbuf), old(owner), sbuf, owner, ep, f)
      ensures StringOk(sbuf, owner, ep, f, offset, |text|, text)
    {
      if text == [] {
        return 0;
      }
      var nchars := |text| + 1;
      if sbufused + nchars >= |sbuf| {
        sbuf := sbuf + seq(DEF_SZSBUF, _ => NUL);
      }
      PokedString(sbuf, owner, text, ep, f);
      sbuf := Poke(sbuf, sbufused, text + [NUL]);
      offset := sbufused;
      sbufused := sbufused + nchars;
      owner := owner + seq(nchars, _ => Owned(ep, f));
    }

    /** A string appended behind the used part of the arena. */
    lemma PokedString(sbuf: seq<char>, owner: seq<Owner>, text: string, ep: nat, f: Field)
      requires 0 < |owner| && |owner| + |text| + 1 <= |sbuf| && NoNul(text)
      ensures var sbuf', owner' := Poke(sbuf, |owner|, text + [NUL]), owner + seq(|text| + 1, _ => Owned(ep, f));
        && OthersKept(sbuf, owner, sbuf', owner', ep, f)
        && StringOk(sbuf', owner', ep, f, |owner|, |text|, text)
    {
      var off := |owner|;
      var sbuf' := Poke(sbuf, off, text + [NUL]);
      assert sbuf'[off..off + |text|] == text;
    }

    /** Whether a new entry named `keyword` leaves lookups right.  It takes the next slot; if that is
        still visited, since the entry that had it was deleted as a stray, the new one must not be
        put before what leads back to it, or lead another thread to what that takes for its own. */
    ghost predicate AddServes(keyword: string)
      requires LinksValid()
      reads this
    {
      keyword == [] || CanLink(walks, entries, names, itemsused, HashOf(keyword))
    }

    /** No thread visits a slot that is not in use. */
    ghost predicate Roomy()
      reads this
    {
      AllBelow(walks, itemsused)
    }

    /** Then every entry can be added. */
    lemma RoomyAddServes(keyword: string)
      requires LinksValid() && Roomy()
      ensures AddServes(keyword)
    {
    }

    /** A tidy database is roomy. */
    lemma TidyIsRoomy()
      requires Valid()
      ensures Roomy()
    {
      forall h, x | 0 <= h < |walks| && x in walks[h] ensures x < itemsused {
        ThreadMembers(h);
      }
    }

    /** `kwdb_AddEntry`; a missing argument and an empty string are the same here.  It looks at no
        thread: the entry takes the next slot of the table and the first place of its thread.  The
        threads stay in service exactly when `AddServes`; then that is all that lookups notice. */
    method AddEntry(keyword: string, value: string, typ: string, comment: string) returns (ep: nat)
      requires StoreValid() && StorableEntry(Entry(keyword, value, typ, comment))
      modifies this
      ensures StoreValid()
      ensures ep == old(itemsused) && ep !in old(entries) && forall i :: 0 <= i < |old(order)| ==> old(order)[i] < ep
      ensures order == old(order) + [ep] && itemsused == old(itemsused) + 1
      ensures entries == old(entries)[ep := Entry(keyword, value, typ, comment)]
      ensures hashtbl == if keyword == [] then old(hashtbl) else old(hashtbl)[HashOf(keyword) := ep]
      ensures itab[ep].nexthash == if keyword == [] then 0 else old(hashtbl)[HashOf(keyword)]
      ensures old(Serviceable()) ==>
                chains == Renamed(old(chains), ep, [], keyword) && walks == Joined(old(walks), ep, keyword)
      ensures old(Serviceable()) ==> if old(AddServes(keyword)) then
                Serviceable() && forall key :: Found(key) == AfterNaming(old(Found(key)), ep, keyword, key)
              else OutOfService(itab, hashtbl, entries, names)
      ensures old(Serviceable()) ==>
                if keyword == [] || ep !in old(walks)[HashOf(keyword)] then WalksOk(itab, hashtbl, walks)
                else Endless(itab, hashtbl[HashOf(keyword)])
      ensures old(Valid()) ==> Valid()
      ensures old(Serviceable()) && old(Roomy()) ==> Serviceable() && Roomy()
      ensures old(Serviceable()) && old(NewestFirst(chains)) ==> NewestFirst(chains)
    {
      ghost var serves, adds, newest := Serviceable(), Serviceable() && AddServes(keyword), NewestFirst(chains);
      ghost var tidy, roomy := Valid(), Serviceable() && Roomy();
      ghost var walks0, chains0, entries0 := walks, chains, entries;
      if tidy {
        TidyJoined(keyword);
      }
      if roomy {
        RoomyJoined(keyword);
      }
      if serves {
        ThreadsBelow(itemsused);
      }
      ep := Insert(Entry(keyword, value, typ, comment), serves);
      if serves {
        Added(walks0, chains0, entries0, ep, keyword, adds, tidy, roomy);
        if newest && keyword != [] {
          NewestPush(chains0, HashOf(keyword), ep);
        }
      }
    }

    /** What it means that an entry was put into slot `ep`; the arguments are the database before. */
    lemma Added(walks0: seq<seq<nat>>, chains0: seq<seq<nat>>, entries0: Entries, ep: nat, keyword: string, adds: bool,
                tidy: bool, roomy: bool)
      requires StoreValid() && |walks0| == |chains0| == NTHREADS && PlacesOk(chains0, PlaceOf(entries0))
      requires chains == Renamed(chains0, ep, [], keyword) && Entered(walks0, ep, keyword, adds) && itemsused == ep + 1
      requires ep !in entries0 && ep in entries && entries == entries0[ep := entries[ep]] && entries[ep].name == keyword
      requires tidy ==> adds && Joined(walks0, ep, keyword) == Renamed(chains0, ep, [], keyword)
      requires roomy ==> adds && AllBelow(Joined(walks0, ep, keyword), ep + 1)
      ensures adds ==>
                && Serviceable()
                && forall key :: (forall x :: x in chains0[HashOf(key)] ==> x in entries0)
                                 && Found(key) == AfterNaming(Matches(chains0[HashOf(key)], entries0, key), ep,
                                     keyword, key)
      ensures (tidy ==> Valid()) && (roomy ==> Serviceable() && Roomy())
    {
      if adds {
        RenamedAll(chains0, entries0, ep, [], keyword);
      }
    }

    /** The next entry on roomy threads, and on tidy ones. */
    lemma RoomyJoined(keyword: string)
      requires LinksValid() && Roomy()
      ensures AllBelow(Joined(walks, itemsused, keyword), itemsused + 1) && AddServes(keyword)
    {
      var joined := Joined(walks, itemsused, keyword);
      forall h, x | 0 <= h < NTHREADS && x in joined[h] ensures x < itemsused + 1 {
        assert x == itemsused || x in walks[h] || x in walks[HashOf(keyword)];
      }
      RoomyAddServes(keyword);
    }

    lemma TidyJoined(keyword: string)
      requires Valid()
      ensures Joined(walks, itemsused, keyword) == Renamed(chains, itemsused, [], keyword) && AddServes(keyword)
    {
      TidyIsRoomy();
      RoomyAddServes(keyword);
      assert forall h :: 0 <= h < NTHREADS ==> itemsused !in walks[h];
      if keyword == [] {
        assert Ended(walks, itemsused) == walks;
      } else {
        NewOnThread(walks, itemsused, HashOf(keyword));
      }
    }

    /** The entry is put into the next slot. */
    method Insert(e: Entry, ghost serves: bool) returns (ep: nat)
      requires StoreValid() && (serves ==> Serviceable()) && StorableEntry(e)
      modifies this
      ensures StoreValid()
      ensures ep == old(itemsused) && ep !in old(entries) && forall i :: 0 <= i < |old(order)| ==> old(order)[i] < ep
      ensures order == old(order) + [ep] && itemsused == old(itemsused) + 1 && entries == old(entries)[ep := e]
      ensures hashtbl == if e.name == [] then old(hashtbl) else old(hashtbl)[HashOf(e.name) := ep]
      ensures itab[ep].nexthash == if e.name == [] then 0 else old(hashtbl)[HashOf(e.name)]
      ensures serves ==> chains == Renamed(old(chains), ep, [], e.name)
      ensures serves ==> Entered(old(walks), ep, e.name, old(AddServes(e.name)))
    {
      OrderBelow(itemsused);
      ep := NextIndex(e.name, serves);
      Append(ep, e, serves);
    }

    /** The index of the next item; the table grows if it is full. */
    method NextIndex(keyword: string, ghost serves: bool) returns (index: nat)
      requires StoreValid() && (serves ==> Serviceable())
      modifies `itab, `names
      ensures StoreValid() && (serves ==> Serviceable()) && index == itemsused < |itab|
      ensures serves ==> AddServes(keyword) == old(AddServes(keyword))
    {
      if itemsused >= |itab| {
        GrowItems(keyword, serves);
      }
      index := itemsused;
    }

    method Append(index: nat, e: Entry, ghost serves: bool)
      requires StoreValid() && (serves ==> Serviceable())
      requires StorableEntry(e) && index == itemsused < |itab| && index !in entries
      modifies this
      ensures StoreValid() && order == old(order) + [index] && entries == old(entries)[index := e]
      ensures itemsused == old(itemsused) + 1
      ensures hashtbl == if e.name == [] then old(hashtbl) else old(hashtbl)[HashOf(e.name) := index]
      ensures itab[index].nexthash == if e.name == [] then 0 else old(hashtbl)[HashOf(e.name)]
      ensures serves ==> chains == Renamed(old(chains), index, [], e.name)
      ensures serves ==> Entered(old(walks), index, e.name, old(AddServes(e.name)))
    {
      var it := StoreStrings(index, e);
      ghost var stored := itab[index := it];
      LinkItem(index, it, e, serves);
      ArenaFrame(stored, itab, sbuf, owner, entries, entries);
      NamesFrame(stored, itab, sbuf, owner, names);
    }

    /** The threads after a new entry took slot `ep`; `walks0` is what they visited before. */
    ghost predicate Entered(walks0: seq<seq<nat>>, ep: nat, name: string, serves: bool)
      requires |walks0| == NTHREADS && |hashtbl| == NTHREADS
      reads this
    {
      && walks == Joined(walks0, ep, name)
      && (if serves then LinksValid() else OutOfService(itab, hashtbl, entries, names))
      && (if name == [] || ep !in walks0[HashOf(name)] then WalksOk(itab, hashtbl, walks)
          else Endless(itab, hashtbl[HashOf(name)]))
    }

    /** Item `it` becomes entry `index`: the links that are set. */
    method SetLinks(index: nat, it: Item, e: Entry)
      requires index < |itab| == |names| && tail < |itab| && |hashtbl| == NTHREADS && NoNul(e.name)
      modifies `itab, `itemsused, `head, `tail, `hashtbl, `nitems, `order, `entries, `names
      ensures order == old(order) + [index] && entries == old(entries)[index := e]
      ensures itemsused == old(itemsused) + 1 && nitems == old(nitems) + 1
      ensures head == (if old(head) == 0 then index else old(head)) && tail == index
      ensures var first := if e.name == [] then 0 else old(hashtbl)[HashOf(e.name)];
        itab == OnThread(AfterTail(old(itab), old(tail), index, it), index, first)
      ensures hashtbl == if e.name == [] then old(hashtbl) else old(hashtbl)[HashOf(e.name) := index]
      ensures names == old(names)[index := e.name]
    {
      names := names[index := e.name];
      itemsused := itemsused + 1;
      itab := itab[index := it];
      if head == 0 {
        head := index;
      }
      if tail != 0 {
        itab := itab[tail := itab[tail].(nextglob := index)];
      }
      tail := index;
      if e.name != [] {
        var hashval := Hash(e.name);
        var i := hashtbl[hashval];
        if i != 0 {
          itab := itab[index := itab[index].(nexthash := i)];
        }
        hashtbl := hashtbl[hashval := index];
      }
      nitems := nitems + 1;
      order, entries := order + [index], entries[index := e];
    }

    method LinkItem(index: nat, it: Item, e: Entry, ghost serves: bool)
      requires ListValid() && LinksOk(itab, hashtbl) && |names| == |itab| && (serves ==> LinksValid())
      requires index == itemsused < |itab| && NoNul(e.name) && Ascii(e.name)
      requires it.nexthash == 0 && it.nextglob == 0
      modifies `itab, `itemsused, `head, `tail, `hashtbl, `nitems, `order, `chains, `walks, `entries, `names
      ensures ListValid() && LinksOk(itab, hashtbl)
      ensures order == old(order) + [index] && entries == old(entries)[index := e] && itemsused == old(itemsused) + 1
      ensures names == old(names)[index := e.name] && SameStrings(old(itab)[index := it], itab)
      ensures hashtbl == if e.name == [] then old(hashtbl) else old(hashtbl)[HashOf(e.name) := index]
      ensures itab[index].nexthash == if e.name == [] then 0 else old(hashtbl)[HashOf(e.name)]
      ensures serves ==> chains == Renamed(old(chains), index, [], e.name)
      ensures serves ==> Entered(old(walks), index, e.name, old(AddServes(e.name)))
    {
      Linking(index, it, e);
      if serves {
        LinkingServes(index, it, e);
      }
      ghost var walks', chains' := if serves then Joined(walks, index, e.name) else walks,
                                   if serves then Renamed(chains, index, [], e.name) else chains;
      SetLinks(index, it, e);
      Rewalk(walks', chains');
    }

    /** The table once item `index` is entry `e`, and the hash table. */
    ghost function LinkedTable(index: nat, it: Item, e: Entry): (r: seq<Item>)
      requires ListValid() && |hashtbl| == NTHREADS && index < |itab|
      reads this
      ensures |r| == |itab|
    {
      OnThread(AfterTail(itab, tail, index, it), index, if e.name == [] then 0 else hashtbl[HashOf(e.name)])
    }

    ghost function LinkedThreads(index: nat, e: Entry): (r: seq<nat>)
      requires |hashtbl| == NTHREADS
      reads this
      ensures |r| == NTHREADS
    {
      if e.name == [] then hashtbl else hashtbl[HashOf(e.name) := index]
    }

    /** The list and the strings then. */
    lemma Linking(index: nat, it: Item, e: Entry)
      requires ListValid() && LinksOk(itab, hashtbl) && index == itemsused < |itab|
      requires it.nexthash == 0 && it.nextglob == 0 && NoNul(e.name) && Ascii(e.name)
      ensures var itab' := LinkedTable(index, it, e);
        && ListInUse(itab', if head == 0 then index else head, index, nitems + 1, itemsused + 1,
                     order + [index], entries[index := e])
        && SameStrings(itab[index := it], itab') && LinksOk(itab', LinkedThreads(index, e))
        && itab'[index].nexthash == (if e.name == [] then 0 else hashtbl[HashOf(e.name)])
    {
      ghost var first := if e.name == [] then 0 else hashtbl[HashOf(e.name)];
      OrderBelow(index);
      LinkedList(itab, head, tail, order, index, it, first);
      LinkedStrings(itab, tail, index, it, first);
      if e.name != [] {
        AsciiHash(e.name);
      }
    }

    /** The threads then. */
    lemma LinkingServes(index: nat, it: Item, e: Entry)
      requires LinksValid() && |hashtbl| == NTHREADS && index == itemsused < |itab| && it.nexthash == 0
      ensures var itab', hashtbl' := LinkedTable(index, it, e), LinkedThreads(index, e);
        && (if AddServes(e.name) then
              ThreadsServe(itab', hashtbl', Joined(walks, index, e.name), Renamed(chains, index, [], e.name),
                           entries[index := e], names[index := e.name])
            else OutOfService(itab', hashtbl', entries[index := e], names[index := e.name]))
        && (if e.name == [] || index !in walks[HashOf(e.name)] then
              WalksOk(itab', hashtbl', Joined(walks, index, e.name))
            else Endless(itab', index))
    {
      OrderBelow(index);
      ServesLinked(itab, hashtbl, walks, chains, entries, names, tail, index, it, e);
    }

    /** Every index in use is below `bound`. */
    lemma OrderBelow(bound: nat)
      requires ListValid() && bound >= itemsused
      ensures bound !in entries && (bound > 0 ==> tail < bound)
      ensures forall i :: 0 <= i < |order| ==> order[i] < bound
    {
      forall i | 0 <= i < |order| ensures order[i] < bound {
        assert order[i] in order;
      }
    }

    /** Every index on the threads is below `bound`. */
    lemma ThreadsBelow(bound: nat)
      requires LinksValid() && bound >= itemsused
      ensures forall h, k :: 0 <= h < NTHREADS && 0 <= k < |chains[h]| ==> chains[h][k] < bound
    {
      forall h, k | 0 <= h < NTHREADS && 0 <= k < |chains[h]| ensures chains[h][k] < bound {
        ThreadMembers(h);
        assert chains[h][k] in chains[h];
      }
    }

    method GrowItems(keyword: string, ghost serves: bool)
      requires StoreValid() && (serves ==> Serviceable())
      modifies `itab, `names
      ensures StoreValid() && (serves ==> Serviceable()) && |itab| == old(|itab|) + DEF_NKEYWORDS
      ensures serves ==> AddServes(keyword) == old(AddServes(keyword))
    {
      Growing(keyword, serves);
      ghost var more: seq<string> := seq(DEF_NKEYWORDS, _ => []);
      itab := itab + seq(DEF_NKEYWORDS, _ => NO_ITEM);
      names := names + more;
    }

    lemma Growing(keyword: string, serves: bool)
      requires StoreValid() && (serves ==> Serviceable())
      ensures var itab', names' := itab + seq(DEF_NKEYWORDS, _ => NO_ITEM), names + seq(DEF_NKEYWORDS, _ => []);
        && ListInUse(itab', head, tail, nitems, itemsused, order, entries) && LinksOk(itab', hashtbl)
        && ArenaOk(itab', sbuf, owner, entries) && NamesOk(itab', sbuf, owner, names')
        && (serves ==> ThreadsServe(itab', hashtbl, walks, chains, entries, names'))
        && (serves && keyword != [] ==>
              CanLink(walks, entries, names', itemsused, HashOf(keyword)) == AddServes(keyword))
    {
      var itab', names' := itab + seq(DEF_NKEYWORDS, _ => NO_ITEM), names + seq(DEF_NKEYWORDS, _ => []);
      if serves {
        ServesFrame(itab, itab', hashtbl, walks, chains, entries, entries, names, names');
        if keyword != [] {
          var k := HashOf(keyword);
          assert ChainOk(itab, hashtbl[k], walks[k]);
          assert forall x :: x in walks[k] ==> x < |names|;
          forall g | 0 <= g < NTHREADS
            ensures AllQuiet(walks[k], entries, names', g) == AllQuiet(walks[k], entries, names, g) {
          }
        }
      }
    }

    /** The four strings of a new entry go into the arena. */
    method StoreStrings(index: nat, e: Entry) returns (it: Item)
      requires |owner| == sbufused && ArenaOk(itab, sbuf, owner, entries) && NamesOk(itab, sbuf, owner, names)
      requires index < |itab| && index !in entries && StorableEntry(e)
      modifies `sbuf, `sbufused, `owner
      ensures it.nexthash == 0 && it.nextglob == 0
      ensures |owner| == sbufused && ArenaOk(itab[index := it], sbuf, owner, entries[index := e])
      ensures NamesOk(itab[index := it], sbuf, owner, names[index := e.name])
    {
      var name := AddStr(e.name, index, NameField);
      NewString(itab, old(sbuf), old(owner), entries, sbuf, owner, index, NameField);
      ghost var named, names' := itab[index := NO_ITEM.(name := name)], names[index := e.name];
      NameChanged(itab, old(sbuf), old(owner), names, sbuf, owner, index, NO_ITEM.(name := name), e.name);
      ghost var s1, o1 := sbuf, owner;
      var value := AddStr(e.value, index, ValueField);
      NewString(itab, s1, o1, entries, sbuf, owner, index, ValueField);
      NamesKept(named, s1, o1, names', sbuf, owner, index, ValueField);
      KeptString(s1, o1, sbuf, owner, index, ValueField, index, NameField, name, |e.name|, e.name);
      ghost var s2, o2 := sbuf, owner;
      var typ := AddStr(e.typ, index, TypeField);
      NewString(itab, s2, o2, entries, sbuf, owner, index, TypeField);
      NamesKept(named, s2, o2, names', sbuf, owner, index, TypeField);
      KeptString(s2, o2, sbuf, owner, index, TypeField, index, NameField, name, |e.name|, e.name);
      KeptString(s2, o2, sbuf, owner, index, TypeField, index, ValueField, value, |e.value|, e.value);
      ghost var s3, o3 := sbuf, owner;
      var comment := AddStr(e.comment, index, CommentField);
      NewString(itab, s3, o3, entries, sbuf, owner, index, CommentField);
      NamesKept(named, s3, o3, names', sbuf, owner, index, CommentField);
      KeptString(s3, o3, sbuf, owner, index, CommentField, index, NameField, name, |e.name|, e.name);
      KeptString(s3, o3, sbuf, owner, index, CommentField, index, ValueField, value, |e.value|, e.value);
      KeptString(s3, o3, sbuf, owner, index, CommentField, index, TypeField, typ, |e.typ|, e.typ);
      it := Item(name, value, |e.value|, typ, |e.typ|, comment, |e.comment|, 0, 0);
      NewEntry(itab, sbuf, owner, entries, index, it, e);
      NamesFrame(named, itab[index := it], sbuf, owner, names');
    }

    // ----- lookups -----

    /** `kwdb_Lookup`.  Whatever the threads are like: if the search ends it finds the `n`-th item
        that it meets in whose slot that name is stored.  In service that is the `n`-th entry of
        that name. */
    method Lookup(keyword: string, instance: int) returns (ep: nat)
      requires StoreValid() && NoNul(keyword) && (Serviceable() || exists found :: LooksUp(keyword, found))
      ensures forall found :: LooksUp(keyword, found) ==> ep == Instance(found, instance)
      ensures Serviceable() ==> ep == Instance(Found(keyword), instance)
      ensures Serviceable() ==> ep == if 0 <= instance < |Found(keyword)| then Found(keyword)[instance] else 0
    {
      ghost var walk := WalkOf(keyword);
      var hashval := Hash(keyword);
      ep := SearchThread(hashtbl[hashval], keyword, instance, walk);
    }

    /** What a search for `keyword` visits. */
    lemma WalkOf(keyword: string) returns (walk: seq<nat>)
      requires StoreValid() && (Serviceable() || exists found :: LooksUp(keyword, found))
      ensures ChainOk(itab, hashtbl[HashOf(keyword)], walk)
      ensures forall found :: LooksUp(keyword, found) ==> found == Matching(walk, names, keyword)
      ensures Serviceable() ==> Found(keyword) == Matching(walk, names, keyword)
    {
      if Serviceable() {
        FoundIsLookedUp(keyword);
        walk := WalkFor(itab, hashtbl, names, keyword, Found(keyword));
      } else {
        var found :| LooksUp(keyword, found);
        walk := WalkFor(itab, hashtbl, names, keyword, found);
      }
    }

    method SearchThread(first: nat, keyword: string, instance: int, ghost chain: seq<nat>) returns (ep: nat)
      requires NamesOk(itab, sbuf, owner, names) && ChainOk(itab, first, chain) && NoNul(keyword)
      ensures ep == Instance(Matching(chain, names, keyword), instance)
    {
      var i: nat, j := first, 0;
      ghost var found, rest := Matching(chain, names, keyword), chain;
      while i != 0
        invariant ChainOk(itab, i, rest)
        invariant 0 <= j <= |found| && Matching(rest, names, keyword) == found[j..]
        invariant !(0 <= instance < j)
        decreases |rest|
      {
        ChainTail(itab, i, rest);
        SearchStep(rest, names, keyword, found, j);
        var same := NameIs(i, keyword);
        if same {
          if instance == j {
            return i;
          }
          j := j + 1;
        }
        i := itab[i].nexthash;
        rest := rest[1..];
      }
      ep := 0;
    }

    method NameIs(x: nat, keyword: string) returns (same: bool)
      requires NamesOk(itab, sbuf, owner, names) && x < |itab| && NoNul(keyword)
      ensures same <==> SameName(names[x], keyword)
    {
      StoredName(itab, sbuf, owner, names, x);
      same := StrEq(CStr(sbuf, itab[x].name), keyword);
    }

    /** `kwdb_GetValue`, `kwdb_GetType` and `kwdb_GetComment`. */
    method GetField(keyword: string, f: Field) returns (r: Option<string>)
      requires Serviceable() && NoNul(keyword)
      ensures r == if Found(keyword) == [] then None else Some(Get(entries[Found(keyword)[0]], f))
      ensures Found(keyword) != [] ==>
        var e := entries[Found(keyword)[0]];
        && (f == ValueField ==> r == Some(e.value)) && (f == TypeField ==> r == Some(e.typ))
        && (f == CommentField ==> r == Some(e.comment)) && (f == NameField ==> r == Some(e.name))
    {
      var ep := Lookup(keyword, 0);
      NoEntryZero(keyword);
      if ep != 0 {
        ReadBack(itab, sbuf, owner, entries, ep, f);
        r := Some(CStr(sbuf, Off(itab[ep], f)));
      } else {
        r := None;
      }
    }

    lemma NoEntryZero(keyword: string)
      requires LinksValid()
      ensures forall k :: 0 <= k < |Found(keyword)| ==> Found(keyword)[k] != 0
    {
      forall k | 0 <= k < |Found(keyword)| ensures Found(keyword)[k] != 0 {
        assert Found(keyword)[k] in Found(keyword);
      }
    }

    /** `kwdb_GetEntry`, for an entry pointer that is live or out of range. */
    method GetEntry(ep: nat) returns (r: Option<Entry>)
      requires StoreValid() && (0 < ep <= tail ==> ep in entries)
      ensures r == if ep in entries then Some(entries[ep]) else None
    {
      if ep in entries {
        InRange(ep);
      }
      if ep <= 0 || ep > tail {
        return None;
      }
      ReadBack(itab, sbuf, owner, entries, ep, NameField);
      ReadBack(itab, sbuf, owner, entries, ep, ValueField);
      ReadBack(itab, sbuf, owner, entries, ep, TypeField);
      ReadBack(itab, sbuf, owner, entries, ep, CommentField);
      var it := itab[ep];
      r := Some(Entry(CStr(sbuf, it.name), CStr(sbuf, it.value), CStr(sbuf, it.typ), CStr(sbuf, it.comment)));
    }

    /** `kwdb_Next`: the entry after a live entry, or 0. */
    method Next(ep: nat) returns (next: nat)
      requires ListValid() && ep in entries
      ensures forall i :: 0 <= i < |order| && order[i] == ep ==> next == if i + 1 < |order| then order[i + 1] else 0
    {
      forall i | 0 <= i < |order| && order[i] == ep
        ensures itab[ep].nextglob == if i + 1 < |order| then order[i + 1] else 0
      {
        assert itab[order[i]].nextglob == if i + 1 < |order| then order[i + 1] else 0;
      }
      next := itab[ep].nextglob;
    }

    lemma InRange(ep: nat)
      requires ListValid() && ep in entries
      ensures 0 < ep <= tail
    {
      var k :| 0 <= k < |order| && order[k] == ep;
      assert order[k] <= order[|order| - 1];
    }

    // ----- changing a string -----

    /** `kwdb_SetValue`, `kwdb_SetType` and `kwdb_SetComment`: the string is overwritten in place
        if it fits the recorded capacity and appended to the arena otherwise.  Either way only
        that field of the most recent entry of that name changes. */
    method SetField(keyword: string, f: Field, text: string) returns (status: int)
      requires Serviceable() && NoNul(keyword) && Storable(text) && f != NameField
      modifies this
      ensures Serviceable() && order == old(order) && chains == old(chains) && walks == old(walks)
      ensures itemsused == old(itemsused) && names == old(names)
      ensures status == if old(Found(keyword)) == [] then -1 else 0
      ensures entries == if old(Found(keyword)) == [] then old(entries)
                         else var ep := old(Found(keyword))[0]; old(entries)[ep := With(old(entries)[ep], f, text)]
      ensures old(Found(keyword)) != [] ==>
        var ep := old(Found(keyword))[0];
        var e := old(entries)[ep];
        entries == old(entries)[ep := Entry(e.name, if f == ValueField then text else e.value,
                                            if f == TypeField then text else e.typ,
                                            if f == CommentField then text else e.comment)]
      ensures forall key :: Found(key) == old(Found(key))
    {
      var ep := Lookup(keyword, 0);
      NoEntryZero(keyword);
      if ep == 0 {
        return -1;
      }
      SetText(ep, f, text);
      FoundKept(old(entries), ep, f, text);
      status := 0;
    }

    lemma FoundKept(entries0: Entries, ep: nat, f: Field, text: string)
      requires LinksValid() && ep in entries0 && f != NameField
      requires entries == entries0[ep := With(entries0[ep], f, text)]
      ensures forall key :: (forall x :: x in chains[HashOf(key)] ==> x in entries0)
                            && Found(key) == Matches(chains[HashOf(key)], entries0, key)
    {
      forall key ensures (forall x :: x in chains[HashOf(key)] ==> x in entries0)
                         && Found(key) == Matches(chains[HashOf(key)], entries0, key)
      {
        ThreadMembers(HashOf(key));
        MatchesSame(chains[HashOf(key)], entries0, entries, key);
      }
    }

    /** What was set is what is read: the string comes back, wherever it was stored. */
    method SetAndGet(keyword: string, f: Field, text: string) returns (r: Option<string>)
      requires Serviceable() && NoNul(keyword) && Storable(text) && f != NameField
      modifies this
      ensures Serviceable() && r == if old(Found(keyword)) == [] then None else Some(text)
    {
      var status := SetField(keyword, f, text);
      r := GetField(keyword, f);
    }

    /** What was added is what is read: each string of a new entry comes back under its name. */
    method AddAndGet(keyword: string, value: string, typ: string, comment: string)
      returns (v: Option<string>, t: Option<string>, c: Option<string>)
      requires Valid() && keyword != [] && StorableEntry(Entry(keyword, value, typ, comment))
      modifies this
      ensures Valid() && v == Some(value) && t == Some(typ) && c == Some(comment)
    {
      TidyIsRoomy();
      RoomyAddServes(keyword);
      var ep := AddEntry(keyword, value, typ, comment);
      v := GetField(keyword, ValueField);
      t := GetField(keyword, TypeField);
      c := GetField(keyword, CommentField);
    }

    method SetText(ep: nat, f: Field, text: string)
      requires Serviceable() && ep in entries && Storable(text) && f != NameField
      modifies this
      ensures Serviceable() && order == old(order) && chains == old(chains) && walks == old(walks)
      ensures itemsused == old(itemsused) && names == old(names)
      ensures entries == old(entries)[ep := With(old(entries)[ep], f, text)]
    {
      var off, cap := StoreText(ep, f, text);
      TextLinks(ep, f, off, cap, text);
      TextStored(old(sbuf), old(owner), ep, f, off, cap, text);
      Put(ep, Placed(itab[ep], f, off, cap), With(entries[ep], f, text));
    }

    /** A string stored elsewhere leaves the links alone. */
    lemma TextLinks(ep: nat, f: Field, off: nat, cap: nat, text: string)
      requires LinksValid() && ep in entries && f != NameField
      ensures var itab', entries' := itab[ep := Placed(itab[ep], f, off, cap)],
                entries[ep := With(entries[ep], f, text)];
        && ListInUse(itab', head, tail, nitems, itemsused, order, entries')
        && ThreadsServe(itab', hashtbl, walks, chains, entries', names)
        && (LinksOk(itab, hashtbl) ==> LinksOk(itab', hashtbl))
    {
      var itab', entries' := itab[ep := Placed(itab[ep], f, off, cap)], entries[ep := With(entries[ep], f, text)];
      PlaceSame(entries, ep, With(entries[ep], f, text));
      ListFrame(itab, itab', head, tail, order);
      ServesFrame(itab, itab', hashtbl, walks, chains, entries, entries', names, names);
    }

    /** Nor does it touch any other string; `sbuf0` and `owner0` are the arena before. */
    lemma TextStored(sbuf0: seq<char>, owner0: seq<Owner>, ep: nat, f: Field, off: nat, cap: nat, text: string)
      requires ArenaOk(itab, sbuf0, owner0, entries) && NamesOk(itab, sbuf0, owner0, names) && ep in entries
      requires f != NameField && OthersKept(sbuf0, owner0, sbuf, owner, ep, f)
      requires StringOk(sbuf, owner, ep, f, off, cap, text)
      ensures var itab' := itab[ep := Placed(itab[ep], f, off, cap)];
        ArenaOk(itab', sbuf, owner, entries[ep := With(entries[ep], f, text)]) && NamesOk(itab', sbuf, owner, names)
    {
      ChangedString(itab, sbuf0, owner0, entries, sbuf, owner, ep, f, off, cap, text);
      NamesKept(itab, sbuf0, owner0, names, sbuf, owner, ep, f);
      NamesFrame(itab, itab[ep := Placed(itab[ep], f, off, cap)], sbuf, owner, names);
    }

    method Put(ep: nat, it: Item, ghost e: Entry)
      requires ep < |itab|
      modifies `itab, `entries
      ensures itab == old(itab)[ep := it] && entries == old(entries)[ep := e]
    {
      itab := itab[ep := it];
      entries := entries[ep := e];
    }

    /** The characters of the new string; `off` and `cap` say where they are now. */
    method StoreText(ep: nat, f: Field, text: string) returns (off: nat, cap: nat)
      requires |owner| == sbufused && ArenaOk(itab, sbuf, owner, entries) && ep in entries
      requires Storable(text) && f != NameField
      modifies `sbuf, `sbufused, `owner
      ensures |owner| == sbufused
      ensures OthersKept(old(sbuf), old(owner), sbuf, owner, ep, f)
      ensures StringOk(sbuf, owner, ep, f, off, cap, text)
    {
      ghost var e := entries[ep];
      off := Off(itab[ep], f);
      cap := Cap(itab[ep], f, Entry("", "", "", ""));
      assert StringOk(sbuf, owner, ep, f, off, cap, Get(e, f));
      var zeros := seq(cap, _ => NUL);
      WriteInside(sbuf, owner, ep, f, off, cap, Get(e, f), zeros);
      if |text| <= cap {
        OverwriteHolds(sbuf, owner, ep, f, off, cap, Get(e, f), text);
      }
      sbuf := Poke(sbuf, off, zeros);
      ghost var cleared := sbuf;
      if |text| > cap {
        off := AddStr(text, ep, f);
        cap := |text|;
        KeptTwice(old(sbuf), old(owner), cleared, sbuf, owner, ep, f);
      } else {
        WriteInside(cleared, owner, ep, f, off, cap, "", text + [NUL]);
        sbuf := Poke(sbuf, off, text + [NUL]);
        KeptTwice(old(sbuf), old(owner), cleared, sbuf, owner, ep, f);
      }
    }

    // ----- deleting and renaming -----

    lemma OwnPlace(ep: nat)
      requires LinksValid() && ep in entries && entries[ep].name != []
      ensures var h := HashOf(entries[ep].name);
        && ep in chains[h] && ep in walks[h] && Index(walks[h], ep) < |chains[h]| <= |walks[h]|
        && chains[h][Index(walks[h], ep)] == ep
    {
      var h := HashOf(entries[ep].name);
      assert ep in PlaceOf(entries);
      assert ep in chains[h] && chains[h] <= walks[h];
      var i := Index(chains[h], ep);
      assert walks[h][i] == ep && ChainOk(itab, hashtbl[h], walks[h]);
    }

    /** The walks once `ep` is off the thread of its name. */
    ghost function Unlinked(ep: nat): (r: seq<seq<nat>>)
      requires LinksValid() && ep in entries
      reads this
      ensures |r| == NTHREADS
    {
      var name := entries[ep].name;
      if name == [] then walks
      else OwnPlace(ep); Passed(walks, HashOf(name), Index(walks[HashOf(name)], ep))
    }

    /** Another thread leads to `ep` through a link of its own. */
    ghost predicate Lent(ep: nat)
      requires LinksValid() && ep in entries
      reads this
    {
      exists g :: 0 <= g < NTHREADS && ep in Unlinked(ep)[g]
    }

    /** While nothing deleted is visited, an entry that is on no thread but its own is not lent and
        can be given any name. */
    lemma OwnThreadOnly(ep: nat, newname: string)
      requires LinksValid() && ep in entries && entries[ep].name != [] && Living(walks, entries)
      requires forall g :: 0 <= g < NTHREADS && g != HashOf(entries[ep].name) ==> ep !in walks[g]
      ensures !Lent(ep) && RenameServes(ep, newname)
    {
      OwnPlace(ep);
      var h := HashOf(entries[ep].name);
      var j := Index(walks[h], ep);
      assert ChainOk(itab, hashtbl[h], walks[h]);
      CutMembers(walks[h], j);
      forall g | 0 <= g < NTHREADS ensures ep !in Unlinked(ep)[g] {
        WithoutMembers(walks[g], ep);
      }
      RestOf(itab, hashtbl[h], walks[h], j);
      forall x | x in walks[h][j + 1..] ensures x in entries {
        assert x in walks[h];
      }
    }

    /** In a tidy database every named entry can be given any name, and deleted. */
    lemma TidyRenameServes(ep: nat, newname: string)
      requires Valid() && ep in entries && entries[ep].name != []
      ensures RenameServes(ep, newname) && !Lent(ep)
    {
      assert ep in PlaceOf(entries);
      OwnThreadOnly(ep, newname);
    }

    /** The item table, the hash table and the threads once `ep` is off the thread of its name. */
    ghost function UnlinkedTables(ep: nat): (r: Tables)
      requires LinksValid() && ep in entries
      reads this
      ensures r.walks == Unlinked(ep) && r.chains == Renamed(chains, ep, entries[ep].name, [])
    {
      var name := entries[ep].name;
      if name == [] then Tables(itab, hashtbl, walks, chains)
      else
        OwnPlace(ep);
        var h := HashOf(name);
        var j := Index(walks[h], ep);
        assert ChainOk(itab, hashtbl[h], walks[h]);
        DistinctPrefix(chains[h], walks[h]);
        WithoutAt(chains[h], j);
        Tables(OffThread(itab, walks[h], j), if j == 0 then hashtbl[h := itab[ep].nexthash] else hashtbl,
               Passed(walks, h, j), chains[h := Cut(chains[h], j)])
    }

    /** The first part of `kwdb_DeleteEntry` and `kwdb_RenameEntry`: a named entry is taken off its
        thread.  Its own link keeps its value. */
    method Unlink(ep: nat)
      requires Serviceable() && ep in entries
      modifies `itab, `hashtbl, `chains, `walks
      ensures Tables(itab, hashtbl, walks, chains) == old(UnlinkedTables(ep))
      ensures order == old(order) && tail == old(tail) && itemsused == old(itemsused) && names == old(names)
    {
      ReadBack(itab, sbuf, owner, entries, ep, NameField);
      var name := CStr(sbuf, itab[ep].name);
      if itab[ep].name != 0 && name != [] {
        var hashval := Hash(name);
        OwnPlace(ep);
        assert ChainOk(itab, hashtbl[hashval], walks[hashval]);
        UnlinkFrom(ep, hashval, Index(walks[hashval], ep));
      } else {
        assert entries[ep].name == [];
      }
    }

    /** What holds once `ep` is off its thread: the list and the strings are right, and the threads
        but for `ep`; its link leads where it did. */
    lemma AfterUnlink(ep: nat)
      requires Serviceable() && ep in entries
      ensures var t := UnlinkedTables(ep);
        && ListInUse(t.itab, head, tail, nitems, itemsused, order, entries)
        && Stored(t.itab, t.hashtbl) && Detached(t, entries, names, ep)
        && t.itab[ep] == itab[ep] && LinkRest(t.itab, ep) == LinkRest(itab, ep)
        && LinkEnds(t.itab, ep, LinkRest(itab, ep)) == LinkEnds(itab, ep, LinkRest(itab, ep))
    {
      if entries[ep].name == [] {
        assert PlaceOf(entries) - {ep} == PlaceOf(entries);
      } else {
        OwnPlace(ep);
        var h := HashOf(entries[ep].name);
        OffWalk(ep, h, Index(walks[h], ep));
        OffStore(ep, h, Index(walks[h], ep));
        OffLink(ep, h, Index(walks[h], ep));
      }
    }

    /** With these tables the strings are still right. */
    ghost predicate Stored(itab': seq<Item>, hashtbl': seq<nat>)
      reads this
    {
      LinksOk(itab', hashtbl') && ArenaOk(itab', sbuf, owner, entries) && NamesOk(itab', sbuf, owner, names)
    }

    lemma OffWalk(ep: nat, h: nat, j: nat)
      requires LinksValid() && ep in entries && entries[ep].name != [] && h == HashOf(entries[ep].name)
      requires ep in walks[h] && j == Index(walks[h], ep) && j < |chains[h]| <= |walks[h]| && chains[h][j] == ep
      ensures ChainOk(itab, hashtbl[h], walks[h])
      ensures var itab', walks', chains' := OffThread(itab, walks[h], j), Passed(walks, h, j),
                chains[h := Cut(chains[h], j)];
        && ServeBut(itab', if j == 0 then hashtbl[h := itab[ep].nexthash] else hashtbl, walks', chains', entries,
                    names, ep)
        && chains' == Renamed(chains, ep, entries[ep].name, [])
    {
      var place := PlaceOf(entries);
      assert ChainOk(itab, hashtbl[h], walks[h]);
      WalksPassed(itab, hashtbl, walks, h, j);
      LeadsPassed(itab, hashtbl, walks, chains, place, h, j);
      DistinctPrefix(chains[h], walks[h]);
      PlaceRemove(chains, place, h, j);
      HarmlessPassed(walks, entries, names, h, j);
      WithoutAt(chains[h], j);
    }

    /** Neither the list nor the strings notice. */
    lemma OffStore(ep: nat, h: nat, j: nat)
      requires Serviceable() && ep in entries && entries[ep].name != [] && h == HashOf(entries[ep].name)
      requires ep in walks[h] && j == Index(walks[h], ep) && ChainOk(itab, hashtbl[h], walks[h])
      ensures var itab' := OffThread(itab, walks[h], j);
        && ListInUse(itab', head, tail, nitems, itemsused, order, entries)
        && Stored(itab', if j == 0 then hashtbl[h := itab[ep].nexthash] else hashtbl)
    {
      var itab' := OffThread(itab, walks[h], j);
      OffThreadKeeps(itab, walks[h], j);
      ListFrame(itab, itab', head, tail, order);
      ArenaFrame(itab, itab', sbuf, owner, entries, entries);
      NamesFrame(itab, itab', sbuf, owner, names);
      OwnName(ep);
      OffClosed(itab, hashtbl, walks[h], h, j);
    }

    /** The link of `ep` leads where it did. */
    lemma OffLink(ep: nat, h: nat, j: nat)
      requires LinksValid() && h < NTHREADS && j < |walks[h]| && walks[h][j] == ep &&
                ChainOk(itab, hashtbl[h], walks[h])
      ensures var itab' := OffThread(itab, walks[h], j);
        && ep < |itab| && itab'[ep] == itab[ep] && LinkRest(itab', ep) == LinkRest(itab, ep)
        && LinkEnds(itab', ep, LinkRest(itab, ep)) && LinkEnds(itab, ep, LinkRest(itab, ep))
    {
      RestOf(itab, hashtbl[h], walks[h], j);
    }

    /** The thread of a name is never that of the empty key. */
    lemma OwnName(ep: nat)
      requires Serviceable() && ep in entries && entries[ep].name != []
      ensures HashOf(entries[ep].name) != 0
    {
      OwnPlace(ep);
      assert ChainOk(itab, hashtbl[0], walks[0]);
    }

    /** The search for the link that leads to `ep`, and its redirection. */
    method UnlinkFrom(ep: nat, hashval: nat, ghost j: nat)
      requires hashval < |hashtbl| && hashval < |walks| && ChainOk(itab, hashtbl[hashval], walks[hashval])
      requires j < |walks[hashval]| && walks[hashval][j] == ep
      requires hashval < |chains| && j < |chains[hashval]|
      modifies `itab, `hashtbl, `chains, `walks
      ensures walks == Passed(old(walks), hashval, j)
      ensures chains == old(chains)[hashval := Cut(old(chains)[hashval], j)]
      ensures itab == OffThread(old(itab), old(walks)[hashval], j)
      ensures order == old(order) && tail == old(tail) && itemsused == old(itemsused) && names == old(names)
      ensures hashtbl == if j == 0 then old(hashtbl)[hashval := old(itab)[ep].nexthash] else old(hashtbl)
    {
      ghost var chain := walks[hashval];
      chains, walks := chains[hashval := Cut(chains[hashval], j)], Passed(walks, hashval, j);
      var i := hashtbl[hashval];
      if ep == i {
        hashtbl := hashtbl[hashval := itab[ep].nexthash];
        return;
      }
      var otp := i;
      i := itab[otp].nexthash;
      ghost var p := 1;
      while i != 0
        invariant 1 <= p <= j && otp == chain[p - 1] && i == chain[p]
        invariant itab == old(itab) && hashtbl == old(hashtbl)
        decreases j - p
      {
        if ep == i {
          itab := itab[otp := itab[otp].(nexthash := itab[ep].nexthash)];
          break;
        }
        otp := i;
        i := itab[i].nexthash;
        p := p + 1;
      }
    }

    /** The threads but for the item table, and the stored names, are those of `t`. */
    ghost predicate OthersStay(t: Tables, names0: seq<string>)
      reads this
    {
      hashtbl == t.hashtbl && walks == t.walks && chains == t.chains && names == names0
    }

    /** The second part of `kwdb_DeleteEntry`: the entry leaves the global list. */
    method RemoveFromList(ep: nat, ghost j: nat)
      requires StoreValid() && j < |order| && order[j] == ep
      modifies `itab, `head, `tail, `itemsused, `nitems, `order, `entries
      ensures StoreValid() && order == Cut(old(order), j) && entries == old(entries) - {ep}
      ensures itemsused == if old(tail) == ep then old(itemsused) - 1 else old(itemsused)
      ensures itab == PassedOver(old(itab), old(order), j) &&
                OthersStay(old(Tables(itab, hashtbl, walks, chains)), old(names))
    {
      Passing(ep, j);
      DropLinks(ep, j);
    }

    /** The list and the strings once entry `j` is passed over. */
    lemma Passing(ep: nat, j: nat)
      requires StoreValid() && j < |order| && order[j] == ep
      ensures LinksOk(PassedOver(itab, order, j), hashtbl) && NamesOk(PassedOver(itab, order, j), sbuf, owner, names)
      ensures ListInUse(PassedOver(itab, order, j), if j == 0 then itab[ep].nextglob else head,
                        if tail != ep then tail else if j == 0 then 0 else order[j - 1],
                        nitems - 1, if tail == ep then itemsused - 1 else itemsused, Cut(order, j), entries - {ep})
      ensures ArenaOk(PassedOver(itab, order, j), sbuf, owner, entries - {ep})
    {
      RemovedList(itab, head, tail, nitems, itemsused, order, entries, j);
      PassedOverKeeps(itab, order, j);
      ArenaFrame(itab, PassedOver(itab, order, j), sbuf, owner, entries, entries - {ep});
      NamesFrame(itab, PassedOver(itab, order, j), sbuf, owner, names);
    }

    method DropLinks(ep: nat, ghost j: nat)
      requires ListOk(itab, head, tail, order) && itemsused > 0 && j < |order| && order[j] == ep
      modifies `itab, `head, `tail, `itemsused, `nitems, `order, `entries
      ensures head == if j == 0 then old(itab)[ep].nextglob else old(head)
      ensures tail == if old(tail) != ep then old(tail) else if j == 0 then 0 else old(order)[j - 1]
      ensures itemsused == if old(tail) == ep then old(itemsused) - 1 else old(itemsused)
      ensures nitems == old(nitems) - 1
      ensures itab == PassedOver(old(itab), old(order), j)
      ensures order == Cut(old(order), j) && entries == old(entries) - {ep}
      ensures OthersStay(old(Tables(itab, hashtbl, walks, chains)), old(names))
    {
      var i := TakeOut(ep, j);
      if tail == ep {
        tail := i;
        itemsused := itemsused - 1;
      }
      nitems := nitems - 1;
      order, entries := Cut(order, j), entries - {ep};
    }

    /** The search for the entry before `ep`; 0 if there is none. */
    method TakeOut(ep: nat, ghost j: nat) returns (i: nat)
      requires ListOk(itab, head, tail, order) && j < |order| && order[j] == ep
      modifies `itab, `head
      ensures head == if j == 0 then old(itab)[ep].nextglob else old(head)
      ensures i == if j == 0 then 0 else order[j - 1]
      ensures itab == PassedOver(old(itab), order, j)
      ensures OthersStay(old(Tables(itab, hashtbl, walks, chains)), old(names))
    {
      ghost var p := 0;
      if head == ep {
        head := itab[ep].nextglob;
        p := 1;
      }
      i := head;
      while i != 0
        invariant p <= |order| && (if j == 0 then p >= 1 else p < j)
        invariant i == if p < |order| then order[p] else 0
        invariant itab == old(itab) && head == if j == 0 then old(itab)[ep].nextglob else old(head)
        decreases |order| - p
      {
        var otp := i;
        assert itab[order[p]].nextglob == if p + 1 < |order| then order[p + 1] else 0;
        if itab[otp].nextglob == ep {
          itab := itab[otp := itab[otp].(nextglob := itab[ep].nextglob)];
          break;
        }
        i := itab[otp].nextglob;
        p := p + 1;
      }
    }

    /** `kwdb_DeleteEntry`, for an entry pointer that is live or out of range.  Lookups stay right
        even if the entry was lent: a thread that still visits it passes over its name, which is
        left in place.  From then on its slot must not be used again for a name of that thread. */
    method DeleteEntry(ep: nat) returns (status: int)
      requires Serviceable() && (0 < ep <= tail ==> ep in entries)
      modifies this
      ensures Serviceable() && forall key :: Found(key) == Without(old(Found(key)), ep)
      ensures status == if ep in old(entries) then 0 else -1
      ensures order == Without(old(order), ep) && entries == old(entries) - {ep} && names == old(names)
      ensures itemsused == if ep in old(entries) && ep == old(tail) then old(itemsused) - 1 else old(itemsused)
      ensures walks == if ep in old(entries) then old(Unlinked(ep)) else old(walks)
      ensures ep in old(entries) ==> itab == old(DroppedTable(ep))
      ensures ep in old(entries) ==> chains == Renamed(old(chains), ep, old(entries)[ep].name, [])
      ensures old(Living(walks, entries)) ==>
                (Living(walks, entries) <==> !(ep in old(entries) && old(Lent(ep))))
      ensures old(Valid()) ==> Valid()
      ensures old(NewestFirst(chains)) ==> NewestFirst(chains)
    {
      if ep in entries {
        InRange(ep);
      }
      if ep <= 0 || ep > tail {
        NothingToDelete(ep);
        return -1;
      }
      ghost var tidy := Valid();
      ghost var chains0, entries0 := chains, entries;
      if tidy {
        TidyUnlinked(ep);
      }
      if Living(walks, entries) {
        LivingThen(ep);
      }
      ghost var t, dropped := UnlinkedTables(ep), DroppedTable(ep);
      AfterDelete(ep);
      Remove(ep, t, dropped, Without(order, ep));
      DeletedAll(chains0, entries0, ep);
      if old(NewestFirst(chains)) && old(entries)[ep].name != [] {
        NewestWithout(old(chains), HashOf(old(entries)[ep].name), ep);
      }
      status := 0;
    }

    /** What is visited once `ep` is off its thread. */
    lemma UnlinkedMembers(ep: nat)
      requires LinksValid() && ep in entries
      ensures forall g, x {:trigger x in Unlinked(ep)[g]} :: 0 <= g < NTHREADS && x in Unlinked(ep)[g] ==> x in walks[g]
      ensures forall g :: 0 <= g < NTHREADS && ep in Unlinked(ep)[g] ==> Quiet(names, ep, g)
    {
      if entries[ep].name != [] {
        OwnPlace(ep);
        var h := HashOf(entries[ep].name);
        var j := Index(walks[h], ep);
        assert ChainOk(itab, hashtbl[h], walks[h]);
        HarmlessPassed(walks, entries, names, h, j);
        CutMembers(walks[h], j);
      }
    }

    lemma LivingThen(ep: nat)
      requires LinksValid() && ep in entries && Living(walks, entries)
      ensures Living(Unlinked(ep), entries - {ep}) <==> !Lent(ep)
    {
      UnlinkedMembers(ep);
      if Lent(ep) {
        var g :| 0 <= g < NTHREADS && ep in Unlinked(ep)[g];
      }
    }

    /** A tidy database lends nothing. */
    lemma TidyUnlinked(ep: nat)
      requires Valid() && ep in entries
      ensures Unlinked(ep) == Renamed(chains, ep, entries[ep].name, [])
      ensures !Lent(ep)
      ensures forall g :: 0 <= g < NTHREADS ==> ep !in Unlinked(ep)[g]
    {
      if entries[ep].name != [] {
        OwnPlace(ep);
        var h := HashOf(entries[ep].name);
        var j := Index(walks[h], ep);
        assert ChainOk(itab, hashtbl[h], walks[h]);
        TidyPassed(chains, PlaceOf(entries), h, j);
        WithoutAt(chains[h], j);
        WithoutMembers(chains[h], ep);
      }
      forall g | 0 <= g < NTHREADS ensures ep !in Unlinked(ep)[g] {
        assert ep in PlaceOf(entries) ==> PlaceOf(entries)[ep] == HashOf(entries[ep].name);
      }
    }

    /** The entry goes; `t`, `dropped` and `rest` are the tables and the list then. */
    method Remove(ep: nat, ghost t: Tables, ghost dropped: seq<Item>, ghost rest: seq<nat>)
      requires Serviceable() && ep in entries && rest == Without(order, ep)
      requires t == UnlinkedTables(ep) && dropped == DroppedTable(ep)
      modifies this
      ensures StoreValid() && order == rest && entries == old(entries) - {ep} && names == old(names)
      ensures itemsused == if ep == old(tail) then old(itemsused) - 1 else old(itemsused)
      ensures Tables(itab, hashtbl, walks, chains) == t.(itab := dropped)
    {
      assert ep in order;
      ghost var j := Index(order, ep);
      AfterRemove(ep, j);
      Unlink(ep);
      RemoveFromList(ep, j);
    }

    /** What holds once `ep`, entry `j` of the list, is off its thread and off the list. */
    lemma AfterRemove(ep: nat, j: nat)
      requires Serviceable() && ep in entries && j < |order| && order[j] == ep
      ensures var t := UnlinkedTables(ep);
        && ListInUse(t.itab, head, tail, nitems, itemsused, order, entries)
        && Without(order, ep) == Cut(order, j) && t.chains == Renamed(chains, ep, entries[ep].name, [])
        && Stored(t.itab, t.hashtbl)
        && ThreadsServe(PassedOver(t.itab, order, j), t.hashtbl, t.walks, t.chains, entries - {ep}, names)
    {
      AfterUnlink(ep);
      var t := UnlinkedTables(ep);
      var itab' := PassedOver(t.itab, order, j);
      WithoutAt(order, j);
      PassedOverKeeps(t.itab, order, j);
      WalksFrame(t.itab, itab', t.hashtbl, t.walks);
      PlaceMinus(entries, ep);
      UnlinkedMembers(ep);
    }

    lemma AfterDelete(ep: nat)
      requires Serviceable() && ep in entries
      ensures var t := UnlinkedTables(ep);
        && ThreadsServe(DroppedTable(ep), t.hashtbl, t.walks, t.chains, entries - {ep}, names)
        && t.chains == Renamed(chains, ep, entries[ep].name, [])
    {
      assert ep in order;
      AfterRemove(ep, Index(order, ep));
    }

    /** The item table once `ep` is off its thread and off the list. */
    ghost function DroppedTable(ep: nat): (r: seq<Item>)
      requires LinksValid() && ep in entries
      reads this
      ensures |r| == |itab|
    {
      assert ep in order;
      PassedOver(UnlinkedTables(ep).itab, order, Index(order, ep))
    }

    /** All links of threads stay when the first item of a thread is deleted. */
    lemma FirstKeepsLinks(ep: nat)
      requires LinksValid() && ep in entries && entries[ep].name != []
      requires walks[HashOf(entries[ep].name)] != [] && walks[HashOf(entries[ep].name)][0] == ep
      ensures SameHashLinks(itab, DroppedTable(ep))
    {
      assert ep in order;
      OwnPlace(ep);
      assert Index(walks[HashOf(entries[ep].name)], ep) == 0;
      PassedOverKeeps(itab, order, Index(order, ep));
    }

    lemma NothingToDelete(ep: nat)
      requires LinksValid() && ep !in entries
      ensures Without(order, ep) == order && entries - {ep} == entries
      ensures forall key :: Without(Found(key), ep) == Found(key)
    {
      WithoutMembers(order, ep);
      forall key ensures Without(Found(key), ep) == Found(key) {
        WithoutMembers(Found(key), ep);
      }
    }

    /** What lookups find once `ep` is gone; the arguments are the database before. */
    lemma DeletedAll(chains0: seq<seq<nat>>, entries0: Entries, ep: nat)
      requires LinksValid() && |chains0| == NTHREADS && PlacesOk(chains0, PlaceOf(entries0)) && ep in entries0
      requires entries == entries0 - {ep} && chains == Renamed(chains0, ep, entries0[ep].name, [])
      ensures forall key :: (forall x :: x in chains0[HashOf(key)] ==> x in entries0)
                            && Found(key) == Without(Matches(chains0[HashOf(key)], entries0, key), ep)
    {
      forall key ensures (forall x :: x in chains0[HashOf(key)] ==> x in entries0)
                         && Found(key) == Without(Matches(chains0[HashOf(key)], entries0, key), ep)
      {
        assert forall x :: x in chains0[HashOf(key)] ==> x in PlaceOf(entries0);
        DeletedFinds(chains0, entries0, ep, key);
      }
    }

    /** Whether the threads stay in service when `ep` is renamed.  If other items are on the thread
        that it goes to, it must not be a stray there, nor lead another thread to what that takes
        for its own.  If nothing is there, its old link must end, and nothing deleted that it leads
        to may have a name of that thread. */
    ghost predicate RenameServes(ep: nat, newname: string)
      requires LinksValid() && ep in entries
      reads this
    {
      newname == [] || CanMove(itab, Unlinked(ep), entries, names, ep, HashOf(newname))
    }

    /** Whether every search ends then. */
    ghost predicate RenameEnds(ep: nat, newname: string)
      requires LinksValid() && ep in entries
      reads this
    {
      newname == [] || MoveEnds(itab, Unlinked(ep), ep, HashOf(newname))
    }

    /** Whether a tidy database stays tidy when `ep` is renamed: the new name is empty, or its
        thread holds other entries, or `ep` has no link to begin with. */
    ghost predicate RenameFits(ep: nat, newname: string)
      requires LinksValid() && ep < |itab|
      reads this
    {
      newname == [] || Without(chains[HashOf(newname)], ep) != [] || itab[ep].nexthash == 0
    }

    /** `kwdb_RenameEntry`.  The entry keeps its place in the list and its other strings.  Lookups
        are right afterwards exactly when `RenameServes`: then the entry is instance 0 of its new
        name and all other matches stay.  Otherwise a search that finds nothing does not end, or,
        exactly when `RenameEnds`, all end and some lookup finds something deleted.  A tidy
        database stays tidy exactly when `RenameFits`. */
    method RenameEntry(ep: nat, newname: string) returns (status: int)
      requires Serviceable() && (0 < ep <= tail ==> ep in entries) && Nameable(newname)
      modifies this
      ensures status == if ep in old(entries) then 0 else -1
      ensures StoreValid() && order == old(order) && itemsused == old(itemsused)
      ensures entries == if ep in old(entries) then old(entries)[ep := old(entries)[ep].(name := newname)]
                else old(entries)
      ensures ep !in old(entries) ==> Serviceable() && walks == old(walks) && chains == old(chains)
      ensures ep in old(entries) ==> ep < |old(names)| && names == old(names)[ep := newname]
      ensures ep in old(entries) ==>
                && chains == Renamed(old(chains), ep, old(entries)[ep].name, newname)
                && walks == if newname == [] then old(Unlinked(ep))
                            else Moved(old(Unlinked(ep)), ep, HashOf(newname), old(LinkRest(itab, ep)))
      ensures ep in old(entries) ==> if old(RenameServes(ep, newname)) then
                Serviceable() && forall key :: Found(key) == AfterNaming(old(Found(key)), ep, newname, key)
              else OutOfService(itab, hashtbl, entries, names)
      ensures ep in old(entries) ==> if old(RenameEnds(ep, newname)) then WalksOk(itab, hashtbl, walks)
                                     else Endless(itab, hashtbl[HashOf(newname)])
      ensures ep in old(entries) && newname == [] ==> ep < |itab| && itab[ep].nexthash == old(itab[ep].nexthash)
      ensures old(Valid()) ==> if ep !in old(entries) || old(RenameFits(ep, newname)) then Valid()
                               else Untidy(itab, hashtbl, entries, names)
    {
      if ep in entries {
        InRange(ep);
      }
      if ep <= 0 || ep > tail {
        return -1;
      }
      ghost var serves, tidy, fits := RenameServes(ep, newname), Valid(), RenameFits(ep, newname);
      ghost var chains0, entries0 := chains, entries;
      ghost var t, names0 := UnlinkedTables(ep), names;
      RenamedThread(chains, entries, ep, entries[ep].name, [], HashOf(newname));
      AfterUnlink(ep);
      if tidy {
        TidyUnlinked(ep);
      }
      Relink(ep, newname);
      Renaming(t, entries0, names0, ep, newname, serves, tidy);
      if serves {
        RenamedAll(chains0, entries0, ep, entries0[ep].name, newname);
      }
      status := 0;
    }

    /** The links once `ep`, off its thread in `t`, has its new name. */
    lemma Renaming(t: Tables, entries0: Entries, names0: seq<string>, ep: nat, newname: string, serves: bool,
                   tidy: bool)
      requires StoreValid() && Detached(t, entries0, names0, ep)
      requires entries == entries0[ep := entries0[ep].(name := newname)] && names == names0[ep := newname]
      requires Tables(itab, hashtbl, walks, chains) == TablesMoved(t, itab, ep, newname)
      requires LinkedAnew(t, itab, ep, newname) && (tidy ==> t.walks == t.chains)
      requires serves == (newname == [] || CanMove(t.itab, t.walks, entries0, names0, ep, HashOf(newname)))
      ensures if serves then Serviceable() else OutOfService(itab, hashtbl, entries, names)
      ensures if newname == [] || MoveEnds(t.itab, t.walks, ep, HashOf(newname)) then WalksOk(itab, hashtbl, walks)
              else Endless(itab, hashtbl[HashOf(newname)])
      ensures tidy ==> if newname == [] || t.chains[HashOf(newname)] != [] || t.itab[ep].nexthash == 0 then Valid()
                       else Untidy(itab, hashtbl, entries, names)
    {
      AfterRelink(t, entries0, names0, ep, newname, serves, tidy, itab);
    }

    /** The entry goes from its thread to that of its new name; the strings and the list are right. */
    method Relink(ep: nat, newname: string)
      requires Serviceable() && ep in entries && ep < |itab| && Nameable(newname)
      modifies `itab, `hashtbl, `chains, `walks, `sbuf, `sbufused, `owner, `entries, `names
      ensures StoreValid() && entries == old(entries)[ep := old(entries)[ep].(name := newname)]
      ensures ep < |old(names)| && names == old(names)[ep := newname]
      ensures |old(UnlinkedTables(ep)).hashtbl| == NTHREADS && |old(UnlinkedTables(ep)).chains| == NTHREADS
      ensures Tables(itab, hashtbl, walks, chains) == TablesMoved(old(UnlinkedTables(ep)), itab, ep, newname)
      ensures LinkedAnew(old(UnlinkedTables(ep)), itab, ep, newname)
      ensures order == old(order) && itemsused == old(itemsused)
    {
      AfterUnlink(ep);
      ghost var t := UnlinkedTables(ep);
      Unlink(ep);
      SetName(ep, newname);
      ghost var t' := TablesMoved(t, itab, ep, newname);
      Rewalk(t'.walks, t'.chains);
    }

    ghost method Rewalk(walks': seq<seq<nat>>, chains': seq<seq<nat>>)
      modifies `chains, `walks
      ensures walks == walks' && chains == chains'
    {
      walks, chains := walks', chains';
    }

    /** The second part of `kwdb_RenameEntry`: the item goes to the thread of its new name. */
    method SetName(ep: nat, newname: string)
      requires StoreValid() && ep in entries && Nameable(newname)
      modifies `itab, `hashtbl, `sbuf, `sbufused, `owner, `entries, `names
      ensures StoreValid() && entries == old(entries)[ep := old(entries)[ep].(name := newname)]
      ensures ep < |old(names)| && names == old(names)[ep := newname]
      ensures hashtbl == if newname == [] then old(hashtbl) else old(hashtbl)[HashOf(newname) := ep]
      ensures ep < |old(itab)| && if newname == [] then OnlyLink(old(itab), itab, ep, old(itab)[ep].nexthash)
                                  else PutFirst(old(itab), old(hashtbl), itab, ep, HashOf(newname))
      ensures order == old(order) && itemsused == old(itemsused)
    {
      if newname != [] {
        Rehash(ep, newname);
      }
      PlaceName(ep, newname);
    }

    /** The item is first on the thread of its new name. */
    method Rehash(ep: nat, newname: string)
      requires StoreValid() && ep in entries && newname != [] && NoNul(newname) && Ascii(newname)
      modifies `itab, `hashtbl
      ensures StoreValid() && hashtbl == old(hashtbl)[HashOf(newname) := ep]
      ensures PutFirst(old(itab), old(hashtbl), itab, ep, HashOf(newname))
      ensures order == old(order) && itemsused == old(itemsused) && entries == old(entries) && names == old(names)
    {
      ghost var itab0 := itab;
      AsciiHash(newname);
      var hashval := Hash(newname);
      var i := hashtbl[hashval];
      if i != 0 {
        itab := itab[ep := itab[ep].(nexthash := i)];
      }
      hashtbl := hashtbl[hashval := ep];
      LinkSet(itab0, itab);
    }

    /** Only links of threads were set. */
    lemma LinkSet(itab0: seq<Item>, itab': seq<Item>)
      requires ListInUse(itab0, head, tail, nitems, itemsused, order, entries) && ArenaOk(itab0, sbuf, owner, entries)
      requires NamesOk(itab0, sbuf, owner, names) && SameStrings(itab0, itab') && SameGlobLinks(itab0, itab')
      ensures ListInUse(itab', head, tail, nitems, itemsused, order, entries) && ArenaOk(itab', sbuf, owner, entries)
      ensures NamesOk(itab', sbuf, owner, names)
    {
      ListFrame(itab0, itab', head, tail, order);
      ArenaFrame(itab0, itab', sbuf, owner, entries, entries);
      NamesFrame(itab0, itab', sbuf, owner, names);
    }

    method PlaceName(ep: nat, newname: string)
      requires StoreValid() && ep in entries && Storable(newname)
      modifies `itab, `sbuf, `sbufused, `owner, `entries, `names
      ensures StoreValid() && entries == old(entries)[ep := old(entries)[ep].(name := newname)]
      ensures ep < |old(names)| && names == old(names)[ep := newname]
      ensures |itab| == old(|itab|) && itab == old(itab)[ep := old(itab)[ep].(name := itab[ep].name)]
      ensures order == old(order) && itemsused == old(itemsused) && hashtbl == old(hashtbl)
    {
      var name := StoreName(ep, newname);
      NameStored(old(sbuf), old(owner), ep, name, newname);
      SetNameAt(ep, name, newname);
    }

    method StoreName(ep: nat, newname: string) returns (name: nat)
      requires |owner| == sbufused && ArenaOk(itab, sbuf, owner, entries) && Storable(newname)
      modifies `sbuf, `sbufused, `owner
      ensures |owner| == sbufused && OthersKept(old(sbuf), old(owner), sbuf, owner, ep, NameField)
      ensures StringOk(sbuf, owner, ep, NameField, name, |newname|, newname)
      ensures order == old(order) && itemsused == old(itemsused) && hashtbl == old(hashtbl)
    {
      name := 0;
      if newname != [] {
        name := AddStr(newname, ep, NameField);
      }
    }

    method SetNameAt(ep: nat, name: nat, newname: string)
      requires ep < |itab| == |names| && ep in entries
      modifies `itab, `entries, `names
      ensures itab == old(itab)[ep := old(itab)[ep].(name := name)]
      ensures entries == old(entries)[ep := old(entries)[ep].(name := newname)] && names == old(names)[ep := newname]
      ensures order == old(order) && itemsused == old(itemsused) && hashtbl == old(hashtbl)
    {
      itab := itab[ep := itab[ep].(name := name)];
      entries := entries[ep := entries[ep].(name := newname)];
      names := names[ep := newname];
    }

    /** The new name is in place, and nothing else is touched. */
    lemma NameStored(sbuf0: seq<char>, owner0: seq<Owner>, ep: nat, name: nat, newname: string)
      requires ListValid() && LinksOk(itab, hashtbl) && ep in entries
      requires ArenaOk(itab, sbuf0, owner0, entries) && NamesOk(itab, sbuf0, owner0, names)
      requires OthersKept(sbuf0, owner0, sbuf, owner, ep, NameField)
      requires StringOk(sbuf, owner, ep, NameField, name, |newname|, newname)
      ensures var itab', entries' := itab[ep := itab[ep].(name := name)], entries[ep := entries[ep].(name := newname)];
        && ListInUse(itab', head, tail, nitems, itemsused, order, entries') && LinksOk(itab', hashtbl)
        && ArenaOk(itab', sbuf, owner, entries') && NamesOk(itab', sbuf, owner, names[ep := newname])
    {
      ChangedString(itab, sbuf0, owner0, entries, sbuf, owner, ep, NameField, name, |newname|, newname);
      NameChanged(itab, sbuf0, owner0, names, sbuf, owner, ep, itab[ep].(name := name), newname);
      ListFrame(itab, itab[ep := itab[ep].(name := name)], head, tail, order);
    }

    /** What lookups find once `ep` has its new name; the arguments are the database before. */
    lemma RenamedAll(chains0: seq<seq<nat>>, entries0: Entries, ep: nat, name: string, newname: string)
      requires LinksValid() && |chains0| == NTHREADS && PlacesOk(chains0, PlaceOf(entries0))
      requires ep in entries && entries[ep].name == newname && chains == Renamed(chains0, ep, name, newname)
      requires if ep in entries0 then name == entries0[ep].name &&
                entries == entries0[ep := entries0[ep].(name := newname)]
               else name == [] && entries == entries0[ep := entries[ep]]
      ensures forall key :: (forall x :: x in chains0[HashOf(key)] ==> x in entries0)
                            && Found(key) == AfterNaming(Matches(chains0[HashOf(key)], entries0, key), ep, newname, key)
    {
      forall key ensures (forall x :: x in chains0[HashOf(key)] ==> x in entries0)
                         && Found(key) == AfterNaming(Matches(chains0[HashOf(key)], entries0, key), ep, newname, key)
      {
        assert forall x :: x in chains0[HashOf(key)] ==> x in PlaceOf(entries0);
        RenamedFinds(chains0, entries0, entries, ep, name, newname, key);
      }
    }
  }

  lemma HashValues()
    ensures HashOf("AB") == HashOf("AC") == HashOf("AZ") == 605 && HashOf("X") == HashOf("XY") == HashOf("XZ") == 124
    ensures Nameable("AB") && Nameable("AC") && Nameable("AZ") && Nameable("X") && Nameable("XY")
  {
    assert LowerChar('A') == 'a' && LowerChar('X') == 'x';
    WeightsOf(97);
    WeightsOf(120);
  }

  // ----- what can go wrong after a renaming that left a stray -----

  /** The walks with `rest` on the thread of "AB" and "AC" and `walk` on that of "X" and "XY". */
  ghost function Walks(rest: seq<nat>, walk: seq<nat>): (r: seq<seq<nat>>)
    ensures |r| == NTHREADS && r[605] == rest && r[124] == walk
  {
    NoThreads()[605 := rest][124 := walk]
  }

  /** The live entries and their names. */
  ghost predicate Named(entries: Entries, names: map<nat, string>) {
    entries.Keys == names.Keys && forall ep :: ep in names ==> entries[ep].name == names[ep]
  }

  /** Taking off the first item of a thread changes no other thread. */
  lemma FirstOff(db: Database, ep: nat, h: nat, rest: seq<nat>)
    requires db.LinksValid() && ep in db.entries && db.entries[ep].name != [] && HashOf(db.entries[ep].name) == h
    requires db.walks[h] == [ep] + rest
    ensures db.Unlinked(ep) == db.walks[h := rest] && LinkRest(db.itab, ep) == rest
  {
    db.OwnPlace(ep);
    assert Index(db.walks[h], ep) == 0;
    PassedFirst(db.walks, h, ep, rest);
    assert ChainOk(db.itab, db.hashtbl[h], db.walks[h]);
    RestOf(db.itab, db.hashtbl[h], db.walks[h], 0);
  }

  lemma PassedFirst(walks: seq<seq<nat>>, h: nat, ep: nat, rest: seq<nat>)
    requires h < |walks| && walks[h] == [ep] + rest
    ensures walks[h][0] == ep && walks[h][0 + 1..] == rest && Passed(walks, h, 0) == walks[h := rest]
  {
    assert Cut(walks[h], 0) == rest;
  }

  lemma NamedWith(entries: Entries, names: map<nat, string>, ep: nat, e: Entry)
    requires Named(entries, names)
    ensures Named(entries[ep := e], names[ep := e.name])
  {
  }

  /** A named entry is added to a tidy database. */
  method Enter(db: Database, name: string, ghost names: map<nat, string>) returns (ep: nat)
    requires db.Valid() && Named(db.entries, names) && name != [] && Nameable(name)
    modifies db
    ensures db.Valid() && Named(db.entries, names[ep := name])
    ensures ep == old(db.itemsused) && db.itemsused == ep + 1 && db.order == old(db.order) + [ep]
    ensures db.walks == old(db.walks)[HashOf(name) := [ep] + old(db.walks)[HashOf(name)]]
  {
    ghost var entries := db.entries;
    ep := db.AddEntry(name, [], [], []);
    NamedWith(entries, names, ep, Entry(name, [], [], []));
  }

  method OneEntered() returns (db: Database)
    ensures fresh(db) && db.Valid() && db.order == [1] && db.itemsused == 2
    ensures Named(db.entries, map[1 := "AB"]) && db.walks == Walks([1], [])
  {
    HashValues();
    db := new Database("x");
    var a := Enter(db, "AB", map[]);
    OnePushed();
  }

  method TwoOnOneThread() returns (db: Database)
    ensures fresh(db) && db.Valid() && db.order == [1, 2] && db.itemsused == 3
    ensures Named(db.entries, map[1 := "AB", 2 := "AC"]) && db.walks == Walks([2, 1], [])
  {
    HashValues();
    db := OneEntered();
    var b := Enter(db, "AC", map[1 := "AB"]);
    TwoPushed();
  }

  lemma OnePushed()
    ensures NoThreads()[605 := [1] + NoThreads()[605]] == Walks([1], [])
  {
    assert [1] + [] == [1];
  }

  lemma TwoPushed()
    ensures Walks([1], [])[605 := [2] + Walks([1], [])[605]] == Walks([2, 1], [])
  {
    assert [2] + [1] == [2, 1];
  }

  /** A renaming that serves: what the links visit and how the entries are named. */
  method Rename(db: Database, ep: nat, newname: string, ghost walks: seq<seq<nat>>, ghost names: map<nat, string>)
    requires db.Serviceable() && Named(db.entries, names) && ep in db.entries && ep < |db.itab| && Nameable(newname)
    requires newname != [] && db.RenameServes(ep, newname)
    requires walks == Moved(db.Unlinked(ep), ep, HashOf(newname), LinkRest(db.itab, ep))
    modifies db
    ensures db.Serviceable() && db.walks == walks && Named(db.entries, names[ep := newname])
    ensures db.order == old(db.order) && db.itemsused == old(db.itemsused)
  {
    ghost var entries := db.entries;
    var status := db.RenameEntry(ep, newname);
    NamedWith(entries, names, ep, entries[ep].(name := newname));
  }

  /** A renaming after which every search ends, but some lookup is wrong. */
  method Strand(db: Database, ep: nat, newname: string, ghost walks: seq<seq<nat>>, ghost names: map<nat, string>)
    requires db.Serviceable() && Named(db.entries, names) && ep in db.entries && Nameable(newname)
    requires newname != [] && !db.RenameServes(ep, newname) && db.RenameEnds(ep, newname)
    requires walks == Moved(db.Unlinked(ep), ep, HashOf(newname), LinkRest(db.itab, ep))
    modifies db
    ensures db.StoreValid() && OutOfService(db.itab, db.hashtbl, db.entries, db.names)
    ensures WalksOk(db.itab, db.hashtbl, walks) && Named(db.entries, names[ep := newname])
    ensures ep < |old(db.names)| && db.names == old(db.names)[ep := newname]
  {
    ghost var entries := db.entries;
    var status := db.RenameEntry(ep, newname);
    NamedWith(entries, names, ep, entries[ep].(name := newname));
  }

  /** A renaming that closes a circle. */
  method Encircle(db: Database, ep: nat, newname: string, ghost names: map<nat, string>)
    requires db.Serviceable() && Named(db.entries, names) && ep in db.entries && Nameable(newname)
    requires newname != [] && !db.RenameEnds(ep, newname)
    modifies db
    ensures db.StoreValid() && OutOfService(db.itab, db.hashtbl, db.entries, db.names)
    ensures Endless(db.itab, db.hashtbl[HashOf(newname)]) && Named(db.entries, names[ep := newname])
  {
    ghost var entries := db.entries;
    var status := db.RenameEntry(ep, newname);
    NamedWith(entries, names, ep, entries[ep].(name := newname));
  }

  /** Two entries on one thread, the newer one renamed to a name whose thread was empty: it takes
      its link to the older one along.  Lookups are still right. */
  method StrayLeft() returns (db: Database)
    ensures fresh(db) && db.Serviceable() && db.order == [1, 2] && db.itemsused == 3
    ensures Named(db.entries, map[1 := "AB", 2 := "X"])
    ensures db.walks == Walks([1], [2, 1])
  {
    db := TwoOnOneThread();
    HashValues();
    StrayFacts(db);
    db.TidyRenameServes(2, "X");
    NamesOfTwo();
    Rename(db, 2, "X", Walks([1], [2, 1]), map[1 := "AB", 2 := "AC"]);
  }

  lemma StrayFacts(db: Database)
    requires db.Valid() && db.walks == Walks([2, 1], []) && 2 in db.entries && db.entries[2].name == "AC"
    ensures 2 < |db.itab| && Moved(db.Unlinked(2), 2, 124, LinkRest(db.itab, 2)) == Walks([1], [2, 1])
  {
    LinkOfTwo(db);
    StrayMoved();
  }

  lemma NamesOfTwo()
    ensures map[1 := "AB", 2 := "AC"][2 := "X"] == map[1 := "AB", 2 := "X"]
    ensures map[1 := "AB", 2 := "AC"][2 := ""] == map[1 := "AB", 2 := ""]
    ensures map[1 := "AB", 2 := "X"][1 := "XY"] == map[1 := "XY", 2 := "X"]
    ensures map[1 := "AB", 2 := "X"] - {2} == map[1 := "AB"] && map[1 := "AB"] - {1} == map[]
    ensures map[1 := "AB", 2 := ""] - {1} == map[2 := ""]
    ensures map[2 := ""][2 := "AZ"] == map[2 := "AZ"] && map[2 := ""][2 := "X"] == map[2 := "X"]
  {
  }

  lemma StrayMoved()
    ensures Moved(Walks([1], []), 2, 124, [1]) == Walks([1], [2, 1])
  {
    assert [2] + [1] == [2, 1];
  }

  /** An entry that is a stray of the thread it is renamed to closes a circle, and a lookup of a
      name that nobody has does not end. */
  method RenamedStrayMakesCircle() returns (db: Database)
    ensures db.StoreValid() && OutOfService(db.itab, db.hashtbl, db.entries, db.names)
    ensures Endless(db.itab, db.hashtbl[HashOf("XZ")])
    ensures forall ep :: ep in db.entries ==> !SameName(db.entries[ep].name, "XZ")
  {
    db := StrayLeft();
    HashValues();
    CircleFacts(db);
    NamesOfTwo();
    Encircle(db, 1, "XY", map[1 := "AB", 2 := "X"]);
    NobodyIs(db.entries);
  }

  lemma CircleFacts(db: Database)
    requires db.LinksValid() && db.walks == Walks([1], [2, 1]) && 1 in db.entries && db.entries[1].name == "AB"
    ensures !db.RenameEnds(1, "XY")
  {
    HashValues();
    assert [1] == [1] + [];
    FirstOff(db, 1, 605, []);
    assert [2, 1][1] == 1;
  }

  lemma NobodyIs(entries: Entries)
    requires Named(entries, map[1 := "XY", 2 := "X"])
    ensures forall ep :: ep in entries ==> !SameName(entries[ep].name, "XZ")
  {
    assert Lower("XY")[1] == 'y' && Lower("XZ")[1] == 'z' && |Lower("X")| == 1;
  }

  /** The last entry of the list is deleted. */
  method Drop(db: Database, ep: nat, ghost walks: seq<seq<nat>>, ghost names: map<nat, string>)
    requires db.Serviceable() && Named(db.entries, names) && ep in db.entries
    requires db.order != [] && db.order[|db.order| - 1] == ep && walks == db.Unlinked(ep)
    modifies db
    ensures db.Serviceable() && db.walks == walks && Named(db.entries, names - {ep})
    ensures db.order == old(db.order)[..|old(db.order)| - 1] && db.itemsused == old(db.itemsused) - 1
  {
    ghost var last := |db.order| - 1;
    NoDouble(db.order);
    WithoutAt(db.order, last);
    assert Cut(db.order, last) == db.order[..last];
    ghost var entries := db.entries;
    var status := db.DeleteEntry(ep);
    NamedMinus(entries, names, ep);
  }

  lemma NoDouble(order: seq<nat>)
    requires Increasing(order)
    ensures forall a, b :: 0 <= a < b < |order| ==> order[a] != order[b]
  {
  }

  lemma NamedMinus(entries: Entries, names: map<nat, string>, ep: nat)
    requires Named(entries, names)
    ensures Named(entries - {ep}, names - {ep})
  {
  }

  /** Both entries deleted, the stray last: its thread still leads to it, and lookups are still
      right. */
  method StrayDeleted() returns (db: Database)
    ensures fresh(db) && db.Serviceable() && Named(db.entries, map[]) && db.order == [] && db.itemsused == 1
    ensures db.hashtbl[124] == 1 && db.walks == Walks([], [1])
  {
    db := OneLeft();
    OneOff(db);
    NamesOfTwo();
    Drop(db, 1, Walks([], [1]), map[1 := "AB"]);
    assert ChainOk(db.itab, db.hashtbl[124], db.walks[124]);
  }

  lemma OneOff(db: Database)
    requires db.LinksValid() && 1 in db.entries && db.entries[1].name == "AB" && db.walks == Walks([1], [1])
    ensures db.Unlinked(1) == Walks([], [1])
  {
    HashValues();
    assert [1] == [1] + [];
    FirstOff(db, 1, 605, []);
  }

  method OneLeft() returns (db: Database)
    ensures fresh(db) && db.Serviceable() && Named(db.entries, map[1 := "AB"])
    ensures db.order == [1] && db.itemsused == 2 && db.walks == Walks([1], [1])
  {
    db := StrayLeft();
    TwoOff(db);
    NamesOfTwo();
    Drop(db, 2, Walks([1], [1]), map[1 := "AB", 2 := "X"]);
  }

  lemma TwoOff(db: Database)
    requires db.LinksValid() && 2 in db.entries && db.entries[2].name == "X" && db.walks == Walks([1], [2, 1])
    ensures db.Unlinked(2) == Walks([1], [1])
  {
    HashValues();
    assert [2, 1] == [2] + [1];
    FirstOff(db, 2, 124, [1]);
  }

  /** A new entry takes a slot that the thread of its name still visits. */
  method Reuse(db: Database, name: string, ghost names: map<nat, string>) returns (ep: nat)
    requires db.Serviceable() && Named(db.entries, names) && name != [] && Nameable(name)
    requires db.itemsused in db.walks[HashOf(name)]
    modifies db
    ensures db.StoreValid() && Named(db.entries, names[ep := name]) && ep == old(db.itemsused) < |db.itab|
    ensures OutOfService(db.itab, db.hashtbl, db.entries, db.names) && Endless(db.itab, db.hashtbl[HashOf(name)])
    ensures db.itab[ep].nexthash == old(db.hashtbl)[HashOf(name)] && db.hashtbl[HashOf(name)] == ep
  {
    ghost var entries := db.entries;
    ep := db.AddEntry(name, [], [], []);
    NamedWith(entries, names, ep, Entry(name, [], [], []));
  }

  /** A stray that is deleted is still visited, which no lookup notices; when its slot is used
      again for a name of the thread that visits it, it links to itself. */
  method ReusedSlotMakesCircle() returns (db: Database)
    ensures db.StoreValid() && Named(db.entries, map[1 := "XY"]) && 1 < |db.itab|
    ensures OutOfService(db.itab, db.hashtbl, db.entries, db.names)
    ensures db.itab[1].nexthash == db.hashtbl[HashOf("XZ")] == 1 && Endless(db.itab, db.hashtbl[HashOf("XZ")])
  {
    db := StrayDeleted();
    HashValues();
    assert 1 in db.walks[124];
    var ep := Reuse(db, "XY", map[]);
  }

  /** An entry loses its name; its link stays. */
  method TakeName(db: Database, ep: nat, ghost names: map<nat, string>)
    requires db.Serviceable() && Named(db.entries, names) && ep in db.entries && ep < |db.itab|
    modifies db
    ensures db.Serviceable() && Named(db.entries, names[ep := []]) && db.walks == old(db.Unlinked(ep))
    ensures ep < |db.itab| && db.itab[ep].nexthash == old(db.itab[ep].nexthash)
  {
    ghost var entries := db.entries;
    var status := db.RenameEntry(ep, []);
    NamedWith(entries, names, ep, entries[ep].(name := []));
  }

  /** The newer of two entries on one thread. */
  method NameTaken() returns (db: Database)
    ensures fresh(db) && db.Serviceable() && LinkEnds(db.itab, 2, [1])
    ensures Named(db.entries, map[1 := "AB", 2 := ""]) && db.walks == Walks([1], [])
  {
    db := TwoOnOneThread();
    LinkOfTwo(db);
    NamesOfTwo();
    TakeName(db, 2, map[1 := "AB", 2 := "AC"]);
    assert ChainOk(db.itab, db.hashtbl[605], db.walks[605]);
  }

  lemma LinkOfTwo(db: Database)
    requires db.LinksValid() && db.walks == Walks([2, 1], []) && 2 in db.entries && db.entries[2].name == "AC"
    ensures 2 < |db.itab| && db.itab[2].nexthash == 1 && db.Unlinked(2) == Walks([1], [])
    ensures LinkRest(db.itab, 2) == [1]
  {
    HashValues();
    assert ChainOk(db.itab, db.hashtbl[605], db.walks[605]);
    assert db.itab[db.walks[605][0]].nexthash == db.walks[605][1];
    assert [2, 1] == [2] + [1];
    FirstOff(db, 2, 605, [1]);
  }

  /** The first entry of a thread is deleted. */
  method DeleteFirst(db: Database, ep: nat, ghost h: nat, ghost walks: seq<seq<nat>>, ghost names: map<nat, string>)
    requires db.Serviceable() && Named(db.entries, names) && ep in db.entries && walks == db.Unlinked(ep)
    requires db.entries[ep].name != [] && HashOf(db.entries[ep].name) == h && db.walks[h] != [] && db.walks[h][0] == ep
    modifies db
    ensures db.Serviceable() && db.walks == walks && Named(db.entries, names - {ep}) && db.names == old(db.names)
    ensures SameHashLinks(old(db.itab), db.itab)
  {
    db.FirstKeepsLinks(ep);
    ghost var entries := db.entries;
    var status := db.DeleteEntry(ep);
    NamedMinus(entries, names, ep);
  }

  /** Then the other one is deleted: the link of the nameless entry leads to where it was. */
  method NamelessLeft() returns (db: Database)
    ensures fresh(db) && db.Serviceable() && Named(db.entries, map[2 := ""]) && db.walks == Walks([], [])
    ensures 2 < |db.names| && db.names[1] == "AB" && LinkEnds(db.itab, 2, [1])
  {
    db := NameTaken();
    OnlyOneVisited(db);
    NamesOfTwo();
    ghost var itab := db.itab;
    DeleteFirst(db, 1, 605, Walks([], []), map[1 := "AB", 2 := ""]);
    ChainFrame(itab, db.itab, 1, [1]);
  }

  lemma OnlyOneVisited(db: Database)
    requires db.LinksValid() && Named(db.entries, map[1 := "AB", 2 := ""]) && db.walks == Walks([1], [])
    requires 2 < |db.itab|
    ensures HashOf("AB") == 605 && db.Unlinked(1) == Walks([], [])
    ensures 2 < |db.names| && db.names[1] == "AB"
  {
    HashValues();
    assert 1 in map[1 := "AB", 2 := ""] && [1] == [1] + [];
    FirstOff(db, 1, 605, []);
  }

  /** What decides when that entry is named again is the name left in the slot it leads to. */
  lemma StaleLinkFacts(db: Database)
    requires db.Serviceable() && Named(db.entries, map[2 := ""]) && db.walks == Walks([], [])
    requires 2 < |db.names| && db.names[1] == "AB" && LinkEnds(db.itab, 2, [1])
    ensures 2 in db.entries && 2 < |db.itab|
    ensures !db.RenameServes(2, "AZ") && db.RenameEnds(2, "AZ") && db.RenameServes(2, "X")
    ensures Moved(db.Unlinked(2), 2, HashOf("AZ"), LinkRest(db.itab, 2)) == Walks([2, 1], [])
    ensures Moved(db.Unlinked(2), 2, HashOf("X"), LinkRest(db.itab, 2)) == Walks([], [2, 1])
  {
    HashValues();
    assert 2 in map[2 := ""];
    assert 1 in [1] && 1 !in db.entries;
    AloneMoved();
  }

  lemma AloneMoved()
    ensures Moved(Walks([], []), 2, 605, [1]) == Walks([2, 1], [])
    ensures Moved(Walks([], []), 2, 124, [1]) == Walks([], [2, 1])
  {
    assert [2] + [1] == [2, 1];
  }

  /** An entry keeps its link when its name is taken away.  If what that leads to has been deleted
      when it is named again, a lookup of the deleted name on the same thread finds what is not
      there any more. */
  method NamelessLinkIsStale() returns (db: Database, ep: nat)
    ensures db.StoreValid() && Named(db.entries, map[2 := "AZ"])
    ensures db.LooksUp("AB", [1]) && ep == 1 && ep !in db.entries
  {
    db := NamelessLeft();
    HashValues();
    StaleLinkFacts(db);
    NamesOfTwo();
    Strand(db, 2, "AZ", Walks([2, 1], []), map[2 := ""]);
    StaleFound(db.itab, db.hashtbl, db.names);
    assert db.LooksUp("AB", [1]);
    ep := db.Lookup("AB", 0);
    assert db.LooksUp("AB", [1]);
  }

  lemma StaleFound(itab: seq<Item>, hashtbl: seq<nat>, names: seq<string>)
    requires WalksOk(itab, hashtbl, Walks([2, 1], [])) && 2 < |names| && names[1] == "AB" && names[2] == "AZ"
    ensures LookedUp(itab, hashtbl, names, "AB", [1])
  {
    HashValues();
    assert Lower("AB")[1] == 'b' && Lower("AZ")[1] == 'z';
    assert [2, 1][1..] == [1] && [1][1..] == [];
    assert Matching([1], names, "AB") == [1];
    assert Matching([2, 1], names, "AB") == [1];
    assert ChainOk(itab, hashtbl[605], Walks([2, 1], [])[605]);
  }

  /** Named again for another thread, it leads that to the deleted entry, and lookups are right:
      what is stored there is no name of that thread. */
  method StaleLinkUnnoticed() returns (db: Database)
    ensures db.Serviceable() && Named(db.entries, map[2 := "X"])
    ensures db.walks == Walks([], [2, 1]) && !Living(db.walks, db.entries)
  {
    db := NamelessLeft();
    HashValues();
    StaleLinkFacts(db);
    NamesOfTwo();
    Rename(db, 2, "X", Walks([], [2, 1]), map[2 := ""]);
    assert 1 in db.walks[124];
  }
}
