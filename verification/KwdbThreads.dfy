/** The hash threads of a keyword database (mosdca/kwdb.c).  A thread is entered through the hash
    table and followed along the `nexthash` links.  What it visits first are its own entries; since
    a renamed entry can take its old link along, strays may follow: entries of other threads, or
    entries that were deleted.  Strays do not disturb lookups as long as no deleted one has a name
    of the thread that visits it, but they decide which later operations are safe. */
module KwdbThreads {
  import opened Text
  import opened KwdbModel

  /** Starting from the hash table, the links visit exactly `walks`. */
  ghost predicate WalksOk(itab: seq<Item>, hashtbl: seq<nat>, walks: seq<seq<nat>>) {
    |hashtbl| == |walks| == NTHREADS && forall h :: 0 <= h < NTHREADS ==> ChainOk(itab, hashtbl[h], walks[h])
  }

  /** Every walk begins with the entries of its own thread. */
  ghost predicate Leads(walks: seq<seq<nat>>, chains: seq<seq<nat>>) {
    |walks| == |chains| == NTHREADS && forall h :: 0 <= h < NTHREADS ==> chains[h] <= walks[h]
  }

  /** Nothing that was deleted is visited. */
  ghost predicate Living(walks: seq<seq<nat>>, entries: Entries) {
    forall h, x {:trigger x in walks[h]} :: 0 <= h < |walks| && x in walks[h] ==> x in entries
  }

  /** A search on thread `h` passes over slot `x`: what is stored there is no name of that thread. */
  predicate Quiet(names: seq<string>, x: nat, h: nat) {
    x < |names| ==> names[x] == [] || HashOf(names[x]) != h
  }

  /** Of what a thread visits, what was deleted is passed over by every search. */
  ghost predicate Harmless(walks: seq<seq<nat>>, entries: Entries, names: seq<string>) {
    forall h, x {:trigger x in walks[h]} :: 0 <= h < |walks| && x in walks[h] && x !in entries ==> Quiet(names, x, h)
  }

  /** The threads serve lookups: each visits its own entries first, and then strays that no search
      on it takes for something else. */
  ghost predicate ThreadsServe(itab: seq<Item>, hashtbl: seq<nat>, walks: seq<seq<nat>>, chains: seq<seq<nat>>,
                               entries: Entries, names: seq<string>) {
    && WalksOk(itab, hashtbl, walks)
    && Leads(walks, chains)
    && PlacesOk(chains, PlaceOf(entries))
    && |names| == |itab| && NamesAgree(entries, names)
    && Harmless(walks, entries, names)
  }

  /** Every lookup of `key` ends, and instance by instance it finds `found`. */
  ghost predicate LookedUp(itab: seq<Item>, hashtbl: seq<nat>, names: seq<string>, key: string, found: seq<nat>)
    requires |hashtbl| == NTHREADS
  {
    exists walk :: ChainOk(itab, hashtbl[HashOf(key)], walk) && Matching(walk, names, key) == found
  }

  /** All live entries named `key`, and nothing else. */
  ghost predicate Rightly(found: seq<nat>, entries: Entries, key: string) {
    forall x :: x in found <==> x in entries && SameName(entries[x].name, key)
  }

  /** Every lookup of `key` ends and finds what it should. */
  ghost predicate Answered(itab: seq<Item>, hashtbl: seq<nat>, entries: Entries, names: seq<string>, key: string)
    requires |hashtbl| == NTHREADS
  {
    exists walk :: ChainOk(itab, hashtbl[HashOf(key)], walk) && Rightly(Matching(walk, names, key), entries, key)
  }

  /** Some lookup does not end, or finds something else than the live entries of its name. */
  ghost predicate OutOfService(itab: seq<Item>, hashtbl: seq<nat>, entries: Entries, names: seq<string>) {
    |hashtbl| == NTHREADS && exists key :: key != [] && !Answered(itab, hashtbl, entries, names, key)
  }

  /** The threads hold their own entries and nothing else. */
  ghost predicate ThreadsTidy(itab: seq<Item>, hashtbl: seq<nat>, chains: seq<seq<nat>>, entries: Entries,
                              names: seq<string>) {
    ThreadsServe(itab, hashtbl, chains, chains, entries, names)
  }

  /** No reading of the links is tidy. */
  ghost predicate Untidy(itab: seq<Item>, hashtbl: seq<nat>, entries: Entries, names: seq<string>) {
    forall chains :: !ThreadsTidy(itab, hashtbl, chains, entries, names)
  }

  // ----- walks are determined by the links -----

  lemma {:induction false} ChainUnique(itab: seq<Item>, first: nat, a: seq<nat>, b: seq<nat>)
    requires ChainOk(itab, first, a) && ChainOk(itab, first, b)
    ensures a == b
    decreases |a|
  {
    if a != [] {
      ChainTail(itab, first, a);
      ChainTail(itab, first, b);
      ChainUnique(itab, itab[first].nexthash, a[1..], b[1..]);
      assert a == [first] + a[1..] && b == [first] + b[1..];
    }
  }

  lemma {:induction false} ChainFrom(itab: seq<Item>, first: nat, chain: seq<nat>, i: nat)
    requires ChainOk(itab, first, chain) && i < |chain|
    ensures ChainOk(itab, chain[i], chain[i..]) && ChainOk(itab, itab[chain[i]].nexthash, chain[i + 1..])
    decreases i
  {
    ChainTail(itab, first, chain);
    if i > 0 {
      ChainFrom(itab, itab[first].nexthash, chain[1..], i - 1);
      assert chain[1..][i - 1..] == chain[i..] && chain[1..][i..] == chain[i + 1..];
    }
  }

  /** Two walks that meet go on together. */
  lemma SharedTail(itab: seq<Item>, f1: nat, a: seq<nat>, i: nat, f2: nat, b: seq<nat>, j: nat)
    requires ChainOk(itab, f1, a) && ChainOk(itab, f2, b) && i < |a| && j < |b| && a[i] == b[j]
    ensures a[i..] == b[j..]
  {
    ChainFrom(itab, f1, a, i);
    ChainFrom(itab, f2, b, j);
    ChainUnique(itab, a[i], a[i..], b[j..]);
  }

  lemma WalksFrame(itab: seq<Item>, itab': seq<Item>, hashtbl: seq<nat>, walks: seq<seq<nat>>)
    requires WalksOk(itab, hashtbl, walks) && |itab| <= |itab'|
    requires forall h, x {:trigger x in walks[h]} :: 0 <= h < NTHREADS && x in walks[h] && x < |itab| ==>
               itab'[x].nexthash == itab[x].nexthash
    ensures WalksOk(itab', hashtbl, walks)
  {
    forall h | 0 <= h < NTHREADS ensures ChainOk(itab', hashtbl[h], walks[h]) {
      ChainFrame(itab, itab', hashtbl[h], walks[h]);
    }
  }

  // ----- an item taken off its thread -----

  /** Where `x` is in `s`. */
  function Index(s: seq<nat>, x: nat): (j: nat)
    requires x in s
    ensures j < |s| && s[j] == x
  {
    if s[0] == x then 0 else 1 + Index(s[1..], x)
  }

  lemma IndexBeyond(s: seq<nat>, whole: seq<nat>, x: nat)
    requires s <= whole && x in whole && x !in s
    ensures Index(whole, x) >= |s|
  {
    var i := Index(whole, x);
    assert forall k :: 0 <= k < |s| ==> s[k] == whole[k];
  }

  /** What thread `g` visits once the link that leads to item `j` of thread `h` passes it over. */
  function PassedBy(walks: seq<seq<nat>>, h: nat, j: nat, g: nat): seq<nat>
    requires h < |walks| && g < |walks| && j < |walks[h]|
  {
    if g == h then Cut(walks[h], j)
    else if j > 0 && walks[h][j - 1] in walks[g] then Without(walks[g], walks[h][j])
    else walks[g]
  }

  function Passed(walks: seq<seq<nat>>, h: nat, j: nat): (r: seq<seq<nat>>)
    requires h < |walks| && j < |walks[h]|
    ensures |r| == |walks| && forall g :: 0 <= g < |r| ==> r[g] == PassedBy(walks, h, j, g)
  {
    seq(|walks|, g requires 0 <= g < |walks| => PassedBy(walks, h, j, g))
  }

  /** Two threads that share the item before `ep` share `ep`. */
  lemma NextShared(itab: seq<Item>, f1: nat, a: seq<nat>, j: nat, f2: nat, b: seq<nat>, i: nat)
    requires ChainOk(itab, f1, a) && ChainOk(itab, f2, b) && 0 < j < |a| && i < |b| && a[j - 1] == b[i]
    ensures i + 1 < |b| && b[i + 1] == a[j]
  {
    assert itab[a[j - 1]].nexthash == if j - 1 + 1 < |a| then a[j - 1 + 1] else 0;
    assert itab[b[i]].nexthash == if i + 1 < |b| then b[i + 1] else 0;
  }

  /** Another thread that shares the item before item `j` of `walk`. */
  lemma ChainSharing(itab: seq<Item>, first: nat, walk: seq<nat>, j: nat, f2: nat, other: seq<nat>)
    requires ChainOk(itab, first, walk) && ChainOk(itab, f2, other) && 0 < j < |walk| && walk[j - 1] in other
    ensures ChainOk(OffThread(itab, walk, j), f2, Without(other, walk[j]))
  {
    var i := Index(other, walk[j - 1]);
    NextShared(itab, first, walk, j, f2, other, i);
    ChainRemove(itab, f2, other, i + 1, OffThread(itab, walk, j));
    WithoutAt(other, i + 1);
  }

  lemma ChainPassed(itab: seq<Item>, f1: nat, f2: nat, walks: seq<seq<nat>>, h: nat, j: nat, g: nat)
    requires h < |walks| && j < |walks[h]| && g < |walks|
    requires ChainOk(itab, f1, walks[h]) && ChainOk(itab, f2, walks[g]) && (g == h ==> f1 == f2)
    ensures ChainOk(OffThread(itab, walks[h], j), if j == 0 && g == h then itab[walks[h][0]].nexthash else f2,
                    PassedBy(walks, h, j, g))
  {
    var w, itab' := walks[h], OffThread(itab, walks[h], j);
    if g == h {
      ChainRemove(itab, f1, w, j, itab');
    } else if j > 0 && w[j - 1] in walks[g] {
      ChainSharing(itab, f1, w, j, f2, walks[g]);
    } else {
      ChainFrame(itab, itab', f2, walks[g]);
    }
  }

  lemma WalksPassed(itab: seq<Item>, hashtbl: seq<nat>, walks: seq<seq<nat>>, h: nat, j: nat)
    requires WalksOk(itab, hashtbl, walks) && h < NTHREADS && j < |walks[h]|
    requires ChainOk(itab, hashtbl[h], walks[h])
    ensures WalksOk(OffThread(itab, walks[h], j),
                    if j == 0 then hashtbl[h := itab[walks[h][0]].nexthash] else hashtbl, Passed(walks, h, j))
  {
    var itab' := OffThread(itab, walks[h], j);
    var hashtbl' := if j == 0 then hashtbl[h := itab[walks[h][0]].nexthash] else hashtbl;
    forall g | 0 <= g < NTHREADS ensures ChainOk(itab', hashtbl'[g], Passed(walks, h, j)[g]) {
      assert ChainOk(itab, hashtbl[g], walks[g]);
      ChainPassed(itab, hashtbl[h], hashtbl[g], walks, h, j, g);
    }
  }

  lemma PrefixCut(s: seq<nat>, whole: seq<nat>, j: nat)
    requires s <= whole && j < |whole|
    ensures j < |s| ==> Cut(s, j) <= Cut(whole, j)
    ensures j >= |s| ==> s <= Cut(whole, j)
  {
    assert s == whole[..|s|];
  }

  lemma LeadPassed(itab: seq<Item>, hashtbl: seq<nat>, walks: seq<seq<nat>>, chains: seq<seq<nat>>,
                   place: map<nat, nat>,
                   h: nat, j: nat, g: nat)
    requires WalksOk(itab, hashtbl, walks) && Leads(walks, chains) && PlacesOk(chains, place)
    requires h < NTHREADS && g < NTHREADS && j < |chains[h]| <= |walks[h]|
    requires ChainOk(itab, hashtbl[h], walks[h]) && ChainOk(itab, hashtbl[g], walks[g])
    ensures (if g == h then Cut(chains[h], j) else chains[g]) <= PassedBy(walks, h, j, g)
  {
    var w := walks[h];
    if g == h {
      PrefixCut(chains[h], w, j);
    } else if j > 0 && w[j - 1] in walks[g] {
      assert w[j - 1] == chains[h][j - 1];
      assert chains[h][j - 1] in chains[h] && w[j - 1] !in chains[g];
      LeadShared(itab, hashtbl[h], w, j, hashtbl[g], walks[g], chains[g]);
    }
  }

  lemma LeadShared(itab: seq<Item>, first: nat, walk: seq<nat>, j: nat, f2: nat, other: seq<nat>, own: seq<nat>)
    requires ChainOk(itab, first, walk) && ChainOk(itab, f2, other) && 0 < j < |walk|
    requires walk[j - 1] in other && own <= other && walk[j - 1] !in own
    ensures own <= Without(other, walk[j])
  {
    var i := Index(other, walk[j - 1]);
    NextShared(itab, first, walk, j, f2, other, i);
    WithoutAt(other, i + 1);
    IndexBeyond(own, other, walk[j - 1]);
    PrefixCut(own, other, i + 1);
  }

  lemma LeadsPassed(itab: seq<Item>, hashtbl: seq<nat>, walks: seq<seq<nat>>, chains: seq<seq<nat>>,
                    place: map<nat, nat>,
                    h: nat, j: nat)
    requires WalksOk(itab, hashtbl, walks) && Leads(walks, chains) && PlacesOk(chains, place)
    requires h < NTHREADS && j < |chains[h]| <= |walks[h]|
    ensures Leads(Passed(walks, h, j), chains[h := Cut(chains[h], j)])
  {
    assert ChainOk(itab, hashtbl[h], walks[h]);
    forall g | 0 <= g < NTHREADS ensures chains[h := Cut(chains[h], j)][g] <= Passed(walks, h, j)[g] {
      assert ChainOk(itab, hashtbl[g], walks[g]);
      LeadPassed(itab, hashtbl, walks, chains, place, h, j, g);
    }
  }

  lemma PlaceRemove(chains: seq<seq<nat>>, place: map<nat, nat>, h: nat, j: nat)
    requires |chains| == NTHREADS && PlacesOk(chains, place) && h < NTHREADS && j < |chains[h]|
    requires forall a, b :: 0 <= a < b < |chains[h]| ==> chains[h][a] != chains[h][b]
    ensures PlacesOk(chains[h := Cut(chains[h], j)], place - {chains[h][j]})
  {
    CutMembers(chains[h], j);
    assert chains[h][j] in chains[h];
  }

  /** What is taken off one thread is not visited anywhere else that did not visit it before. */
  lemma HarmlessPassed(walks: seq<seq<nat>>, entries: Entries, names: seq<string>, h: nat, j: nat)
    requires |walks| == NTHREADS && Harmless(walks, entries, names) && h < NTHREADS && j < |walks[h]|
    ensures Harmless(Passed(walks, h, j), entries, names)
    ensures forall g, x {:trigger x in Passed(walks, h, j)[g]} :: 0 <= g < NTHREADS && x in Passed(walks, h, j)[g] ==>
              x in walks[g]
  {
    forall g, x | 0 <= g < NTHREADS && x in Passed(walks, h, j)[g] ensures x in walks[g] {
      WithoutMembers(walks[g], walks[h][j]);
    }
  }

  /** In a tidy database no other thread is affected. */
  lemma TidyPassed(chains: seq<seq<nat>>, place: map<nat, nat>, h: nat, j: nat)
    requires |chains| == NTHREADS && PlacesOk(chains, place) && h < NTHREADS && j < |chains[h]|
    ensures Passed(chains, h, j) == chains[h := Cut(chains[h], j)]
  {
    forall g | 0 <= g < NTHREADS ensures Passed(chains, h, j)[g] == chains[h := Cut(chains[h], j)][g] {
      if j > 0 {
        assert chains[h][j - 1] in chains[h];
      }
    }
  }

  // ----- an item put first on a thread -----

  /** What a thread visits once item `ep`, where it comes to it, leads on to `rest`. */
  function Through(walk: seq<nat>, ep: nat, rest: seq<nat>): (r: seq<nat>)
    ensures forall x :: x in r ==> x in walk || x in rest
    ensures ep !in walk ==> r == walk
  {
    if ep in walk then walk[..Index(walk, ep) + 1] + rest else walk
  }

  /** What the threads visit once `ep` is first on thread `k` and links to what was first there. */
  function Relinked(walks: seq<seq<nat>>, ep: nat, k: nat): (r: seq<seq<nat>>)
    requires k < |walks|
    ensures |r| == |walks|
    ensures forall g :: 0 <= g < |r| ==> r[g] == if g == k then [ep] + walks[k] else Through(walks[g], ep, walks[k])
  {
    seq(|walks|, g requires 0 <= g < |walks| => if g == k then [ep] + walks[k] else Through(walks[g], ep, walks[k]))
  }

  /** What the threads visit once item `ep` leads nowhere. */
  function Ended(walks: seq<seq<nat>>, ep: nat): (r: seq<seq<nat>>)
    ensures |r| == |walks| && forall g :: 0 <= g < |r| ==> r[g] == Through(walks[g], ep, [])
  {
    seq(|walks|, g requires 0 <= g < |walks| => Through(walks[g], ep, []))
  }

  /** What the threads visit once slot `ep` is taken by a new entry. */
  function Joined(walks: seq<seq<nat>>, ep: nat, name: string): (r: seq<seq<nat>>)
    requires |walks| == NTHREADS
    ensures |r| == NTHREADS
  {
    if name == [] then Ended(walks, ep) else Relinked(walks, ep, HashOf(name))
  }

  /** The tables before and after the link of `ep` was set. */
  ghost predicate OnlyLink(itab: seq<Item>, itab': seq<Item>, ep: nat, link: nat) {
    && |itab'| == |itab| && ep < |itab|
    && (forall i :: 0 <= i < |itab| && i != ep ==> itab'[i].nexthash == itab[i].nexthash)
    && itab'[ep].nexthash == link
  }

  lemma ChainAfter(itab: seq<Item>, itab': seq<Item>, ep: nat, link: nat, rest: seq<nat>)
    requires OnlyLink(itab, itab', ep, link) && 0 < ep && ChainOk(itab, link, rest) && ep !in rest
    ensures ChainOk(itab', ep, [ep] + rest)
  {
    ChainFrame(itab, itab', link, rest);
    var c := [ep] + rest;
    forall k | 0 <= k < |c| ensures itab'[c[k]].nexthash == if k + 1 < |c| then c[k + 1] else 0 {
      if k > 0 {
        assert c[k] == rest[k - 1];
        assert itab'[rest[k - 1]].nexthash == if k < |rest| then rest[k] else 0;
      }
    }
  }

  /** A walk that came to `ep` now goes on with `rest`. */
  lemma ChainThrough(itab: seq<Item>, itab': seq<Item>, ep: nat, first: nat, chain: seq<nat>, link: nat, rest: seq<nat>)
    requires OnlyLink(itab, itab', ep, link) && ChainOk(itab, link, rest) && ep !in rest
    requires ChainOk(itab, first, chain) && ep in chain
    ensures ChainOk(itab', first, chain[..Index(chain, ep) + 1] + rest)
  {
    var i := Index(chain, ep);
    var front := chain[..i + 1];
    var c := front + rest;
    forall k | 0 <= k < |c| ensures itab'[c[k]].nexthash == if k + 1 < |c| then c[k + 1] else 0 {
      if k < i {
        assert c[k] == chain[k] && c[k + 1] == chain[k + 1];
        assert itab[chain[k]].nexthash == if k + 1 < |chain| then chain[k + 1] else 0;
      } else if k > i {
        var r := k - i - 1;
        assert c[k] == rest[r] && rest[r] in rest && (k + 1 < |c| ==> c[k + 1] == rest[r + 1]);
        assert itab[rest[r]].nexthash == if r + 1 < |rest| then rest[r + 1] else 0;
      }
    }
    forall a, b | 0 <= a < b < |c| ensures c[a] != c[b] {
      if a <= i < b && chain[a] == rest[b - i - 1] {
        MeetsLater(itab, first, chain, i, link, rest, a, b - i - 1);
      }
    }
  }

  /** Two walks that meet before item `i` of the first one both come to that item. */
  lemma MeetsLater(itab: seq<Item>, f1: nat, chain: seq<nat>, i: nat, f2: nat, rest: seq<nat>, a: nat, b: nat)
    requires ChainOk(itab, f1, chain) && ChainOk(itab, f2, rest) && a <= i < |chain| && b < |rest|
    requires chain[a] == rest[b]
    ensures chain[i] in rest
  {
    SharedTail(itab, f1, chain, a, f2, rest, b);
    assert chain[a..][i - a] == chain[i];
    assert rest[b..][i - a] == rest[b + i - a];
  }

  lemma WalksRelinked(itab: seq<Item>, hashtbl: seq<nat>, walks: seq<seq<nat>>, itab': seq<Item>, ep: nat, k: nat)
    requires WalksOk(itab, hashtbl, walks) && k < NTHREADS && 0 < ep && ep !in walks[k]
    requires OnlyLink(itab, itab', ep, hashtbl[k])
    ensures WalksOk(itab', hashtbl[k := ep], Relinked(walks, ep, k))
  {
    assert ChainOk(itab, hashtbl[k], walks[k]);
    ChainAfter(itab, itab', ep, hashtbl[k], walks[k]);
    forall g | 0 <= g < NTHREADS && g != k ensures ChainOk(itab', hashtbl[g], Through(walks[g], ep, walks[k])) {
      assert ChainOk(itab, hashtbl[g], walks[g]);
      ThreadThrough(itab, itab', ep, hashtbl[g], walks[g], hashtbl[k], walks[k]);
    }
  }

  lemma ThreadThrough(itab: seq<Item>, itab': seq<Item>, ep: nat, first: nat, walk: seq<nat>, link: nat, rest: seq<nat>)
    requires OnlyLink(itab, itab', ep, link) && ChainOk(itab, link, rest) && ep !in rest && ChainOk(itab, first, walk)
    ensures ChainOk(itab', first, Through(walk, ep, rest))
  {
    if ep in walk {
      ChainThrough(itab, itab', ep, first, walk, link, rest);
    } else {
      ChainFrame(itab, itab', first, walk);
    }
  }

  lemma WalksEnded(itab: seq<Item>, hashtbl: seq<nat>, walks: seq<seq<nat>>, itab': seq<Item>, ep: nat)
    requires WalksOk(itab, hashtbl, walks) && OnlyLink(itab, itab', ep, 0)
    ensures WalksOk(itab', hashtbl, Ended(walks, ep))
  {
    forall g | 0 <= g < NTHREADS ensures ChainOk(itab', hashtbl[g], Through(walks[g], ep, [])) {
      assert ChainOk(itab, hashtbl[g], walks[g]);
      ThreadThrough(itab, itab', ep, hashtbl[g], walks[g], 0, []);
    }
  }

  lemma PlacePush(chains: seq<seq<nat>>, place: map<nat, nat>, ep: nat, k: nat)
    requires |chains| == NTHREADS && PlacesOk(chains, place) && ep !in place && k < NTHREADS
    ensures PlacesOk(chains[k := [ep] + chains[k]], place[ep := k])
  {
  }

  lemma LeadThrough(walk: seq<nat>, chain: seq<nat>, ep: nat, rest: seq<nat>)
    requires chain <= walk && ep !in chain
    ensures chain <= Through(walk, ep, rest)
  {
    if ep in walk {
      IndexBeyond(chain, walk, ep);
      assert chain <= walk[..Index(walk, ep) + 1];
    }
  }

  lemma LeadsRelinked(walks: seq<seq<nat>>, chains: seq<seq<nat>>, place: map<nat, nat>, ep: nat, k: nat)
    requires Leads(walks, chains) && PlacesOk(chains, place) && ep !in place && k < NTHREADS
    ensures Leads(Relinked(walks, ep, k), chains[k := [ep] + chains[k]])
  {
    forall g | 0 <= g < NTHREADS ensures chains[k := [ep] + chains[k]][g] <= Relinked(walks, ep, k)[g] {
      assert chains[g] <= walks[g] && ep !in chains[g];
      LeadThrough(walks[g], chains[g], ep, walks[k]);
    }
  }

  lemma LeadsEnded(walks: seq<seq<nat>>, chains: seq<seq<nat>>, place: map<nat, nat>, ep: nat)
    requires Leads(walks, chains) && PlacesOk(chains, place) && ep !in place
    ensures Leads(Ended(walks, ep), chains)
  {
    forall g | 0 <= g < NTHREADS ensures chains[g] <= Ended(walks, ep)[g] {
      assert chains[g] <= walks[g] && ep !in chains[g];
      LeadThrough(walks[g], chains[g], ep, []);
    }
  }

  /** The walks once `ep` is alone on thread `k` and its link leads on to `rest`. */
  lemma WalksAlone(itab: seq<Item>, hashtbl: seq<nat>, walks: seq<seq<nat>>, itab': seq<Item>, ep: nat, k: nat,
                   rest: seq<nat>)
    requires WalksOk(itab, hashtbl, walks) && k < NTHREADS && 0 < ep && walks[k] == []
    requires ep < |itab| && OnlyLink(itab, itab', ep, itab[ep].nexthash)
    requires ChainOk(itab, itab[ep].nexthash, rest) && ep !in rest
    ensures WalksOk(itab', hashtbl[k := ep], walks[k := [ep] + rest])
  {
    ChainAfter(itab, itab', ep, itab[ep].nexthash, rest);
    forall g | 0 <= g < NTHREADS && g != k ensures ChainOk(itab', hashtbl[g], walks[g]) {
      assert ChainOk(itab, hashtbl[g], walks[g]);
      ChainFrame(itab, itab', hashtbl[g], walks[g]);
    }
  }

  lemma LeadsAlone(walks: seq<seq<nat>>, chains: seq<seq<nat>>, ep: nat, k: nat, rest: seq<nat>)
    requires Leads(walks, chains) && k < NTHREADS && walks[k] == []
    ensures chains[k] == [] && Leads(walks[k := [ep] + rest], chains[k := [ep] + chains[k]])
  {
    assert chains[k] <= walks[k];
  }

  // ----- whether an entry can go to a thread -----

  /** The link of `ep` leads to `rest` and ends there, and does not come back to `ep`. */
  ghost predicate LinkEnds(itab: seq<Item>, ep: nat, rest: seq<nat>) {
    ep < |itab| && ChainOk(itab, itab[ep].nexthash, rest) && ep !in rest
  }

  /** Where the link of `ep` leads, if it ends. */
  ghost function LinkRest(itab: seq<Item>, ep: nat): (rest: seq<nat>)
    ensures forall r :: LinkEnds(itab, ep, r) ==> r == rest
  {
    if exists rest :: LinkEnds(itab, ep, rest) then
      var rest :| LinkEnds(itab, ep, rest);
      assert forall r :: LinkEnds(itab, ep, r) ==> r == rest by {
        forall r | LinkEnds(itab, ep, r) ensures r == rest {
          ChainUnique(itab, itab[ep].nexthash, r, rest);
        }
      }
      rest
    else []
  }

  /** No search on thread `k` takes what was deleted of `rest` for something else. */
  ghost predicate AllQuiet(rest: seq<nat>, entries: Entries, names: seq<string>, k: nat) {
    forall x :: x in rest && x !in entries ==> Quiet(names, x, k)
  }

  /** Whether `ep` can be put before what thread `k` visits: that does not lead back to it, and no
      other thread that visits `ep` is led to something deleted that has a name of that thread. */
  ghost predicate CanLink(walks: seq<seq<nat>>, entries: Entries, names: seq<string>, ep: nat, k: nat)
    requires k < |walks|
  {
    && ep !in walks[k]
    && forall g {:trigger walks[g]} :: 0 <= g < |walks| && g != k && ep in walks[g] ==>
         AllQuiet(walks[k], entries, names, g)
  }

  /** Whether `ep`, off its old thread, can go to thread `k`.  If something is there it is put
      before that; if nothing is there it keeps its old link, which must end and not lead to
      something deleted that has a name of thread `k`. */
  ghost predicate CanMove(itab: seq<Item>, walks: seq<seq<nat>>, entries: Entries, names: seq<string>, ep: nat, k: nat)
    requires k < |walks|
  {
    if walks[k] == [] then
      LinkEnds(itab, ep, LinkRest(itab, ep)) && AllQuiet(LinkRest(itab, ep), entries, names, k)
    else CanLink(walks, entries, names, ep, k)
  }

  /** Whether the links come to an end then. */
  ghost predicate MoveEnds(itab: seq<Item>, walks: seq<seq<nat>>, ep: nat, k: nat)
    requires k < |walks|
  {
    if walks[k] == [] then LinkEnds(itab, ep, LinkRest(itab, ep)) else ep !in walks[k]
  }

  /** The walks once `ep` is first on thread `k`; `rest` is where its old link leads. */
  function Moved(walks: seq<seq<nat>>, ep: nat, k: nat, rest: seq<nat>): (r: seq<seq<nat>>)
    requires k < |walks|
    ensures |r| == |walks|
  {
    if walks[k] == [] then walks[k := [ep] + rest] else Relinked(walks, ep, k)
  }

  /** The tables after `ep` was given a name on thread `k`. */
  ghost predicate PutFirst(itab: seq<Item>, hashtbl: seq<nat>, itab': seq<Item>, ep: nat, k: nat)
  {
    && |hashtbl| == NTHREADS && k < NTHREADS && 0 < ep < |itab|
    && OnlyLink(itab, itab', ep, if hashtbl[k] != 0 then hashtbl[k] else itab[ep].nexthash)
  }

  /** Tables in which `ep` is on no thread of its own; but for that they serve lookups. */
  ghost predicate ServeBut(itab: seq<Item>, hashtbl: seq<nat>, walks: seq<seq<nat>>, chains: seq<seq<nat>>,
                           entries: Entries, names: seq<string>, ep: nat) {
    && WalksOk(itab, hashtbl, walks) && Leads(walks, chains) && PlacesOk(chains, PlaceOf(entries) - {ep})
    && |names| == |itab| && NamesAgree(entries, names) && Harmless(walks, entries, names)
    && 0 < ep < |itab|
  }

  /** The entries once slot `ep` holds `e`. */
  lemma PlaceNew(entries: Entries, ep: nat, e: Entry)
    ensures PlaceOf(entries[ep := e]) ==
            if e.name == [] then PlaceOf(entries) - {ep} else (PlaceOf(entries) - {ep})[ep := HashOf(e.name)]
  {
  }

  /** `ep` is put before what its thread visits. */
  lemma ServesRelinked(itab: seq<Item>, hashtbl: seq<nat>, walks: seq<seq<nat>>, chains: seq<seq<nat>>,
                       entries: Entries, names: seq<string>, itab': seq<Item>, ep: nat, e: Entry)
    requires ServeBut(itab, hashtbl, walks, chains, entries, names, ep) && e.name != []
    requires CanLink(walks, entries, names, ep, HashOf(e.name)) && OnlyLink(itab, itab', ep, hashtbl[HashOf(e.name)])
    ensures var k := HashOf(e.name);
      ThreadsServe(itab', hashtbl[k := ep], Relinked(walks, ep, k), chains[k := [ep] + chains[k]], entries[ep := e],
                   names[ep := e.name])
  {
    var k, place := HashOf(e.name), PlaceOf(entries) - {ep};
    PlaceNew(entries, ep, e);
    PlacePush(chains, place, ep, k);
    WalksRelinked(itab, hashtbl, walks, itab', ep, k);
    LeadsRelinked(walks, chains, place, ep, k);
    HarmlessRelinked(walks, entries, names, ep, e);
  }

  lemma HarmlessRelinked(walks: seq<seq<nat>>, entries: Entries, names: seq<string>, ep: nat, e: Entry)
    requires |walks| == NTHREADS && Harmless(walks, entries, names) && ep < |names|
    requires CanLink(walks, entries, names, ep, HashOf(e.name))
    ensures Harmless(Relinked(walks, ep, HashOf(e.name)), entries[ep := e], names[ep := e.name])
  {
    var k := HashOf(e.name);
    var r := Relinked(walks, ep, k);
    forall g, x | 0 <= g < |r| && x in r[g] && x !in entries[ep := e] ensures Quiet(names[ep := e.name], x, g) {
      assert x in walks[g] || (ep in walks[g] && x in walks[k]);
    }
  }

  /** A nameless entry takes slot `ep`. */
  lemma ServesEnded(itab: seq<Item>, hashtbl: seq<nat>, walks: seq<seq<nat>>, chains: seq<seq<nat>>,
                    entries: Entries, names: seq<string>, itab': seq<Item>, ep: nat, e: Entry)
    requires ServeBut(itab, hashtbl, walks, chains, entries, names, ep) && e.name == []
    requires OnlyLink(itab, itab', ep, 0)
    ensures ThreadsServe(itab', hashtbl, Ended(walks, ep), chains, entries[ep := e], names[ep := e.name])
  {
    var place := PlaceOf(entries) - {ep};
    PlaceNew(entries, ep, e);
    WalksEnded(itab, hashtbl, walks, itab', ep);
    LeadsEnded(walks, chains, place, ep);
    var r := Ended(walks, ep);
    forall g, x | 0 <= g < |r| && x in r[g] && x !in entries[ep := e] ensures Quiet(names[ep := e.name], x, g) {
      assert x in walks[g];
    }
  }

  /** `ep` is alone on its thread, and `rest` is where its old link leads. */
  lemma ServesAlone(itab: seq<Item>, hashtbl: seq<nat>, walks: seq<seq<nat>>, chains: seq<seq<nat>>,
                    entries: Entries, names: seq<string>, itab': seq<Item>, ep: nat, e: Entry, rest: seq<nat>)
    requires ServeBut(itab, hashtbl, walks, chains, entries, names, ep) && e.name != []
    requires walks[HashOf(e.name)] == [] && OnlyLink(itab, itab', ep, itab[ep].nexthash)
    requires LinkEnds(itab, ep, rest) && AllQuiet(rest, entries, names, HashOf(e.name))
    ensures var k := HashOf(e.name);
      ThreadsServe(itab', hashtbl[k := ep], walks[k := [ep] + rest], chains[k := [ep] + chains[k]],
                   entries[ep := e], names[ep := e.name])
  {
    var k, place := HashOf(e.name), PlaceOf(entries) - {ep};
    PlaceNew(entries, ep, e);
    PlacePush(chains, place, ep, k);
    WalksAlone(itab, hashtbl, walks, itab', ep, k, rest);
    LeadsAlone(walks, chains, ep, k, rest);
    var r := walks[k := [ep] + rest];
    forall g, x | 0 <= g < |r| && x in r[g] && x !in entries[ep := e] ensures Quiet(names[ep := e.name], x, g) {
      assert g != k ==> x in walks[g];
    }
  }

  lemma WalksMoved(itab: seq<Item>, hashtbl: seq<nat>, walks: seq<seq<nat>>, itab': seq<Item>, ep: nat, k: nat)
    requires PutFirst(itab, hashtbl, itab', ep, k) && WalksOk(itab, hashtbl, walks) && MoveEnds(itab, walks, ep, k)
    ensures WalksOk(itab', hashtbl[k := ep], Moved(walks, ep, k, LinkRest(itab, ep)))
  {
    assert ChainOk(itab, hashtbl[k], walks[k]);
    if walks[k] == [] {
      WalksAlone(itab, hashtbl, walks, itab', ep, k, LinkRest(itab, ep));
    } else {
      WalksRelinked(itab, hashtbl, walks, itab', ep, k);
    }
  }

  lemma ServesMoved(itab: seq<Item>, hashtbl: seq<nat>, walks: seq<seq<nat>>, chains: seq<seq<nat>>, entries: Entries,
                    names: seq<string>, itab': seq<Item>, ep: nat, name: string)
    requires ServeBut(itab, hashtbl, walks, chains, entries, names, ep) && ep in entries && name != []
    requires PutFirst(itab, hashtbl, itab', ep, HashOf(name)) && CanMove(itab, walks, entries, names, ep, HashOf(name))
    ensures var k, rest := HashOf(name), LinkRest(itab, ep);
      ThreadsServe(itab', hashtbl[k := ep], Moved(walks, ep, k, rest), chains[k := [ep] + chains[k]],
                   entries[ep := entries[ep].(name := name)], names[ep := name])
  {
    var k, e := HashOf(name), entries[ep].(name := name);
    assert ChainOk(itab, hashtbl[k], walks[k]);
    if walks[k] == [] {
      ServesAlone(itab, hashtbl, walks, chains, entries, names, itab', ep, e, LinkRest(itab, ep));
    } else {
      ServesRelinked(itab, hashtbl, walks, chains, entries, names, itab', ep, e);
    }
  }

  // ----- what goes wrong otherwise -----

  /** A thread that runs in a circle answers none of its keys. */
  lemma NoAnswer(itab: seq<Item>, hashtbl: seq<nat>, entries: Entries, names: seq<string>, key: string)
    requires |hashtbl| == NTHREADS && key != [] && forall walk :: !ChainOk(itab, hashtbl[HashOf(key)], walk)
    ensures OutOfService(itab, hashtbl, entries, names)
  {
    assert !Answered(itab, hashtbl, entries, names, key);
  }

  /** A thread that visits something deleted that has a name of that thread finds it. */
  lemma WrongAnswer(itab: seq<Item>, hashtbl: seq<nat>, entries: Entries, names: seq<string>, h: nat, walk: seq<nat>,
                    x: nat)
    requires |hashtbl| == NTHREADS && h < NTHREADS && ChainOk(itab, hashtbl[h], walk)
    requires x in walk && x !in entries && !Quiet(names, x, h)
    ensures x in Matching(walk, names, names[x]) &&
              LookedUp(itab, hashtbl, names, names[x], Matching(walk, names, names[x]))
    ensures OutOfService(itab, hashtbl, entries, names)
  {
    var key := names[x];
    forall other | ChainOk(itab, hashtbl[HashOf(key)], other)
      ensures !Rightly(Matching(other, names, key), entries, key)
    {
      ChainUnique(itab, hashtbl[h], walk, other);
    }
    assert !Answered(itab, hashtbl, entries, names, key);
  }

  /** `ep` put before what leads back to it: the thread runs in a circle. */
  lemma StuckInCircle(itab: seq<Item>, hashtbl: seq<nat>, walk: seq<nat>, entries: Entries, names: seq<string>,
                      itab': seq<Item>, ep: nat, key: string)
    requires |hashtbl| == NTHREADS && key != [] && ChainOk(itab, hashtbl[HashOf(key)], walk) && ep in walk
    requires OnlyLink(itab, itab', ep, hashtbl[HashOf(key)])
    ensures OutOfService(itab', hashtbl[HashOf(key) := ep], entries, names) && Endless(itab', ep)
  {
    var first, hashtbl' := hashtbl[HashOf(key)], hashtbl[HashOf(key) := ep];
    CircleEndless(itab, itab', first, walk, ep);
    forall other ensures !ChainOk(itab', hashtbl'[HashOf(key)], other) {
      Circle(itab, itab', first, walk, ep, other);
    }
    NoAnswer(itab', hashtbl', entries, names, key);
  }

  /** Thread `g`, which visits `ep`, is led to `x`. */
  lemma StuckElsewhere(itab: seq<Item>, hashtbl: seq<nat>, walks: seq<seq<nat>>, entries: Entries, names: seq<string>,
                       itab': seq<Item>, ep: nat, k: nat, g: nat, x: nat)
    requires WalksOk(itab, hashtbl, walks) && k < NTHREADS && 0 < ep && ep !in walks[k]
    requires OnlyLink(itab, itab', ep, hashtbl[k])
    requires g < NTHREADS && g != k && ep in walks[g] && x in walks[k] && x !in entries && !Quiet(names, x, g)
    ensures OutOfService(itab', hashtbl[k := ep], entries, names)
  {
    WalksRelinked(itab, hashtbl, walks, itab', ep, k);
    var walk := Relinked(walks, ep, k)[g];
    assert x in walk;
    WrongAnswer(itab', hashtbl[k := ep], entries, names, g, walk, x);
  }

  /** If `ep` cannot be put before what thread `k` visits, doing so ends service: the thread runs
      in a circle, or another thread is led to something that it takes for its own. */
  lemma StuckLinked(itab: seq<Item>, hashtbl: seq<nat>, walks: seq<seq<nat>>, entries: Entries, names: seq<string>,
                    itab': seq<Item>, ep: nat, e: Entry)
    requires WalksOk(itab, hashtbl, walks) && 0 < ep < |names| && e.name != []
    requires OnlyLink(itab, itab', ep, hashtbl[HashOf(e.name)]) && !CanLink(walks, entries, names, ep, HashOf(e.name))
    ensures OutOfService(itab', hashtbl[HashOf(e.name) := ep], entries[ep := e], names[ep := e.name])
    ensures ep in walks[HashOf(e.name)] ==> Endless(itab', ep)
  {
    var k, entries', names' := HashOf(e.name), entries[ep := e], names[ep := e.name];
    assert ChainOk(itab, hashtbl[k], walks[k]);
    if ep in walks[k] {
      StuckInCircle(itab, hashtbl, walks[k], entries', names', itab', ep, e.name);
    } else {
      var g :| 0 <= g < NTHREADS && g != k && ep in walks[g] && !AllQuiet(walks[k], entries, names, g);
      var x :| x in walks[k] && x !in entries && !Quiet(names, x, g);
      StuckElsewhere(itab, hashtbl, walks, entries', names', itab', ep, k, g, x);
    }
  }

  /** If its old link runs in a circle, or leads to something deleted that has a name of the empty
      thread that `ep` goes to, that ends service as well. */
  lemma StuckAlone(itab: seq<Item>, hashtbl: seq<nat>, walks: seq<seq<nat>>, entries: Entries, names: seq<string>,
                   itab': seq<Item>, ep: nat, e: Entry)
    requires WalksOk(itab, hashtbl, walks) && 0 < ep < |itab| == |names| && e.name != []
    requires walks[HashOf(e.name)] == [] && OnlyLink(itab, itab', ep, itab[ep].nexthash)
    requires !CanMove(itab, walks, entries, names, ep, HashOf(e.name)) && Closed(itab')
    ensures OutOfService(itab', hashtbl[HashOf(e.name) := ep], entries[ep := e], names[ep := e.name])
    ensures !LinkEnds(itab, ep, LinkRest(itab, ep)) ==> Endless(itab', ep)
  {
    var k, rest := HashOf(e.name), LinkRest(itab, ep);
    var hashtbl', entries', names' := hashtbl[k := ep], entries[ep := e], names[ep := e.name];
    if LinkEnds(itab, ep, rest) {
      ChainAfter(itab, itab', ep, itab[ep].nexthash, rest);
      var x :| x in rest && x !in entries && !Quiet(names, x, k);
      WrongAnswer(itab', hashtbl', entries', names', k, [ep] + rest, x);
    } else {
      forall walk ensures !ChainOk(itab', ep, walk) {
        if ChainOk(itab', ep, walk) {
          LinkOfFirst(itab, itab', ep, walk);
          assert LinkEnds(itab, ep, walk[1..]);
        }
      }
      assert hashtbl'[k] == ep;
      NoAnswer(itab', hashtbl', entries', names', e.name);
      EndsOrNot(itab', ep);
    }
  }

  /** If `ep` could not go there, some lookup is wrong afterwards. */
  lemma StuckMoved(itab: seq<Item>, hashtbl: seq<nat>, walks: seq<seq<nat>>, entries: Entries, names: seq<string>,
                   itab': seq<Item>, ep: nat, name: string)
    requires ep in entries && name != [] && PutFirst(itab, hashtbl, itab', ep, HashOf(name)) && |names| == |itab|
    requires WalksOk(itab, hashtbl, walks) && !CanMove(itab, walks, entries, names, ep, HashOf(name)) && Closed(itab')
    ensures OutOfService(itab', hashtbl[HashOf(name) := ep], entries[ep := entries[ep].(name := name)],
                         names[ep := name])
    ensures !MoveEnds(itab, walks, ep, HashOf(name)) ==> Endless(itab', ep)
  {
    var k, e := HashOf(name), entries[ep].(name := name);
    assert ChainOk(itab, hashtbl[k], walks[k]);
    if walks[k] == [] {
      StuckAlone(itab, hashtbl, walks, entries, names, itab', ep, e);
    } else {
      StuckLinked(itab, hashtbl, walks, entries, names, itab', ep, e);
    }
  }

  lemma LinkOfFirst(itab: seq<Item>, itab': seq<Item>, ep: nat, chain: seq<nat>)
    requires 0 < ep < |itab| && OnlyLink(itab, itab', ep, itab[ep].nexthash) && ChainOk(itab', ep, chain)
    ensures chain != [] && chain[0] == ep && ep !in chain[1..] && ChainOk(itab, itab[ep].nexthash, chain[1..])
  {
    ChainTail(itab', ep, chain);
    ChainFrame(itab', itab, itab'[ep].nexthash, chain[1..]);
  }

  /** If `ep` is on the walk that its new link leads to, that walk runs in a circle. */
  lemma Circle(itab: seq<Item>, itab': seq<Item>, first: nat, walk: seq<nat>, ep: nat, chain: seq<nat>)
    requires ChainOk(itab, first, walk) && ep in walk && OnlyLink(itab, itab', ep, first)
    ensures !ChainOk(itab', ep, chain)
  {
    if ChainOk(itab', ep, chain) {
      ChainTail(itab', ep, chain);
      DistinctTail(chain);
      Follows(itab, itab', first, walk, ep, chain[1..]);
      assert false;
    }
  }

  /** Until it comes to `ep`, the walk is as before. */
  lemma {:induction false} Follows(itab: seq<Item>, itab': seq<Item>, first: nat, walk: seq<nat>, ep: nat,
                                   chain: seq<nat>)
    requires ChainOk(itab, first, walk) && ep in walk && |itab'| == |itab| && ChainOk(itab', first, chain)
    requires forall i :: 0 <= i < |itab| && i != ep ==> itab'[i].nexthash == itab[i].nexthash
    ensures ep in chain
    decreases |walk|
  {
    assert chain[0] == first == walk[0];
    if first != ep {
      ChainTail(itab, first, walk);
      ChainTail(itab', first, chain);
      Follows(itab, itab', itab[first].nexthash, walk[1..], ep, chain[1..]);
    }
  }

  /** The `n`-th item that the links visit, 0 once they have ended. */
  function Visit(itab: seq<Item>, first: nat, n: nat): nat {
    if n == 0 then first
    else
      var x := Visit(itab, first, n - 1);
      if 0 < x < |itab| then itab[x].nexthash else 0
  }

  /** A search that finds nothing never ends. */
  ghost predicate Endless(itab: seq<Item>, first: nat) {
    forall n: nat :: Visit(itab, first, n) != 0
  }

  lemma CircleEndless(itab: seq<Item>, itab': seq<Item>, first: nat, walk: seq<nat>, ep: nat)
    requires ChainOk(itab, first, walk) && ep in walk && OnlyLink(itab, itab', ep, first)
    ensures Endless(itab', ep)
  {
    forall n: nat ensures Visit(itab', ep, n) != 0 {
      var i := InCircle(itab, itab', first, walk, ep, n);
    }
  }

  lemma {:induction false} InCircle(itab: seq<Item>, itab': seq<Item>, first: nat, walk: seq<nat>, ep: nat, n: nat)
    returns (i: nat)
    requires ChainOk(itab, first, walk) && ep in walk && OnlyLink(itab, itab', ep, first)
    ensures i <= Index(walk, ep) && Visit(itab', ep, n) == walk[i]
  {
    var m := Index(walk, ep);
    if n == 0 {
      i := m;
    } else {
      var j := InCircle(itab, itab', first, walk, ep, n - 1);
      assert itab[walk[j]].nexthash == if j + 1 < |walk| then walk[j + 1] else 0;
      i := if j == m then 0 else j + 1;
    }
  }

  lemma {:induction false} VisitFurther(itab: seq<Item>, first: nat, n: nat, m: nat)
    ensures Visit(itab, Visit(itab, first, n), m) == Visit(itab, first, n + m)
  {
    if m > 0 {
      VisitFurther(itab, first, n, m - 1);
    }
  }

  /** Every link leads to a slot of the table. */
  ghost predicate Closed(itab: seq<Item>) {
    forall x :: 0 <= x < |itab| ==> itab[x].nexthash < |itab|
  }

  /** The links from an item either come to an end or go round for ever. */
  lemma EndsOrNot(itab: seq<Item>, first: nat)
    requires first < |itab| && Closed(itab)
    ensures Endless(itab, first) <==> !exists walk :: ChainOk(itab, first, walk)
  {
    if walk :| ChainOk(itab, first, walk) {
      EndOfWalk(itab, first, walk);
    } else if n :| Visit(itab, first, n) == 0 {
      var walk := WalkTo(itab, first, n);
    }
  }

  lemma {:induction false} EndOfWalk(itab: seq<Item>, first: nat, walk: seq<nat>)
    requires ChainOk(itab, first, walk)
    ensures Visit(itab, first, |walk|) == 0
    decreases |walk|
  {
    if walk != [] {
      ChainTail(itab, first, walk);
      EndOfWalk(itab, itab[first].nexthash, walk[1..]);
      assert Visit(itab, first, 1) == itab[first].nexthash by {
        assert Visit(itab, first, 0) == first;
      }
      VisitFurther(itab, first, 1, |walk| - 1);
    }
  }

  lemma {:induction false} WalkTo(itab: seq<Item>, first: nat, n: nat) returns (walk: seq<nat>)
    requires first < |itab| && Closed(itab) && Visit(itab, first, n) == 0
    ensures ChainOk(itab, first, walk)
    decreases n
  {
    if first == 0 {
      walk := [];
    } else {
      var next := itab[first].nexthash;
      assert Visit(itab, first, 1) == next by {
        assert Visit(itab, first, 0) == first;
      }
      VisitFurther(itab, first, 1, n - 1);
      var rest := WalkTo(itab, next, n - 1);
      NoReturn(itab, first, rest);
      walk := [first] + rest;
      forall k | 0 <= k < |walk| ensures itab[walk[k]].nexthash == if k + 1 < |walk| then walk[k + 1] else 0 {
        assert k > 0 ==> walk[k] == rest[k - 1] && itab[rest[k - 1]].nexthash == if k < |rest| then rest[k] else 0;
      }
    }
  }

  /** A walk that ends does not come back to the item before it. */
  lemma NoReturn(itab: seq<Item>, first: nat, rest: seq<nat>)
    requires 0 < first < |itab| && ChainOk(itab, itab[first].nexthash, rest)
    ensures first !in rest
  {
    if first in rest {
      var i := Index(rest, first);
      ChainFrom(itab, itab[first].nexthash, rest, i);
      ChainUnique(itab, itab[first].nexthash, rest, rest[i + 1..]);
    }
  }

  // ----- lookups -----

  /** What a search that ends visits. */
  lemma WalkFor(itab: seq<Item>, hashtbl: seq<nat>, names: seq<string>, key: string, found: seq<nat>)
    returns (walk: seq<nat>)
    requires |hashtbl| == NTHREADS && LookedUp(itab, hashtbl, names, key, found)
    ensures ChainOk(itab, hashtbl[HashOf(key)], walk) && Matching(walk, names, key) == found
    ensures forall other :: LookedUp(itab, hashtbl, names, key, other) ==> other == found
  {
    walk :| ChainOk(itab, hashtbl[HashOf(key)], walk) && Matching(walk, names, key) == found;
    forall other | LookedUp(itab, hashtbl, names, key, other) ensures other == found {
      SameAnswer(itab, hashtbl, names, key, other, found);
    }
  }

  lemma SameAnswer(itab: seq<Item>, hashtbl: seq<nat>, names: seq<string>, key: string, a: seq<nat>, b: seq<nat>)
    requires |hashtbl| == NTHREADS
    requires LookedUp(itab, hashtbl, names, key, a) && LookedUp(itab, hashtbl, names, key, b)
    ensures a == b
  {
    var first := hashtbl[HashOf(key)];
    var walk :| ChainOk(itab, first, walk) && Matching(walk, names, key) == a;
    var other :| ChainOk(itab, first, other) && Matching(other, names, key) == b;
    ChainUnique(itab, first, walk, other);
  }

  /** Strays never match what is looked up on their thread. */
  lemma WalkFinds(itab: seq<Item>, hashtbl: seq<nat>, walks: seq<seq<nat>>, chains: seq<seq<nat>>, entries: Entries,
                  names: seq<string>, key: string)
    requires ThreadsServe(itab, hashtbl, walks, chains, entries, names) && key != []
    ensures forall x :: x in chains[HashOf(key)] ==> x in entries
    ensures Matching(walks[HashOf(key)], names, key) == Matches(chains[HashOf(key)], entries, key)
  {
    var h := HashOf(key);
    var walk, chain := walks[h], chains[h];
    var strays := walk[|chain|..];
    assert ChainOk(itab, hashtbl[h], walk) && chain <= walk;
    assert walk == chain + strays;
    MatchingConcat(chain, strays, names, key);
    MatchingLive(chain, entries, names, key);
    forall x | x in strays && x < |names| ensures !SameName(names[x], key) {
      Stray(walk, chain, x);
      assert x in walks[h] && x !in chains[h];
      assert x in PlaceOf(entries) ==> PlaceOf(entries)[x] != h;
      StrayName(names[x], key);
    }
    NoneMatching(strays, names, key);
  }

  /** While the threads serve lookups, every one of them is answered. */
  lemma ServesAnswers(itab: seq<Item>, hashtbl: seq<nat>, walks: seq<seq<nat>>, chains: seq<seq<nat>>, entries: Entries,
                      names: seq<string>, key: string)
    requires ThreadsServe(itab, hashtbl, walks, chains, entries, names) && key != []
    ensures Answered(itab, hashtbl, entries, names, key)
  {
    var h := HashOf(key);
    WalkFinds(itab, hashtbl, walks, chains, entries, names, key);
    assert ChainOk(itab, hashtbl[h], walks[h]);
    forall x ensures x in Matching(walks[h], names, key) <==> x in entries && SameName(entries[x].name, key) {
      if x in entries && SameName(entries[x].name, key) {
        SameNameSameHash(entries[x].name, key);
        assert x in PlaceOf(entries);
      }
    }
  }

  lemma StrayName(name: string, key: string)
    requires key != [] && (name == [] || HashOf(name) != HashOf(key))
    ensures !SameName(name, key)
  {
    if SameName(name, key) {
      SameNameSameHash(name, key);
    }
  }

  lemma Stray(walk: seq<nat>, chain: seq<nat>, x: nat)
    requires chain <= walk && x in walk[|chain|..]
    requires forall a, b :: 0 <= a < b < |walk| ==> walk[a] != walk[b]
    ensures x in walk && x !in chain
  {
    var i := Index(walk[|chain|..], x);
    assert walk[|chain| + i] == x;
    assert forall j :: 0 <= j < |chain| ==> chain[j] == walk[j];
  }

  // ----- one operation at a time -----

  lemma DistinctPrefix(s: seq<nat>, whole: seq<nat>)
    requires s <= whole && forall a, b :: 0 <= a < b < |whole| ==> whole[a] != whole[b]
    ensures forall a, b :: 0 <= a < b < |s| ==> s[a] != s[b]
  {
    assert forall a :: 0 <= a < |s| ==> s[a] == whole[a];
  }

  /** A new entry in slot `index`, first on the thread of its name if it has one. */
  lemma ServesLinked(itab: seq<Item>, hashtbl: seq<nat>, walks: seq<seq<nat>>, chains: seq<seq<nat>>, entries: Entries,
                     names: seq<string>, tail: nat, index: nat, it: Item, e: Entry)
    requires ThreadsServe(itab, hashtbl, walks, chains, entries, names) && index !in entries
    requires 0 < index < |itab| && tail < |itab| && tail != index && it.nexthash == 0
    ensures var k, t := HashOf(e.name), AfterTail(itab, tail, index, it);
      var itab' := OnThread(t, index, if e.name == [] then 0 else hashtbl[k]);
      var hashtbl' := if e.name == [] then hashtbl else hashtbl[k := index];
      if e.name == [] || CanLink(walks, entries, names, index, k) then
        ThreadsServe(itab', hashtbl', Joined(walks, index, e.name), Renamed(chains, index, [], e.name),
                     entries[index := e], names[index := e.name])
      else OutOfService(itab', hashtbl', entries[index := e], names[index := e.name])
           && (if index in walks[k] then Endless(itab', index)
               else WalksOk(itab', hashtbl', Joined(walks, index, e.name)))
  {
    var k, t := HashOf(e.name), AfterTail(itab, tail, index, it);
    assert PlaceOf(entries) - {index} == PlaceOf(entries);
    if e.name == [] {
      ServesEnded(itab, hashtbl, walks, chains, entries, names, OnThread(t, index, 0), index, e);
    } else {
      var itab' := OnThread(t, index, hashtbl[k]);
      assert OnlyLink(itab, itab', index, hashtbl[k]);
      if CanLink(walks, entries, names, index, k) {
        ServesRelinked(itab, hashtbl, walks, chains, entries, names, itab', index, e);
      } else {
        StuckLinked(itab, hashtbl, walks, entries, names, itab', index, e);
        if index !in walks[k] {
          WalksRelinked(itab, hashtbl, walks, itab', index, k);
        }
      }
    }
  }

  /** The link of item `j` of a walk leads to the items behind it, and still does when the item is
      off that thread. */
  lemma RestOf(itab: seq<Item>, first: nat, walk: seq<nat>, j: nat)
    requires ChainOk(itab, first, walk) && j < |walk|
    ensures LinkEnds(itab, walk[j], walk[j + 1..]) && LinkRest(itab, walk[j]) == walk[j + 1..]
    ensures var itab' := OffThread(itab, walk, j);
      && itab'[walk[j]] == itab[walk[j]]
      && LinkEnds(itab', walk[j], walk[j + 1..]) && LinkRest(itab', walk[j]) == walk[j + 1..]
  {
    var ep, rest, itab' := walk[j], walk[j + 1..], OffThread(itab, walk, j);
    ChainFrom(itab, first, walk, j);
    ChainFrame(itab, itab', itab[ep].nexthash, rest);
    assert LinkEnds(itab, ep, rest) && LinkEnds(itab', ep, rest);
  }

  lemma NewOnThread(walks: seq<seq<nat>>, ep: nat, k: nat)
    requires k < |walks| && forall g :: 0 <= g < |walks| && g != k ==> ep !in walks[g]
    ensures Relinked(walks, ep, k) == walks[k := [ep] + walks[k]]
  {
  }

  /** A table that grew, or in which only strings and the list changed. */
  lemma ServesFrame(itab: seq<Item>, itab': seq<Item>, hashtbl: seq<nat>, walks: seq<seq<nat>>, chains: seq<seq<nat>>,
                    entries: Entries, entries': Entries, names: seq<string>, names': seq<string>)
    requires ThreadsServe(itab, hashtbl, walks, chains, entries, names) && |itab| <= |itab'| == |names'|
    requires forall i :: 0 <= i < |itab| ==> itab'[i].nexthash == itab[i].nexthash
    requires PlaceOf(entries') == PlaceOf(entries) && names <= names' && entries'.Keys == entries.Keys
    requires forall x :: x in entries ==> entries'[x].name == entries[x].name
    ensures ThreadsServe(itab', hashtbl, walks, chains, entries', names')
  {
    WalksFrame(itab, itab', hashtbl, walks);
    forall h, x | 0 <= h < |walks| && x in walks[h] && x !in entries' ensures Quiet(names', x, h) {
      assert ChainOk(itab, hashtbl[h], walks[h]);
      assert Quiet(names, x, h) && x < |names|;
    }
  }

  /** While no strays follow, a stale link in an entry that is alone on its thread leaves no tidy
      reading. */
  lemma StaleLink(itab: seq<Item>, hashtbl: seq<nat>, chains: seq<seq<nat>>, entries: Entries, names: seq<string>,
                  ep: nat, k: nat)
    requires k < NTHREADS && |hashtbl| == |chains| == NTHREADS && hashtbl[k] == ep && 0 < ep < |itab|
    requires PlacesOk(chains, PlaceOf(entries)) && chains[k] == [ep] && itab[ep].nexthash != 0
    ensures Untidy(itab, hashtbl, entries, names)
  {
    forall other ensures !ThreadsTidy(itab, hashtbl, other, entries, names) {
      if ThreadsTidy(itab, hashtbl, other, entries, names) {
        SecondOnThread(itab, ep, other[k]);
        SameThread(chains, other, PlaceOf(entries), k, itab[ep].nexthash);
      }
    }
  }

  lemma SameThread(chains: seq<seq<nat>>, other: seq<seq<nat>>, place: map<nat, nat>, k: nat, x: nat)
    requires |chains| == |other| == NTHREADS && PlacesOk(chains, place) && PlacesOk(other, place) && k < NTHREADS
    ensures x in other[k] ==> x in chains[k]
  {
  }

  lemma SecondOnThread(itab: seq<Item>, first: nat, chain: seq<nat>)
    requires ChainOk(itab, first, chain) && 0 < first < |itab| && itab[first].nexthash != 0
    ensures itab[first].nexthash in chain && itab[first].nexthash != first
  {
    assert chain[0] == first && itab[chain[0]].nexthash == if 1 < |chain| then chain[1] else 0;
    assert chain[1] in chain;
  }

  /** In a tidy database, putting an entry first on a thread that holds others, or one without a
      link on an empty thread, is all that happens. */
  lemma TidyMoved(itab: seq<Item>, chains: seq<seq<nat>>, entries: Entries, names: seq<string>, place: map<nat, nat>,
                  ep: nat, k: nat)
    requires |chains| == NTHREADS && PlacesOk(chains, place) && ep !in place && k < NTHREADS && ep < |itab|
    requires chains[k] != [] || itab[ep].nexthash == 0
    ensures CanMove(itab, chains, entries, names, ep, k)
    ensures Moved(chains, ep, k, LinkRest(itab, ep)) == chains[k := [ep] + chains[k]]
  {
    if chains[k] == [] {
      assert LinkEnds(itab, ep, []);
    } else {
      NewOnThread(chains, ep, k);
    }
  }

  lemma NeverTidy(itab: seq<Item>, hashtbl: seq<nat>, entries: Entries, names: seq<string>)
    requires OutOfService(itab, hashtbl, entries, names)
    ensures Untidy(itab, hashtbl, entries, names)
  {
    var key :| key != [] && !Answered(itab, hashtbl, entries, names, key);
    forall chains ensures !ThreadsTidy(itab, hashtbl, chains, entries, names) {
      if ThreadsTidy(itab, hashtbl, chains, entries, names) {
        ServesAnswers(itab, hashtbl, chains, chains, entries, names, key);
      }
    }
  }

  /** What becomes of tidy threads (`chains`, without `ep`) when `ep` goes to the thread of its new
      name: tidy again if others are there or it has no link, and beyond any tidy reading if not. */
  lemma TidyAfter(itab: seq<Item>, hashtbl: seq<nat>, chains: seq<seq<nat>>, entries: Entries, names: seq<string>,
                  ep: nat, name: string, itab': seq<Item>, serves: bool)
    requires ep in entries && ep < |names| && name != [] && PutFirst(itab, hashtbl, itab', ep, HashOf(name))
    requires WalksOk(itab, hashtbl, chains) && PlacesOk(chains, PlaceOf(entries) - {ep})
    requires serves == CanMove(itab, chains, entries, names, ep, HashOf(name))
    requires !serves ==> OutOfService(itab', hashtbl[HashOf(name) := ep], entries[ep := entries[ep].(name := name)],
                                      names[ep := name])
    ensures var k := HashOf(name);
      if chains[k] != [] || itab[ep].nexthash == 0 then
        serves && Moved(chains, ep, k, LinkRest(itab, ep)) == chains[k := [ep] + chains[k]]
      else Untidy(itab', hashtbl[k := ep], entries[ep := entries[ep].(name := name)], names[ep := name])
  {
    var k, place := HashOf(name), PlaceOf(entries) - {ep};
    var entries', names' := entries[ep := entries[ep].(name := name)], names[ep := name];
    assert ChainOk(itab, hashtbl[k], chains[k]);
    if chains[k] != [] || itab[ep].nexthash == 0 {
      TidyMoved(itab, chains, entries, names, place, ep, k);
    } else if serves {
      PlaceNew(entries, ep, entries[ep].(name := name));
      PlacePush(chains, place, ep, k);
      StaleLink(itab', hashtbl[k := ep], chains[k := [ep] + chains[k]], entries', names', ep, k);
    } else {
      NeverTidy(itab', hashtbl[k := ep], entries', names');
    }
  }

  // ----- all tables at once -----

  /** The links: item table, hash table, what the threads visit and which entries are on them. */
  datatype Tables = Tables(itab: seq<Item>, hashtbl: seq<nat>, walks: seq<seq<nat>>, chains: seq<seq<nat>>)

  /** Without `ep` the threads serve lookups. */
  ghost predicate Detached(t: Tables, entries: Entries, names: seq<string>, ep: nat) {
    ep in entries && ServeBut(t.itab, t.hashtbl, t.walks, t.chains, entries, names, ep)
  }

  /** The threads with `ep`, named `name`, put first on its own. */
  function Threaded(chains: seq<seq<nat>>, ep: nat, name: string): (r: seq<seq<nat>>)
    requires |chains| == NTHREADS
    ensures |r| == NTHREADS
  {
    if name == [] then chains else chains[HashOf(name) := [ep] + chains[HashOf(name)]]
  }

  /** What the threads visit then. */
  ghost function WalksThen(t: Tables, ep: nat, name: string): seq<seq<nat>>
    requires |t.walks| == NTHREADS
  {
    if name == [] then t.walks else Moved(t.walks, ep, HashOf(name), LinkRest(t.itab, ep))
  }

  /** The tables once `ep` was given the name `name`. */
  ghost function TablesMoved(t: Tables, itab': seq<Item>, ep: nat, name: string): Tables
    requires |t.hashtbl| == |t.walks| == |t.chains| == NTHREADS
  {
    Tables(itab', if name == [] then t.hashtbl else t.hashtbl[HashOf(name) := ep], WalksThen(t, ep, name),
           Threaded(t.chains, ep, name))
  }

  /** The item table then. */
  ghost predicate LinkedAnew(t: Tables, itab': seq<Item>, ep: nat, name: string) {
    if name == [] then ep < |t.itab| && OnlyLink(t.itab, itab', ep, t.itab[ep].nexthash)
    else PutFirst(t.itab, t.hashtbl, itab', ep, HashOf(name))
  }

  /** `t'` is `t` with `ep` put on the thread of `name`: in service or not as `serves` says, and if
      all was tidy, tidy again exactly when others are there or `ep` has no link. */
  ghost predicate Rethreaded(t: Tables, t': Tables, entries': Entries, names': seq<string>, ep: nat, name: string,
                             serves: bool, tidy: bool)
    requires |t.walks| == |t.chains| == NTHREADS && ep < |t.itab|
  {
    var k := HashOf(name);
    && |t'.hashtbl| == NTHREADS
    && t'.chains == Threaded(t.chains, ep, name)
    && t'.walks == WalksThen(t, ep, name)
    && (if serves then ThreadsServe(t'.itab, t'.hashtbl, t'.walks, t'.chains, entries', names')
        else OutOfService(t'.itab, t'.hashtbl, entries', names'))
    && (if name == [] || MoveEnds(t.itab, t.walks, ep, k) then WalksOk(t'.itab, t'.hashtbl, t'.walks)
        else Endless(t'.itab, t'.hashtbl[k]))
    && (tidy ==> if name == [] || t.chains[k] != [] || t.itab[ep].nexthash == 0 then serves && t'.walks == t'.chains
                 else Untidy(t'.itab, t'.hashtbl, entries', names'))
  }

  /** `ep` goes from `t` to the thread of its new name. */
  lemma AfterRelink(t: Tables, entries: Entries, names: seq<string>, ep: nat, name: string, serves: bool, tidy: bool,
                    itab': seq<Item>)
    requires Detached(t, entries, names, ep)
    requires serves == (name == [] || CanMove(t.itab, t.walks, entries, names, ep, HashOf(name)))
    requires (tidy ==> t.walks == t.chains) && LinkedAnew(t, itab', ep, name) && Closed(itab')
    ensures Rethreaded(t, TablesMoved(t, itab', ep, name), entries[ep := entries[ep].(name := name)],
                       names[ep := name], ep, name, serves, tidy)
  {
    var k := HashOf(name);
    if name == [] {
      NameTakenServes(t, entries, names, ep, itab');
    } else {
      if serves {
        ServesMoved(t.itab, t.hashtbl, t.walks, t.chains, entries, names, itab', ep, name);
      } else {
        StuckMoved(t.itab, t.hashtbl, t.walks, entries, names, itab', ep, name);
      }
      if MoveEnds(t.itab, t.walks, ep, k) {
        WalksMoved(t.itab, t.hashtbl, t.walks, itab', ep, k);
      }
      if tidy {
        TidyAfter(t.itab, t.hashtbl, t.chains, entries, names, ep, name, itab', serves);
      }
    }
  }

  /** An entry that is on no thread of its own loses its name. */
  lemma NameTakenServes(t: Tables, entries: Entries, names: seq<string>, ep: nat, itab': seq<Item>)
    requires Detached(t, entries, names, ep) && OnlyLink(t.itab, itab', ep, t.itab[ep].nexthash)
    ensures ThreadsServe(itab', t.hashtbl, t.walks, t.chains, entries[ep := entries[ep].(name := [])], names[ep := []])
  {
    PlaceNew(entries, ep, entries[ep].(name := []));
    WalksFrame(t.itab, itab', t.hashtbl, t.walks);
  }
}
