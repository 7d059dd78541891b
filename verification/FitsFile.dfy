/** The file emulation over a mapped image file (mosdca/dsim.c, ds_*), and the reading and writing
    of whole headers through it (mosdca/kwdb.c, kwdb_ReadFITS and kwdb_WriteFITS). */
module FitsFile {
  import opened Arithmetic
  import opened Text
  import opened KwdbModel
  import opened Kwdb
  import opened FitsCard
  import opened FitsCardIO
  import opened FitsColumns

  const MAX_FD: nat := 32

  datatype Slot = Slot(used: bool, fpos: int)

  class MappedFile {
    var data: seq<char>
    var fdtable: seq<Slot>

    ghost predicate Valid()
      reads this
    {
      |fdtable| == MAX_FD
    }

    ghost predicate NoneOpen()
      reads this
    {
      Valid() && forall i :: 0 <= i < MAX_FD ==> !fdtable[i].used
    }

    /** Slot 0 is open at byte `pos` of the file. */
    ghost predicate OpenAt(pos: nat)
      reads this
    {
      Valid() && fdtable[0] == Slot(true, pos) && pos <= |data|
      && forall i :: 0 < i < MAX_FD ==> !fdtable[i].used
    }

    /** Slot 0 is open somewhere in the file. */
    ghost predicate IsOpen()
      reads this
    {
      Valid() && fdtable[0].used && 0 <= fdtable[0].fpos <= |data|
      && forall i :: 0 < i < MAX_FD ==> !fdtable[i].used
    }

    /** `ds_open`: the first free slot, or -1. */
    method Open() returns (fd: int)
      requires Valid()
      modifies `fdtable
      ensures Valid()
      ensures fd == -1 <==> forall i :: 0 <= i < MAX_FD ==> old(fdtable)[i].used
      ensures fd != -1 ==> 0 <= fd < MAX_FD && !old(fdtable)[fd].used && fdtable == old(fdtable)[fd := Slot(true, 0)]
      ensures fd != -1 ==> forall i :: 0 <= i < fd ==> old(fdtable)[i].used
      ensures fd == -1 ==> fdtable == old(fdtable)
    {
      var i := 0;
      while i < MAX_FD
        invariant 0 <= i <= MAX_FD && fdtable == old(fdtable)
        invariant forall j :: 0 <= j < i ==> fdtable[j].used
      {
        if !fdtable[i].used {
          fdtable := fdtable[i := Slot(true, 0)];
          return i;
        }
        i := i + 1;
      }
      fd := -1;
    }

    /** `ds_close`. */
    method Close(fd: int)
      requires Valid()
      modifies `fdtable
      ensures Valid()
      ensures fdtable == if 0 <= fd < MAX_FD then old(fdtable)[fd := Slot(false, old(fdtable)[fd].fpos)]
                else old(fdtable)
    {
      if 0 <= fd < MAX_FD {
        fdtable := fdtable[fd := fdtable[fd].(used := false)];
      }
    }

    /** `ds_lseek`, for slot 0. */
    method Lseek(offset: int) returns (status: int)
      requires Valid()
      modifies `fdtable
      ensures Valid() && status == offset && fdtable == old(fdtable)[0 := old(fdtable)[0].(fpos := offset)]
    {
      fdtable := fdtable[0 := fdtable[0].(fpos := offset)];
      status := offset;
    }

    /** `ds_read`, for slot 0: what is left of the file, at most `n` characters. */
    method Read(n: nat, ghost pos: nat) returns (bytes: seq<char>)
      requires OpenAt(pos)
      modifies `fdtable
      ensures bytes == data[pos..if pos + n < |data| then pos + n else |data|] && OpenAt(pos + |bytes|)
    {
      var fpos := fdtable[0].fpos;
      var nbytes := (if fpos + n < |data| then fpos + n else |data|) - fpos;
      bytes := data[fpos..fpos + nbytes];
      fdtable := fdtable[0 := fdtable[0].(fpos := fpos + nbytes)];
    }

    /** `ds_write`, for slot 0: what fits before the end of the file. */
    method Write(bytes: seq<char>, ghost pos: nat) returns (n: nat)
      requires OpenAt(pos)
      modifies `fdtable, `data
      ensures n == (if pos + |bytes| < |old(data)| then |bytes| else |old(data)| - pos) && OpenAt(pos + n)
      ensures data == Poke(old(data), pos, bytes[..n])
    {
      var fpos := fdtable[0].fpos;
      n := (if fpos + |bytes| < |data| then fpos + |bytes| else |data|) - fpos;
      data := Poke(data, fpos, bytes[..n]);
      fdtable := fdtable[0 := fdtable[0].(fpos := fpos + n)];
    }
  }

  // ----- whole headers -----

  /** Strings one after the other. */
  function Joined(ss: seq<string>): string {
    if ss == [] then [] else Joined(ss[..|ss| - 1]) + ss[|ss| - 1]
  }

  lemma {:induction false} JoinedLength(ss: seq<string>, n: nat)
    requires forall i :: 0 <= i < |ss| ==> |ss[i]| == n
    ensures |Joined(ss)| == n * |ss|
  {
    if ss != [] {
      var most := ss[..|ss| - 1];
      JoinedLength(most, n);
      NextMultiple(|most|, n);
    }
  }

  lemma {:induction false} JoinedConcat(a: seq<string>, b: seq<string>)
    ensures Joined(a + b) == Joined(a) + Joined(b)
  {
    if b == [] {
      assert a + b == a;
    } else {
      JoinedConcat(a, b[..|b| - 1]);
      assert (a + b)[..|a + b| - 1] == a + b[..|b| - 1];
      Assoc(Joined(a), Joined(b[..|b| - 1]), b[|b| - 1]);
    }
  }

  function CardList(es: seq<Entry>): (r: seq<string>)
    ensures |r| == |es| && forall i :: 0 <= i < |es| ==> r[i] == CardOf(es[i])
  {
    seq(|es|, i requires 0 <= i < |es| => CardOf(es[i]))
  }

  /** The cards of a list of entries, one after the other. */
  function Cards(es: seq<Entry>): (r: string)
    ensures |r| == CARDLEN * |es|
  {
    JoinedLength(CardList(es), CARDLEN);
    Joined(CardList(es))
  }

  lemma CardsConcat(a: seq<Entry>, b: seq<Entry>)
    ensures Cards(a + b) == Cards(a) + Cards(b)
  {
    ListConcat(a, b);
    JoinedConcat(CardList(a), CardList(b));
  }

  lemma ListConcat(a: seq<Entry>, b: seq<Entry>)
    ensures CardList(a + b) == CardList(a) + CardList(b)
  {
    var both, parts := CardList(a + b), CardList(a) + CardList(b);
    forall i | 0 <= i < |a + b| ensures both[i] == parts[i] {
      assert both[i] == CardOf((a + b)[i]);
      if i < |a| {
        assert parts[i] == CardList(a)[i] && (a + b)[i] == a[i];
      } else {
        assert parts[i] == CardList(b)[i - |a|] && (a + b)[i] == b[i - |a|];
      }
    }
  }

  lemma OneCard(e: Entry)
    ensures Cards([e]) == CardOf(e)
  {
    assert CardList([e]) == [CardOf(e)];
    JoinedOne(CardOf(e));
  }

  lemma JoinedOne(s: string)
    ensures Joined([s]) == s
  {
    assert Joined([s][..0]) == [];
  }

  lemma CardAt(es: seq<Entry>, i: nat)
    requires i < |es|
    ensures Cards(es)[CARDLEN * i..CARDLEN * i + CARDLEN] == CardOf(es[i])
  {
    var before, at, after := es[..i], [es[i]], es[i + 1..];
    assert es == before + (at + after);
    CardsConcat(before, at + after);
    CardsConcat(at, after);
    Middle(Cards(es), Cards(before), Cards(at), Cards(after));
    OneCard(es[i]);
  }

  lemma Middle(whole: string, a: string, b: string, c: string)
    requires whole == a + (b + c)
    ensures whole[|a|..|a| + |b|] == b
  {
  }

  /** From byte `at` on the file has a card that shows `e`. */
  ghost predicate ShowsAt(data: seq<char>, at: nat, e: Entry) {
    at + 80 <= |data| && ShowsEntry(data[at..at + 80], e)
  }

  /** From byte `pos` on the file has the cards of `es`, and otherwise what it had. */
  ghost predicate CardsFrom(data: seq<char>, data': seq<char>, pos: nat, es: seq<Entry>) {
    && |data'| == |data|
    && (forall i :: 0 <= i < |es| ==> ShowsAt(data', pos + 80 * i, es[i]))
    && (forall k :: 0 <= k < |data| && !(pos <= k < pos + 80 * |es|) ==> data'[k] == data[k])
  }

  lemma CardsShown(data: seq<char>, data': seq<char>, pos: nat, es: seq<Entry>)
    requires pos + CARDLEN * |es| <= |data| && data' == Poke(data, pos, Cards(es))
    ensures CardsFrom(data, data', pos, es)
  {
    forall i | 0 <= i < |es| ensures ShowsAt(data', pos + 80 * i, es[i]) {
      CardShown(data, data', pos, es, i);
    }
  }

  lemma CardShown(data: seq<char>, data': seq<char>, pos: nat, es: seq<Entry>, i: nat)
    requires pos + CARDLEN * |es| <= |data| && data' == Poke(data, pos, Cards(es)) && i < |es|
    ensures ShowsAt(data', pos + 80 * i, es[i])
  {
    var cards := Cards(es);
    CardAt(es, i);
    PokedPart(data, data', pos, cards, 80 * i, 80);
    ThatCard(data', pos + 80 * i, es[i]);
  }

  lemma ThatCard(data: seq<char>, at: nat, e: Entry)
    requires at + 80 <= |data| && data[at..at + 80] == CardOf(e)
    ensures ShowsAt(data, at, e)
  {
    CardShows(e);
  }

  lemma PokedPart(data: seq<char>, data': seq<char>, pos: nat, bytes: seq<char>, k: nat, n: nat)
    requires pos + |bytes| <= |data| && k + n <= |bytes| && data' == Poke(data, pos, bytes)
    ensures data'[pos + k..pos + k + n] == bytes[k..k + n]
  {
  }

  /** The entries read from `s` until END, the end of the file or the limit; `left` is -1 for no
      limit.  `stale` is the comment a leading text card would get. */
  function ReadCards(s: string, left: int, stale: string): (r: seq<Entry>)
    decreases |s|
  {
    if left == 0 || |s| < CARDLEN then []
    else
      match ReadCard(s[..CARDLEN], stale)
      case End => []
      case Full(e) => [e] + ReadCards(s[CARDLEN..], if left > 0 then left - 1 else left, e.comment)
  }

  /** What is left to read after one card. */
  function LessLeft(left: int): int {
    if left > 0 then left - 1 else left
  }

  /** Card `i` of a header. */
  function CardIn(s: string, i: nat): (card: string)
    requires CARDLEN * (i + 1) <= |s|
    ensures |card| == 80 && forall k :: 0 <= k < 80 ==> card[k] == s[80 * i + k]
  {
    s[CARDLEN * i..CARDLEN * i + CARDLEN]
  }

  /** Each card is read with the comment of the card before it. */
  lemma {:induction false} ReadInOrder(s: string, left: int, stale: string, i: nat)
    requires i < |ReadCards(s, left, stale)|
    ensures CARDLEN * (i + 1) <= |s|
    ensures var es := ReadCards(s, left, stale);
      ReadCard(CardIn(s, i), if i == 0 then stale else es[i - 1].comment) == Full(es[i])
    decreases i
  {
    assert CardIn(s, 0) == s[..CARDLEN];
    if i > 0 {
      var e := ReadCard(s[..CARDLEN], stale).entry;
      ReadInOrder(s[CARDLEN..], LessLeft(left), e.comment, i - 1);
      CardBehind(s, i);
    }
  }

  /** `n` cards are read: none of them is END, and behind them are END, the limit or the end of the
      file. */
  predicate StopsAfter(s: string, left: int, n: nat) {
    && CARDLEN * n <= |s| && (left >= 0 ==> n <= left)
    && (forall i :: 0 <= i < n ==> !IsEndCard(CardIn(s, i)))
    && (n == left || |s| < CARDLEN * (n + 1) || IsEndCard(CardIn(s, n)))
  }

  /** Reading stops at END, at the limit or at the end of the file, and nowhere else. */
  lemma {:induction false} WhereReadingStops(s: string, left: int, stale: string)
    ensures StopsAfter(s, left, |ReadCards(s, left, stale)|)
    decreases |s|
  {
    if left != 0 && |s| >= CARDLEN {
      var card := s[..CARDLEN];
      StopsAtEnd(card, stale);
      assert CardIn(s, 0) == card;
      if !IsEndCard(card) {
        var e := ReadCard(card, stale).entry;
        WhereReadingStops(s[CARDLEN..], LessLeft(left), e.comment);
        StopsLater(s, left, |ReadCards(s[CARDLEN..], LessLeft(left), e.comment)|);
      }
    }
  }

  lemma StopsLater(s: string, left: int, n: nat)
    requires left != 0 && |s| >= CARDLEN && !IsEndCard(CardIn(s, 0)) && StopsAfter(s[CARDLEN..], LessLeft(left), n)
    ensures StopsAfter(s, left, n + 1)
  {
    forall i | 0 < i <= n ensures !IsEndCard(CardIn(s, i)) {
      CardBehind(s, i);
    }
    if |s| >= CARDLEN * (n + 2) {
      CardBehind(s, n + 1);
    }
  }

  lemma CardBehind(s: string, i: nat)
    requires i > 0 && CARDLEN * (i + 1) <= |s|
    ensures CardIn(s, i) == CardIn(s[CARDLEN..], i - 1)
  {
  }

  /** If END is missing, everything behind the header is read as entries, binary data too. */
  lemma MissingEnd(s: string, stale: string)
    requires forall i :: 0 <= i && CARDLEN * (i + 1) <= |s| ==> !IsEndCard(CardIn(s, i))
    ensures |ReadCards(s, -1, stale)| == |s| / CARDLEN
  {
    WhereReadingStops(s, -1, stale);
  }

  /** A text entry without text. */
  predicate IsBlank(e: Entry) {
    e.typ != [] && e.typ[0] == 'T' && e.value == []
  }

  /** The entries without the blank text entries at the end. */
  function DropBlank(es: seq<Entry>): (r: seq<Entry>)
    ensures r <= es && forall i :: |r| <= i < |es| ==> IsBlank(es[i])
    ensures r == [] || !IsBlank(r[|r| - 1])
  {
    if es == [] || !IsBlank(es[|es| - 1]) then es else DropBlank(es[..|es| - 1])
  }

  lemma UpToNul(s: string)
    ensures NoNul(UpTo(s, [NUL])) && |UpTo(s, [NUL])| <= |s|
  {
  }

  /** What is read from a card can be stored. */
  lemma ReadStorable(card: string, stale: string)
    requires |card| == CARDLEN && Storable(stale) && ReadCard(card, stale).Full?
    ensures StorableEntry(ReadCard(card, stale).entry)
  {
    NameStorable(card);
    ScanStorable(card[8..]);
    ValueStorable(KeywordOf(card), card[9..]);
  }

  lemma NameStorable(card: string)
    requires |card| == CARDLEN
    ensures Nameable(KeywordOf(card))
  {
    assert NoNul(NOT_END) && Ascii(NOT_END);
  }

  lemma ScanStorable(s: string)
    requires |s| <= CARDLEN
    ensures Storable(ScanText(s))
  {
    UpToNul(Trim(UpTo(s, "\n")));
  }

  lemma ValueStorable(name: string, s: string)
    requires Nameable(name) && |s| <= CARDLEN
    ensures StorableEntry(ValueEntry(name, ReadValue(s)))
  {
    SkipShorter(s, 21);
    var v := ReadValue(s);
    AfterShorter(v.rest, "/ ");
    UpToNul(v.text);
    ScanStorable(After(v.rest, "/ "));
  }

  lemma {:induction false} AfterShorter(s: string, skipped: string)
    ensures |After(s, skipped)| <= |s|
  {
    if s != [] {
      AfterShorter(s[1..], skipped);
    }
  }

  lemma {:induction false} SkipShorter(s: string, n: nat)
    ensures |SkipSpace(s, n)| <= |s|
    decreases n
  {
    if n > 0 && s != [] {
      SkipShorter(s[1..], n - 1);
    }
  }

  /** `kwdb_ReadFITS` on the file open in slot 0 at `pos`.  `stale` is what the comment buffer holds
      at the start; the program leaves it uninitialised.  The slots that the entries take must not
      be visited still, as they never are while the threads are tidy. */
  method ReadFITS(db: Database, f: MappedFile, maxcards: nat, stale: string, ghost pos: nat) returns (ncards: nat)
    requires db.Serviceable() && db.Roomy() && f.OpenAt(pos) && Storable(stale)
    modifies db, f`fdtable
    ensures db.Serviceable() && f.IsOpen()
    ensures var es := ReadCards(f.data[pos..], if maxcards == 0 then -1 else maxcards, stale);
      ncards == |es| && db.Contents() == DropBlank(old(db.Contents()) + es)
    ensures old(db.Valid()) ==> db.Valid()
    ensures old(NewestFirst(db.chains)) ==> NewestFirst(db.chains)
  {
    ghost var tidy, newest := db.Valid(), NewestFirst(db.chains);
    ncards := LoadCards(db, f, maxcards, stale, pos, tidy, newest);
    TrimBlank(db, tidy, newest);
  }

  /** The threads of `db` are in service, tidy if `tidy`, and the newest entry is first if `newest`. */
  ghost predicate InOrder(db: Database, tidy: bool, newest: bool)
    reads db
  {
    db.Serviceable() && (tidy ==> db.Valid()) && (newest ==> NewestFirst(db.chains))
  }

  method LoadCards(db: Database, f: MappedFile, maxcards: nat, stale: string, ghost pos: nat, ghost tidy: bool,
                   ghost newest: bool)
    returns (ncards: nat)
    requires InOrder(db, tidy, newest) && db.Roomy() && f.OpenAt(pos) && Storable(stale)
    modifies db, f`fdtable
    ensures InOrder(db, tidy, newest) && f.IsOpen()
    ensures var es := ReadCards(f.data[pos..], if maxcards == 0 then -1 else maxcards, stale);
      ncards == |es| && db.Contents() == old(db.Contents()) + es
  {
    ncards := 0;
    var comment, more := stale, true;
    ghost var at, left := pos, if maxcards == 0 then -1 else maxcards;
    ghost var contents, todo := db.Contents(), ReadCards(f.data[pos..], left, stale);
    ghost var whole, total := contents + todo, |todo|;
    while maxcards == 0 || ncards < maxcards
      invariant more && InOrder(db, tidy, newest) && db.Roomy() && f.OpenAt(at) && Storable(comment)
      invariant todo == ReadCards(f.data[at..], left, comment) && ncards + |todo| == total
      invariant contents == db.Contents() && contents + todo == whole
      invariant left == (if maxcards == 0 then -1 else maxcards - ncards) && (maxcards == 0 || ncards <= maxcards)
      decreases |f.data| - at
    {
      ghost var rest := todo;
      more, comment, todo := NextCard(db, f, comment, at, left, tidy, newest);
      if !more {
        break;
      }
      AppendFirst(contents, rest, todo);
      contents := contents + [rest[0]];
      left, at := LessLeft(left), at + CARDLEN;
      ncards := ncards + 1;
    }
    if more {
      ReadZero(f.data[at..], comment);
    }
    assert contents + [] == contents;
  }

  lemma ReadZero(s: string, comment: string)
    ensures ReadCards(s, 0, comment) == []
  {
  }

  lemma AppendFirst(before: seq<Entry>, rest: seq<Entry>, todo: seq<Entry>)
    requires |rest| > 0 && todo == rest[1..]
    ensures before + [rest[0]] + todo == before + rest && |todo| + 1 == |rest|
  {
  }

  lemma ReadOne(data: seq<char>, at: nat, left: int, comment: string)
    requires at + CARDLEN <= |data| && left != 0 && ReadCard(data[at..at + CARDLEN], comment).Full?
    ensures var e := ReadCard(data[at..at + CARDLEN], comment).entry;
      ReadCards(data[at..], left, comment) == [e] + ReadCards(data[at + CARDLEN..], LessLeft(left), e.comment)
  {
    assert data[at..][..CARDLEN] == data[at..at + CARDLEN];
    assert data[at..][CARDLEN..] == data[at + CARDLEN..];
  }

  lemma ReadNone(data: seq<char>, at: nat, left: int, comment: string)
    requires at <= |data|
    requires at + CARDLEN > |data| || ReadCard(data[at..at + CARDLEN], comment).End?
    ensures ReadCards(data[at..], left, comment) == []
  {
    if at + CARDLEN <= |data| {
      assert data[at..][..CARDLEN] == data[at..at + CARDLEN];
    }
  }

  /** One turn of the loop: a card is read and entered, unless it is END or the file ends. */
  method NextCard(db: Database, f: MappedFile, comment: string, ghost at: nat, ghost left: int, ghost tidy: bool,
                  ghost newest: bool)
    returns (more: bool, comment': string, ghost todo: seq<Entry>)
    requires InOrder(db, tidy, newest) && db.Roomy() && f.OpenAt(at) && Storable(comment) && left != 0
    modifies db, f`fdtable
    ensures InOrder(db, tidy, newest) && db.Roomy()
    ensures var es := ReadCards(f.data[at..], left, comment);
      if more then
        && at + CARDLEN <= |f.data| && f.OpenAt(at + CARDLEN) && Storable(comment')
        && es != [] && db.Contents() == old(db.Contents()) + [es[0]] && todo == es[1..]
        && todo == ReadCards(f.data[at + CARDLEN..], LessLeft(left), comment')
      else f.IsOpen() && es == [] == todo && db.Contents() == old(db.Contents())
  {
    var c := FetchCard(f, comment, at);
    if c.End? {
      ReadNone(f.data, at, left, comment);
      return false, comment, [];
    }
    ReadOne(f.data, at, left, comment);
    AddCard(db, c.entry, tidy, newest);
    more, comment' := true, c.entry.comment;
    todo := ReadCards(f.data[at + CARDLEN..], LessLeft(left), comment');
  }

  /** The next card of the file, or `End` at the END card and at the end of the file. */
  method FetchCard(f: MappedFile, comment: string, ghost at: nat) returns (c: Card)
    requires f.OpenAt(at) && Storable(comment)
    modifies f`fdtable
    ensures c.Full? ==> && at + CARDLEN <= |f.data| && f.OpenAt(at + CARDLEN) && StorableEntry(c.entry)
                        && c == ReadCard(f.data[at..at + CARDLEN], comment)
    ensures c.End? ==> f.IsOpen() && (at + CARDLEN > |f.data| || ReadCard(f.data[at..at + CARDLEN], comment).End?)
  {
    var card := f.Read(CARDLEN, at);
    if |card| != CARDLEN {
      return End;
    }
    c := ScanCard(card, comment);
    if c.Full? {
      ReadStorable(card, comment);
    }
  }

  method AddCard(db: Database, e: Entry, ghost tidy: bool, ghost newest: bool)
    requires InOrder(db, tidy, newest) && db.Roomy() && StorableEntry(e)
    modifies db
    ensures InOrder(db, tidy, newest) && db.Roomy() && db.Contents() == old(db.Contents()) + [e]
  {
    var ep := db.AddEntry(e.name, e.value, e.typ, e.comment);
    ListingAppend(old(db.order), old(db.entries), ep, e);
  }

  /** The last entry, for a database that is not empty. */
  method LastEntry(db: Database) returns (e: Entry)
    requires db.StoreValid() && db.tail > 0
    ensures db.tail in db.entries && |db.Contents()| > 0 && e == db.Contents()[|db.order| - 1]
  {
    assert db.order[|db.order| - 1] in db.order;
    var r := db.GetEntry(db.tail);
    e := r.value;
  }

  /** The end of `kwdb_ReadFITS`: blank text entries at the end of the list are deleted. */
  method TrimBlank(db: Database, ghost tidy: bool, ghost newest: bool)
    requires InOrder(db, tidy, newest)
    modifies db
    ensures InOrder(db, tidy, newest) && db.Contents() == DropBlank(old(db.Contents()))
  {
    ghost var trimmed := DropBlank(db.Contents());
    var more := true;
    while more && db.tail > 0
      invariant InOrder(db, tidy, newest) && DropBlank(db.Contents()) == trimmed
      invariant !more ==> db.Contents() == trimmed
      decreases |db.Contents()|, more
    {
      more := TrimOne(db, tidy, newest);
    }
    assert more ==> db.Contents() == [] == DropBlank([]);
  }

  /** The last entry is deleted if it is blank. */
  method TrimOne(db: Database, ghost tidy: bool, ghost newest: bool) returns (more: bool)
    requires InOrder(db, tidy, newest) && db.tail > 0
    modifies db
    ensures InOrder(db, tidy, newest) && DropBlank(db.Contents()) == DropBlank(old(db.Contents()))
    ensures if more then |db.Contents()| < |old(db.Contents())| else db.Contents() == DropBlank(db.Contents())
    ensures !more ==> db.Contents() == old(db.Contents())
  {
    var e := LastEntry(db);
    DropLast(db.Contents());
    if !IsBlank(e) {
      return false;
    }
    DeleteLast(db, tidy, newest);
    more := true;
  }

  lemma DropLast(es: seq<Entry>)
    requires es != []
    ensures DropBlank(es) == if IsBlank(es[|es| - 1]) then DropBlank(es[..|es| - 1]) else es
  {
  }

  method DeleteLast(db: Database, ghost tidy: bool, ghost newest: bool)
    requires InOrder(db, tidy, newest) && db.tail > 0 && db.tail in db.entries && |db.Contents()| > 0
    modifies db
    ensures InOrder(db, tidy, newest) && db.Contents() == old(db.Contents())[..|old(db.Contents())| - 1]
  {
    ghost var last := |db.order| - 1;
    WithoutAt(db.order, last);
    CutMembers(db.order, last);
    ListingRemove(db.order, db.entries, last);
    assert Cut(db.Contents(), last) == db.Contents()[..last];
    var status := db.DeleteEntry(db.tail);
  }

  /** Entry `i` of the list, and the entry pointer after it. */
  method EntryAt(db: Database, ep: nat, ghost i: nat) returns (e: Entry, next: nat)
    requires db.StoreValid() && i < |db.order| && db.order[i] == ep
    ensures e == db.Contents()[i]
    ensures next == if i + 1 < |db.order| then db.order[i + 1] else 0
  {
    assert ep in db.order;
    var r := db.GetEntry(ep);
    e := r.value;
    next := db.Next(ep);
  }

  method PrintCard(e: Entry) returns (text: string)
    ensures text == CardOf(e)
  {
    var card := new char[SZ_CARDBUF];
    FormatCard(e, card);
    text := card[..CARDLEN];
  }

  /** The first `n` cards of `es` have been written at `pos`, and the next one comes there. */
  ghost predicate Wrote(f: MappedFile, es: seq<Entry>, n: nat, data: seq<char>, pos: nat)
    reads f
  {
    && n <= |es| && pos + CARDLEN * n <= |data| && f.OpenAt(pos + CARDLEN * n)
    && f.data == Poke(data, pos, Cards(es[..n]))
  }

  /** One card is written. */
  method WriteCard(f: MappedFile, card: string, ghost es: seq<Entry>, ghost k: nat, ghost data: seq<char>,
                   ghost pos: nat)
    returns (n: nat)
    requires Wrote(f, es, k, data, pos) && k < |es| && card == CardOf(es[k])
    modifies f
    ensures |f.data| == |data| && f.IsOpen()
    ensures n == CARDLEN <==> pos + CARDLEN * (k + 1) <= |data|
    ensures n == CARDLEN ==> Wrote(f, es, k + 1, data, pos)
  {
    ghost var done := f.data;
    n := f.Write(card, pos + CARDLEN * k);
    if n == CARDLEN {
      assert card[..n] == card;
      CardsNext(es, k, data, pos, done, f.data);
    }
  }

  /** `kwdb_WriteFITS` on the file open in slot 0 at `pos`: one card per entry, or -1 when the file
      is too short.  The threads are not looked at. */
  method WriteFITS(db: Database, f: MappedFile, ghost pos: nat) returns (ncards: int)
    requires db.StoreValid() && f.OpenAt(pos)
    modifies f
    ensures |f.data| == |old(f.data)| && f.IsOpen()
    ensures var es := db.Contents();
      if pos + CARDLEN * |es| <= |f.data| then ncards == |es| && Wrote(f, es, |es|, old(f.data), pos) else ncards == -1
    ensures ncards >= 0 ==> CardsFrom(old(f.data), f.data, pos, db.Contents())
  {
    ncards := 0;
    var ep := db.head;
    ghost var es, data := db.Contents(), f.data;
    CardsDone(es, data, pos);
    while ep != 0
      invariant 0 <= ncards <= |es| && ep == if ncards < |es| then db.order[ncards] else 0
      invariant Wrote(f, es, ncards, data, pos)
      decreases |es| - ncards
    {
      var n, next := WriteEntry(db, f, ep, es, ncards, data, pos);
      if n != CARDLEN {
        return -1;
      }
      ep := next;
      ncards := ncards + 1;
    }
    assert es[..|es|] == es;
    CardsShown(data, f.data, pos, es);
  }

  /** The card of entry `k` is written, and the list followed. */
  method WriteEntry(db: Database, f: MappedFile, ep: nat, ghost es: seq<Entry>, ghost k: nat, ghost data: seq<char>,
                    ghost pos: nat)
    returns (n: nat, next: nat)
    requires db.StoreValid() && es == db.Contents() && k < |es| && db.order[k] == ep && Wrote(f, es, k, data, pos)
    modifies f
    ensures |f.data| == |data| && f.IsOpen()
    ensures n == CARDLEN <==> pos + CARDLEN * (k + 1) <= |data|
    ensures n == CARDLEN ==> Wrote(f, es, k + 1, data, pos)
    ensures next == if k + 1 < |db.order| then db.order[k + 1] else 0
  {
    var e;
    e, next := EntryAt(db, ep, k);
    var card := PrintCard(e);
    n := WriteCard(f, card, es, k, data, pos);
  }

  lemma CardsDone(es: seq<Entry>, data: seq<char>, pos: nat)
    requires pos <= |data|
    ensures data == Poke(data, pos, Cards(es[..0]))
  {
  }

  lemma CardsNext(es: seq<Entry>, n: nat, data: seq<char>, pos: nat, done: seq<char>, next: seq<char>)
    requires n < |es| && pos + CARDLEN * (n + 1) <= |data|
    requires done == Poke(data, pos, Cards(es[..n])) && next == Poke(done, pos + CARDLEN * n, CardOf(es[n]))
    ensures next == Poke(data, pos, Cards(es[..n + 1]))
  {
    assert es[..n + 1] == es[..n] + [es[n]];
    CardsConcat(es[..n], [es[n]]);
    OneCard(es[n]);
    PokeNext(data, pos, Cards(es[..n]), CardOf(es[n]));
  }

  lemma PokeNext(buf: seq<char>, off: nat, a: seq<char>, b: seq<char>)
    requires off + |a| + |b| <= |buf|
    ensures Poke(Poke(buf, off, a), off + |a|, b) == Poke(buf, off, a + b)
  {
  }
}
