/** Whole headers: what `kwdb_ReadFITS` makes of the cards that `kwdb_WriteFITS` wrote, with the
    END card after them (sections 4.1 and 4.2.1 of the FITS Standard 4.0). */
module FitsRoundTrip {
  import opened Text
  import opened KwdbModel
  import opened FitsCard
  import opened FitsCardIO
  import opened FitsFile

  predicate AllWellFormed(es: seq<Entry>) {
    forall i :: 0 <= i < |es| ==> WellFormed(es[i])
  }

  /** A list of entries as it is read back; each text entry takes over the comment before it. */
  function NormalAll(es: seq<Entry>, stale: string): (r: seq<Entry>)
    ensures |r| == |es|
  {
    if es == [] then []
    else
      var e := Normal(es[0], stale);
      [e] + NormalAll(es[1..], e.comment)
  }

  function EndCard(): (card: string)
    ensures |card| == CARDLEN && card[0] == 'E' && card[1] == 'N' && card[2] == 'D'
    ensures forall k :: 3 <= k < 80 ==> card[k] == ' '
  {
    "END" + Blanks(CARDLEN - 3)
  }

  /** The entry that a blank card shows. */
  const BLANK := Entry("", "", "T", "")

  function BlankEntries(n: nat): (r: seq<Entry>)
    ensures |r| == n && forall i :: 0 <= i < n ==> r[i] == BLANK
  {
    seq(n, _ => BLANK)
  }

  lemma BlankCards()
    ensures WellFormed(BLANK) && IsBlank(BLANK) && CardOf(BLANK) == Blanks(CARDLEN)
  {
  }

  lemma EndCardEnds(stale: string)
    ensures ReadCard(EndCard(), stale) == End
  {
    assert EndCard()[..8] == "END" + Blanks(5);
    UpToPrefix("END", Blanks(5), " ");
  }

  lemma FirstCard(es: seq<Entry>)
    requires es != []
    ensures Cards(es) == CardOf(es[0]) + Cards(es[1..])
  {
    assert es == [es[0]] + es[1..];
    CardsConcat([es[0]], es[1..]);
    OneCard(es[0]);
  }

  lemma CardThenRest(card: string, rest: string)
    requires |card| == CARDLEN
    ensures (card + rest)[..CARDLEN] == card && (card + rest)[CARDLEN..] == rest
  {
  }

  /** Round trip of a header: the cards of well-formed entries, then END, then anything, are read
      back as those entries. */
  lemma {:induction false} HeaderRoundTrip(es: seq<Entry>, rest: string, stale: string)
    requires AllWellFormed(es)
    ensures ReadCards(Cards(es) + (EndCard() + rest), -1, stale) == NormalAll(es, stale)
  {
    if es == [] {
      assert Cards(es) + (EndCard() + rest) == EndCard() + rest;
      CardThenRest(EndCard(), rest);
      EndCardEnds(stale);
    } else {
      var more := Cards(es[1..]) + (EndCard() + rest);
      FirstCard(es);
      Assoc(CardOf(es[0]), Cards(es[1..]), EndCard() + rest);
      CardThenRest(CardOf(es[0]), more);
      CardRoundTrip(es[0], stale);
      HeaderRoundTrip(es[1..], rest, Normal(es[0], stale).comment);
    }
  }

  /** What comes back: names and types as they were, values as they were but for the padding of
      strings, and the comments of value cards. */
  lemma {:induction false} ComesBack(es: seq<Entry>, stale: string, i: nat)
    requires i < |es|
    ensures var r := NormalAll(es, stale)[i];
      && r.name == es[i].name && r.typ == es[i].typ
      && r.value == (if IsStringType(es[i].typ) then PadTo(es[i].value, 8) else es[i].value)
      && (IsValueType(es[i].typ) ==> r.comment == es[i].comment)
      && (IsBlank(r) <==> IsBlank(es[i]))
  {
    if i > 0 {
      ComesBack(es[1..], Normal(es[0], stale).comment, i - 1);
    }
  }

  /** Writing what was read gives the same cards. */
  lemma {:induction false} WriteAgain(es: seq<Entry>, stale: string)
    requires AllWellFormed(es)
    ensures Cards(NormalAll(es, stale)) == Cards(es)
  {
    if es != [] {
      var read := NormalAll(es, stale);
      FirstCard(es);
      FirstCard(read);
      PrintAgain(es[0], stale);
      assert read[1..] == NormalAll(es[1..], Normal(es[0], stale).comment);
      WriteAgain(es[1..], Normal(es[0], stale).comment);
    }
  }

  /** Reading a header and writing it again reproduces its cards exactly when the header does not
      end in blank text entries; those, and nothing else, are dropped. */
  lemma RewriteIsIdentical(es: seq<Entry>, rest: string, stale: string)
    requires AllWellFormed(es)
    ensures var read := DropBlank(ReadCards(Cards(es) + (EndCard() + rest), -1, stale));
      && Cards(read) <= Cards(es)
      && (Cards(read) == Cards(es) <==> es == [] || es[|es| - 1].value != [] || es[|es| - 1].typ != "T")
      && forall i :: |read| <= i < |es| ==> es[i].value == [] && es[i].typ == "T"
  {
    var all := NormalAll(es, stale);
    var read := DropBlank(all);
    HeaderRoundTrip(es, rest, stale);
    WriteAgain(es, stale);
    PrefixCards(all, |read|);
    assert all[..|read|] == read;
    forall i | 0 <= i < |es| ensures IsBlank(all[i]) <==> es[i].value == [] && es[i].typ == "T" {
      ComesBack(es, stale, i);
      BlankIs(es[i]);
    }
  }

  lemma BlankIs(e: Entry)
    requires WellFormed(e)
    ensures IsBlank(e) <==> e.value == [] && e.typ == "T"
  {
  }

  lemma PrefixCards(es: seq<Entry>, n: nat)
    requires n <= |es|
    ensures Cards(es[..n]) <= Cards(es)
  {
    assert es == es[..n] + es[n..];
    CardsConcat(es[..n], es[n..]);
  }

  /** Blank cards that fill a header up before END leave no trace in what is read. */
  lemma BlankFillIsDropped(es: seq<Entry>, n: nat, rest: string, stale: string)
    requires AllWellFormed(es)
    ensures DropBlank(ReadCards(Cards(es + BlankEntries(n)) + (EndCard() + rest), -1, stale))
         == DropBlank(NormalAll(es, stale))
  {
    BlankCards();
    HeaderRoundTrip(es + BlankEntries(n), rest, stale);
    NormalPrefix(es, BlankEntries(n), stale);
    var all := NormalAll(es + BlankEntries(n), stale);
    forall i | |es| <= i < |all| ensures IsBlank(all[i]) {
      ComesBack(es + BlankEntries(n), stale, i);
    }
    DropTrailing(all, |es|);
  }

  lemma {:induction false} NormalPrefix(a: seq<Entry>, b: seq<Entry>, stale: string)
    ensures NormalAll(a + b, stale)[..|a|] == NormalAll(a, stale)
  {
    if a != [] {
      var e := Normal(a[0], stale);
      NormalPrefix(a[1..], b, e.comment);
      assert (a + b)[1..] == a[1..] + b;
    }
  }

  lemma {:induction false} DropTrailing(es: seq<Entry>, n: nat)
    requires n <= |es| && forall i :: n <= i < |es| ==> IsBlank(es[i])
    ensures DropBlank(es) == DropBlank(es[..n])
  {
    if n < |es| {
      var most := es[..|es| - 1];
      DropTrailing(most, n);
      assert most[..n] == es[..n];
    } else {
      assert es[..n] == es;
    }
  }
}
