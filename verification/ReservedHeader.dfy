/** The reserved keywords that `dsim_Configure` puts at the start of the header of an image
    (mosdca/dsim.c), and what they say of its pixels (section 4.4.1 of the FITS Standard 4.0). */
module ReservedHeader {
  import opened Text
  import opened KwdbModel
  import opened Kwdb
  import opened FitsCard
  import opened FitsFile
  import opened FitsRoundTrip
  import Dsim
  import Transcode

  // ----- decimal numbers -----

  const DIGITS := "0123456789"

  /** `str`: the decimal digits of a number. */
  function Decimal(n: nat): (s: string)
    ensures s != [] && forall k :: 0 <= k < |s| ==> '0' <= s[k] <= '9'
  {
    if n < 10 then [DIGITS[n]] else Decimal(n / 10) + [DIGITS[n % 10]]
  }

  /** The number that decimal digits stand for. */
  function NumberOf(s: string): nat
    requires forall k :: 0 <= k < |s| ==> '0' <= s[k] <= '9'
  {
    if s == [] then 0 else NumberOf(s[..|s| - 1]) * 10 + (s[|s| - 1] as int - '0' as int)
  }

  /** The digits stand for the number, and there is no needless one. */
  lemma {:induction false} DecimalBack(n: nat)
    ensures NumberOf(Decimal(n)) == n && (n > 0 ==> Decimal(n)[0] != '0')
  {
    if n < 10 {
      LastDigit([], n);
    } else {
      DecimalBack(n / 10);
      LastDigit(Decimal(n / 10), n % 10);
    }
  }

  lemma LastDigit(most: string, d: nat)
    requires d < 10 && forall k :: 0 <= k < |most| ==> '0' <= most[k] <= '9'
    ensures var s := most + [DIGITS[d]];
      (forall k :: 0 <= k < |s| ==> '0' <= s[k] <= '9') && NumberOf(s) == NumberOf(most) * 10 + d
    ensures [DIGITS[d]] == [] + [DIGITS[d]] && (d > 0 ==> DIGITS[d] != '0')
  {
    var s := most + [DIGITS[d]];
    assert DIGITS[d] as int == '0' as int + d;
    assert s[..|most|] == most && s[|most|] == DIGITS[d];
  }

  function Tens(k: nat): nat {
    if k == 0 then 1 else 10 * Tens(k - 1)
  }

  lemma {:induction false} DigitsNeeded(n: nat, k: nat)
    requires n < Tens(k)
    ensures |Decimal(n)| <= if k == 0 then 1 else k
  {
    if n >= 10 && k > 0 {
      DigitsNeeded(n / 10, k - 1);
    }
  }

  /** Ten digits are enough for a C integer. */
  lemma DecimalLength(n: nat)
    requires n < 0x8000_0000
    ensures |Decimal(n)| <= 10
  {
    assert Tens(2) == 100 && Tens(4) == 10000 && Tens(6) == 1000000 && Tens(8) == 100000000;
    assert Tens(10) == 10000000000;
    DigitsNeeded(n, 10);
  }

  // ----- the keywords -----

  /** The numbers in the header are C integers. */
  predicate Integers(im: Dsim.Image) {
    && Dsim.ImageOk(im) && im.pixsize < 0x1000_0000 && im.extend < 0x8000_0000
    && (forall i :: 0 <= i < im.naxes ==> im.axlen[i] < 0x8000_0000)
  }

  /** A string that fits its card. */
  predicate FitsCardAsString(s: string) {
    CleanValue(true, s) && |s| <= 50
  }

  function Number(keyword: string, n: nat, comment: string): Entry {
    Entry(keyword, Decimal(n), "N", comment)
  }

  function AxisCard(im: Dsim.Image, i: nat): Entry
    requires Dsim.ImageOk(im) && i < im.naxes
  {
    Number("NAXIS" + Decimal(i + 1), im.axlen[i], "Length of axis " + Decimal(i + 1))
  }

  function AxisCards(im: Dsim.Image, n: nat): (r: seq<Entry>)
    requires Dsim.ImageOk(im) && n <= im.naxes
    ensures |r| == n && forall i :: 0 <= i < n ==> r[i] == AxisCard(im, i)
  {
    seq(n, i requires 0 <= i < n => AxisCard(im, i))
  }

  function FirstCards(im: Dsim.Image, typ: string): seq<Entry> {
    [Entry("XTENSION", typ, "S", "Extension type"), Number("BITPIX", im.pixsize * 8, "Bits per pixel"),
     Number("NAXIS", im.naxes, "Number of image axes")]
  }

  function ScaleCard(): Entry {
    Entry("BSCALE", "1", "N", "Scale factor for unsigned short")
  }

  function ZeroCard(): Entry {
    Entry("BZERO", "32768", "N", "Zero shift for unsigned short")
  }

  function ScaleCards(im: Dsim.Image): seq<Entry> {
    if im.pixtype == 4 then [ScaleCard(), ZeroCard()] else []
  }

  function ExtendCard(im: Dsim.Image): Entry {
    Number("PCOUNT", im.extend, "Number of bytes following image matrix")
  }

  function GroupCard(): Entry {
    Number("GCOUNT", 1, "Number of groups")
  }

  function NameCard(name: string): Entry {
    Entry("EXTNAME", name, "S", "Extension name")
  }

  function LastCards(im: Dsim.Image, name: string): seq<Entry> {
    [ExtendCard(im), GroupCard(), NameCard(name)]
  }

  /** The reserved entries of an image. */
  function ReservedEntries(im: Dsim.Image, typ: string, name: string): seq<Entry>
    requires Dsim.ImageOk(im)
  {
    FirstCards(im, typ) + AxisCards(im, im.naxes) + ScaleCards(im) + LastCards(im, name)
  }

  /** A keyword and a comment that are read back from a card. */
  predicate Good(keyword: string, comment: string) {
    CleanName(keyword) && !IsTextName(keyword) && CleanComment(comment) && 0 < |comment| <= 47
  }

  lemma GoodWords(keyword: string, comment: string)
    requires 1 < |keyword| <= 8 && AllPrint(keyword) && ' ' !in keyword
    requires keyword[0] in "XBNPG" || (keyword[0] == 'E' && keyword[1] == 'X')
    requires 0 < |comment| <= 47 && AllPrint(comment) && comment[0] != ' ' && comment[0] != '/'
    requires comment[|comment| - 1] != ' '
    ensures Good(keyword, comment)
  {
    assert Lower("END")[0] == 'e' && Lower("END")[1] == 'n' && Lower("COMMENT")[0] == 'c' && Lower("HISTORY")[0] == 'h';
    assert Lower(keyword)[0] == LowerChar(keyword[0]) && Lower(keyword)[1] == LowerChar(keyword[1]);
  }

  lemma XtensionGood()
    ensures Good("XTENSION", "Extension type")
  {
    GoodWords("XTENSION", "Extension type");
  }

  lemma BitpixGood()
    ensures Good("BITPIX", "Bits per pixel")
  {
    GoodWords("BITPIX", "Bits per pixel");
  }

  lemma NaxisGood()
    ensures Good("NAXIS", "Number of image axes")
  {
    GoodWords("NAXIS", "Number of image axes");
  }

  lemma AxisGood(i: nat)
    requires i < 8
    ensures Good("NAXIS" + Decimal(i + 1), "Length of axis " + Decimal(i + 1))
  {
    var digit := Decimal(i + 1);
    assert |digit| == 1 && '0' <= digit[0] <= '9';
    GoodWords("NAXIS" + digit, "Length of axis " + digit);
  }

  lemma ScaleGood()
    ensures Good("BSCALE", "Scale factor for unsigned short")
  {
    GoodWords("BSCALE", "Scale factor for unsigned short");
  }

  lemma ZeroGood()
    ensures Good("BZERO", "Zero shift for unsigned short")
  {
    GoodWords("BZERO", "Zero shift for unsigned short");
  }

  lemma PcountGood()
    ensures Good("PCOUNT", "Number of bytes following image matrix")
  {
    GoodWords("PCOUNT", "Number of bytes following image matrix");
  }

  lemma GcountGood()
    ensures Good("GCOUNT", "Number of groups")
  {
    GoodWords("GCOUNT", "Number of groups");
  }

  lemma ExtnameGood()
    ensures Good("EXTNAME", "Extension name")
  {
    GoodWords("EXTNAME", "Extension name");
  }

  /** One keyword is added at the end. */
  method AddKeyword(kwdb: Database, keyword: string, value: string, typ: string, comment: string)
    requires InOrder(kwdb, true, true) && kwdb.Roomy() && Good(keyword, comment)
    requires Storable(value) && AllPrint(typ) && |typ| <= 1
    modifies kwdb
    ensures InOrder(kwdb, true, true) && kwdb.Roomy()
    ensures kwdb.Contents() == old(kwdb.Contents()) + [Entry(keyword, value, typ, comment)]
  {
    AddCard(kwdb, Entry(keyword, value, typ, comment), true, true);
  }

  method AddNumber(kwdb: Database, keyword: string, n: nat, comment: string)
    requires InOrder(kwdb, true, true) && kwdb.Roomy() && n < 0x8000_0000 && Good(keyword, comment)
    modifies kwdb
    ensures InOrder(kwdb, true, true) && kwdb.Roomy()
    ensures kwdb.Contents() == old(kwdb.Contents()) + [Number(keyword, n, comment)]
  {
    DecimalLength(n);
    AddKeyword(kwdb, keyword, Decimal(n), "N", comment);
  }

  method AddAxis(kwdb: Database, im: Dsim.Image, i: nat)
    requires InOrder(kwdb, true, true) && kwdb.Roomy() && Dsim.ImageOk(im) && 1 <= i <= im.naxes
    requires im.axlen[i - 1] < 0x8000_0000
    modifies kwdb
    ensures InOrder(kwdb, true, true) && kwdb.Roomy()
    ensures kwdb.Contents() == old(kwdb.Contents()) + [AxisCard(im, i - 1)]
  {
    AxisGood(i - 1);
    var buf, com := "NAXIS" + Decimal(i), "Length of axis " + Decimal(i);
    AddNumber(kwdb, buf, im.axlen[i - 1], com);
  }

  /** The keywords of the axes. */
  method AddAxes(kwdb: Database, im: Dsim.Image)
    requires InOrder(kwdb, true, true) && kwdb.Roomy() && Integers(im)
    modifies kwdb
    ensures InOrder(kwdb, true, true) && kwdb.Roomy()
    ensures kwdb.Contents() == old(kwdb.Contents()) + AxisCards(im, im.naxes)
  {
    var i := 1;
    ghost var es := kwdb.Contents();
    assert es + AxisCards(im, 0) == es;
    while i <= im.naxes
      invariant 1 <= i <= im.naxes + 1 && InOrder(kwdb, true, true) && kwdb.Roomy()
      invariant kwdb.Contents() == es + AxisCards(im, i - 1)
    {
      AddAxis(kwdb, im, i);
      OneMoreAxis(es, im, i - 1);
      i := i + 1;
    }
  }

  lemma OneMoreAxis(es: seq<Entry>, im: Dsim.Image, i: nat)
    requires Dsim.ImageOk(im) && i < im.naxes
    ensures es + AxisCards(im, i) + [AxisCard(im, i)] == es + AxisCards(im, i + 1)
  {
  }

  lemma ThreeMore(es: seq<Entry>, a: Entry, b: Entry, c: Entry)
    ensures es + [a] + [b] + [c] == es + [a, b, c]
  {
  }

  lemma TwoMore(es: seq<Entry>, a: Entry, b: Entry)
    ensures es + [a] + [b] == es + [a, b]
  {
  }

  /** The reserved keywords of one image, in a database of their own. */
  method ReserveKeywords(im: Dsim.Image, typ: string, name: string) returns (kwdb: Database)
    requires Integers(im) && Storable(typ) && Storable(name)
    ensures fresh(kwdb) && kwdb.Valid() && kwdb.Contents() == ReservedEntries(im, typ, name)
  {
    kwdb := new Database("EHU");
    kwdb.TidyIsRoomy();
    AddFirst(kwdb, im, typ);
    assert [] + FirstCards(im, typ) == FirstCards(im, typ);
    AddAxes(kwdb, im);
    AddScale(kwdb, im);
    AddLast(kwdb, im, name);
  }

  method AddFirst(kwdb: Database, im: Dsim.Image, typ: string)
    requires InOrder(kwdb, true, true) && kwdb.Roomy() && Integers(im) && Storable(typ)
    modifies kwdb
    ensures InOrder(kwdb, true, true) && kwdb.Roomy()
    ensures kwdb.Contents() == old(kwdb.Contents()) + FirstCards(im, typ)
  {
    ghost var es := kwdb.Contents();
    XtensionGood();
    AddKeyword(kwdb, "XTENSION", typ, "S", "Extension type");
    BitpixGood();
    AddNumber(kwdb, "BITPIX", im.pixsize * 8, "Bits per pixel");
    NaxisGood();
    AddNumber(kwdb, "NAXIS", im.naxes, "Number of image axes");
    ThreeMore(es, FirstCards(im, typ)[0], FirstCards(im, typ)[1], FirstCards(im, typ)[2]);
  }

  method AddScale(kwdb: Database, im: Dsim.Image)
    requires InOrder(kwdb, true, true) && kwdb.Roomy()
    modifies kwdb
    ensures InOrder(kwdb, true, true) && kwdb.Roomy()
    ensures kwdb.Contents() == old(kwdb.Contents()) + ScaleCards(im)
  {
    assert kwdb.Contents() + [] == kwdb.Contents();
    if im.pixtype == 4 {
      AddShift(kwdb);
    }
  }

  method AddShift(kwdb: Database)
    requires InOrder(kwdb, true, true) && kwdb.Roomy()
    modifies kwdb
    ensures InOrder(kwdb, true, true) && kwdb.Roomy()
    ensures kwdb.Contents() == old(kwdb.Contents()) + [ScaleCard(), ZeroCard()]
  {
    TwoMore(kwdb.Contents(), ScaleCard(), ZeroCard());
    AddScaleCard(kwdb);
    AddZeroCard(kwdb);
  }

  method AddScaleCard(kwdb: Database)
    requires InOrder(kwdb, true, true) && kwdb.Roomy()
    modifies kwdb
    ensures InOrder(kwdb, true, true) && kwdb.Roomy() && kwdb.Contents() == old(kwdb.Contents()) + [ScaleCard()]
  {
    ScaleGood();
    AddKeyword(kwdb, "BSCALE", "1", "N", "Scale factor for unsigned short");
  }

  method AddZeroCard(kwdb: Database)
    requires InOrder(kwdb, true, true) && kwdb.Roomy()
    modifies kwdb
    ensures InOrder(kwdb, true, true) && kwdb.Roomy() && kwdb.Contents() == old(kwdb.Contents()) + [ZeroCard()]
  {
    ZeroGood();
    AddKeyword(kwdb, "BZERO", "32768", "N", "Zero shift for unsigned short");
  }

  method AddExtend(kwdb: Database, im: Dsim.Image)
    requires InOrder(kwdb, true, true) && kwdb.Roomy() && im.extend < 0x8000_0000
    modifies kwdb
    ensures InOrder(kwdb, true, true) && kwdb.Roomy() && kwdb.Contents() == old(kwdb.Contents()) + [ExtendCard(im)]
  {
    PcountGood();
    AddNumber(kwdb, "PCOUNT", im.extend, "Number of bytes following image matrix");
  }

  method AddLast(kwdb: Database, im: Dsim.Image, name: string)
    requires InOrder(kwdb, true, true) && kwdb.Roomy() && Integers(im) && Storable(name)
    modifies kwdb
    ensures InOrder(kwdb, true, true)
    ensures kwdb.Contents() == old(kwdb.Contents()) + LastCards(im, name)
  {
    ThreeMore(kwdb.Contents(), ExtendCard(im), GroupCard(), NameCard(name));
    AddExtend(kwdb, im);
    AddGroup(kwdb);
    AddName(kwdb, name);
  }

  method AddGroup(kwdb: Database)
    requires InOrder(kwdb, true, true) && kwdb.Roomy()
    modifies kwdb
    ensures InOrder(kwdb, true, true) && kwdb.Roomy() && kwdb.Contents() == old(kwdb.Contents()) + [GroupCard()]
  {
    GcountGood();
    AddNumber(kwdb, "GCOUNT", 1, "Number of groups");
  }

  method AddName(kwdb: Database, name: string)
    requires InOrder(kwdb, true, true) && kwdb.Roomy() && Storable(name)
    modifies kwdb
    ensures InOrder(kwdb, true, true) && kwdb.Roomy() && kwdb.Contents() == old(kwdb.Contents()) + [NameCard(name)]
  {
    ExtnameGood();
    AddKeyword(kwdb, "EXTNAME", name, "S", "Extension name");
  }

  // ----- what they say -----

  /** Which card is where. */
  lemma ReservedAre(im: Dsim.Image, typ: string, name: string)
    requires Dsim.ImageOk(im)
    ensures var es, n := ReservedEntries(im, typ, name), 3 + im.naxes + if im.pixtype == 4 then 2 else 0;
      && |es| == n + 3 == Dsim.ReservedCards(im)
      && es[0] == FirstCards(im, typ)[0] && es[1] == FirstCards(im, typ)[1] && es[2] == FirstCards(im, typ)[2]
      && (forall i :: 0 <= i < im.naxes ==> es[3 + i] == AxisCard(im, i))
      && (im.pixtype == 4 ==> es[n - 2] == ScaleCard() && es[n - 1] == ZeroCard())
      && es[n] == ExtendCard(im) && es[n + 1] == GroupCard() && es[n + 2] == NameCard(name)
  {
    FourParts(FirstCards(im, typ), AxisCards(im, im.naxes), ScaleCards(im), LastCards(im, name));
    var es, n := ReservedEntries(im, typ, name), 3 + im.naxes + |ScaleCards(im)|;
    assert es[0] == FirstCards(im, typ)[0] && es[1] == FirstCards(im, typ)[1] && es[2] == FirstCards(im, typ)[2];
    assert forall i :: 0 <= i < im.naxes ==> es[3 + i] == AxisCards(im, im.naxes)[i];
    assert im.pixtype == 4 ==> es[n - 2] == ScaleCards(im)[0] && es[n - 1] == ScaleCards(im)[1];
    assert es[n] == LastCards(im, name)[0] && es[n + 1] == LastCards(im, name)[1];
    assert es[n + 2] == LastCards(im, name)[2];
  }

  lemma FourParts(a: seq<Entry>, b: seq<Entry>, c: seq<Entry>, d: seq<Entry>)
    ensures var s := a + b + c + d;
      && |s| == |a| + |b| + |c| + |d|
      && (forall i :: 0 <= i < |a| ==> s[i] == a[i]) && (forall i :: 0 <= i < |b| ==> s[|a| + i] == b[i])
      && (forall i :: 0 <= i < |c| ==> s[|a| + |b| + i] == c[i])
      && (forall i :: 0 <= i < |d| ==> s[|a| + |b| + |c| + i] == d[i])
  {
  }

  /** The keywords in order, and the values that are always the same. */
  lemma ReservedNames(im: Dsim.Image, typ: string, name: string)
    requires Dsim.ImageOk(im)
    ensures var es, n := ReservedEntries(im, typ, name), 3 + im.naxes + if im.pixtype == 4 then 2 else 0;
      && |es| == n + 3 && es[0].name == "XTENSION" && es[0].value == typ
      && es[1].name == "BITPIX" && es[2].name == "NAXIS"
      && (im.pixtype == 4 ==> es[n - 2].name == "BSCALE" && es[n - 2].value == "1"
                              && es[n - 1].name == "BZERO" && es[n - 1].value == "32768")
      && es[n].name == "PCOUNT" && es[n + 1].name == "GCOUNT" && es[n + 1].value == "1"
      && es[n + 2].name == "EXTNAME" && es[n + 2].value == name
  {
    ReservedAre(im, typ, name);
    assert DIGITS[1] == '1';
  }

  /** The value of a card as a number. */
  predicate SaysNumber(e: Entry, n: nat) {
    e.typ == "N" && (forall k :: 0 <= k < |e.value| ==> '0' <= e.value[k] <= '9') && NumberOf(e.value) == n
  }

  /** The geometry of an image can be read off its reserved cards: BITPIX is eight times the bytes of
      a pixel, NAXIS the number of axes and NAXISn the length of axis n. */
  lemma ReservedSay(im: Dsim.Image, typ: string, name: string)
    requires Dsim.ImageOk(im)
    ensures var es := ReservedEntries(im, typ, name);
      && SaysNumber(es[1], 8 * im.pixsize) && SaysNumber(es[2], im.naxes)
      && forall i :: 0 <= i < im.naxes ==> SaysAxis(es[3 + i], i, im.axlen[i])
  {
    ReservedAre(im, typ, name);
    NumberSays("BITPIX", im.pixsize * 8, "Bits per pixel");
    NumberSays("NAXIS", im.naxes, "Number of image axes");
    forall i | 0 <= i < im.naxes ensures SaysAxis(AxisCard(im, i), i, im.axlen[i]) {
      AxisSays(im, i);
    }
  }

  /** The card gives the length of axis `i`, counted from 0; the keywords count from 1. */
  predicate SaysAxis(e: Entry, i: nat, length: nat)
    requires i < 8
  {
    e.name == "NAXIS" + ["12345678"[i]] && SaysNumber(e, length)
  }

  lemma NumberSays(keyword: string, n: nat, comment: string)
    ensures SaysNumber(Number(keyword, n, comment), n)
  {
    DecimalBack(n);
  }

  lemma AxisSays(im: Dsim.Image, i: nat)
    requires Dsim.ImageOk(im) && i < im.naxes
    ensures SaysAxis(AxisCard(im, i), i, im.axlen[i])
  {
    NumberSays("NAXIS" + Decimal(i + 1), im.axlen[i], "Length of axis " + Decimal(i + 1));
    assert Decimal(i + 1) == [DIGITS[i + 1]] && DIGITS[i + 1] == "12345678"[i];
  }

  /** BITPIX of an image that was laid out: 8 for ubyte and char, 16 for short and ushort, 32 for int
      and real, 64 for double. */
  lemma BitpixIs(im: Dsim.Image, r: Dsim.Image, at: nat, defcards: nat, sizeofLong: nat, typ: string, name: string)
    requires Dsim.LaidOut(im, r, at, defcards, sizeofLong) && Dsim.ImageOk(r)
    ensures var bitpix := ReservedEntries(r, typ, name)[1];
      && bitpix.name == "BITPIX"
      && (im.pixtype in {1, 2} ==> bitpix.value == "8") && (im.pixtype in {3, 4} ==> bitpix.value == "16")
      && (im.pixtype in {5, 7} ==> bitpix.value == "32") && (im.pixtype == 8 ==> bitpix.value == "64")
  {
    ReservedAre(r, typ, name);
    var n := r.pixsize * 8;
    assert n == 8 ==> Decimal(n) == "8";
    assert n == 16 ==> Decimal(1) == "1" && Decimal(n) == "16";
    assert n == 32 ==> Decimal(3) == "3" && Decimal(n) == "32";
    assert n == 64 ==> Decimal(6) == "6" && Decimal(n) == "64";
  }

  /** The codes of FITS: 8 is unsigned, 16, 32 and 64 are signed, and IEEE numbers have negative ones;
      16 with BZERO 32768 is unsigned. */
  predicate Declares(bitpix: int, pixtype: nat) {
    match pixtype
    case 1 => bitpix == 8
    case 3 => bitpix == 16
    case 4 => bitpix == 16
    case 5 => bitpix == 32
    case 6 => bitpix == 32 || bitpix == 64
    case 7 => bitpix == -32
    case 8 => bitpix == -64
    case _ => false
  }

  /** The code that is written declares the pixels rightly exactly if they are unsigned bytes or
      integers of more than one byte; real numbers are declared as integers. */
  lemma WhenBitpixDeclares(pixtype: nat, pixsize: nat, sizeofLong: nat)
    requires Dsim.PixelBytes(pixtype, pixsize, sizeofLong) && sizeofLong in {4, 8}
    ensures Declares(8 * pixsize, pixtype) <==> pixtype in {1, 3, 4, 5, 6}
  {
  }

  lemma DigitsClean(value: string)
    requires value != [] && forall k :: 0 <= k < |value| ==> '0' <= value[k] <= '9'
    ensures CleanValue(false, value) && ValueType(false, value) == "N"
  {
    assert LowerChar(value[0]) == value[0];
    assert Lower(value)[0] == value[0] && Lower("T")[0] == 't' && Lower("F")[0] == 'f';
  }

  lemma NumberFits(keyword: string, value: string, comment: string)
    requires Good(keyword, comment)
    requires 0 < |value| <= 20 && forall k :: 0 <= k < |value| ==> '0' <= value[k] <= '9'
    ensures WellFormed(Entry(keyword, value, "N", comment))
  {
    DigitsClean(value);
    assert |ValueShown(false, value)| == 20;
  }

  lemma NumberCard(keyword: string, n: nat, comment: string)
    requires n < 0x8000_0000 && Good(keyword, comment)
    ensures WellFormed(Number(keyword, n, comment))
  {
    DecimalLength(n);
    NumberFits(keyword, Decimal(n), comment);
  }

  lemma StringFits(keyword: string, value: string, comment: string)
    requires Good(keyword, comment) && CleanValue(true, value) && |value| <= 50 && |comment| <= 14
    ensures WellFormed(Entry(keyword, value, "S", comment))
  {
    assert |PadTo(Printable(value), 8)| <= 50;
    assert |ValueShown(true, value)| <= 52;
  }

  lemma ThreeFit(a: Entry, b: Entry, c: Entry)
    requires WellFormed(a) && WellFormed(b) && WellFormed(c)
    ensures AllWellFormed([a, b, c])
  {
  }

  lemma FirstFit(im: Dsim.Image, typ: string)
    requires Integers(im) && FitsCardAsString(typ)
    ensures AllWellFormed(FirstCards(im, typ))
  {
    XtensionGood();
    StringFits("XTENSION", typ, "Extension type");
    BitpixGood();
    NumberCard("BITPIX", im.pixsize * 8, "Bits per pixel");
    NaxisGood();
    NumberCard("NAXIS", im.naxes, "Number of image axes");
    ThreeFit(FirstCards(im, typ)[0], FirstCards(im, typ)[1], FirstCards(im, typ)[2]);
  }

  lemma TwoFit(a: Entry, b: Entry)
    requires WellFormed(a) && WellFormed(b)
    ensures AllWellFormed([a, b])
  {
  }

  lemma ScaleFits()
    ensures WellFormed(ScaleCard())
  {
    ScaleGood();
    NumberFits("BSCALE", "1", "Scale factor for unsigned short");
  }

  lemma ZeroFits()
    ensures WellFormed(ZeroCard())
  {
    ZeroGood();
    NumberFits("BZERO", "32768", "Zero shift for unsigned short");
  }

  lemma ScalesFit(im: Dsim.Image)
    ensures AllWellFormed(ScaleCards(im))
  {
    ScaleFits();
    ZeroFits();
    TwoFit(ScaleCard(), ZeroCard());
  }

  lemma AxisFits(im: Dsim.Image, i: nat)
    requires Dsim.ImageOk(im) && i < im.naxes && im.axlen[i] < 0x8000_0000
    ensures WellFormed(AxisCard(im, i))
  {
    AxisGood(i);
    NumberCard("NAXIS" + Decimal(i + 1), im.axlen[i], "Length of axis " + Decimal(i + 1));
  }

  lemma ExtendFits(im: Dsim.Image)
    requires im.extend < 0x8000_0000
    ensures WellFormed(ExtendCard(im))
  {
    PcountGood();
    NumberCard("PCOUNT", im.extend, "Number of bytes following image matrix");
  }

  lemma LastFit(im: Dsim.Image, name: string)
    requires Integers(im) && FitsCardAsString(name)
    ensures AllWellFormed(LastCards(im, name))
  {
    ExtendFits(im);
    GroupFits();
    NameFits(name);
    ThreeFit(ExtendCard(im), GroupCard(), NameCard(name));
  }

  lemma GroupFits()
    ensures WellFormed(GroupCard())
  {
    GcountGood();
    NumberCard("GCOUNT", 1, "Number of groups");
  }

  lemma NameFits(name: string)
    requires FitsCardAsString(name)
    ensures WellFormed(NameCard(name))
  {
    ExtnameGood();
    StringFits("EXTNAME", name, "Extension name");
  }

  lemma AllFit(a: seq<Entry>, b: seq<Entry>)
    requires AllWellFormed(a) && AllWellFormed(b)
    ensures AllWellFormed(a + b)
  {
  }

  /** Every reserved card is one that is read back. */
  lemma ReservedFit(im: Dsim.Image, typ: string, name: string)
    requires Integers(im) && FitsCardAsString(typ) && FitsCardAsString(name)
    ensures AllWellFormed(ReservedEntries(im, typ, name))
  {
    FirstFit(im, typ);
    ScalesFit(im);
    LastFit(im, name);
    forall i | 0 <= i < im.naxes ensures WellFormed(AxisCard(im, i)) {
      AxisFits(im, i);
    }
    AllFit(FirstCards(im, typ), AxisCards(im, im.naxes));
    AllFit(FirstCards(im, typ) + AxisCards(im, im.naxes), ScaleCards(im));
    AllFit(FirstCards(im, typ) + AxisCards(im, im.naxes) + ScaleCards(im), LastCards(im, name));
  }

  /** From the file: the reserved cards of an image, with END behind them, say how many bits its
      pixels have, how many axes it has and how long each of them is. */
  lemma GeometryIsRead(im: Dsim.Image, typ: string, name: string, rest: string, stale: string)
    requires Integers(im) && FitsCardAsString(typ) && FitsCardAsString(name)
    ensures var read := ReadCards(Cards(ReservedEntries(im, typ, name)) + (EndCard() + rest), -1, stale);
      && |read| == 6 + im.naxes + (if im.pixtype == 4 then 2 else 0)
      && read[1].name == "BITPIX" && SaysNumber(read[1], 8 * im.pixsize)
      && read[2].name == "NAXIS" && SaysNumber(read[2], im.naxes)
      && forall i :: 0 <= i < im.naxes ==> SaysAxis(read[3 + i], i, im.axlen[i])
  {
    var es := ReservedEntries(im, typ, name);
    ReservedFit(im, typ, name);
    HeaderRoundTrip(es, rest, stale);
    ReservedAre(im, typ, name);
    ReservedSay(im, typ, name);
    ComesBack(es, stale, 1);
    ComesBack(es, stale, 2);
    forall i | 0 <= i < im.naxes ensures SaysAxis(NormalAll(es, stale)[3 + i], i, im.axlen[i]) {
      ComesBack(es, stale, 3 + i);
      assert SaysAxis(es[3 + i], i, im.axlen[i]);
    }
  }

  // ----- pixels of two bytes -----

  /** An unsigned short pixel is at its address, in the two bytes that BITPIX says: the high byte first,
      and 32768 more than what the file means, modulo 65536. */
  lemma UShortInFile(r: Dsim.Region, im: Dsim.Image, sizeofLong: nat, bytes: seq<Transcode.byte>, swapped: bool,
                     file: seq<Transcode.byte>, i: int, j: int)
    requires Dsim.RegionOf(r, im) && im.pixtype == 4 && Dsim.PixelBytes(4, im.pixsize, sizeofLong)
    requires Dsim.HasPixels(im) && im.naxes == 2 && Dsim.InImage(im, i, j, 0)
    requires |bytes| == 2 * (im.axlen[0] * im.axlen[1]) && Transcode.Converted(bytes, swapped, file, false)
    ensures |file| == Dsim.NPix(im) * im.pixsize && im.pixsize * 8 == 16
    ensures var at, k := Dsim.Pixel2D(r, i, j) - im.pixels, j * im.axlen[0] + i;
      && at == 2 * k && 0 <= at && at + 1 < |file|
      && var a, b := bytes[2 * k] as int, bytes[2 * k + 1] as int;
         file[at] as int * 256 + file[at + 1] == ((if swapped then b * 256 + a else a * 256 + b) + 32768) % 65536
  {
    Dsim.PixelsCounted(im);
    Dsim.AddressIs(r, im, i, j, 0);
    Dsim.LineInPlane(im.axlen[0], im.axlen[1], i, j);
    Transcode.FileBytes(bytes, swapped, file, j * im.axlen[0] + i);
  }
}
