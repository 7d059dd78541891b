/** FITS cards of keyword database entries: how `kwdb_WriteFITS` prints an entry on an
    80-character card and how `kwdb_ReadFITS` reads one (mosdca/kwdb.c; sections 4.1 and 4.2.1 of
    the FITS Standard 4.0). */
module FitsCard {
  import opened Text
  import opened KwdbModel

  const CARDLEN: nat := 80

  // ----- printing -----

  function PadTo(s: string, n: nat): (r: string)
    ensures |r| >= n && s <= r
    ensures |s| >= n ==> r == s
  {
    if |s| < n then s + Blanks(n - |s|) else s
  }

  /** The first 80 columns of a line, blank where the line has ended. */
  function First80(line: string): (card: string)
    ensures |card| == CARDLEN
    ensures forall k :: 0 <= k < CARDLEN ==> card[k] == if k < |line| then line[k] else ' '
  {
    seq(CARDLEN, k requires 0 <= k => if k < |line| then line[k] else ' ')
  }

  function KeywordShown(name: string): (r: string)
    ensures |r| == 8
  {
    PadTo(Printable(name[..if |name| < 8 then |name| else 8]), 8)
  }

  predicate IsValueType(typ: string) {
    typ != [] && (typ[0] == 'S' || typ[0] == 'N' || typ[0] == 'L')
  }

  predicate IsStringType(typ: string) {
    typ != [] && typ[0] == 'S'
  }

  /** Columns 10 on of a card with a value, up to the comment. */
  function ValueShown(isString: bool, value: string): string {
    if isString then PadTo(['\''] + PadTo(Printable(value), 8) + ['\''], 20)
    else Blanks(if |value| < 20 then 20 - |value| else 0) + Printable(value)
  }

  function CommentPart(comment: string): string {
    if comment == [] then [] else " / " + Printable(comment)
  }

  /** A value card from its tenth column on: a blank, the value and the comment. */
  function Columns(isString: bool, value: string, comment: string): string {
    " " + ValueShown(isString, value) + CommentPart(comment)
  }

  /** The line an entry prints as; the card holds its first 80 columns. */
  function Line(e: Entry): string {
    KeywordShown(e.name) +
    if IsValueType(e.typ) then ['='] + Columns(IsStringType(e.typ), e.value, e.comment) else e.value
  }

  function CardOf(e: Entry): (card: string)
    ensures |card| == CARDLEN
  {
    First80(Line(e))
  }

  // ----- reading -----

  /** `s` up to the first of the characters `stops`. */
  function UpTo(s: string, stops: string): (r: string)
    ensures r <= s && (forall k :: 0 <= k < |r| ==> r[k] !in stops)
    ensures |r| < |s| ==> s[|r|] in stops
  {
    if s == [] || s[0] in stops then [] else [s[0]] + UpTo(s[1..], stops)
  }

  /** `s` from the first character on that is not one of `skipped`. */
  function After(s: string, skipped: string): string {
    if s == [] || s[0] !in skipped then s else After(s[1..], skipped)
  }

  /** `s` without at most `n` leading white space characters. */
  function SkipSpace(s: string, n: nat): string
    decreases n
  {
    if n == 0 || s == [] || !IsSpace(s[0]) then s else SkipSpace(s[1..], n - 1)
  }

  const NOT_END := "END     "

  /** The keyword; eight columns that are not all printable count as the keyword "END     ",
      which the test for END does not recognise. */
  function KeywordOf(card: string): string
    requires |card| == CARDLEN
  {
    if AllPrint(card[..8]) then UpTo(card[..8], " ") else NOT_END
  }

  datatype Value = Value(text: string, isString: bool, rest: string)

  /** The value at the start of `s`, and what follows it. */
  function ScanValue(s: string): Value {
    if s != [] && s[0] == '\'' then
      var v := UpTo(s[1..], "'");
      Value(v, true, if |v| + 2 <= |s| then s[|v| + 2..] else [])
    else
      var v := UpTo(s, " /");
      Value(v, false, s[|v|..])
  }

  /** What `ReadCard` makes of the columns after the equals sign. */
  function ReadValue(s: string): Value {
    ScanValue(SkipSpace(s, 21))
  }

  function ScanText(s: string): string {
    UpTo(Trim(UpTo(s, "\n")), [NUL])
  }

  function ValueType(isString: bool, text: string): string {
    if isString then ['S'] else if SameName(text, "T") || SameName(text, "F") then ['L'] else ['N']
  }

  datatype Card = End | Full(entry: Entry)

  function ValueEntry(name: string, v: Value): Entry {
    var text := UpTo(v.text, [NUL]);
    Entry(name, text, ValueType(v.isString, text), ScanText(After(v.rest, "/ ")))
  }

  predicate IsTextName(name: string) {
    SameName(name, "COMMENT") || SameName(name, "HISTORY")
  }

  function TextType(name: string): string {
    if SameName(name, "COMMENT") then "C" else if SameName(name, "HISTORY") then "H" else "T"
  }

  /** What a card is read as.  A text card gets the comment that was read last, `stale`. */
  function ReadCard(card: string, stale: string): Card
    requires |card| == CARDLEN
  {
    var name := KeywordOf(card);
    if SameName(name, "END") then End
    else if !IsTextName(name) && card[8] == '=' then Full(ValueEntry(name, ReadValue(card[9..])))
    else Full(Entry(name, ScanText(card[8..]), TextType(name), stale))
  }

  // ----- where reading stops -----

  /** The card that ends a header: its first eight columns are printable and start with END. */
  predicate IsEndCard(card: string)
    requires |card| == CARDLEN
  {
    AllPrint(card[..8]) && SameName(UpTo(card[..8], " "), "END")
  }

  /** Reading stops at such a card and at no other. */
  lemma StopsAtEnd(card: string, stale: string)
    requires |card| == CARDLEN
    ensures ReadCard(card, stale) == End <==> IsEndCard(card)
  {
    assert |Lower(NOT_END)| != |Lower("END")|;
  }

  /** In particular not at binary data, although that is what the keyword "END     " is for: the
      card is read as an entry of that name. */
  lemma BinaryIsRead(card: string, stale: string)
    requires |card| == CARDLEN && !AllPrint(card[..8])
    ensures ReadCard(card, stale).Full? && ReadCard(card, stale).entry.name == NOT_END
  {
    assert |Lower(NOT_END)| != |Lower("END")|;
    assert |Lower(NOT_END)| != |Lower("COMMENT")|;
  }

  /** A card with an unprintable first column, blank otherwise. */
  lemma BinaryCard(stale: string)
    ensures ReadCard(['\n'] + Blanks(79), stale) == Full(Entry("END     ", [], "T", stale))
  {
    var card := ['\n'] + Blanks(79);
    assert card[..8][0] == '\n' && KeywordOf(card) == NOT_END;
    assert card[8] == ' ' && card[8..] == Blanks(72);
    BlankText();
    NotText();
  }

  lemma BlankText()
    ensures ScanText(Blanks(72)) == []
  {
    NoNewline(Blanks(72));
    TrimUnique(Blanks(72), []);
  }

  lemma NotText()
    ensures !SameName(NOT_END, "END") && !IsTextName(NOT_END)
  {
    assert |Lower(NOT_END)| != |Lower("END")|;
    assert |Lower(NOT_END)| != |Lower("COMMENT")| && |Lower(NOT_END)| != |Lower("HISTORY")|;
  }

  lemma {:induction false} NoNewline(s: string)
    requires '\n' !in s
    ensures UpTo(s, "\n") == s
  {
    if s != [] {
      NoNewline(s[1..]);
      assert s == [s[0]] + s[1..];
    }
  }

  // ----- entries that survive the trip -----

  predicate CleanComment(comment: string) {
    && AllPrint(comment) && Trim(comment) == comment
    && (comment != [] ==> comment[0] != '/' && comment[0] != ' ')
  }

  predicate CleanText(s: string) {
    NoNul(s) && '\n' !in s && Trim(s) == s
  }

  /** A name that fills its columns and is no END. */
  predicate CleanName(name: string) {
    |name| <= 8 && AllPrint(name) && ' ' !in name && !SameName(name, "END")
  }

  /** A value that ends where the reader looks for its end. */
  predicate CleanValue(isString: bool, value: string) {
    && AllPrint(value)
    && if isString then '\'' !in value
       else ' ' !in value && '/' !in value && (value != [] ==> value[0] != '\'')
  }

  /** Entries as the reader makes them, whose line fits a card. */
  predicate WellFormed(e: Entry) {
    && CleanName(e.name) && |Line(e)| <= CARDLEN
    && if IsValueType(e.typ) then
         && !IsTextName(e.name) && CleanValue(IsStringType(e.typ), e.value) && CleanComment(e.comment)
         && e.typ == ValueType(IsStringType(e.typ), e.value)
       else
         && e.typ == TextType(e.name) && CleanText(e.value)
         && (!IsTextName(e.name) && e.value != [] ==> e.value[0] != '=')
  }

  /** What a well-formed entry is read back as: strings are blank-padded to eight characters, and
      a text entry takes over the comment read before it. */
  function Normal(e: Entry, stale: string): Entry {
    if IsStringType(e.typ) then e.(value := PadTo(e.value, 8))
    else if IsValueType(e.typ) then e
    else e.(comment := stale)
  }

  // ----- the trip of one card -----

  lemma {:induction false} UpToPrefix(a: string, b: string, stops: string)
    requires forall k :: 0 <= k < |a| ==> a[k] !in stops
    requires b == [] || b[0] in stops
    ensures UpTo(a + b, stops) == a
  {
    if a != [] {
      assert (a + b)[1..] == a[1..] + b;
      UpToPrefix(a[1..], b, stops);
    } else {
      assert a + b == b;
    }
  }

  lemma {:induction false} AfterPrefix(a: string, b: string, skipped: string)
    requires forall k :: 0 <= k < |a| ==> a[k] in skipped
    requires b == [] || b[0] !in skipped
    ensures After(a + b, skipped) == b
  {
    if a != [] {
      assert (a + b)[1..] == a[1..] + b;
      AfterPrefix(a[1..], b, skipped);
    } else {
      assert a + b == b;
    }
  }

  lemma {:induction false} SkipSpacePrefix(n: nat, s: string, max: nat)
    requires n <= max && (n == max || s == [] || !IsSpace(s[0]))
    ensures SkipSpace(Blanks(n) + s, max) == s
    decreases n
  {
    if n > 0 {
      assert (Blanks(n) + s)[1..] == Blanks(n - 1) + s;
      SkipSpacePrefix(n - 1, s, max - 1);
    } else {
      assert Blanks(0) + s == s;
    }
  }

  lemma TrimPadded(s: string, n: nat)
    requires Trim(s) == s
    ensures Trim(s + Blanks(n)) == s
  {
    TrimUnique(s + Blanks(n), s);
  }

  /** Text that is clean comes back from the columns it was printed in. */
  lemma TextBack(s: string, n: nat)
    requires CleanText(s)
    ensures ScanText(s + Blanks(n)) == s
  {
    assert s + Blanks(n) == s + Blanks(n) + [];
    UpToPrefix(s + Blanks(n), [], "\n");
    TrimPadded(s, n);
    assert s == s + [];
    UpToPrefix(s, [], [NUL]);
  }

  /** What follows the value: blanks, the comment if there is one, and blanks again. */
  function Tail(blanks: nat, comment: string, n: nat): string {
    Blanks(blanks) + (CommentPart(comment) + Blanks(n))
  }

  lemma CommentBack(blanks: nat, comment: string, n: nat)
    requires CleanComment(comment)
    ensures ScanText(After(Tail(blanks, comment, n), "/ ")) == comment
  {
    if comment == [] {
      NoCommentBack(blanks, n);
    } else {
      LeadIn(blanks, comment, n);
      TextBack(comment, n);
    }
  }

  lemma LeadIn(blanks: nat, comment: string, n: nat)
    requires CleanComment(comment) && comment != []
    ensures After(Tail(blanks, comment, n), "/ ") == comment + Blanks(n)
  {
    var lead := Blanks(blanks) + " / ";
    assert Tail(blanks, comment, n) == lead + (comment + Blanks(n));
    AfterPrefix(lead, comment + Blanks(n), "/ ");
  }

  lemma NoCommentBack(blanks: nat, n: nat)
    ensures ScanText(After(Tail(blanks, [], n), "/ ")) == []
  {
    var s := Tail(blanks, [], n);
    assert s == Blanks(blanks + n) + [];
    AfterPrefix(Blanks(blanks + n), [], "/ ");
    assert UpTo([], "\n") == [] && Trim([]) == [] && UpTo([], [NUL]) == [];
  }

  lemma KeywordBack(e: Entry, rest: string)
    requires |e.name| <= 8 && AllPrint(e.name) && ' ' !in e.name
    requires |KeywordShown(e.name) + rest| <= CARDLEN
    ensures KeywordShown(e.name) == e.name + Blanks(8 - |e.name|)
    ensures KeywordOf(First80(KeywordShown(e.name) + rest)) == e.name
  {
    assert e.name[..|e.name|] == e.name;
    var card := First80(KeywordShown(e.name) + rest);
    assert card[..8] == e.name + Blanks(8 - |e.name|);
    UpToPrefix(e.name, Blanks(8 - |e.name|), " ");
  }

  /** A line that fits is its card up to trailing blanks. */
  lemma CardIsLine(line: string)
    requires |line| <= CARDLEN
    ensures First80(line) == line + Blanks(CARDLEN - |line|)
  {
  }

  lemma WholeString(s: string, stops: string)
    requires forall k :: 0 <= k < |s| ==> s[k] !in stops
    ensures UpTo(s, stops) == s
  {
    assert s == s + [];
    UpToPrefix(s, [], stops);
  }

  lemma ScanString(text: string, rest: string)
    requires '\'' !in text
    ensures ScanValue(['\''] + (text + (['\''] + rest))) == Value(text, true, rest)
  {
    var s := ['\''] + (text + (['\''] + rest));
    assert s[1..] == text + (['\''] + rest);
    UpToPrefix(text, ['\''] + rest, "'");
    assert s[|text| + 2..] == rest;
  }

  lemma ScanNumber(text: string, rest: string)
    requires ' ' !in text && '/' !in text && (text != [] ==> text[0] != '\'')
    requires rest == [] || rest[0] == ' '
    ensures ScanValue(text + rest) == Value(text, false, rest)
  {
    UpToPrefix(text, rest, " /");
    assert (text + rest)[|text|..] == rest;
    assert text == [] ==> text + rest == rest;
  }

  /** Blanks between a string value and the comment. */
  function Fill(value: string): nat {
    if |PadTo(value, 8)| + 2 < 20 then 20 - (|PadTo(value, 8)| + 2) else 0
  }

  lemma Regroup(a: string, b: string, c: string, d: string, e: string, f: string, g: string)
    ensures a + (b + c + d + e) + f + g == a + (b + (c + (d + (e + (f + g)))))
  {
    assert b + c + d + e == b + (c + (d + e));
  }

  /** A string value comes back from its columns, with `n` blanks after the comment. */
  lemma StringBack(value: string, comment: string, n: nat)
    requires CleanValue(true, value)
    ensures ReadValue(Columns(true, value, comment) + Blanks(n))
         == Value(PadTo(value, 8), true, Tail(Fill(value), comment, n))
  {
    var q, text, fill := ['\''], PadTo(value, 8), Blanks(Fill(value));
    assert AllPrint(text) && ValueShown(true, value) == q + text + q + fill by {
      assert Printable(value) == value;
    }
    Regroup(" ", q, text, q, fill, CommentPart(comment), Blanks(n));
    assert " " == Blanks(1);
    QuoteBack(text, Tail(Fill(value), comment, n), Columns(true, value, comment) + Blanks(n));
  }

  lemma QuoteBack(text: string, tail: string, s: string)
    requires '\'' !in text && s == Blanks(1) + (['\''] + (text + (['\''] + tail)))
    ensures ReadValue(s) == Value(text, true, tail)
  {
    SkipSpacePrefix(1, ['\''] + (text + (['\''] + tail)), 21);
    ScanString(text, tail);
  }

  lemma Regroup4(a: string, b: string, c: string, d: string, e: string)
    ensures a + (b + c) + d + e == (a + b) + (c + (d + e))
  {
  }

  /** Any other value comes back from its columns. */
  lemma NumberBack(value: string, comment: string, n: nat)
    requires CleanValue(false, value)
    ensures ReadValue(Columns(false, value, comment) + Blanks(n)) == Value(value, false, Tail(0, comment, n))
  {
    NumberColumns(value, comment, n);
    PlainBack(value, Tail(0, comment, n), Columns(false, value, comment) + Blanks(n));
  }

  lemma NumberColumns(value: string, comment: string, n: nat)
    requires AllPrint(value)
    ensures Columns(false, value, comment) + Blanks(n)
         == Blanks(1 + if |value| < 20 then 20 - |value| else 0) + (value + Tail(0, comment, n))
    ensures Tail(0, comment, n) == [] || Tail(0, comment, n)[0] == ' '
  {
    var fill := if |value| < 20 then 20 - |value| else 0;
    Regroup4(" ", Blanks(fill), value, CommentPart(comment), Blanks(n));
    assert " " + Blanks(fill) == Blanks(1 + fill);
    assert Tail(0, comment, n) == CommentPart(comment) + Blanks(n);
  }

  lemma PlainBack(text: string, tail: string, s: string)
    requires CleanValue(false, text) && (tail == [] || tail[0] == ' ')
    requires s == Blanks(1 + if |text| < 20 then 20 - |text| else 0) + (text + tail)
    ensures ReadValue(s) == Value(text, false, tail)
  {
    var lead := 1 + if |text| < 20 then 20 - |text| else 0;
    assert text != [] ==> (text + tail)[0] == text[0];
    SkipSpacePrefix(lead, text + tail, 21);
    ScanNumber(text, tail);
  }

  /** The columns of a card from the ninth on. */
  lemma CardColumns(e: Entry)
    requires CleanName(e.name) && |Line(e)| <= CARDLEN
    ensures var n, card := CARDLEN - |Line(e)|, CardOf(e);
      && KeywordOf(card) == e.name
      && card[8..] == (if IsValueType(e.typ) then ['='] + Columns(IsStringType(e.typ), e.value, e.comment) else e.value)
                      + Blanks(n)
  {
    var n, card := CARDLEN - |Line(e)|, CardOf(e);
    var body := if IsValueType(e.typ) then ['='] + Columns(IsStringType(e.typ), e.value, e.comment) else e.value;
    KeywordBack(e, body);
    CardIsLine(Line(e));
    SplitColumns(KeywordShown(e.name), body, Blanks(n), card);
  }

  lemma SplitColumns(name: string, body: string, blanks: string, card: string)
    requires |name| == 8 && card == name + body + blanks
    ensures card[8..] == body + blanks
  {
  }

  lemma SplitEquals(card: string, columns: string, blanks: string)
    requires |card| == CARDLEN && card[8..] == ['='] + columns + blanks
    ensures card[8] == '=' && card[9..] == columns + blanks
  {
    assert card[8] == card[8..][0];
    assert card[9..] == card[8..][1..];
  }

  lemma ReadsAsValue(card: string, name: string, stale: string, v: Value)
    requires |card| == CARDLEN && KeywordOf(card) == name && card[8] == '=' && ReadValue(card[9..]) == v
    requires !SameName(name, "END") && !IsTextName(name)
    ensures ReadCard(card, stale) == Full(ValueEntry(name, v))
  {
  }

  lemma ReadsAsText(card: string, name: string, stale: string, text: string)
    requires |card| == CARDLEN && KeywordOf(card) == name && ScanText(card[8..]) == text
    requires !SameName(name, "END") && (IsTextName(name) || card[8] != '=')
    ensures ReadCard(card, stale) == Full(Entry(name, text, TextType(name), stale))
  {
  }

  lemma ValueEntryIs(name: string, text: string, isString: bool, fill: nat, comment: string, n: nat)
    requires NoNul(text) && CleanComment(comment)
    ensures ValueEntry(name, Value(text, isString, Tail(fill, comment, n)))
         == Entry(name, text, ValueType(isString, text), comment)
  {
    WholeString(text, [NUL]);
    CommentBack(fill, comment, n);
  }

  lemma ValueReads(card: string, name: string, stale: string, isString: bool, value: string, comment: string, n: nat)
    requires |card| == CARDLEN && KeywordOf(card) == name && card[8] == '='
    requires card[9..] == Columns(isString, value, comment) + Blanks(n)
    requires !SameName(name, "END") && !IsTextName(name) && CleanValue(isString, value) && CleanComment(comment)
    ensures var text := if isString then PadTo(value, 8) else value;
      ReadCard(card, stale) == Full(Entry(name, text, ValueType(isString, text), comment))
  {
    var text := if isString then PadTo(value, 8) else value;
    var fill := if isString then Fill(value) else 0;
    if isString {
      StringBack(value, comment, n);
    } else {
      NumberBack(value, comment, n);
    }
    ReadsAsValue(card, name, stale, Value(text, isString, Tail(fill, comment, n)));
    ValueEntryIs(name, text, isString, fill, comment, n);
  }

  lemma ValueCardRoundTrip(e: Entry, stale: string)
    requires WellFormed(e) && IsValueType(e.typ)
    ensures ReadCard(CardOf(e), stale) == Full(Normal(e, stale))
  {
    var n := CARDLEN - |Line(e)|;
    CardColumns(e);
    SplitEquals(CardOf(e), Columns(IsStringType(e.typ), e.value, e.comment), Blanks(n));
    ValueReads(CardOf(e), e.name, stale, IsStringType(e.typ), e.value, e.comment, n);
  }

  lemma TextCardRoundTrip(e: Entry, stale: string)
    requires WellFormed(e) && !IsValueType(e.typ)
    ensures ReadCard(CardOf(e), stale) == Full(Normal(e, stale))
  {
    var n, card := CARDLEN - |Line(e)|, CardOf(e);
    CardColumns(e);
    TextBack(e.value, n);
    TextColumn(card, e.value, n);
    ReadsAsText(card, e.name, stale, e.value);
  }

  lemma TextColumn(card: string, text: string, n: nat)
    requires |card| == CARDLEN && card[8..] == text + Blanks(n)
    ensures text == [] || text[0] != '=' ==> card[8] != '='
  {
    assert card[8] == card[8..][0];
  }

  /** Round trip of one entry: reading its card gives the entry back. */
  lemma CardRoundTrip(e: Entry, stale: string)
    requires WellFormed(e)
    ensures ReadCard(CardOf(e), stale) == Full(Normal(e, stale))
  {
    if IsValueType(e.typ) {
      ValueCardRoundTrip(e, stale);
    } else {
      TextCardRoundTrip(e, stale);
    }
  }

  /** Printing what was read gives the same card again. */
  lemma PrintAgain(e: Entry, stale: string)
    requires WellFormed(e)
    ensures CardOf(Normal(e, stale)) == CardOf(e)
  {
    if IsStringType(e.typ) {
      assert Printable(PadTo(e.value, 8)) == PadTo(e.value, 8);
    }
  }
}
