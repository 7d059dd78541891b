/** The columns of a FITS card (sections 4.1.2 and 4.2 of the FITS Standard 4.0): what stands where
    on the card of an entry, and what any card, however it was printed, is read as. */
module FitsColumns {
  import opened Text
  import opened KwdbModel
  import opened FitsCard

  // ----- what a printed card shows -----

  /** `text` stands from column `from` on, as far as there are columns. */
  ghost predicate Shown(card: string, from: nat, text: string)
    requires |card| == 80
  {
    forall k :: from <= k < 80 && k < from + |text| ==> card[k] == text[k - from]
  }

  ghost predicate Empty(card: string, from: nat, to: nat)
    requires |card| == 80
  {
    forall k :: from <= k < 80 && k < to ==> card[k] == ' '
  }

  ghost predicate Mark(card: string, at: nat, ch: char)
    requires |card| == 80
  {
    at < 80 ==> card[at] == ch
  }

  /** The keyword is in the first eight columns. */
  ghost predicate ShowsKeyword(card: string, name: string)
    requires |card| == 80
  {
    var shown := Printable(name[..if |name| < 8 then |name| else 8]);
    Shown(card, 0, shown) && Empty(card, |shown|, 8)
  }

  /** From column `end` on: a blank, a slash, a blank and the comment, or nothing. */
  ghost predicate ShowsComment(card: string, end: nat, comment: string)
    requires |card| == 80
  {
    var shown := Printable(comment);
    if comment == [] then Empty(card, end, 80)
    else
      && Mark(card, end, ' ') && Mark(card, end + 1, '/') && Mark(card, end + 2, ' ')
      && Shown(card, end + 3, shown) && Empty(card, end + 3 + |shown|, 80)
  }

  /** A string is between quotes in columns 10 and 19, or further to the right if it has more than
      eight characters; the comment starts in column 30 or behind the closing quote. */
  ghost predicate ShowsString(card: string, value: string, comment: string)
    requires |card| == 80
  {
    var shown := Printable(value);
    var close := if |shown| < 8 then 19 else 11 + |shown|;
    var end := if close < 30 then 30 else close + 1;
    && Mark(card, 10, '\'') && Shown(card, 11, shown) && Empty(card, 11 + |shown|, close) && Mark(card, close, '\'')
    && Empty(card, close + 1, end) && ShowsComment(card, end, comment)
  }

  /** Any other value ends in column 29, or starts in column 10 if it has more than twenty
      characters. */
  ghost predicate ShowsNumber(card: string, value: string, comment: string)
    requires |card| == 80
  {
    var shown := Printable(value);
    var start := if |value| < 20 then 30 - |value| else 10;
    Empty(card, 10, start) && Shown(card, start, shown) && ShowsComment(card, start + |shown|, comment)
  }

  /** The card of entry `e`: a value card for the types string, number and logical, or a text card
      with its text from column 8 on. */
  ghost predicate ShowsEntry(card: string, e: Entry) {
    && |card| == 80 && ShowsKeyword(card, e.name)
    && if e.typ != [] && e.typ[0] == 'S' then
         card[8] == '=' && card[9] == ' ' && ShowsString(card, e.value, e.comment)
       else if e.typ != [] && (e.typ[0] == 'N' || e.typ[0] == 'L') then
         card[8] == '=' && card[9] == ' ' && ShowsNumber(card, e.value, e.comment)
       else
         Shown(card, 8, e.value) && Empty(card, 8 + |e.value|, 80)
  }

  /** What follows in a line, from column `at` on. */
  lemma Next(line: string, at: nat, text: string, rest: string)
    requires at <= |line| && line[at..] == text + rest
    ensures at + |text| <= |line| && line[at + |text|..] == rest && Shown(First80(line), at, text)
  {
    assert line[at..][|text|..] == rest;
    forall k | 0 <= k < |text| ensures line[at + k] == text[k] {
      assert line[at..][k] == text[k];
    }
  }

  lemma NextMark(line: string, at: nat, ch: char, rest: string)
    requires at <= |line| && line[at..] == [ch] + rest
    ensures at < |line| && line[at + 1..] == rest && Mark(First80(line), at, ch)
  {
    Next(line, at, [ch], rest);
  }

  lemma NextBlanks(line: string, at: nat, n: nat, rest: string)
    requires at <= |line| && line[at..] == Blanks(n) + rest
    ensures at + n <= |line| && line[at + n..] == rest && Empty(First80(line), at, at + n)
  {
    Next(line, at, Blanks(n), rest);
  }

  lemma NextLast(line: string, at: nat, text: string)
    requires at <= |line| && line[at..] == text
    ensures Shown(First80(line), at, text) && Empty(First80(line), at + |text|, 80)
  {
    Next(line, at, text, []);
    assert at + |text| == |line|;
  }

  lemma CommentShown(line: string, at: nat, comment: string)
    requires at <= |line| && line[at..] == CommentPart(comment)
    ensures ShowsComment(First80(line), at, comment)
  {
    if comment == [] {
      NextLast(line, at, []);
    } else {
      var shown := Printable(comment);
      assert " / " + shown == [' '] + (['/'] + ([' '] + shown));
      NextMark(line, at, ' ', ['/'] + ([' '] + shown));
      NextMark(line, at + 1, '/', [' '] + shown);
      NextMark(line, at + 2, ' ', shown);
      NextLast(line, at + 3, shown);
    }
  }

  lemma Regroup5(a: string, b: string, c: string, d: string, e: string, f: string)
    ensures a + b + c + d + e + f == a + (b + (c + (d + (e + f))))
  {
  }

  /** The blanks in a string value: before the closing quote, and behind it. */
  function Pad(shown: string): nat {
    if |shown| < 8 then 8 - |shown| else 0
  }

  function Gap(shown: string): nat {
    if |shown| + Pad(shown) < 18 then 18 - |shown| - Pad(shown) else 0
  }

  lemma QuotedParts(shown: string)
    ensures PadTo(['\''] + PadTo(shown, 8) + ['\''], 20)
         == ['\''] + shown + Blanks(Pad(shown)) + ['\''] + Blanks(Gap(shown))
  {
    assert PadTo(shown, 8) == shown + Blanks(Pad(shown));
    var quoted := ['\''] + (shown + Blanks(Pad(shown))) + ['\''];
    assert quoted == ['\''] + shown + Blanks(Pad(shown)) + ['\''];
    assert PadTo(quoted, 20) == quoted + Blanks(Gap(shown));
  }

  lemma StringShown(line: string, value: string, comment: string)
    requires 10 <= |line| && line[10..] == ValueShown(true, value) + CommentPart(comment)
    ensures ShowsString(First80(line), value, comment)
  {
    var shown := Printable(value);
    QuotedParts(shown);
    QuotedShown(line, shown, Blanks(Pad(shown)), Blanks(Gap(shown)), CommentPart(comment));
    QuotedIs(line, value, comment);
  }

  /** The line goes on from column 10 with these parts. */
  ghost predicate Quoted(line: string, shown: string, pad: string, gap: string, part: string) {
    10 <= |line| && line[10..] == ['\''] + (shown + (pad + (['\''] + (gap + part))))
  }

  lemma QuotedShown(line: string, shown: string, pad: string, gap: string, part: string)
    requires 10 <= |line| && line[10..] == ['\''] + shown + pad + ['\''] + gap + part
    ensures Quoted(line, shown, pad, gap, part)
  {
    Regroup5(['\''], shown, pad, ['\''], gap, part);
  }

  lemma QuotedIs(line: string, value: string, comment: string)
    requires var shown := Printable(value);
      Quoted(line, shown, Blanks(Pad(shown)), Blanks(Gap(shown)), CommentPart(comment))
    ensures ShowsString(First80(line), value, comment)
  {
    var shown := Printable(value);
    var pad, gap := Pad(shown), Gap(shown);
    QuotesShown(line, shown, pad, ['\''] + (Blanks(gap) + CommentPart(comment)));
    ClosingShown(line, 11 + |shown| + pad, gap, CommentPart(comment));
    CommentShown(line, 12 + |shown| + pad + gap, comment);
  }

  lemma QuotesShown(line: string, shown: string, pad: nat, rest: string)
    requires 10 <= |line| && line[10..] == ['\''] + (shown + (Blanks(pad) + rest))
    ensures var card, close := First80(line), 11 + |shown| + pad;
      && Mark(card, 10, '\'') && Shown(card, 11, shown) && Empty(card, 11 + |shown|, close)
      && close <= |line| && line[close..] == rest
  {
    NextMark(line, 10, '\'', shown + (Blanks(pad) + rest));
    Next(line, 11, shown, Blanks(pad) + rest);
    NextBlanks(line, 11 + |shown|, pad, rest);
  }

  lemma ClosingShown(line: string, close: nat, fill: nat, rest: string)
    requires close <= |line| && line[close..] == ['\''] + (Blanks(fill) + rest)
    ensures var card, end := First80(line), close + 1 + fill;
      Mark(card, close, '\'') && Empty(card, close + 1, end) && end <= |line| && line[end..] == rest
  {
    NextMark(line, close, '\'', Blanks(fill) + rest);
    NextBlanks(line, close + 1, fill, rest);
  }

  lemma NumberShown(line: string, value: string, comment: string)
    requires 10 <= |line| && line[10..] == ValueShown(false, value) + CommentPart(comment)
    ensures ShowsNumber(First80(line), value, comment)
  {
    var fill := if |value| < 20 then 20 - |value| else 0;
    FilledShown(line, fill, Printable(value), comment);
  }

  lemma FilledShown(line: string, fill: nat, shown: string, comment: string)
    requires 10 <= |line| && line[10..] == Blanks(fill) + shown + CommentPart(comment)
    ensures var card, start := First80(line), 10 + fill;
      Empty(card, 10, start) && Shown(card, start, shown) && ShowsComment(card, start + |shown|, comment)
  {
    Assoc3(Blanks(fill), shown, CommentPart(comment));
    NextBlanks(line, 10, fill, shown + CommentPart(comment));
    Next(line, 10 + fill, shown, CommentPart(comment));
    CommentShown(line, 10 + fill + |shown|, comment);
  }

  lemma Assoc3(a: string, b: string, c: string)
    ensures a + b + c == a + (b + c)
  {
  }

  lemma KeywordIsShown(line: string, name: string, rest: string)
    requires line == KeywordShown(name) + rest
    ensures ShowsKeyword(First80(line), name) && line[8..] == rest
  {
    var shown := Printable(name[..if |name| < 8 then |name| else 8]);
    Assoc3(shown, Blanks(8 - |shown|), rest);
    assert line[0..] == line;
    Next(line, 0, shown, Blanks(8 - |shown|) + rest);
    NextBlanks(line, |shown|, 8 - |shown|, rest);
  }

  /** What the card of an entry shows. */
  lemma CardShows(e: Entry)
    ensures ShowsEntry(CardOf(e), e)
  {
    var line := Line(e);
    if IsValueType(e.typ) {
      var value, part := ValueShown(IsStringType(e.typ), e.value), CommentPart(e.comment);
      KeywordIsShown(line, e.name, ['='] + (" " + value + part));
      Assoc3(" ", value, part);
      NextMark(line, 8, '=', [' '] + (value + part));
      NextMark(line, 9, ' ', value + part);
      if IsStringType(e.typ) {
        StringShown(line, e.value, e.comment);
      } else {
        NumberShown(line, e.value, e.comment);
      }
    } else {
      KeywordIsShown(line, e.name, e.value);
      NextLast(line, 8, e.value);
    }
  }

  lemma SameComment(a: string, b: string, end: nat, comment: string, k: nat)
    requires |a| == |b| == 80 && ShowsComment(a, end, comment) && ShowsComment(b, end, comment) && end <= k < 80
    ensures a[k] == b[k]
  {
  }

  lemma SameColumn(a: string, b: string, e: Entry, k: nat)
    requires ShowsEntry(a, e) && ShowsEntry(b, e) && k < 80
    ensures a[k] == b[k]
  {
    var shown := Printable(e.value);
    if e.typ != [] && e.typ[0] == 'S' {
      var close := if |shown| < 8 then 19 else 11 + |shown|;
      var end := if close < 30 then 30 else close + 1;
      if k >= end {
        SameComment(a, b, end, e.comment, k);
      }
    } else if IsValueType(e.typ) {
      var end := (if |e.value| < 20 then 30 - |e.value| else 10) + |shown|;
      if k >= end {
        SameComment(a, b, end, e.comment, k);
      }
    }
  }

  /** A card shows an entry if and only if it is the card that is printed. */
  lemma OneCardShows(card: string, e: Entry)
    ensures ShowsEntry(card, e) <==> card == CardOf(e)
  {
    CardShows(e);
    if ShowsEntry(card, e) {
      forall k: nat | k < 80 ensures card[k] == CardOf(e)[k] {
        SameColumn(card, CardOf(e), e, k);
      }
    }
  }

  /** In particular, a slash in column 31 with a blank on either side parts the comment from a
      number of at most twenty columns, or from a string of at most eighteen characters. */
  lemma SlashColumn(e: Entry)
    requires e.typ != [] && e.comment != [] && AllPrint(e.value) && AllPrint(e.comment)
    requires if e.typ[0] == 'S' then |e.value| <= 18 else e.typ[0] in "NL" && |e.value| <= 20
    ensures var card := CardOf(e);
      && card[8] == '=' && card[9] == ' ' && card[30] == ' ' && card[31] == '/' && card[32] == ' '
      && forall k :: 33 <= k < 80 && k < 33 + |e.comment| ==> card[k] == e.comment[k - 33]
  {
    CardShows(e);
    CommentFrom(CardOf(e), e);
  }

  lemma CommentFrom(card: string, e: Entry)
    requires ShowsEntry(card, e) && e.typ != [] && AllPrint(e.value)
    requires if e.typ[0] == 'S' then |e.value| <= 18 else e.typ[0] in "NL" && |e.value| <= 20
    ensures card[8] == '=' && card[9] == ' ' && ShowsComment(card, 30, e.comment)
  {
  }

  // ----- what any card is read as -----

  /** The keyword is in the first `n` columns: eight printable characters, and it ends at the first
      blank of them. */
  ghost predicate NamedBy(card: string, n: nat) {
    && |card| == 80 && n <= 8 && (forall k :: 0 <= k < 8 ==> ' ' <= card[k] <= '~')
    && (forall k :: 0 <= k < n ==> card[k] != ' ') && (n < 8 ==> card[n] == ' ')
  }

  /** `at` is where the value starts: behind the equals sign white space is skipped, but no more
      than 21 columns of it. */
  ghost predicate StartsAt(card: string, at: nat) {
    && |card| == 80 && card[8] == '=' && 9 <= at <= 30
    && (forall k :: 9 <= k < at ==> card[k] == ' ' || '\t' <= card[k] <= '\r')
    && (at < 30 ==> card[at] != ' ' && !('\t' <= card[at] <= '\r'))
  }

  /** Columns `at` to `end` hold none of the characters `stops`, and then comes one, or the end. */
  ghost predicate RunsTo(card: string, at: nat, end: nat, stops: string) {
    at <= end <= |card| && (forall k :: at <= k < end ==> card[k] !in stops) && (end < |card| ==> card[end] in stops)
  }

  /** Columns `at` to `end` hold text with blanks behind it, up to a newline or the end. */
  ghost predicate TextIn(card: string, at: nat, end: nat, stop: nat) {
    && RunsTo(card, at, stop, "\n") && at <= end <= stop && (forall k :: end <= k < stop ==> card[k] == ' ')
    && (end > at ==> card[end - 1] != ' ')
  }

  /** From column `at` on there are blanks and slashes, and from column `first` to `end` the comment. */
  ghost predicate CommentIn(card: string, at: nat, first: nat, end: nat, stop: nat) {
    && at <= first <= |card| && (forall k :: at <= k < first ==> card[k] == ' ' || card[k] == '/')
    && (first < |card| ==> card[first] != ' ' && card[first] != '/') && TextIn(card, first, end, stop)
  }

  lemma UpToAt(card: string, at: nat, end: nat, stops: string)
    requires RunsTo(card, at, end, stops)
    ensures UpTo(card[at..], stops) == card[at..end]
  {
    assert card[at..] == card[at..end] + card[end..];
    UpToPrefix(card[at..end], card[end..], stops);
  }

  lemma KeywordIs(card: string, n: nat)
    requires NamedBy(card, n)
    ensures KeywordOf(card) == card[..n]
  {
    assert RunsTo(card[..8], 0, n, " ");
    UpToAt(card[..8], 0, n, " ");
    assert card[..8][0..] == card[..8] && card[..8][0..n] == card[..n];
  }

  lemma {:induction false} SkippedTo(s: string, n: nat, max: nat)
    requires n <= max && n <= |s| && (forall k :: 0 <= k < n ==> IsSpace(s[k]))
    requires n == max || n == |s| || !IsSpace(s[n])
    ensures SkipSpace(s, max) == s[n..]
    decreases n
  {
    if n > 0 {
      SkippedTo(s[1..], n - 1, max - 1);
      assert s[1..][n - 1..] == s[n..];
    }
  }

  lemma ValueFrom(card: string, at: nat)
    requires StartsAt(card, at)
    ensures SkipSpace(card[9..], 21) == card[at..]
  {
    forall k | 0 <= k < at - 9 ensures IsSpace(card[9..][k]) {
      assert card[9..][k] == card[9 + k];
    }
    SkippedTo(card[9..], at - 9, 21);
    assert card[9..][at - 9..] == card[at..];
  }

  lemma TextIs(card: string, at: nat, end: nat, stop: nat)
    requires TextIn(card, at, end, stop) && forall k :: at <= k < end ==> card[k] != NUL
    ensures ScanText(card[at..]) == card[at..end]
  {
    UpToAt(card, at, stop, "\n");
    assert card[at..end] <= card[at..stop];
    TrimUnique(card[at..stop], card[at..end]);
    WholeString(card[at..end], [NUL]);
  }

  lemma CommentIs(card: string, at: nat, first: nat, end: nat, stop: nat)
    requires CommentIn(card, at, first, end, stop) && forall k :: first <= k < end ==> card[k] != NUL
    ensures ScanText(After(card[at..], "/ ")) == card[first..end]
  {
    assert card[at..] == card[at..first] + card[first..];
    AfterPrefix(card[at..first], card[first..], "/ ");
    TextIs(card, first, end, stop);
  }

  lemma PlainValue(card: string, at: nat, end: nat)
    requires StartsAt(card, at) && card[at] != '\'' && RunsTo(card, at, end, " /")
    ensures ReadValue(card[9..]) == Value(card[at..end], false, card[end..])
  {
    ValueFrom(card, at);
    UpToAt(card, at, end, " /");
    assert card[at..][0] == card[at] && card[at..][end - at..] == card[end..];
  }

  lemma QuotedValue(card: string, at: nat, end: nat)
    requires StartsAt(card, at) && card[at] == '\'' && RunsTo(card, at + 1, end, "'")
    ensures ReadValue(card[9..]) == Value(card[at + 1..end], true, card[if end < 80 then end + 1 else 80..])
  {
    ValueFrom(card, at);
    UpToAt(card, at + 1, end, "'");
    assert card[at..][0] == card[at] && card[at..][1..] == card[at + 1..];
    assert end < 80 ==> card[at..][end + 1 - at..] == card[end + 1..];
  }

  /** A value that is T or F, in either case, is logical. */
  lemma LogicalIs(text: string)
    ensures SameName(text, "T") || SameName(text, "F") <==> text in ["T", "t", "F", "f"]
  {
    assert Lower("T")[0] == 't' && Lower("F")[0] == 'f';
    if |text| == 1 {
      var c := text[0];
      assert text == [c] && Lower(text)[0] == LowerChar(c);
      assert LowerChar(c) == 't' <==> c == 'T' || c == 't';
      assert LowerChar(c) == 'f' <==> c == 'F' || c == 'f';
      assert Lower(text) == Lower("T") <==> LowerChar(c) == 't';
      assert Lower(text) == Lower("F") <==> LowerChar(c) == 'f';
    } else {
      assert |Lower("T")| == |Lower("F")| == 1 == |"T"| == |"t"| == |"F"| == |"f"|;
    }
  }

  /** The card that ends a header, column by column. */
  lemma EndCardIs(card: string)
    requires |card| == 80
    ensures IsEndCard(card) <==>
            && card[0] in "Ee" && card[1] in "Nn" && card[2] in "Dd" && card[3] == ' '
            && forall k :: 3 < k < 8 ==> ' ' <= card[k] <= '~'
  {
    assert Lower("END") == "end";
    var key := UpTo(card[..8], " ");
    assert Lower(key) == "end" <==>
           |key| == 3 && LowerChar(key[0]) == 'e' && LowerChar(key[1]) == 'n' && LowerChar(key[2]) == 'd';
    forall c: char
      ensures (LowerChar(c) == 'e' <==> c in "Ee") && (LowerChar(c) == 'n' <==> c in "Nn")
      ensures LowerChar(c) == 'd' <==> c in "Dd" {
    }
    if card[0] in "Ee" && card[1] in "Nn" && card[2] in "Dd" && card[3] == ' ' {
      assert RunsTo(card[..8], 0, 3, " ");
      UpToAt(card[..8], 0, 3, " ");
      assert card[..8][0..] == card[..8];
    }
  }

  /** What a value card without quotes is read as, column by column: the value runs to the first
      blank or slash, and the comment starts behind the blanks and slashes that follow. */
  lemma ReadsPlain(card: string, stale: string, n: nat, at: nat, end: nat, first: nat, last: nat, stop: nat)
    requires NamedBy(card, n) && !SameName(card[..n], "END") && !IsTextName(card[..n])
    requires StartsAt(card, at) && card[at] != '\'' && RunsTo(card, at, end, " /")
    requires CommentIn(card, end, first, last, stop) && NoNul(card)
    ensures ReadCard(card, stale) == Full(Entry(card[..n], card[at..end],
        if card[at..end] in ["T", "t", "F", "f"] then "L" else "N", card[first..last]))
  {
    KeywordIs(card, n);
    PlainValue(card, at, end);
    WholeString(card[at..end], [NUL]);
    LogicalIs(card[at..end]);
    CommentIs(card, end, first, last, stop);
    ReadsAsValue(card, card[..n], stale, Value(card[at..end], false, card[end..]));
  }

  /** With a quote, the value runs to the next quote, or to the end of the card. */
  lemma ReadsQuoted(card: string, stale: string, n: nat, at: nat, end: nat, first: nat, last: nat, stop: nat)
    requires NamedBy(card, n) && !SameName(card[..n], "END") && !IsTextName(card[..n])
    requires StartsAt(card, at) && card[at] == '\'' && RunsTo(card, at + 1, end, "'")
    requires CommentIn(card, if end < 80 then end + 1 else 80, first, last, stop) && NoNul(card)
    ensures ReadCard(card, stale) == Full(Entry(card[..n], card[at + 1..end], "S", card[first..last]))
  {
    KeywordIs(card, n);
    QuotedValue(card, at, end);
    WholeString(card[at + 1..end], [NUL]);
    CommentIs(card, if end < 80 then end + 1 else 80, first, last, stop);
    ReadsAsValue(card, card[..n], stale, Value(card[at + 1..end], true, card[if end < 80 then end + 1 else 80..]));
  }

  /** Any other card is text from column 8 on: cards named COMMENT or HISTORY, and those without an
      equals sign there. */
  lemma ReadsText(card: string, stale: string, n: nat, last: nat, stop: nat)
    requires NamedBy(card, n) && !SameName(card[..n], "END") && NoNul(card)
    requires SameName(card[..n], "COMMENT") || SameName(card[..n], "HISTORY") || card[8] != '='
    requires TextIn(card, 8, last, stop)
    ensures ReadCard(card, stale) == Full(Entry(card[..n], card[8..last],
        if SameName(card[..n], "COMMENT") then "C" else if SameName(card[..n], "HISTORY") then "H" else "T", stale))
  {
    KeywordIs(card, n);
    TextIs(card, 8, last, stop);
    ReadsAsText(card, card[..n], stale, card[8..last]);
  }
}
