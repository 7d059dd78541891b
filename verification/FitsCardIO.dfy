/** The printing and scanning loops of `kwdb_WriteFITS` and `kwdb_ReadFITS` (mosdca/kwdb.c), each
    proved to do what the functions of `FitsCard` say. */
module FitsCardIO {
  import opened Text
  import opened KwdbModel
  import opened FitsCard
  import opened FitsColumns

  const SZ_CARDBUF: nat := 256

  // ----- printing -----

  /** The first 80 columns of the buffer show `line`. */
  ghost predicate Shows(card: array<char>, line: string)
    reads card
  {
    card.Length == SZ_CARDBUF && card[..CARDLEN] == First80(line)
  }

  /** The output pointer stands at the end of `line`, or both are past the last column. */
  predicate Stands(op: nat, line: string) {
    op <= CARDLEN + 3 && (op == |line| || (op >= CARDLEN && |line| >= CARDLEN))
  }

  /** Stores one character at the output pointer. */
  method Put(card: array<char>, op: nat, ch: char, ghost line: string)
    requires Shows(card, line) && Stands(op, line)
    modifies card
    ensures Shows(card, line + [ch])
  {
    card[op] := ch;
    assert forall k :: 0 <= k < CARDLEN ==> card[..CARDLEN][k] == First80(line + [ch])[k];
  }

  /** Past the last column nothing shows. */
  lemma Hidden(card: array<char>, line: string, more: string)
    requires Shows(card, line) && (|line| >= CARDLEN || forall k :: 0 <= k < |more| ==> more[k] == ' ')
    ensures Shows(card, line + more)
  {
    assert First80(line + more) == First80(line);
  }

  /** Copies the printable characters of `text` while there are columns left. */
  method CopyPrintable(card: array<char>, start: nat, text: string, ghost line: string) returns (op: nat)
    requires Shows(card, line) && Stands(start, line) && start <= CARDLEN
    modifies card
    ensures op <= CARDLEN && Stands(op, line + Printable(text)) && Shows(card, line + Printable(text))
  {
    op := start;
    var ip := 0;
    assert text[..0] == [] && line + [] == line;
    while ip < |text| && op < CARDLEN
      invariant 0 <= ip <= |text| && op <= CARDLEN
      invariant Stands(op, line + Printable(text[..ip])) && Shows(card, line + Printable(text[..ip]))
    {
      var ch := text[ip];
      ghost var done := Printable(text[..ip]);
      PrintableNext(text, ip);
      ip := ip + 1;
      if IsPrint(ch) {
        Put(card, op, ch, line + done);
        op := op + 1;
        Assoc(line, done, [ch]);
      }
    }
    if ip == |text| {
      assert text[..ip] == text;
    } else {
      ghost var more := PrintableMore(text, ip);
      Hidden(card, line + Printable(text[..ip]), more);
      assert line + Printable(text[..ip]) + more == line + Printable(text);
    }
  }

  lemma PrintableNext(s: string, n: nat)
    requires n < |s|
    ensures Printable(s[..n + 1]) == if IsPrint(s[n]) then Printable(s[..n]) + [s[n]] else Printable(s[..n])
  {
    assert s[..n + 1][..n] == s[..n];
  }

  lemma {:induction false} PrintableMore(s: string, n: nat) returns (more: string)
    requires n <= |s|
    ensures Printable(s) == Printable(s[..n]) + more
  {
    if n == |s| {
      assert s[..n] == s;
      more := [];
    } else {
      var last := |s| - 1;
      more := PrintableMore(s[..last], n);
      assert s[..last][..n] == s[..n];
      if IsPrint(s[last]) {
        assert Printable(s) == Printable(s[..n]) + (more + [s[last]]);
        more := more + [s[last]];
      }
    }
  }

  /** The keyword goes into the first eight columns. */
  method PrintKeyword(card: array<char>, name: string)
    requires Shows(card, [])
    modifies card
    ensures Shows(card, KeywordShown(name))
  {
    var ip, op, n := 0, 0, 8;
    assert name[..0] == [];
    while ip < |name| && n > 0
      invariant 0 <= ip <= |name| && 0 <= n <= 8 && ip + n == 8 && op <= ip
      invariant op == |Printable(name[..ip])| && Shows(card, Printable(name[..ip]))
    {
      n := n - 1;
      var ch := name[ip];
      ghost var done := Printable(name[..ip]);
      assert name[..ip + 1][..ip] == name[..ip];
      ip := ip + 1;
      if IsPrint(ch) {
        Put(card, op, ch, done);
        op := op + 1;
      }
    }
    ghost var m := if |name| < 8 then |name| else 8;
    assert ip == m;
    Hidden(card, Printable(name[..m]), Blanks(8 - op));
  }

  /** Moves the output pointer on over columns that are blank already. */
  method SkipTo(card: array<char>, start: nat, column: nat, ghost line: string) returns (op: nat)
    requires Shows(card, line) && Stands(start, line) && column <= 30
    ensures Shows(card, PadTo(line, column)) && Stands(op, PadTo(line, column))
    ensures op == if start < column then column else start
  {
    op := start;
    while op < column
      invariant start <= op && (op <= column || op == start)
    {
      op := op + 1;
    }
    if |line| < column {
      Hidden(card, line, Blanks(column - |line|));
    }
  }

  /** The value of a string entry. */
  method PrintString(card: array<char>, value: string, ghost line: string) returns (op: nat)
    requires Shows(card, line) && |line| == 10
    modifies card
    ensures op <= CARDLEN + 1 && Shows(card, line + ValueShown(true, value))
    ensures Stands(op, line + ValueShown(true, value))
  {
    op := 10;
    Put(card, op, '\'', line);
    op := op + 1;
    ghost var l1 := line + ['\''];
    op := CopyPrintable(card, op, value, l1);
    ghost var l2 := l1 + Printable(value);
    op := SkipTo(card, op, 19, l2);
    ghost var l3 := PadTo(l2, 19);
    assert l3 == l1 + PadTo(Printable(value), 8);
    Put(card, op, '\'', l3);
    op := op + 1;
    ghost var l4 := l3 + ['\''];
    op := SkipTo(card, op, 30, l4);
    assert l4 == line + (['\''] + PadTo(Printable(value), 8) + ['\'']);
    assert PadTo(l4, 30) == line + ValueShown(true, value);
  }

  /** The value of any other entry, to the right in its twenty columns. */
  method PrintNumber(card: array<char>, value: string, ghost line: string) returns (op: nat)
    requires Shows(card, line) && |line| == 10
    modifies card
    ensures op <= CARDLEN + 1 && Shows(card, line + ValueShown(false, value))
    ensures Stands(op, line + ValueShown(false, value))
  {
    op := 10;
    var n := 20 - |value|;
    ghost var l1 := line;
    if n > 0 {
      op := op + n;
      l1 := line + Blanks(n);
      Hidden(card, line, Blanks(n));
    }
    op := CopyPrintable(card, op, value, l1);
    assert l1 + Printable(value) == line + ValueShown(false, value);
  }

  /** The separator before a comment: the columns around the slash are blank already. */
  method PrintSlash(card: array<char>, start: nat, ghost line: string) returns (op: nat)
    requires Shows(card, line) && start == |line| < CARDLEN
    modifies card
    ensures op == start + 3 && Shows(card, line + " / ")
  {
    op := start + 1;
    Hidden(card, line, [' ']);
    ghost var l1 := line + [' '];
    Put(card, op, '/', l1);
    op := op + 1;
    Hidden(card, l1 + ['/'], [' ']);
    op := op + 1;
    assert l1 + ['/'] + [' '] == line + " / ";
  }

  lemma Assoc(a: string, b: string, c: string)
    ensures a + b + c == a + (b + c)
  {
  }

  /** The comment, if there is one and a column left. */
  method PrintComment(card: array<char>, start: nat, comment: string, ghost line: string)
    requires Shows(card, line) && Stands(start, line) && start <= CARDLEN + 1
    modifies card
    ensures Shows(card, line + CommentPart(comment))
  {
    if comment != [] && start < CARDLEN {
      var op := PrintSlash(card, start, line);
      ghost var slashed := line + " / ";
      if op <= CARDLEN {
        op := CopyPrintable(card, op, comment, slashed);
      } else {
        Hidden(card, slashed, Printable(comment));
      }
      Assoc(line, " / ", Printable(comment));
    } else {
      Hidden(card, line, CommentPart(comment));
    }
  }

  /** Copies the text of a comment, history or other text card. */
  method PrintText(card: array<char>, text: string, ghost line: string)
    requires Shows(card, line) && |line| == 8
    modifies card
    ensures Shows(card, line + text)
  {
    var ip, op := 0, 8;
    assert text[..0] == [] && line + [] == line;
    while ip < |text| && op < CARDLEN
      invariant 0 <= ip <= |text| && op == 8 + ip <= CARDLEN
      invariant Shows(card, line + text[..ip])
    {
      Put(card, op, text[ip], line + text[..ip]);
      assert line + text[..ip] + [text[ip]] == line + text[..ip + 1];
      ip, op := ip + 1, op + 1;
    }
    if ip < |text| {
      Hidden(card, line + text[..ip], text[ip..]);
    }
    assert line + text[..ip] + text[ip..] == line + text;
    assert text[..|text|] == text;
  }

  /** The body of `kwdb_WriteFITS`: one entry on one card. */
  method FormatCard(e: Entry, card: array<char>)
    requires card.Length == SZ_CARDBUF
    modifies card
    ensures card[..CARDLEN] == CardOf(e) && ShowsEntry(card[..80], e)
  {
    var i := 0;
    while i < CARDLEN
      invariant 0 <= i <= CARDLEN && forall k :: 0 <= k < i ==> card[k] == ' '
    {
      card[i] := ' ';
      i := i + 1;
    }
    assert card[..CARDLEN] == First80([]);
    PrintKeyword(card, e.name);
    ghost var line := KeywordShown(e.name);
    if IsValueType(e.typ) {
      PrintValueCard(card, e, line);
    } else {
      PrintText(card, e.value, line);
    }
    CardShows(e);
  }

  method PrintValueCard(card: array<char>, e: Entry, ghost line: string)
    requires Shows(card, line) && |line| == 8 && IsValueType(e.typ)
    modifies card
    ensures Shows(card, line + (['='] + Columns(IsStringType(e.typ), e.value, e.comment)))
  {
    Put(card, 8, '=', line);
    ghost var l1 := line + ['='];
    Hidden(card, l1, [' ']);
    ghost var l2 := l1 + [' '];
    var op;
    if e.typ[0] == 'S' {
      op := PrintString(card, e.value, l2);
    } else {
      op := PrintNumber(card, e.value, l2);
    }
    ghost var shown, part := ValueShown(IsStringType(e.typ), e.value), CommentPart(e.comment);
    PrintComment(card, op, e.comment, l2 + shown);
    Regrouped(line, shown, part);
  }

  lemma Regrouped(line: string, shown: string, part: string)
    ensures line + ['='] + [' '] + shown + part == line + (['='] + (" " + shown + part))
  {
  }

  // ----- scanning -----

  lemma UpToStep(s: string, stops: string, k: nat)
    requires k <= |s| && forall i :: 0 <= i < k ==> s[i] !in stops
    ensures k == |s| || s[k] in stops ==> UpTo(s, stops) == s[..k]
  {
    if k == |s| || s[k] in stops {
      UpToPrefix(s[..k], s[k..], stops);
      assert s[..k] + s[k..] == s;
    }
  }

  /** Copies columns from `start` on, up to a stop character or column `end`. */
  method CopyUpTo(card: string, start: nat, end: nat, stops: string) returns (text: string, ip: nat)
    requires start <= end <= |card|
    ensures text == UpTo(card[start..end], stops) && ip == start + |text|
  {
    ip, text := start, [];
    ghost var s := card[start..end];
    while ip < end && card[ip] !in stops
      invariant start <= ip <= end && text == s[..ip - start]
      invariant forall i :: 0 <= i < ip - start ==> s[i] !in stops
    {
      text := text + [card[ip]];
      ip := ip + 1;
    }
    UpToStep(s, stops, ip - start);
  }

  /** Moves on over the characters `skipped`. */
  method SkipOver(card: string, start: nat, skipped: string) returns (ip: nat)
    requires start <= |card|
    ensures start <= ip <= |card| && card[ip..] == After(card[start..], skipped)
  {
    ip := start;
    while ip < |card| && card[ip] in skipped
      invariant start <= ip <= |card| && After(card[start..], skipped) == After(card[ip..], skipped)
    {
      assert card[ip..][1..] == card[ip + 1..];
      ip := ip + 1;
    }
  }

  /** Moves on over at most `max` white space characters. */
  method SkipWhite(card: string, start: nat, max: nat) returns (ip: nat)
    requires start + max <= |card|
    ensures start <= ip <= start + max && card[ip..] == SkipSpace(card[start..], max)
  {
    ip := start;
    var n := max;
    while n > 0 && IsSpace(card[ip])
      invariant start <= ip && ip + n == start + max
      invariant SkipSpace(card[start..], max) == SkipSpace(card[ip..], n)
    {
      assert card[ip..][1..] == card[ip + 1..];
      ip, n := ip + 1, n - 1;
    }
  }

  lemma CutTrim(s: string, n: nat)
    requires n == |Trim(s)|
    ensures n <= |s| && s[..n] == Trim(s)
  {
  }

  /** The characters from `start` up to `ip` are what is in front of `stop`. */
  lemma {:induction false} CopiedIs(s: string, n: nat, stop: char)
    requires n <= |s| && (forall k :: 0 <= k < n ==> s[k] != stop) && (n < |s| ==> s[n] == stop)
    ensures UpTo(s, [stop]) == s[..n]
  {
    if n > 0 {
      CopiedIs(s[1..], n - 1, stop);
      assert s[..n] == [s[0]] + s[1..][..n - 1];
    }
  }

  /** The characters from `start` up to `ip` have been copied, `lop` of them without trailing blanks. */
  ghost predicate Copied(card: string, start: nat, ip: nat, stop: char, copied: string, lop: nat) {
    && start <= ip <= |card| && copied == card[start..ip]
    && (forall k :: start <= k < ip ==> card[k] != stop)
    && lop <= |copied| && (forall k :: lop <= k < |copied| ==> copied[k] == ' ')
    && (lop > 0 ==> copied[lop - 1] != ' ')
  }

  lemma CopyEnds(card: string, start: nat, ip: nat, stop: char, copied: string, lop: nat)
    requires Copied(card, start, ip, stop, copied, lop) && (ip < |card| ==> card[ip] == stop)
    ensures copied == UpTo(card[start..], [stop]) && lop == |Trim(copied)|
  {
    CopiedIs(card[start..], ip - start, stop);
    assert card[start..][..ip - start] == copied;
    TrimUnique(copied, copied[..lop]);
  }

  /** Copies characters up to `stop`; `lop` is where the trailing blanks of the copy start. */
  method CopyLine(card: string, start: nat, stop: char) returns (copied: string, lop: nat)
    requires start <= |card|
    ensures copied == UpTo(card[start..], [stop]) && lop == |Trim(copied)|
  {
    var ip := start;
    copied, lop := [], 0;
    while ip < |card| && card[ip] != stop
      invariant Copied(card, start, ip, stop, copied, lop)
    {
      copied := copied + [card[ip]];
      if card[ip] != ' ' {
        lop := |copied|;
      }
      ip := ip + 1;
    }
    CopyEnds(card, start, ip, stop, copied, lop);
  }

  /** Copies the rest of the card up to a newline and drops trailing blanks. */
  method CopyTrimmed(card: string, start: nat) returns (text: string)
    requires start <= |card|
    ensures text == ScanText(card[start..])
  {
    var copied, lop := CopyLine(card, start, '\n');
    CutTrim(copied, lop);
    text := UpTo(copied[..lop], [NUL]);
  }

  /** The keyword, or a name that is not END if the first columns are not all printable. */
  method ScanKeyword(card: string) returns (name: string)
    requires |card| == CARDLEN
    ensures name == KeywordOf(card) && NoNul(name)
  {
    var ip;
    name, ip := CopyUpTo(card, 0, 8, " ");
    assert card[0..8] == card[..8];
    var i := 0;
    while i < 8
      invariant 0 <= i <= 8 && name == UpTo(card[..8], " ")
      invariant AllPrint(card[..i])
    {
      if !IsPrint(card[i]) {
        assert !IsPrint(card[..8][i]);
        name := NOT_END;
        return;
      }
      i := i + 1;
    }
  }

  method ScanNumberOrString(card: string, start: nat) returns (v: Value, ip: nat)
    requires start < |card| == CARDLEN
    ensures v == ScanValue(card[start..]) && ip <= |card| && v.rest == card[ip..]
  {
    var text;
    assert card[start..] == card[start..|card|];
    if card[start] == '\'' {
      text, ip := CopyUpTo(card, start + 1, |card|, "'");
      assert card[start..][1..] == card[start + 1..|card|];
      ip := if ip < |card| then ip + 1 else ip;
      assert card[ip..] == if |text| + 2 <= |card[start..]| then card[start..][|text| + 2..] else [];
      v := Value(text, true, card[ip..]);
    } else {
      text, ip := CopyUpTo(card, start, |card|, " /");
      assert card[start..][|text|..] == card[ip..];
      v := Value(text, false, card[ip..]);
    }
  }

  /** The body of `kwdb_ReadFITS`: what one card says. */
  method ScanCard(card: string, stale: string) returns (c: Card)
    requires |card| == CARDLEN
    ensures c == ReadCard(card, stale)
  {
    var name := ScanKeyword(card);
    var isEnd := StrEq(name, "END");
    if isEnd {
      return End;
    }
    var isComment := StrEq(name, "COMMENT");
    var isHistory := StrEq(name, "HISTORY");
    if !isComment && !isHistory && card[8] == '=' {
      var e := ScanValueCard(card, name);
      c := Full(e);
    } else {
      var text := CopyTrimmed(card, 8);
      c := Full(Entry(name, text, if isComment then "C" else if isHistory then "H" else "T", stale));
    }
  }

  method ScanValueCard(card: string, name: string) returns (e: Entry)
    requires |card| == CARDLEN
    ensures e == ValueEntry(name, ReadValue(card[9..]))
  {
    var ip := SkipWhite(card, 9, 21);
    var v;
    v, ip := ScanNumberOrString(card, ip);
    var text := UpTo(v.text, [NUL]);
    ip := SkipOver(card, ip, "/ ");
    var comment := CopyTrimmed(card, ip);
    var typ;
    if v.isString {
      typ := "S";
    } else {
      assert NoNul(text);
      var isT := StrEq(text, "T");
      var isF := StrEq(text, "F");
      typ := if isT || isF then "L" else "N";
    }
    e := Entry(name, text, typ, comment);
  }
}
