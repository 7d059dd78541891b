/** Character classes and C strings, as the keyword database uses them (ASCII only). */
module Text {

  const NUL: char := '\0'

  predicate IsUpper(c: char) {
    'A' <= c <= 'Z'
  }

  predicate IsPrint(c: char) {
    ' ' <= c <= '~'
  }

  predicate IsSpace(c: char) {
    c == ' ' || 9 as char <= c <= 13 as char
  }

  function LowerChar(c: char): char {
    if IsUpper(c) then (c as int + 32) as char else c
  }

  function Lower(s: string): (r: string)
    ensures |r| == |s|
    ensures forall k :: 0 <= k < |s| ==> r[k] == LowerChar(s[k])
  {
    seq(|s|, k requires 0 <= k < |s| => LowerChar(s[k]))
  }

  /** The names are the same up to case. */
  predicate SameName(a: string, b: string) {
    Lower(a) == Lower(b)
  }

  predicate NoNul(s: string) {
    forall k :: 0 <= k < |s| ==> s[k] != NUL
  }

  predicate AllPrint(s: string) {
    forall k :: 0 <= k < |s| ==> IsPrint(s[k])
  }

  /** What is left of `s` when only the printable characters are copied. */
  function Printable(s: string): (r: string)
    ensures AllPrint(r) && |r| <= |s|
    ensures AllPrint(s) ==> r == s
  {
    if s == [] then []
    else
      var r := Printable(s[..|s| - 1]);
      if IsPrint(s[|s| - 1]) then r + [s[|s| - 1]] else r
  }

  function Blanks(n: nat): (r: string)
    ensures |r| == n && forall k :: 0 <= k < n ==> r[k] == ' '
  {
    seq(n, _ => ' ')
  }

  /** `s` without its trailing blanks. */
  function Trim(s: string): (r: string)
    ensures r <= s
    ensures forall k :: |r| <= k < |s| ==> s[k] == ' '
    ensures r == [] || r[|r| - 1] != ' '
  {
    if s == [] || s[|s| - 1] != ' ' then s else Trim(s[..|s| - 1])
  }

  /** Trimming removes exactly the blanks that were added after the last non-blank. */
  lemma TrimUnique(s: string, r: string)
    requires r <= s && (r == [] || r[|r| - 1] != ' ')
    requires forall k :: |r| <= k < |s| ==> s[k] == ' '
    ensures Trim(s) == r
  {
  }

  // ----- strings in a buffer -----

  /** The C string that starts at `off`. */
  function CStr(buf: seq<char>, off: nat): string
    requires off <= |buf|
    decreases |buf| - off
  {
    if off == |buf| || buf[off] == NUL then [] else [buf[off]] + CStr(buf, off + 1)
  }

  /** `s`, with its terminator, is stored at `off`. */
  predicate Holds(buf: seq<char>, off: nat, s: string) {
    && NoNul(s) && off + |s| < |buf|
    && buf[off..off + |s|] == s
    && buf[off + |s|] == NUL
  }

  lemma {:induction false} HoldsIsCStr(buf: seq<char>, off: nat, s: string)
    requires Holds(buf, off, s)
    ensures CStr(buf, off) == s
    decreases |s|
  {
    if s != [] {
      assert buf[off] == s[0];
      assert buf[off + 1..off + |s|] == s[1..];
      HoldsIsCStr(buf, off + 1, s[1..]);
    }
  }

  /** The buffer with `bytes` stored from `off` on. */
  function Poke(buf: seq<char>, off: nat, bytes: seq<char>): (r: seq<char>)
    requires off + |bytes| <= |buf|
    ensures |r| == |buf|
    ensures forall k :: 0 <= k < |buf| ==> r[k] == if off <= k < off + |bytes| then bytes[k - off] else buf[k]
  {
    buf[..off] + bytes + buf[off + |bytes|..]
  }

  /** `streq`. */
  method StrEq(s1: string, s2: string) returns (same: bool)
    requires NoNul(s1) && NoNul(s2)
    ensures same <==> SameName(s1, s2)
  {
    var i := 0;
    var c1, c2;
    while true
      invariant 0 <= i <= |s1| && i <= |s2|
      invariant Lower(s1)[..i] == Lower(s2)[..i]
      decreases |s1| - i
    {
      c1 := if i < |s1| then s1[i] else NUL;
      c2 := if i < |s2| then s2[i] else NUL;
      i := i + 1;
      if c1 == NUL || c2 == NUL {
        break;
      }
      if IsUpper(c1) {
        c1 := LowerChar(c1);
      }
      if IsUpper(c2) {
        c2 := LowerChar(c2);
      }
      if c1 != c2 {
        assert Lower(s1)[i - 1] != Lower(s2)[i - 1];
        break;
      }
      assert c1 != NUL && c2 != NUL;
    }
    same := c1 == NUL && c2 == NUL;
  }

  /** The primes the hash weights its characters with. */
  const PRIMES: seq<nat> := [101, 103, 107, 109, 113, 127, 131, 137, 139, 149, 151, 157, 163, 167, 173, 179, 181, 191]
  const MAX_HASHCHARS: nat := 18
  const NTHREADS: nat := 797

  function Weighted(ch: nat, n: nat): nat
    requires n <= MAX_HASHCHARS
  {
    if n == 0 then 0 else Weighted(ch, n - 1) + ch * PRIMES[n - 1]
  }

  /** The hash value: since `hash` never moves past the first character, it depends on that
      character alone. */
  function HashOf(key: string): (h: nat)
    ensures h < NTHREADS
  {
    if key == [] then 0 else Weighted(LowerChar(key[0]) as int, MAX_HASHCHARS) % NTHREADS
  }

  /** In ASCII, as the hash demands of names: a character that is negative in the program can make
      the sum and with it the index into the hash table negative. */
  predicate Ascii(s: string) {
    forall k :: 0 <= k < |s| ==> s[k] < 128 as char
  }

  lemma WeightsOf(ch: nat)
    ensures Weighted(ch, MAX_HASHCHARS) == ch * 2578
  {
    assert Weighted(ch, 0) == 0;
    assert Weighted(ch, 1) == ch * 101;
    assert Weighted(ch, 2) == ch * 204;
    assert Weighted(ch, 3) == ch * 311;
    assert Weighted(ch, 4) == ch * 420;
    assert Weighted(ch, 5) == ch * 533;
    assert Weighted(ch, 6) == ch * 660;
    assert Weighted(ch, 7) == ch * 791;
    assert Weighted(ch, 8) == ch * 928;
    assert Weighted(ch, 9) == ch * 1067;
    assert Weighted(ch, 10) == ch * 1216;
    assert Weighted(ch, 11) == ch * 1367;
    assert Weighted(ch, 12) == ch * 1524;
    assert Weighted(ch, 13) == ch * 1687;
    assert Weighted(ch, 14) == ch * 1854;
    assert Weighted(ch, 15) == ch * 2027;
    assert Weighted(ch, 16) == ch * 2206;
    assert Weighted(ch, 17) == ch * 2387;
  }

  /** No name is on the thread of the empty key. */
  lemma AsciiHash(name: string)
    requires name != [] && Ascii(name) && NoNul(name)
    ensures HashOf(name) != 0
  {
    var ch := LowerChar(name[0]) as int;
    WeightsOf(ch);
    var q, r := ch * 2578 / NTHREADS, ch * 2578 % NTHREADS;
    assert ch * 2578 == NTHREADS * q + r;
    assert ch == 618 * r + NTHREADS * (618 * q - 1999 * ch);
  }

  /** `hash`. */
  method Hash(key: string) returns (h: nat)
    requires NoNul(key)
    ensures h == HashOf(key)
  {
    var ip, sum, i := 0, 0, 0;
    while (if ip < |key| then key[ip] else NUL) != NUL && i < MAX_HASHCHARS
      invariant 0 <= i <= MAX_HASHCHARS && ip == 0
      invariant key == [] ==> sum == 0
      invariant key != [] ==> sum == Weighted(LowerChar(key[0]) as int, i)
    {
      var ch := key[ip];
      sum := sum + (if IsUpper(ch) then LowerChar(ch) else ch) as int * PRIMES[i];
      i := i + 1;
    }
    h := sum % NTHREADS;
  }

  /** Names that are the same up to case are on the same thread. */
  lemma SameNameSameHash(a: string, b: string)
    requires SameName(a, b)
    ensures HashOf(a) == HashOf(b)
  {
    if a != [] {
      assert Lower(a)[0] == Lower(b)[0];
    }
  }

  const CAPITALS := "ABCDEFGHIJKLMNOPQRSTUVWXYZ"
  const SMALL := "abcdefghijklmnopqrstuvwxyz"

  /** Two characters are the same up to case if they are equal or the same letter. */
  predicate SameLetter(c: char, d: char) {
    c == d || exists i :: 0 <= i < 26 && ((c == CAPITALS[i] && d == SMALL[i]) || (c == SMALL[i] && d == CAPITALS[i]))
  }

  /** Names are the same if their characters are, one by one. */
  lemma SameNameIs(a: string, b: string)
    ensures SameName(a, b) <==> |a| == |b| && forall k :: 0 <= k < |a| ==> SameLetter(a[k], b[k])
  {
    LettersOfCode();
    forall k | 0 <= k < |a| && k < |b| ensures SameLetter(a[k], b[k]) <==> Lower(a)[k] == Lower(b)[k] {
      SameLowered(a[k], b[k]);
    }
    assert |a| == |b| && (forall k :: 0 <= k < |a| ==> Lower(a)[k] == Lower(b)[k]) ==> Lower(a) == Lower(b);
  }

  lemma SameLowered(c: char, d: char)
    ensures SameLetter(c, d) <==> LowerChar(c) == LowerChar(d)
  {
    LettersOfCode();
    if LowerChar(c) == LowerChar(d) && c != d {
      var i := LowerChar(c) as int - 97;
      assert (c == CAPITALS[i] && d == SMALL[i]) || (c == SMALL[i] && d == CAPITALS[i]);
    }
  }

  lemma LettersOfCode()
    ensures forall i :: 0 <= i < 26 ==> CAPITALS[i] as int == 65 + i && SMALL[i] as int == 97 + i
  {
  }

  /** The classes of characters, by their codes. */
  lemma ClassOf(c: char)
    ensures IsPrint(c) <==> 32 <= c as int <= 126
    ensures IsSpace(c) <==> c as int == 32 || 9 <= c as int <= 13
  {
  }

  /** The hash, with the weights added up. */
  lemma HashIs(key: string)
    requires key != []
    ensures var c := key[0] as int;
      HashOf(key) == (if 65 <= c <= 90 then c + 32 else c) * 2578 % 797
  {
    WeightsOf(LowerChar(key[0]) as int);
  }
}
