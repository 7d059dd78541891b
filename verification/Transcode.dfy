/** The conversion of pixels to and from the byte order and the integer ranges of FITS
    (mosdca/dsim.c; section 5.2 of the FITS Standard 4.0). */
module Transcode {
  import opened Arithmetic

  type byte = x: int | 0 <= x < 256

  const BZERO: nat := 32768
  const USHORTS: nat := 65536

  // ----- two-byte numbers -----

  /** The unsigned number in two bytes; the first one is the low byte if `swapped`. */
  function Number(a: byte, b: byte, swapped: bool): (v: nat)
    ensures v < USHORTS
  {
    if swapped then b * 256 + a else a * 256 + b
  }

  function FirstByte(v: nat, swapped: bool): byte
    requires v < USHORTS
  {
    if swapped then v % 256 else v / 256
  }

  function SecondByte(v: nat, swapped: bool): byte
    requires v < USHORTS
  {
    if swapped then v / 256 else v % 256
  }

  lemma BytesOfNumber(a: byte, b: byte, swapped: bool)
    ensures FirstByte(Number(a, b, swapped), swapped) == a && SecondByte(Number(a, b, swapped), swapped) == b
  {
    if swapped {
      Divides(b, a, 256);
    } else {
      Divides(a, b, 256);
    }
  }

  lemma SameNumber(a: byte, b: byte, swapped: bool, a': byte, b': byte, swapped': bool)
    requires Number(a, b, swapped) == Number(a', b', swapped')
    ensures if swapped == swapped' then a == a' && b == b' else a == b' && b == a'
  {
    BytesOfNumber(a, b, swapped);
    BytesOfNumber(a', b', swapped');
  }

  lemma NumberOfBytes(v: nat, swapped: bool)
    requires v < USHORTS
    ensures Number(FirstByte(v, swapped), SecondByte(v, swapped), swapped) == v
  {
  }

  /** The number whose bits stand for `v - BZERO` in two's complement, and for `v + BZERO`: the
      same number. */
  function Shifted(v: nat): (r: nat)
    requires v < USHORTS
    ensures r < USHORTS
  {
    (v + BZERO) % USHORTS
  }

  /** What the bits of `v` are as a signed short. */
  function Signed(v: nat): int
    requires v < USHORTS
  {
    if v < BZERO then v else v - USHORTS
  }

  lemma ShiftTwice(v: nat)
    requires v < USHORTS
    ensures Shifted(Shifted(v)) == v && Signed(Shifted(v)) + BZERO == v
  {
  }

  // ----- blocks of pixels -----

  /** Pixel `k` of a block. */
  function Pixel(bytes: seq<byte>, k: nat, swapped: bool): nat
    requires 2 * k + 1 < |bytes|
  {
    Number(bytes[2 * k], bytes[2 * k + 1], swapped)
  }

  /** The pixels of `out` are those of `bytes`, converted from one byte order to another and
      shifted. */
  ghost predicate Converted(bytes: seq<byte>, swapped: bool, out: seq<byte>, outSwapped: bool) {
    |out| == |bytes| && forall k :: 0 <= k < |bytes| / 2 ==>
        Pixel(out, k, outSwapped) == Shifted(Pixel(bytes, k, swapped))
  }

  /** `b` holds the bytes of `a`, those of each pair exchanged. */
  ghost predicate PairsSwapped(a: seq<byte>, b: seq<byte>) {
    && |b| == |a|
    && (forall k :: 0 <= k < |a| / 2 ==> b[2 * k] == a[2 * k + 1] && b[2 * k + 1] == a[2 * k])
  }

  lemma SwappedPixels(a: seq<byte>, b: seq<byte>, swapped: bool)
    requires PairsSwapped(a, b)
    ensures forall k :: 0 <= k < |a| / 2 ==> Pixel(b, k, !swapped) == Pixel(a, k, swapped)
  {
  }

  lemma PixelBack(bytes: seq<byte>, swapped: bool, file: seq<byte>, out: seq<byte>, outSwapped: bool, k: nat)
    requires Converted(bytes, swapped, file, false) && Converted(file, false, out, outSwapped) && k < |bytes| / 2
    ensures if swapped == outSwapped then out[2 * k] == bytes[2 * k] && out[2 * k + 1] == bytes[2 * k + 1]
            else out[2 * k] == bytes[2 * k + 1] && out[2 * k + 1] == bytes[2 * k]
  {
    ShiftTwice(Pixel(bytes, k, swapped));
    assert Pixel(file, k, false) == Shifted(Pixel(bytes, k, swapped));
    assert Pixel(out, k, outSwapped) == Shifted(Pixel(file, k, false));
    SameNumber(bytes[2 * k], bytes[2 * k + 1], swapped, out[2 * k], out[2 * k + 1], outSwapped);
  }

  /** What is converted twice, with the same byte order outside, is what it was; with different
      byte orders the bytes of each pixel are exchanged. */
  lemma DecodeUndoesEncode(bytes: seq<byte>, swapped: bool, file: seq<byte>, out: seq<byte>, outSwapped: bool)
    requires |bytes| % 2 == 0 && Converted(bytes, swapped, file, false) && Converted(file, false, out, outSwapped)
    ensures if swapped == outSwapped then out == bytes else PairsSwapped(bytes, out)
  {
    if swapped == outSwapped {
      forall i | 0 <= i < |bytes| ensures out[i] == bytes[i] {
        PixelBack(bytes, swapped, file, out, outSwapped, i / 2);
      }
    } else {
      forall k | 0 <= k < |bytes| / 2 ensures out[2 * k] == bytes[2 * k + 1] && out[2 * k + 1] == bytes[2 * k] {
        PixelBack(bytes, swapped, file, out, outSwapped, k);
      }
    }
  }

  /** In the file, BZERO plus the signed short is the pixel. */
  lemma FileHoldsPixels(bytes: seq<byte>, swapped: bool, file: seq<byte>, k: nat)
    requires Converted(bytes, swapped, file, false) && k < |bytes| / 2
    ensures BZERO + Signed(Pixel(file, k, false)) == Pixel(bytes, k, swapped)
  {
    ShiftTwice(Pixel(bytes, k, swapped));
  }

  /** The same in bytes: in the file the high byte is first, and 32768 was added modulo 65536. */
  lemma FileBytes(bytes: seq<byte>, swapped: bool, file: seq<byte>, k: nat)
    requires Converted(bytes, swapped, file, false) && k < |bytes| / 2
    ensures var a, b := bytes[2 * k] as int, bytes[2 * k + 1] as int;
      file[2 * k] as int * 256 + file[2 * k + 1] == ((if swapped then b * 256 + a else a * 256 + b) + 32768) % 65536
  {
    assert Pixel(file, k, false) == Shifted(Pixel(bytes, k, swapped));
  }

  /** And back: the pixel is the number in the file plus 32768, in the byte order asked for. */
  lemma PixelBytes(file: seq<byte>, out: seq<byte>, swapped: bool, k: nat)
    requires Converted(file, false, out, swapped) && k < |file| / 2
    ensures var a, b := out[2 * k] as int, out[2 * k + 1] as int;
      (if swapped then b * 256 + a else a * 256 + b) == (file[2 * k] as int * 256 + file[2 * k + 1] + 32768) % 65536
  {
    assert Pixel(out, k, swapped) == Shifted(Pixel(file, k, false));
  }

  // ----- the loops -----

  /** `bswap2`: the arrays may be the same. */
  method Bswap2(a: array<byte>, b: array<byte>, nbytes: nat)
    requires nbytes <= a.Length && nbytes <= b.Length
    modifies b
    ensures PairsSwapped(old(a[..nbytes]), b[..nbytes])
    ensures forall k :: 0 <= k < nbytes / 2 ==> b[2 * k] == old(a[2 * k + 1]) && b[2 * k + 1] == old(a[2 * k])
    ensures nbytes % 2 == 1 ==> b[nbytes - 1] == old(a[nbytes - 1])
    ensures b[nbytes..] == old(b[nbytes..])
  {
    var ip, op, otop := 0, 0, nbytes - nbytes % 2;
    while op < otop
      invariant ip == op && 0 <= op <= otop && op % 2 == 0
      invariant forall k :: 0 <= k < op / 2 ==> b[2 * k] == old(a[2 * k + 1]) && b[2 * k + 1] == old(a[2 * k])
      invariant forall i :: op <= i < b.Length ==> b[i] == old(b[i])
      invariant a != b ==> a[..] == old(a[..])
    {
      var temp := a[ip];
      ip := ip + 1;
      b[op] := a[ip];
      op, ip := op + 1, ip + 1;
      b[op] := temp;
      op := op + 1;
    }
    if nbytes % 2 == 1 {
      b[op] := a[ip];
    }
  }

  lemma EitherShift(v: nat)
    requires v < USHORTS
    ensures (v - BZERO) % USHORTS == Shifted(v) && (Signed(v) + BZERO) % USHORTS == Shifted(v)
  {
  }

  /** Stores number `w` in host order. */
  method StoreNumber(output: array<byte>, i: nat, w: nat, host: bool)
    requires 2 * i + 1 < output.Length && w < USHORTS
    modifies output
    ensures Number(output[2 * i], output[2 * i + 1], host) == w
    ensures forall j :: 0 <= j < output.Length && j != 2 * i && j != 2 * i + 1 ==> output[j] == old(output[j])
  {
    NumberOfBytes(w, host);
    output[2 * i], output[2 * i + 1] := FirstByte(w, host), SecondByte(w, host);
  }

  /** The loops that move unsigned pixels to the signed range, and back: the arrays may be the same. */
  method Shift(input: array<byte>, output: array<byte>, n: nat, host: bool, encode: bool)
    requires 2 * n <= input.Length && 2 * n <= output.Length
    modifies output
    ensures forall k :: 0 <= k < n ==>
              Number(output[2 * k], output[2 * k + 1], host) ==
                  Shifted(old(Number(input[2 * k], input[2 * k + 1], host)))
    ensures forall i :: 2 * n <= i < output.Length ==> output[i] == old(output[i])
  {
    var i := 0;
    while i < n
      invariant 0 <= i <= n
      invariant forall k :: 0 <= k < i ==>
                  Number(output[2 * k], output[2 * k + 1], host) ==
                      Shifted(old(Number(input[2 * k], input[2 * k + 1], host)))
      invariant forall j :: 2 * i <= j < output.Length ==> output[j] == old(output[j])
      invariant input != output ==> input[..] == old(input[..])
    {
      var v := Number(input[2 * i], input[2 * i + 1], host);
      EitherShift(v);
      StoreNumber(output, i, if encode then (v - BZERO) % USHORTS else (Signed(v) + BZERO) % USHORTS, host);
      i := i + 1;
    }
  }

  /** `EncodeUShort`: whatever the byte order of the host, the output holds the shifted pixels with
      the high byte first. */
  method EncodeUShort(input: array<byte>, output: array<byte>, datalen: nat, swapped: bool, host: bool)
    requires datalen <= input.Length && datalen <= output.Length
    modifies output
    ensures Converted(old(input[..datalen]), swapped, output[..datalen], false)
    ensures forall k :: 0 <= k < datalen / 2 ==>
              var a, b := old(input[2 * k]) as int, old(input[2 * k + 1]) as int;
              output[2 * k] as int * 256 + output[2 * k + 1]
              == ((if swapped then b * 256 + a else a * 256 + b) + 32768) % 65536
    ensures output[datalen..] == old(output[datalen..])
  {
    var src := input;
    ghost var b0 := input[..datalen];
    if swapped != host {
      Bswap2(input, output, datalen);
      SwappedPixels(b0, output[..datalen], swapped);
      src := output;
    }
    ghost var b1 := src[..datalen];
    assert forall k :: 0 <= k < datalen / 2 ==> Pixel(b1, k, host) == Pixel(b0, k, swapped);
    Shift(src, output, datalen / 2, host, true);
    ghost var b2 := output[..datalen];
    assert forall k :: 0 <= k < datalen / 2 ==> Pixel(b2, k, host) == Shifted(Pixel(b1, k, host));
    if host {
      Bswap2(output, output, datalen);
      SwappedPixels(b2, output[..datalen], true);
    }
    EachInFile(b0, swapped, output[..datalen]);
  }

  lemma EachInFile(bytes: seq<byte>, swapped: bool, file: seq<byte>)
    requires Converted(bytes, swapped, file, false)
    ensures forall k :: 0 <= k < |bytes| / 2 ==>
              var a, b := bytes[2 * k] as int, bytes[2 * k + 1] as int;
              file[2 * k] as int * 256 + file[2 * k + 1] ==
                  ((if swapped then b * 256 + a else a * 256 + b) + 32768) % 65536
  {
    forall k | 0 <= k < |bytes| / 2
      ensures var a, b := bytes[2 * k] as int, bytes[2 * k + 1] as int;
        file[2 * k] as int * 256 + file[2 * k + 1] == ((if swapped then b * 256 + a else a * 256 + b) + 32768) % 65536
    {
      FileBytes(bytes, swapped, file, k);
    }
  }

  lemma EachPixel(file: seq<byte>, out: seq<byte>, swapped: bool)
    requires Converted(file, false, out, swapped)
    ensures forall k :: 0 <= k < |file| / 2 ==>
              var a, b := out[2 * k] as int, out[2 * k + 1] as int;
              (if swapped then b * 256 + a else a * 256 + b) ==
                  (file[2 * k] as int * 256 + file[2 * k + 1] + 32768) % 65536
  {
    forall k | 0 <= k < |file| / 2
      ensures var a, b := out[2 * k] as int, out[2 * k + 1] as int;
        (if swapped then b * 256 + a else a * 256 + b) == (file[2 * k] as int * 256 + file[2 * k + 1] + 32768) % 65536
    {
      PixelBytes(file, out, swapped, k);
    }
  }

  /** `DecodeUShort`. */
  method DecodeUShort(input: array<byte>, output: array<byte>, datalen: nat, swapped: bool, host: bool)
    requires datalen <= input.Length && datalen <= output.Length
    modifies output
    ensures Converted(old(input[..datalen]), false, output[..datalen], swapped)
    ensures forall k :: 0 <= k < datalen / 2 ==>
              var a, b := output[2 * k] as int, output[2 * k + 1] as int;
              (if swapped then b * 256 + a else a * 256 + b)
              == (old(input[2 * k]) as int * 256 + old(input[2 * k + 1]) + 32768) % 65536
    ensures output[datalen..] == old(output[datalen..])
  {
    var src := input;
    ghost var b0 := input[..datalen];
    if host {
      Bswap2(input, output, datalen);
      SwappedPixels(b0, output[..datalen], false);
      src := output;
    }
    ghost var b1 := src[..datalen];
    assert forall k :: 0 <= k < datalen / 2 ==> Pixel(b1, k, host) == Pixel(b0, k, false);
    Shift(src, output, datalen / 2, host, false);
    ghost var b2 := output[..datalen];
    assert forall k :: 0 <= k < datalen / 2 ==> Pixel(b2, k, host) == Shifted(Pixel(b1, k, host));
    if swapped != host {
      Bswap2(output, output, datalen);
      SwappedPixels(b2, output[..datalen], host);
    }
    EachPixel(b0, output[..datalen], swapped);
  }

  // ----- four-byte numbers -----

  /** The number that four bytes stand for with the high byte first. */
  function BigEndian(q: seq<byte>): nat
    requires |q| == 4
  {
    ((q[0] as int * 256 + q[1]) * 256 + q[2]) * 256 + q[3]
  }

  /** The bytes of a number in the memory of the host. */
  function HostBytes(v: nat, host: bool): (r: seq<byte>)
    ensures |r| == 4
  {
    var v1, v2 := v / 256, v / 256 / 256;
    var q := [v2 / 256 % 256, v2 % 256, v1 % 256, v % 256];
    if host then Backwards(q) else q
  }

  function Backwards(q: seq<byte>): (r: seq<byte>)
    requires |q| == 4
    ensures |r| == 4
  {
    [q[3], q[2], q[1], q[0]]
  }

  /** Storing the number of four bytes on a host with the low byte first turns them around. */
  lemma StoredAs(q: seq<byte>, host: bool)
    requires |q| == 4
    ensures HostBytes(BigEndian(q), host) == if host then Backwards(q) else q
  {
    var v1 := (q[0] as int * 256 + q[1]) * 256 + q[2];
    Divides(v1, q[3], 256);
    Divides(q[0] as int * 256 + q[1], q[2], 256);
    Divides(q[0], q[1], 256);
    Divides(0, q[0], 256);
  }

  /** What host integers are stored as has the high byte first, whatever the order of the host: the
      order of the file. */
  lemma FileOrder(v: nat, host: bool)
    requires v < 0x1_0000_0000
    ensures HostBytes(BigEndian(HostBytes(v, host)), host) == HostBytes(v, false)
  {
    StoredAs(HostBytes(v, host), host);
  }

  /** The first `n` groups of four bytes have been stored. */
  ghost predicate Stored(bytes: seq<byte>, out: seq<byte>, n: nat, host: bool) {
    4 * n <= |bytes| && 4 * n <= |out|
    && forall k :: 0 <= k < n ==> Quad(out, k) == HostBytes(BigEndian(Quad(bytes, k)), host)
  }

  function Quad(bytes: seq<byte>, k: nat): (r: seq<byte>)
    requires 4 * k + 4 <= |bytes|
    ensures |r| == 4
  {
    bytes[4 * k..4 * k + 4]
  }

  /** In bytes: on a host with the low byte first every four bytes are turned around, on others
      they stay. */
  lemma StoredBytes(bytes: seq<byte>, out: seq<byte>, n: nat, host: bool)
    requires Stored(bytes, out, n, host)
    ensures forall i :: 0 <= i < 4 * n ==> out[i] == bytes[if host then i / 4 * 4 + 3 - i % 4 else i]
  {
    forall i | 0 <= i < 4 * n ensures out[i] == bytes[if host then i / 4 * 4 + 3 - i % 4 else i] {
      var k := i / 4;
      StoredAs(Quad(bytes, k), host);
      assert Quad(out, k) == HostBytes(BigEndian(Quad(bytes, k)), host);
      assert out[i] == Quad(out, k)[i % 4];
    }
  }

  lemma StoredOne(bytes: seq<byte>, out: seq<byte>, out': seq<byte>, n: nat, host: bool)
    requires Stored(bytes, out, n, host) && 4 * n + 4 <= |bytes| && 4 * n + 4 <= |out| == |out'|
    requires Quad(out', n) == HostBytes(BigEndian(Quad(bytes, n)), host) && out'[..4 * n] == out[..4 * n]
    ensures Stored(bytes, out', n + 1, host)
  {
    forall k | 0 <= k < n ensures Quad(out', k) == Quad(out, k) {
      assert out'[..4 * n][4 * k..4 * k + 4] == out[..4 * n][4 * k..4 * k + 4];
    }
  }

  /** `EncodeInt`: every four bytes are taken as a number with the high byte first, and stored as
      the host does; the arrays may be the same. */
  method EncodeInt(input: array<byte>, output: array<byte>, datalen: nat, host: bool)
    requires datalen <= input.Length && datalen <= output.Length
    modifies output
    ensures Stored(old(input[..]), output[..], datalen / 4, host)
    ensures forall i :: 0 <= i < datalen / 4 * 4 ==>
              output[i] == old(input[..])[if host then i / 4 * 4 + 3 - i % 4 else i]
    ensures output[datalen / 4 * 4..] == old(output[datalen / 4 * 4..])
  {
    var i, n := 0, datalen / 4;
    ghost var bytes, out0 := input[..], output[..];
    while i < n
      invariant 0 <= i <= n && Stored(bytes, output[..], i, host)
      invariant output[4 * i..] == out0[4 * i..]
      invariant input != output ==> input[..] == bytes
    {
      assert input[4 * i..][..4] == bytes[4 * i..][..4];
      var q := input[4 * i..4 * i + 4];
      assert q == Quad(bytes, i);
      ghost var before := output[..];
      StoreQuad(output, 4 * i, HostBytes(BigEndian(q), host));
      StoredOne(bytes, before, output[..], i, host);
      i := i + 1;
    }
    StoredBytes(bytes, output[..], n, host);
  }

  method StoreQuad(output: array<byte>, at: nat, w: seq<byte>)
    requires at + 4 <= output.Length && |w| == 4
    modifies output
    ensures output[at..at + 4] == w && output[..at] == old(output[..at]) && output[at + 4..] == old(output[at + 4..])
  {
    output[at], output[at + 1], output[at + 2], output[at + 3] := w[0], w[1], w[2], w[3];
  }
}
