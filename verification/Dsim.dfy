/** The layout of a multi-extension FITS image file and the addressing of its pixels
    (mosdca/dsim.c; section 3.1 of the FITS Standard 4.0: all structures start on a multiple of
    2880 bytes). */
module Dsim {
  import opened Arithmetic
  import FitsCard

  const BLKLEN: nat := 2880
  const CARDS_PER_BLOCK: nat := 36
  const MAXDIM: nat := 8
  const DEF_MAXKEYWORDS: nat := 72

  // ----- the descriptors -----

  /** Image descriptor: what the client sets, and what `Configure` works out. */
  datatype Image = Image(naxes: nat, axlen: seq<nat>, pixtype: nat, maxkeywords: nat, extend: nat,
                         pixsize: nat, hdrOffset: nat, pixOffset: nat, extnsize: nat, pixels: nat)

  predicate ImageOk(im: Image) {
    im.naxes <= MAXDIM && |im.axlen| == MAXDIM
  }

  /** Region i/o descriptor; `image` is 0 while it is not in use. */
  datatype Region = Region(image: nat, iomode: int, sv: seq<int>, nv: seq<int>, stride: seq<nat>, pixsize: nat,
                           pixels: nat)

  const NO_REGION := Region(0, 0, [], [], [], 0, 0)

  function PixelSize(pixtype: nat, sizeofLong: nat): nat {
    match pixtype
    case 1 => 1   // ubyte
    case 2 => 1   // char
    case 3 => 2   // short
    case 4 => 2   // ushort
    case 5 => 4   // int
    case 6 => sizeofLong
    case 7 => 4   // real
    case 8 => 8   // double
    case _ => 0
  }

  // ----- the geometry -----

  function Blocks(bytes: nat): nat {
    (bytes + BLKLEN - 1) / BLKLEN
  }

  /** The next multiple of the block length. */
  function RoundUp(bytes: nat): (r: nat)
    ensures bytes <= r < bytes + BLKLEN && r % BLKLEN == 0
  {
    Blocks(bytes) * BLKLEN
  }

  /** The number of cards in the header blocks that hold `n` cards. */
  function RoundCards(n: nat): (r: nat)
    ensures n <= r < n + CARDS_PER_BLOCK && r % CARDS_PER_BLOCK == 0
    ensures r * FitsCard.CARDLEN == RoundUp(n * FitsCard.CARDLEN)
  {
    Divides(Blocks(n * FitsCard.CARDLEN) * CARDS_PER_BLOCK, 0, FitsCard.CARDLEN);
    RoundUp(n * FitsCard.CARDLEN) / FitsCard.CARDLEN
  }

  function Product(s: seq<nat>): nat {
    if s == [] then 1 else Product(s[..|s| - 1]) * s[|s| - 1]
  }

  /** The number of pixels of an image. */
  function NPix(im: Image): nat
    requires ImageOk(im)
  {
    if im.naxes == 0 then 0 else Product(im.axlen[..im.naxes])
  }

  /** The axis lengths with the degenerate axes set to 1. */
  function FullAxes(im: Image): (r: seq<nat>)
    requires ImageOk(im)
    ensures |r| == MAXDIM && r[..im.naxes] == im.axlen[..im.naxes] && forall i :: im.naxes <= i < MAXDIM ==> r[i] == 1
  {
    im.axlen[..im.naxes] + seq(MAXDIM - im.naxes, _ => 1)
  }

  /** `definitely an error`: an image with axes but no pixel type. */
  predicate Untyped(im: Image) {
    im.naxes != 0 && im.pixtype == 0
  }

  /** The image laid out from byte `at` on; `defcards` is the default header size. */
  function Laid(im: Image, at: nat, defcards: nat, sizeofLong: nat): (r: Image)
    requires ImageOk(im)
    ensures ImageOk(r) && NPix(r) == NPix(im)
  {
    var cards := RoundCards(if im.maxkeywords == 0 then defcards else im.maxkeywords);
    var pixsize, extend := PixelSize(im.pixtype, sizeofLong), RoundUp(im.extend);
    var pixOffset := at + cards * FitsCard.CARDLEN;
    im.(maxkeywords := cards, hdrOffset := at, pixOffset := pixOffset, axlen := FullAxes(im), pixsize := pixsize,
        extend := extend, extnsize := pixOffset + RoundUp(NPix(im) * pixsize) + extend - at)
  }

  /** All images, one after the other. */
  function LaidAll(ims: seq<Image>, at: nat, defcards: nat, sizeofLong: nat): (r: seq<Image>)
    requires forall i :: 0 <= i < |ims| ==> ImageOk(ims[i])
    ensures |r| == |ims|
  {
    if ims == [] then []
    else
      var most := LaidAll(ims[..|ims| - 1], at, defcards, sizeofLong);
      most + [Laid(ims[|ims| - 1], EndOf(most, at), defcards, sizeofLong)]
  }

  /** The first byte after the last image. */
  function EndOf(ims: seq<Image>, at: nat): nat {
    if ims == [] then at else ims[|ims| - 1].hdrOffset + ims[|ims| - 1].extnsize
  }

  function Total(ims: seq<Image>): nat {
    if ims == [] then 0 else Total(ims[..|ims| - 1]) + ims[|ims| - 1].extnsize
  }

  // ----- the layout tiles the file -----

  /** One extension starts at `at`: header, pixels and the extend area follow each other from
      block to block. */
  ghost predicate ExtensionAt(r: Image, at: nat) {
    && ImageOk(r)
    && r.hdrOffset == at && r.hdrOffset % BLKLEN == 0 && r.pixOffset % BLKLEN == 0
    && r.extnsize % BLKLEN == 0 && r.extend % BLKLEN == 0
    && r.pixOffset == r.hdrOffset + r.maxkeywords * FitsCard.CARDLEN
    && r.pixOffset + NPix(r) * r.pixsize + r.extend <= r.hdrOffset + r.extnsize
    && r.hdrOffset + r.extnsize < r.pixOffset + NPix(r) * r.pixsize + r.extend + BLKLEN
  }

  /** The extensions follow each other without gap or overlap from `at` on. */
  ghost predicate Tiles(ims: seq<Image>, at: nat) {
    forall i :: 0 <= i < |ims| ==> ExtensionAt(ims[i], EndOf(ims[..i], at))
  }

  lemma SumAligned(a: nat, b: nat)
    requires a % BLKLEN == 0 && b % BLKLEN == 0
    ensures (a + b) % BLKLEN == 0
  {
  }

  lemma LaidIsExtension(im: Image, at: nat, defcards: nat, sizeofLong: nat)
    requires ImageOk(im) && at % BLKLEN == 0
    ensures ExtensionAt(Laid(im, at, defcards, sizeofLong), at)
  {
    var r := Laid(im, at, defcards, sizeofLong);
    var header, data := r.maxkeywords * FitsCard.CARDLEN, RoundUp(NPix(im) * r.pixsize);
    SumAligned(at, header);
    SumAligned(header, data);
    SumAligned(header + data, r.extend);
  }

  lemma TilesOneMore(most: seq<Image>, r: Image, at: nat)
    requires Tiles(most, at) && ExtensionAt(r, EndOf(most, at)) && EndOf(most, at) == at + Total(most)
    requires EndOf(most, at) % BLKLEN == 0
    ensures Tiles(most + [r], at) && EndOf(most + [r], at) == at + Total(most + [r])
    ensures EndOf(most + [r], at) % BLKLEN == 0
  {
    var all := most + [r];
    assert all[..|most|] == most;
    forall i | 0 <= i < |all| ensures ExtensionAt(all[i], EndOf(all[..i], at)) {
      if i < |most| {
        assert all[..i] == most[..i];
      }
    }
    SumAligned(EndOf(most, at), r.extnsize);
  }

  /** Whatever the images are: every offset is a multiple of the block length, the extensions are
      consecutive, and their sizes add up to the size of the file. */
  lemma {:induction false} LayoutTiles(ims: seq<Image>, at: nat, defcards: nat, sizeofLong: nat)
    requires (forall i :: 0 <= i < |ims| ==> ImageOk(ims[i])) && at % BLKLEN == 0
    ensures var r := LaidAll(ims, at, defcards, sizeofLong);
      Tiles(r, at) && EndOf(r, at) == at + Total(r) && EndOf(r, at) % BLKLEN == 0
  {
    if ims != [] {
      var last := |ims| - 1;
      var most := LaidAll(ims[..last], at, defcards, sizeofLong);
      LayoutTiles(ims[..last], at, defcards, sizeofLong);
      LaidIsExtension(ims[last], EndOf(most, at), defcards, sizeofLong);
      TilesOneMore(most, Laid(ims[last], EndOf(most, at), defcards, sizeofLong), at);
    }
  }

  lemma {:induction false} LaidAt(ims: seq<Image>, at: nat, defcards: nat, sizeofLong: nat, i: nat)
    requires (forall k :: 0 <= k < |ims| ==> ImageOk(ims[k])) && i < |ims|
    ensures var r := LaidAll(ims, at, defcards, sizeofLong);
      r[i] == Laid(ims[i], EndOf(r[..i], at), defcards, sizeofLong)
  {
    var last := |ims| - 1;
    var r, most := LaidAll(ims, at, defcards, sizeofLong), LaidAll(ims[..last], at, defcards, sizeofLong);
    if i < last {
      LaidAt(ims[..last], at, defcards, sizeofLong, i);
      assert r[..i] == most[..i];
    } else {
      assert r[..i] == most;
    }
  }

  /** Two extensions of a file have no byte in common. */
  lemma {:induction false} ExtensionsDisjoint(ims: seq<Image>, at: nat, i: nat, j: nat)
    requires Tiles(ims, at) && i < j < |ims|
    ensures at <= ims[i].hdrOffset && ims[i].hdrOffset + ims[i].extnsize <= ims[j].hdrOffset
    ensures ims[j].hdrOffset + ims[j].extnsize <= EndOf(ims, at)
  {
    StartsAfter(ims, at, i);
    EndsBefore(ims, at, j);
    assert ExtensionAt(ims[j], EndOf(ims[..j], at)) && ims[..j][j - 1] == ims[j - 1];
    if i + 1 < j {
      ExtensionsDisjoint(ims, at, i, j - 1);
    }
  }

  lemma {:induction false} StartsAfter(ims: seq<Image>, at: nat, i: nat)
    requires Tiles(ims, at) && i < |ims|
    ensures at <= ims[i].hdrOffset
  {
    assert ExtensionAt(ims[i], EndOf(ims[..i], at));
    if i > 0 {
      StartsAfter(ims, at, i - 1);
      assert ims[..i][i - 1] == ims[i - 1];
    }
  }

  lemma {:induction false} EndsBefore(ims: seq<Image>, at: nat, i: nat)
    requires Tiles(ims, at) && i < |ims|
    ensures ims[i].hdrOffset + ims[i].extnsize <= EndOf(ims, at)
    decreases |ims| - i
  {
    if i + 1 < |ims| {
      EndsBefore(ims, at, i + 1);
      assert ExtensionAt(ims[i + 1], EndOf(ims[..i + 1], at)) && ims[..i + 1][i] == ims[i];
    }
  }

  // ----- the layout in bytes -----

  /** Pixels of type `pixtype` take `size` bytes: ubyte and char 1, short and ushort 2, int and real
      4, double 8, and long as many as the machine says. */
  ghost predicate PixelBytes(pixtype: nat, size: nat, sizeofLong: nat) {
    && (pixtype == 1 || pixtype == 2 ==> size == 1)
    && (pixtype == 3 || pixtype == 4 ==> size == 2)
    && (pixtype == 5 || pixtype == 7 ==> size == 4)
    && (pixtype == 6 ==> size == sizeofLong)
    && (pixtype == 8 ==> size == 8)
    && (pixtype == 0 || pixtype > 8 ==> size == 0)
  }

  /** `up` is the least multiple of 2880 that is not below `n`. */
  ghost predicate Rounded(n: int, up: int) {
    n <= up < n + 2880 && up % 2880 == 0
  }

  /** An image has as many pixels as its axes multiply to. */
  ghost predicate Counted(naxes: nat, axlen: seq<nat>, npix: nat) {
    && |axlen| == 8 && naxes <= 8
    && (naxes == 0 ==> npix == 0)
    && (naxes == 1 ==> npix == axlen[0])
    && (naxes == 2 ==> npix == axlen[0] * axlen[1])
    && (naxes == 3 ==> npix == axlen[0] * axlen[1] * axlen[2])
  }

  /** Extension `r` was laid out for image `im` at byte `at` of the file: the cards asked for, or
      the default, in whole blocks; the pixels behind them, in whole blocks; and the extend area, in
      whole blocks. */
  ghost predicate LaidOut(im: Image, r: Image, at: nat, defcards: nat, sizeofLong: nat) {
    && ImageOk(im) && Counted(im.naxes, im.axlen, NPix(im)) && r.naxes == im.naxes && r.pixtype == im.pixtype
    && |r.axlen| == 8 && (forall i :: 0 <= i < 8 ==> r.axlen[i] == if i < im.naxes then im.axlen[i] else 1)
    && PixelBytes(im.pixtype, r.pixsize, sizeofLong)
    && Rounded((if im.maxkeywords == 0 then defcards else im.maxkeywords) * 80, r.maxkeywords * 80)
    && Rounded(im.extend, r.extend)
    && r.hdrOffset == at && r.pixOffset == at + r.maxkeywords * 80
    && Rounded(NPix(im) * r.pixsize, r.extnsize - r.maxkeywords * 80 - r.extend)
  }

  lemma PixelsCounted(im: Image)
    requires ImageOk(im)
    ensures Counted(im.naxes, im.axlen, NPix(im))
  {
    ProductOfThree(im.axlen);
  }

  /** An image with one axis more has as many times the pixels as that axis is long. */
  lemma OneMoreAxis(im: Image)
    requires ImageOk(im) && 0 < im.naxes < 8
    ensures NPix(im.(naxes := im.naxes + 1)) == NPix(im) * im.axlen[im.naxes]
  {
    assert im.axlen[..im.naxes + 1][..im.naxes] == im.axlen[..im.naxes];
  }

  /** What `Laid` comes to, in bytes. */
  lemma LaidInBytes(im: Image, at: nat, defcards: nat, sizeofLong: nat)
    requires ImageOk(im)
    ensures var r := Laid(im, at, defcards, sizeofLong);
      LaidOut(im, r, at, defcards, sizeofLong)
  {
    PixelsCounted(im);
    var asked := if im.maxkeywords == 0 then defcards else im.maxkeywords;
    assert RoundCards(asked) * FitsCard.CARDLEN == RoundUp(asked * FitsCard.CARDLEN);
  }

  /** Image `i` of a file that was laid out from byte `at` on and mapped at `addr`: it starts where
      the image before it ends. */
  ghost predicate ImageLaidOut(ims: seq<Image>, rs: seq<Image>, i: nat, at: nat, defcards: nat, sizeofLong: nat,
                               addr: nat)
    requires i < |ims| == |rs|
  {
    && rs[i].pixels == addr + rs[i].pixOffset
    && LaidOut(ims[i], rs[i], if i == 0 then at else rs[i - 1].hdrOffset + rs[i - 1].extnsize, defcards, sizeofLong)
  }

  lemma FileInBytes(ims: seq<Image>, rs: seq<Image>, at: nat, defcards: nat, sizeofLong: nat, addr: nat, i: nat)
    requires (forall k :: 0 <= k < |ims| ==> ImageOk(ims[k])) && i < |ims|
    requires rs == WithPixels(LaidAll(ims, at, defcards, sizeofLong), addr)
    ensures ImageLaidOut(ims, rs, i, at, defcards, sizeofLong, addr)
  {
    var laid := LaidAll(ims, at, defcards, sizeofLong);
    LaidAt(ims, at, defcards, sizeofLong, i);
    LaidInBytes(ims[i], EndOf(laid[..i], at), defcards, sizeofLong);
    assert i > 0 ==> laid[..i][i - 1] == laid[i - 1];
    assert LaidOut(ims[i], rs[i], EndOf(laid[..i], at), defcards, sizeofLong);
  }

  // ----- pixel addresses -----

  /** `dsim_Pixel2D`. */
  function Pixel2D(r: Region, i: int, j: int): int
    requires |r.stride| == MAXDIM
  {
    r.pixels + (j * r.stride[1] + i) * r.pixsize
  }

  /** `dsim_Pixel3D`. */
  function Pixel3D(r: Region, i: int, j: int, k: int): int
    requires |r.stride| == MAXDIM
  {
    r.pixels + (k * r.stride[2] + j * r.stride[1] + i) * r.pixsize
  }

  /** The region describes image `im`. */
  ghost predicate RegionOf(r: Region, im: Image) {
    && ImageOk(im) && |r.stride| == MAXDIM && r.pixsize == im.pixsize && r.pixels == im.pixels
    && Strides(r.stride, im.axlen)
  }

  /** The distance between neighbours along each axis: the first axis varies fastest. */
  ghost predicate Strides(stride: seq<nat>, axlen: seq<nat>) {
    && 0 < |stride| <= |axlen| && stride[0] == 1
    && forall i {:trigger axlen[i]} :: 0 <= i < |stride| - 1 ==> stride[i + 1] == stride[i] * axlen[i]
  }

  lemma NextStride(stride: seq<nat>, axlen: seq<nat>, next: nat)
    requires Strides(stride, axlen) && |stride| < |axlen| && next == stride[|stride| - 1] * axlen[|stride| - 1]
    ensures Strides(stride + [next], axlen)
  {
  }

  /** The image has pixels, and its degenerate axes have length 1. */
  predicate HasPixels(im: Image) {
    && ImageOk(im) && im.naxes > 0 && im.pixsize > 0
    && (forall i :: 0 <= i < MAXDIM ==> im.axlen[i] > 0)
    && (forall i :: im.naxes <= i < MAXDIM ==> im.axlen[i] == 1)
  }

  predicate InImage(im: Image, i: int, j: int, k: int)
    requires ImageOk(im)
  {
    0 <= i < im.axlen[0] && 0 <= j < im.axlen[1] && 0 <= k < im.axlen[2]
  }

  /** The number of pixel `(i, j, k)` in an image with lines of `n0` and planes of `n1` lines. */
  function Index(n0: nat, n1: nat, i: int, j: int, k: int): int {
    k * (n0 * n1) + j * n0 + i
  }

  lemma LineInPlane(n0: nat, n1: nat, i: int, j: int)
    requires 0 <= i < n0 && 0 <= j < n1
    ensures 0 <= j * n0 + i < n0 * n1
  {
    assert (n1 - 1 - j) * n0 >= 0;
    assert (n1 - 1 - j) * n0 == n1 * n0 - n0 - j * n0;
  }

  /** Different coordinates are different pixels, and all are within the image. */
  lemma IndexIsUnique(n0: nat, n1: nat, n2: nat, i: int, j: int, k: int, i': int, j': int, k': int)
    requires 0 <= i < n0 && 0 <= j < n1 && 0 <= k < n2
    requires 0 <= i' < n0 && 0 <= j' < n1 && 0 <= k' < n2
    ensures 0 <= Index(n0, n1, i, j, k) < n0 * n1 * n2
    ensures Index(n0, n1, i, j, k) == Index(n0, n1, i', j', k') ==> i == i' && j == j' && k == k'
  {
    LineInPlane(n0, n1, i, j);
    LineInPlane(n0, n1, i', j');
    LineInPlane(n0 * n1, n2, j * n0 + i, k);
    if Index(n0, n1, i, j, k) == Index(n0, n1, i', j', k') {
      SameQuotient(n0 * n1, k, j * n0 + i, k', j' * n0 + i');
      SameQuotient(n0, j, i, j', i');
    }
  }

  lemma {:induction false} ProductGrows(s: seq<nat>, n: nat)
    requires n <= |s| && forall i :: 0 <= i < |s| ==> s[i] > 0
    ensures Product(s[..n]) <= Product(s)
    decreases |s|
  {
    if n < |s| {
      var most := s[..|s| - 1];
      ProductGrows(most, n);
      assert most[..n] == s[..n];
      Multiples(0, s[|s| - 1], Product(most));
    } else {
      assert s[..n] == s;
    }
  }

  lemma {:induction false} ProductOfOnes(s: seq<nat>, n: nat)
    requires n <= |s| && forall i :: n <= i < |s| ==> s[i] == 1
    ensures Product(s) == Product(s[..n])
    decreases |s|
  {
    if n < |s| {
      ProductOfOnes(s[..|s| - 1], n);
      assert s[..|s| - 1][..n] == s[..n];
    } else {
      assert s[..n] == s;
    }
  }

  lemma ProductOfThree(s: seq<nat>)
    requires |s| >= 3
    ensures Product(s[..1]) == s[0] && Product(s[..2]) == s[0] * s[1]
    ensures Product(s[..3]) == s[0] * s[1] * s[2]
  {
    assert s[..3][..2] == s[..2] && s[..2][..1] == s[..1] && s[..1][..0] == [];
    assert Product(s[..1]) == s[0];
  }

  /** The first three axes hold no more pixels than the image has. */
  lemma PlanesFit(im: Image)
    requires HasPixels(im)
    ensures im.axlen[0] * im.axlen[1] * im.axlen[2] <= NPix(im)
  {
    ProductOfThree(im.axlen);
    ProductGrows(im.axlen, 3);
    ProductOfOnes(im.axlen, im.naxes);
  }

  /** Where the address functions find a pixel: the first axis varies fastest. */
  lemma AddressIs(r: Region, im: Image, i: int, j: int, k: int)
    requires RegionOf(r, im)
    ensures Pixel3D(r, i, j, k) == im.pixels + Index(im.axlen[0], im.axlen[1], i, j, k) * im.pixsize
    ensures Pixel2D(r, i, j) == Pixel3D(r, i, j, 0)
    ensures var n0, n1 := im.axlen[0], im.axlen[1];
      && Pixel2D(r, i, j) == im.pixels + (j * n0 + i) * im.pixsize
      && Pixel3D(r, i, j, k) == im.pixels + (k * (n0 * n1) + j * n0 + i) * im.pixsize
  {
    var n0, n1 := im.axlen[0], im.axlen[1];
    assert r.stride[0 + 1] == n0 && r.stride[1 + 1] == n0 * n1;
    assert 0 * r.stride[2] == 0;
  }

  /** Pixels lie inside the pixel area of their image, and different coordinates address
      disjoint bytes; a 2D address is the address in plane 0. */
  lemma PixelsDisjoint(r: Region, im: Image, i: int, j: int, k: int, i': int, j': int, k': int)
    requires RegionOf(r, im) && HasPixels(im) && InImage(im, i, j, k) && InImage(im, i', j', k')
    ensures var a, b := Pixel3D(r, i, j, k), Pixel3D(r, i', j', k');
      && im.pixels <= a && a + im.pixsize <= im.pixels + NPix(im) * im.pixsize
      && ((i, j, k) == (i', j', k') || a + im.pixsize <= b || b + im.pixsize <= a)
    ensures Pixel2D(r, i, j) == Pixel3D(r, i, j, 0)
  {
    var n0, n1, p := im.axlen[0], im.axlen[1], im.pixsize;
    var x, y := Index(n0, n1, i, j, k), Index(n0, n1, i', j', k');
    IndexIsUnique(n0, n1, im.axlen[2], i, j, k, i', j', k');
    AddressIs(r, im, i, j, k);
    AddressIs(r, im, i', j', k');
    PlanesFit(im);
    Multiples(x, NPix(im), p);
    Multiples(-1, x, p);
    if x < y {
      Multiples(x, y, p);
    } else if y < x {
      Multiples(y, x, p);
    }
  }

  // ----- the image file object -----

  /** The pixel areas of two images of a mapped file are apart, and inside the file. */
  lemma ImagesApart(ims: seq<Image>, at: nat, addr: nat, i: nat, j: nat)
    requires Tiles(ims, at) && i < j < |ims|
    ensures var a, b := WithPixels(ims, addr)[i], WithPixels(ims, addr)[j];
      && ImageOk(a) && ImageOk(b)
      && addr + at <= a.pixels && a.pixels + NPix(a) * a.pixsize <= b.pixels
      && b.pixels + NPix(b) * b.pixsize <= addr + EndOf(ims, at)
  {
    ExtensionsDisjoint(ims, at, i, j);
    assert ExtensionAt(ims[i], EndOf(ims[..i], at)) && ExtensionAt(ims[j], EndOf(ims[..j], at));
  }

  /** The reserved keywords of an extension: XTENSION, BITPIX, NAXIS, one for each axis, BSCALE and
      BZERO for unsigned short, PCOUNT, GCOUNT, EXTNAME. */
  function ReservedCards(im: Image): nat {
    3 + im.naxes + (if im.pixtype == 4 then 2 else 0) + 3
  }

  /** The header of every image has room for its reserved cards and END. */
  lemma ReservedCardsFit(im: Image, at: nat, defcards: nat, sizeofLong: nat)
    requires ImageOk(im) && defcards > 0
    ensures ReservedCards(im) + 1 <= Laid(im, at, defcards, sizeofLong).maxkeywords
  {
    var asked := if im.maxkeywords == 0 then defcards else im.maxkeywords;
    assert RoundCards(asked) >= CARDS_PER_BLOCK;
  }

  /** What mapping the file into memory comes to. */
  datatype Mapping = Unmapped | MappedAt(addr: nat)

  /** The images with the addresses of their first pixels in a file mapped at `addr`. */
  function WithPixels(ims: seq<Image>, addr: nat): (r: seq<Image>)
    ensures |r| == |ims| && forall i :: 0 <= i < |ims| ==> r[i] == ims[i].(pixels := addr + ims[i].pixOffset)
  {
    seq(|ims|, i requires 0 <= i < |ims| => ims[i].(pixels := addr + ims[i].pixOffset))
  }

  /** The requested region is inside the image. */
  predicate InBounds(im: Image, sv: seq<int>, nv: seq<int>)
    requires ImageOk(im) && |sv| >= im.naxes && |nv| >= im.naxes
  {
    forall i :: 0 <= i < im.naxes ==> 0 <= sv[i] && sv[i] + nv[i] <= im.axlen[i]
  }

  class DSImage {
    var configured: bool
    var configuring: bool
    var maxkeywords: nat
    var hdrOffset: nat
    var hdrLength: nat
    var filesize: nat
    var images: seq<Image>
    var iolist: seq<Region>

    ghost predicate Valid()
      reads this
    {
      forall i :: 0 <= i < |images| ==> ImageOk(images[i])
    }

    /** `dsim_Configure` of a file that is created: the layout of the file.  `mapping` is what
        mapping the file comes to. */
    method Configure(sizeofLong: nat, mapping: Mapping) returns (status: int)
      requires Valid()
      modifies this
      ensures Valid() && |images| == |old(images)|
      ensures old(configured) ==> status == 0 && unchanged(this)
      ensures !old(configured) ==>
        && maxkeywords == RoundCards(if old(maxkeywords) == 0 then DEF_MAXKEYWORDS else old(maxkeywords))
        && hdrOffset == 0 && hdrLength == maxkeywords * FitsCard.CARDLEN
        && configured == (images != [] && mapping.MappedAt? && forall i :: 0 <= i < |old(images)| ==>
            !Untyped(old(images)[i]))
        && status == (if configured || images == [] then 0 else -1)
      ensures !old(configured) && configured ==>
        && images == WithPixels(LaidAll(old(images), hdrLength, maxkeywords, sizeofLong), mapping.addr)
        && filesize == EndOf(LaidAll(old(images), hdrLength, maxkeywords, sizeofLong), hdrLength)
      ensures !old(configured) && configured ==>
        && Rounded((if old(maxkeywords) == 0 then 72 else old(maxkeywords)) * 80, hdrLength)
        && (forall i :: 0 <= i < |images| ==>
              ImageLaidOut(old(images), images, i, hdrLength, maxkeywords, sizeofLong, mapping.addr))
        && filesize == images[|images| - 1].hdrOffset + images[|images| - 1].extnsize
    {
      if configured {
        return 0;
      }
      configuring := true;
      ghost var before, cards := images, maxkeywords;
      PlaceHeader();
      if |images| == 0 {
        return 0;
      }
      var ok := LayOutAll(sizeofLong);
      if !ok || mapping.Unmapped? {
        return -1;
      }
      SetPixels(mapping.addr);
      forall i | 0 <= i < |images|
        ensures ImageLaidOut(before, images, i, hdrLength, maxkeywords, sizeofLong, mapping.addr) {
        FileInBytes(before, images, hdrLength, maxkeywords, sizeofLong, mapping.addr, i);
      }
      configured := true;
      configuring := false;
      status := 0;
    }

    /** The size of the global header. */
    method PlaceHeader()
      modifies `maxkeywords, `hdrOffset, `hdrLength, `filesize
      ensures maxkeywords == RoundCards(if old(maxkeywords) == 0 then DEF_MAXKEYWORDS else old(maxkeywords))
      ensures hdrOffset == 0 && hdrLength == filesize == maxkeywords * FitsCard.CARDLEN
    {
      if maxkeywords == 0 {
        maxkeywords := DEF_MAXKEYWORDS;
      }
      var bytes := maxkeywords * FitsCard.CARDLEN;
      bytes := (bytes + BLKLEN - 1) / BLKLEN * BLKLEN;
      maxkeywords := bytes / FitsCard.CARDLEN;
      hdrOffset := 0;
      hdrLength := maxkeywords * FitsCard.CARDLEN;
      filesize := hdrLength;
    }

    /** The first `n` of the images `ims` have been laid out from `at` on. */
    ghost predicate LaidSoFar(ims: seq<Image>, n: nat, at: nat, sizeofLong: nat)
      reads this
    {
      && n <= |ims| == |images| && Valid() && (forall i :: 0 <= i < |ims| ==> ImageOk(ims[i]))
      && (forall i :: n <= i < |ims| ==> images[i] == ims[i])
      && images[..n] == LaidAll(ims[..n], at, maxkeywords, sizeofLong) && filesize == EndOf(images[..n], at)
    }

    method LayOutNext(image: nat, sizeofLong: nat, ghost ims: seq<Image>, ghost at: nat) returns (ok: bool)
      requires 1 <= image <= |images| == |ims| && LaidSoFar(ims, image - 1, at, sizeofLong)
      modifies `images, `filesize
      ensures |images| == |ims| && Valid()
      ensures ok <==> !Untyped(ims[image - 1])
      ensures ok ==> LaidSoFar(ims, image, at, sizeofLong)
    {
      ghost var n, before := image - 1, images;
      ok := LayOut(image, sizeofLong);
      if ok {
        OneMoreLaid(ims, n, at, maxkeywords, sizeofLong, before[..n], images[n]);
        assert images[..n + 1] == before[..n] + [images[n]];
      }
    }

    /** The images are laid out until one of them has axes but no pixel type. */
    method LayOutAll(sizeofLong: nat) returns (ok: bool)
      requires Valid()
      modifies `images, `filesize
      ensures Valid() && |images| == |old(images)|
      ensures ok <==> forall i :: 0 <= i < |images| ==> !Untyped(old(images)[i])
      ensures ok ==> images == LaidAll(old(images), old(filesize), maxkeywords, sizeofLong)
                     && filesize == EndOf(images, old(filesize))
    {
      var image := 1;
      ghost var ims, at := images, filesize;
      while image <= |images|
        invariant 1 <= image <= |images| + 1 && |images| == |ims| && LaidSoFar(ims, image - 1, at, sizeofLong)
        invariant forall i :: 0 <= i < image - 1 ==> !Untyped(ims[i])
        decreases |images| - image
      {
        ok := LayOutNext(image, sizeofLong, ims, at);
        if !ok {
          return;
        }
        image := image + 1;
      }
      assert ims[..|ims|] == ims && images[..|ims|] == images;
      ok := true;
    }

    lemma OneMoreLaid(ims: seq<Image>, n: nat, at: nat, defcards: nat, sizeofLong: nat, done: seq<Image>, r: Image)
      requires n < |ims| && forall i :: 0 <= i < |ims| ==> ImageOk(ims[i])
      requires done == LaidAll(ims[..n], at, defcards, sizeofLong)
      requires r == Laid(ims[n], EndOf(done, at), defcards, sizeofLong)
      ensures LaidAll(ims[..n + 1], at, defcards, sizeofLong) == done + [r]
      ensures EndOf(done + [r], at) == r.hdrOffset + r.extnsize
    {
      assert ims[..n + 1][..n] == ims[..n];
    }

    /** One image is laid out behind what is there. */
    method LayOut(image: nat, sizeofLong: nat) returns (ok: bool)
      requires Valid() && 1 <= image <= |images|
      modifies `images, `filesize
      ensures Valid() && |images| == |old(images)|
      ensures ok <==> !Untyped(old(images)[image - 1])
      ensures ok ==>
                images == old(images)[image - 1 := Laid(old(images)[image - 1], old(filesize), maxkeywords, sizeofLong)]
      ensures ok ==> filesize == images[image - 1].hdrOffset + images[image - 1].extnsize
    {
      var im := PlaceImage(images[image - 1]);
      var axlen := SetDegenerate(im);
      im := im.(axlen := axlen);
      if im.naxes != 0 && im.pixtype == 0 {
        images := images[image - 1 := im];
        return false;
      }
      im := im.(pixsize := PixelSize(im.pixtype, sizeofLong));
      im := SizeImage(im);
      images := images[image - 1 := im];
      ok := true;
    }

    /** The header of an image goes to the end of the file. */
    method PlaceImage(image: Image) returns (im: Image)
      modifies `filesize
      ensures var cards := RoundCards(if image.maxkeywords == 0 then maxkeywords else image.maxkeywords);
        im == image.(maxkeywords := cards, hdrOffset := old(filesize),
                     pixOffset := old(filesize) + cards * FitsCard.CARDLEN)
      ensures filesize == im.pixOffset
    {
      im := image;
      if im.maxkeywords == 0 {
        im := im.(maxkeywords := maxkeywords);
      }
      var bytes := im.maxkeywords * FitsCard.CARDLEN;
      bytes := (bytes + BLKLEN - 1) / BLKLEN * BLKLEN;
      im := im.(maxkeywords := bytes / FitsCard.CARDLEN);
      im := im.(hdrOffset := filesize);
      im := im.(pixOffset := im.hdrOffset + im.maxkeywords * FitsCard.CARDLEN);
      filesize := im.pixOffset;
    }

    /** The pixels and the extend area of an image follow. */
    method SizeImage(image: Image) returns (im: Image)
      requires ImageOk(image) && image.hdrOffset <= filesize
      modifies `filesize
      ensures filesize == old(filesize) + RoundUp(NPix(image) * image.pixsize) + RoundUp(image.extend)
      ensures im == image.(extend := RoundUp(image.extend), extnsize := filesize - image.hdrOffset)
    {
      im := image;
      var npix := CountPixels(im);
      var pixblocks := (npix * im.pixsize + BLKLEN - 1) / BLKLEN;
      filesize := filesize + pixblocks * BLKLEN;
      im := im.(extend := (im.extend + BLKLEN - 1) / BLKLEN * BLKLEN);
      filesize := filesize + im.extend;
      im := im.(extnsize := filesize - im.hdrOffset);
    }

    /** The lengths of the degenerate axes are set to 1. */
    static method SetDegenerate(im: Image) returns (axlen: seq<nat>)
      requires ImageOk(im)
      ensures axlen == FullAxes(im)
    {
      axlen := im.axlen;
      var i := im.naxes;
      while i < MAXDIM
        invariant im.naxes <= i <= MAXDIM && |axlen| == MAXDIM
        invariant axlen[..im.naxes] == im.axlen[..im.naxes] && forall k :: im.naxes <= k < i ==> axlen[k] == 1
      {
        axlen := axlen[i := 1];
        i := i + 1;
      }
      assert axlen == axlen[..im.naxes] + axlen[im.naxes..];
    }

    static method CountPixels(im: Image) returns (npix: nat)
      requires ImageOk(im)
      ensures npix == NPix(im)
    {
      npix := if im.naxes != 0 then im.axlen[0] else 0;
      var i := 1;
      assert im.axlen[..1][..0] == [] && Product(im.axlen[..1]) == im.axlen[0];
      while i < im.naxes
        invariant 1 <= i && (im.naxes == 0 || i <= im.naxes)
        invariant npix == if im.naxes == 0 then 0 else Product(im.axlen[..i])
      {
        assert im.axlen[..i + 1][..i] == im.axlen[..i];
        npix := npix * im.axlen[i];
        i := i + 1;
      }
    }

    /** The addresses of the first pixels in the mapped file. */
    method SetPixels(addr: nat)
      requires Valid()
      modifies `images
      ensures Valid() && images == WithPixels(old(images), addr)
    {
      var image := 1;
      while image <= |images|
        invariant Valid() && 1 <= image <= |images| + 1 && |images| == |old(images)|
        invariant forall i :: 0 <= i < image - 1 ==>
                  images[i] == old(images)[i].(pixels := addr + old(images)[i].pixOffset)
        invariant forall i :: image - 1 <= i < |images| ==> images[i] == old(images)[i]
        decreases |images| - image
      {
        var im := images[image - 1];
        images := images[image - 1 := im.(pixels := addr + im.pixOffset)];
        image := image + 1;
      }
    }

    /** `dsim_StartIO`: the first unused region descriptor, or the first of those that are added,
        describes the region; -1 when the image does not exist or the region is not inside it. */
    method StartIO(image: int, mode: int, sv: seq<int>, nv: seq<int>) returns (rp: int)
      requires Valid()
      requires 1 <= image <= |images| ==> |sv| >= images[image - 1].naxes && |nv| >= images[image - 1].naxes
      modifies `iolist
      ensures rp == -1 <==> !(1 <= image <= |images| && forall i :: 0 <= i < images[image - 1].naxes ==>
                                  0 <= sv[i] && sv[i] + nv[i] <= images[image - 1].axlen[i])
      ensures rp == -1 ==> iolist == old(iolist)
      ensures rp != -1 ==>
        && 0 <= rp < |iolist|
        && |iolist| == (if rp < |old(iolist)| then |old(iolist)| else if |old(iolist)| < 2 then 4
            else 2 * |old(iolist)|)
        && (forall i :: 0 <= i < rp ==> i < |old(iolist)| && old(iolist)[i].image != 0)
        && (rp < |old(iolist)| ==> old(iolist)[rp].image == 0)
        && (forall i :: 0 <= i < |iolist| && i != rp ==>
              iolist[i] == if i < |old(iolist)| then old(iolist)[i] else NO_REGION)
        && iolist[rp].image == image && iolist[rp].iomode == mode && RegionOf(iolist[rp], images[image - 1])
        && |iolist[rp].sv| == |iolist[rp].nv| == 8
        && (forall i :: 0 <= i < 8 ==> && iolist[rp].sv[i] == (if i < images[image - 1].naxes then sv[i] else 1)
                                       && iolist[rp].nv[i] == if i < images[image - 1].naxes then nv[i] else 1)
    {
      if image < 1 || image > |images| {
        return -1;
      }
      var im := images[image - 1];
      var i := 0;
      while i < im.naxes
        invariant 0 <= i <= im.naxes
        invariant forall k :: 0 <= k < i ==> 0 <= sv[k] && sv[k] + nv[k] <= im.axlen[k]
      {
        if sv[i] < 0 || sv[i] + nv[i] > im.axlen[i] {
          return -1;
        }
        i := i + 1;
      }
      rp := FreeRegion();
      var r := DescribeRegion(image, im, mode, sv, nv);
      iolist := iolist[rp := r];
    }

    /** An unused region descriptor; if there is none the list grows. */
    method FreeRegion() returns (rp: nat)
      modifies `iolist
      ensures rp < |iolist| && iolist[rp].image == 0
      ensures |iolist| == if rp < |old(iolist)| then |old(iolist)| else if |old(iolist)| < 2 then 4
                else 2 * |old(iolist)|
      ensures forall i :: 0 <= i < rp ==> i < |old(iolist)| && old(iolist)[i].image != 0
      ensures forall i :: 0 <= i < |iolist| ==> iolist[i] == if i < |old(iolist)| then old(iolist)[i] else NO_REGION
    {
      rp := 0;
      while rp < |iolist|
        invariant 0 <= rp <= |iolist| && forall i :: 0 <= i < rp ==> iolist[i].image != 0
      {
        if iolist[rp].image == 0 {
          break;
        }
        rp := rp + 1;
      }
      if rp >= |iolist| {
        var nregions := if 4 > |iolist| * 2 then 4 else |iolist| * 2;
        iolist := iolist + seq(nregions - |iolist|, _ => NO_REGION);
      }
    }

    static method DescribeRegion(image: nat, im: Image, mode: int, sv: seq<int>, nv: seq<int>) returns (r: Region)
      requires ImageOk(im) && |sv| >= im.naxes && |nv| >= im.naxes
      ensures r.image == image && r.iomode == mode && RegionOf(r, im)
      ensures |r.sv| == |r.nv| == MAXDIM
      ensures forall i :: 0 <= i < MAXDIM ==> && r.sv[i] == (if i < im.naxes then sv[i] else 1)
                                              && r.nv[i] == if i < im.naxes then nv[i] else 1
    {
      var svs: seq<int>, nvs: seq<int>, strides: seq<nat> := [], [], [];
      var i := 0;
      while i < MAXDIM
        invariant 0 <= i <= MAXDIM && |svs| == |nvs| == |strides| == i
        invariant forall k :: 0 <= k < i ==> && svs[k] == (if k < im.naxes then sv[k] else 1)
                                             && nvs[k] == if k < im.naxes then nv[k] else 1
        invariant i > 0 ==> Strides(strides, im.axlen)
      {
        if i > 0 {
          NextStride(strides, im.axlen, strides[i - 1] * im.axlen[i - 1]);
        }
        svs := svs + [if i < im.naxes then sv[i] else 1];
        nvs := nvs + [if i < im.naxes then nv[i] else 1];
        strides := strides + [if i > 0 then strides[i - 1] * im.axlen[i - 1] else 1];
        i := i + 1;
      }
      r := Region(image, mode, svs, nvs, strides, im.pixsize, im.pixels);
    }

    /** `dsim_FinishIO`. */
    method FinishIO(rp: nat)
      requires rp < |iolist|
      modifies `iolist
      ensures iolist == old(iolist)[rp := old(iolist)[rp].(image := 0)]
    {
      iolist := iolist[rp := iolist[rp].(image := 0)];
    }
  }
}
