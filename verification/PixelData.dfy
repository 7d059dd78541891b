/** `WritePixelData` (mosdca/mosdca.c): a block of pixels holds several streams, each of which goes
    to a region of an image. */
module PixelData {
  import opened Arithmetic
  import opened Dsim
  import opened Pixels

  datatype Stream = Stream(npix: int, offset: int, stride: int, destimage: int, x0: int, y0: int,
                           xstep: int, ystep: int, xydir: bool)

  /** The images of the data acquisition are one- or two-dimensional. */
  predicate Plane(im: Image) {
    ImageOk(im) && 1 <= im.naxes <= 2
  }

  predicate Planes(ims: seq<Image>) {
    forall i :: 0 <= i < |ims| ==> Plane(ims[i])
  }

  /** `dsim_Get` of an axis length: -1 if there is no such image. */
  function Axlen(ims: seq<Image>, image: int, axis: nat): int
    requires Planes(ims) && axis < 2
  {
    if 1 <= image <= |ims| then ims[image - 1].axlen[axis] else -1
  }

  /** Division that truncates towards zero. */
  function Trunc(a: int, b: nat): int
    requires b > 0
  {
    if a >= 0 then a / b else -(-a / b)
  }

  function Abs(a: int): nat {
    if a < 0 then -a else a
  }

  /** The parameters that are checked before anything is written. */
  predicate GoodParameters(ims: seq<Image>, sp: Stream)
    requires Planes(ims)
  {
    && sp.npix != 0 && 0 <= sp.x0 < Axlen(ims, sp.destimage, 0) && 0 <= sp.y0 < Axlen(ims, sp.destimage, 1)
    && sp.destimage >= 1 && sp.xstep != 0 && sp.ystep != 0
  }

  /** One axis of the i/o region: `first` and `count`, negative if the region extends backwards,
      made positive and clipped. */
  function Normalized(first: int, count: int, len: int): (int, int) {
    var n := if count < 0 then -count else count;
    var s := if count < 0 then (if first - n + 1 < 0 then 0 else first - n + 1) else first;
    (s, if s + n - 1 >= len then n - 1 else n)
  }

  /** The axis along the lines: the whole line. */
  function Along(step: int, len: nat): (int, int) {
    if step > 0 then Normalized(0, len, len) else Normalized(len - 1, 0 - len, len)
  }

  /** The axis across the lines: as many lines as the pixels need. */
  function Across(first: int, step: int, totpix: int, len: nat, clen: nat): (int, int)
    requires len > 0
  {
    var lines := Trunc(totpix + len - 1, len);
    Normalized(first, if step < 0 then -lines else lines, clen)
  }

  /** The i/o region of a stream, for the two axes. */
  function IoRegion(sp: Stream, axlen1: nat, axlen2: nat): ((int, int), (int, int))
    requires axlen1 > 0 && axlen2 > 0
  {
    var totpix := sp.npix * Abs(sp.xstep) * Abs(sp.ystep);
    if sp.xydir then (Across(sp.x0, sp.xstep, totpix, axlen2, axlen1), Along(sp.ystep, axlen2))
    else (Along(sp.xstep, axlen1), Across(sp.y0, sp.ystep, totpix, axlen1, axlen2))
  }

  /** The stream is written: its parameters are good and its region is in the image. */
  predicate Accepted(ims: seq<Image>, sp: Stream)
    requires Planes(ims)
  {
    GoodParameters(ims, sp) &&
    var im := ims[sp.destimage - 1];
    var ((sv0, nv0), (sv1, nv1)) := IoRegion(sp, im.axlen[0], im.axlen[1]);
    InBounds(im, [sv0, sv1], [nv0, nv1])
  }

  function Count(sp: Stream): nat {
    if sp.npix > 0 then sp.npix else 0
  }

  function StreamJob(im: Image, sp: Stream, pixels: seq<int>): Job
    requires Plane(im) && 0 <= sp.x0 < im.axlen[0] && 0 <= sp.y0 < im.axlen[1] && sp.xstep != 0 && sp.ystep != 0
  {
    JobOf(im.axlen[0], im.axlen[1], pixels, sp.offset, sp.stride, sp.x0, sp.y0, sp.xstep, sp.ystep, sp.xydir)
  }

  /** What the program does not check: an accepted stream stays inside the image and the block, that
      is, its last pixel does, and its first one is in the block. */
  predicate Sound(ims: seq<Image>, sp: Stream, pixels: seq<int>)
    requires Planes(ims)
  {
    Accepted(ims, sp) ==> StreamJob(ims[sp.destimage - 1], sp, pixels).Fits(Count(sp))
  }

  /** The rasters have the sizes of their images. */
  predicate Sized(rasters: seq<seq<int>>, ims: seq<Image>)
    requires Planes(ims)
  {
    |rasters| == |ims| && forall i :: 0 <= i < |ims| ==> |rasters[i]| == ims[i].axlen[0] * ims[i].axlen[1]
  }

  /** The images once a stream was written to them. */
  ghost function AfterStream(rasters: seq<seq<int>>, ims: seq<Image>, sp: Stream, pixels: seq<int>): (r: seq<seq<int>>)
    requires Planes(ims) && Sized(rasters, ims) && Sound(ims, sp, pixels)
    ensures Sized(r, ims)
  {
    if !Accepted(ims, sp) then rasters
    else
      var d, job := sp.destimage - 1, StreamJob(ims[sp.destimage - 1], sp, pixels);
      rasters[d := Scattered(rasters[d], job, Count(sp))]
  }

  ghost function AfterStreams(rasters: seq<seq<int>>, ims: seq<Image>, sps: seq<Stream>,
                              pixels: seq<int>): (r: seq<seq<int>>)
    requires Planes(ims) && Sized(rasters, ims) && forall i :: 0 <= i < |sps| ==> Sound(ims, sps[i], pixels)
    ensures Sized(r, ims)
  {
    if sps == [] then rasters
    else AfterStream(AfterStreams(rasters, ims, sps[..|sps| - 1], pixels), ims, sps[|sps| - 1], pixels)
  }

  /** How many of the streams are not written. */
  function Rejected(ims: seq<Image>, sps: seq<Stream>): nat
    requires Planes(ims)
  {
    if sps == [] then 0
    else Rejected(ims, sps[..|sps| - 1]) + if Accepted(ims, sps[|sps| - 1]) then 0 else 1
  }

  /** The i/o regions in use are those that were, and no others. */
  ghost predicate SameInUse(before: seq<Region>, after: seq<Region>) {
    && |before| <= |after|
    && (forall i :: 0 <= i < |before| ==> (before[i].image != 0 || after[i].image != 0) ==> after[i] == before[i])
    && (forall i :: |before| <= i < |after| ==> after[i].image == 0)
  }

  class Context {
    const ds: DSImage
    var memory: seq<array<int>>   // the mapped pixels of the images
    var synchronized: bool
    var iostat: nat
    var npixpkt: nat
    var tpixpkt: nat

    constructor (ds: DSImage, memory: seq<array<int>>)
      ensures this.ds == ds && this.memory == memory
    {
      this.ds, this.memory := ds, memory;
      synchronized, iostat, npixpkt, tpixpkt := true, 0, 0, 0;
    }

    ghost predicate Valid()
      reads this, ds
    {
      && ds.Valid() && Planes(ds.images) && |memory| == |ds.images|
      && (forall i, j :: 0 <= i < j < |memory| ==> memory[i] != memory[j])
      && (forall i :: 0 <= i < |memory| ==> memory[i].Length == ds.images[i].axlen[0] * ds.images[i].axlen[1])
    }

    ghost function Rasters(): (r: seq<seq<int>>)
      requires Valid()
      reads this, ds, memory
      ensures Sized(r, ds.images)
    {
      seq(|memory|, i requires 0 <= i < |memory| reads this, memory => memory[i][..])
    }

    /** The stream is copied to its image. */
    method CopyStream(sp: Stream, pixels: seq<int>) returns (status: int)
      requires Valid() && Accepted(ds.images, sp) && Sound(ds.images, sp, pixels)
      modifies memory
      ensures Valid() && status == 0 && Rasters() == AfterStream(old(Rasters()), ds.images, sp, pixels)
    {
      var d := sp.destimage - 1;
      var im := ds.images[d];
      ghost var before := Rasters();
      status := WritePixels(memory[d], im.axlen[0], im.axlen[1], pixels, sp.npix, sp.offset, sp.stride,
                            sp.x0, sp.y0, sp.xstep, sp.ystep, sp.xydir);
      ghost var after := AfterStream(before, ds.images, sp, pixels);
      forall i | 0 <= i < |memory| ensures Rasters()[i] == after[i] {
      }
      assert Rasters() == after;
    }

    /** The i/o region of a stream. */
    static method ComputeRegion(sp: Stream, axlen1: nat, axlen2: nat) returns (sv: seq<int>, nv: seq<int>)
      requires axlen1 > 0 && axlen2 > 0
      ensures var ((sv0, nv0), (sv1, nv1)) := IoRegion(sp, axlen1, axlen2); sv == [sv0, sv1] && nv == [nv0, nv1]
    {
      var totpix := sp.npix * Abs(sp.xstep) * Abs(sp.ystep);
      sv, nv := [0, 0], [0, 0];
      if sp.xydir {
        sv := sv[0 := sp.x0];
        nv := nv[0 := Trunc(totpix + axlen2 - 1, axlen2)];
        if sp.xstep < 0 {
          nv := nv[0 := -nv[0]];
        }
        nv := nv[1 := axlen2];
        if sp.ystep > 0 {
          sv := sv[1 := 0];
        } else {
          sv := sv[1 := axlen2 - 1];
          nv := nv[1 := -nv[1]];
        }
      } else {
        sv := sv[1 := sp.y0];
        nv := nv[1 := Trunc(totpix + axlen1 - 1, axlen1)];
        if sp.ystep < 0 {
          nv := nv[1 := -nv[1]];
        }
        nv := nv[0 := axlen1];
        if sp.xstep > 0 {
          sv := sv[0 := 0];
        } else {
          sv := sv[0 := axlen1 - 1];
          nv := nv[0 := -nv[0]];
        }
      }
      sv, nv := Normalize(sv, nv, [axlen1, axlen2]);
    }

    static method Normalize(sv0: seq<int>, nv0: seq<int>, mv: seq<int>) returns (sv: seq<int>, nv: seq<int>)
      requires |sv0| == |nv0| == |mv| == 2
      ensures |sv| == |nv| == 2 && forall i :: 0 <= i < 2 ==> (sv[i], nv[i]) == Normalized(sv0[i], nv0[i], mv[i])
    {
      sv, nv := sv0, nv0;
      var i := 0;
      while i < 2
        invariant 0 <= i <= 2 && |sv| == |nv| == 2
        invariant forall k :: 0 <= k < i ==> (sv[k], nv[k]) == Normalized(sv0[k], nv0[k], mv[k])
        invariant forall k :: i <= k < 2 ==> sv[k] == sv0[k] && nv[k] == nv0[k]
      {
        if nv[i] < 0 {
          nv := nv[i := -nv[i]];
          sv := sv[i := sv[i] - nv[i] + 1];
          if sv[i] < 0 {
            sv := sv[i := 0];
          }
        }
        if sv[i] + nv[i] - 1 >= mv[i] {
          nv := nv[i := nv[i] - 1];
        }
        i := i + 1;
      }
    }

    /** The checks of a stream, and its i/o region; -1 if it is not accepted. */
    method OpenRegion(sp: Stream) returns (io: int)
      requires Valid()
      modifies ds`iolist
      ensures io == -1 <==> !Accepted(ds.images, sp)
      ensures io == -1 ==> ds.iolist == old(ds.iolist)
      ensures io != -1 ==> 0 <= io < |ds.iolist|
      ensures io != -1 ==> SameInUse(old(ds.iolist), ds.iolist[io := ds.iolist[io].(image := 0)])
    {
      var axlen1, axlen2 := Axlen(ds.images, sp.destimage, 0), Axlen(ds.images, sp.destimage, 1);
      if sp.npix == 0 || sp.x0 < 0 || sp.x0 >= axlen1 || sp.y0 < 0 || sp.y0 >= axlen2 || sp.destimage < 1
         || sp.xstep == 0 || sp.ystep == 0 {
        return -1;
      }
      var sv, nv := ComputeRegion(sp, axlen1, axlen2);
      io := ds.StartIO(sp.destimage, 1, sv, nv);
    }

    /** One turn of the loop of `WritePixelData`. */
    method WriteStream(sp: Stream, pixels: seq<int>) returns (ok: bool)
      requires Valid() && Sound(ds.images, sp, pixels)
      modifies memory, ds`iolist
      ensures Valid() && ok == Accepted(ds.images, sp)
      ensures Rasters() == AfterStream(old(Rasters()), ds.images, sp, pixels)
      ensures SameInUse(old(ds.iolist), ds.iolist)
    {
      var io := OpenRegion(sp);
      if io == -1 {
        return false;
      }
      var status := CopyStream(sp, pixels);
      ds.FinishIO(io);
      ok := status == 0;
    }

    lemma StillInUse(a: seq<Region>, b: seq<Region>, c: seq<Region>)
      requires SameInUse(a, b) && SameInUse(b, c)
      ensures SameInUse(a, c)
    {
    }

    /** The first `n` streams have been dealt with; `before`, `iolist0` and `iostat0` are the
        rasters, the regions and the error count at the start. */
    ghost predicate Streamed(streams: seq<Stream>, n: nat, pixels: seq<int>, before: seq<seq<int>>,
                             iolist0: seq<Region>, iostat0: nat)
      reads this, ds, memory
    {
      && Valid() && n <= |streams| && Sized(before, ds.images)
      && (forall i :: 0 <= i < |streams| ==> Sound(ds.images, streams[i], pixels))
      && Rasters() == AfterStreams(before, ds.images, streams[..n], pixels)
      && iostat == iostat0 + Rejected(ds.images, streams[..n])
      && SameInUse(iolist0, ds.iolist)
    }

    /** One turn of the loop, with its i/o status. */
    method NextStreamOf(streams: seq<Stream>, stream: nat, pixels: seq<int>, status0: int,
                        ghost before: seq<seq<int>>, ghost iolist0: seq<Region>, ghost iostat0: nat)
      returns (status: int)
      requires stream < |streams| && Streamed(streams, stream, pixels, before, iolist0, iostat0)
      requires status0 == if iostat == iostat0 then 0 else -1
      modifies this`iostat, memory, ds`iolist
      ensures Streamed(streams, stream + 1, pixels, before, iolist0, iostat0)
      ensures status == if iostat == iostat0 then 0 else -1
    {
      status := status0;
      ghost var iolist := ds.iolist;
      var ok := WriteStream(streams[stream], pixels);
      StillInUse(iolist0, iolist, ds.iolist);
      NextStream(before, ds.images, pixels, streams, stream);
      if !ok {
        iostat := iostat + 1;
        status := -1;
      }
    }

    /** `WritePixelData`: every stream whose parameters are good is written, the others are counted
        as i/o errors; no region stays in use. */
    method WritePixelData(nstreams: nat, streams: seq<Stream>, pixels: seq<int>) returns (status: int)
      requires Valid() && nstreams == |streams|
      requires forall i :: 0 <= i < |streams| ==> Sound(ds.images, streams[i], pixels)
      modifies this`synchronized, this`iostat, this`npixpkt, this`tpixpkt, memory, ds`iolist
      ensures Valid() && Rasters() == AfterStreams(old(Rasters()), ds.images, streams, pixels)
      ensures iostat == old(iostat) + Rejected(ds.images, streams)
      ensures status == if Rejected(ds.images, streams) == 0 then 0 else -1
      ensures SameInUse(old(ds.iolist), ds.iolist)
      ensures !synchronized && npixpkt == old(npixpkt) + 1 && tpixpkt == old(tpixpkt) + 1
    {
      status := WriteStreams(nstreams, streams, pixels);
      synchronized := false;
      npixpkt := npixpkt + 1;
      tpixpkt := tpixpkt + 1;
    }

    method WriteStreams(nstreams: nat, streams: seq<Stream>, pixels: seq<int>) returns (status: int)
      requires Valid() && nstreams == |streams|
      requires forall i :: 0 <= i < |streams| ==> Sound(ds.images, streams[i], pixels)
      modifies this`iostat, memory, ds`iolist
      ensures Streamed(streams, |streams|, pixels, old(Rasters()), old(ds.iolist), old(iostat))
      ensures streams[..|streams|] == streams
      ensures status == if iostat == old(iostat) then 0 else -1
    {
      status := 0;
      var stream := 0;
      ghost var before, iolist0, iostat0 := Rasters(), ds.iolist, iostat;
      NoStreams(before, ds.images, pixels, streams);
      while stream < nstreams
        invariant 0 <= stream <= nstreams && Streamed(streams, stream, pixels, before, iolist0, iostat0)
        invariant status == if iostat == iostat0 then 0 else -1
      {
        status := NextStreamOf(streams, stream, pixels, status, before, iolist0, iostat0);
        stream := stream + 1;
      }
    }
  }

  lemma NoStreams(rasters: seq<seq<int>>, ims: seq<Image>, pixels: seq<int>, sps: seq<Stream>)
    requires Planes(ims) && Sized(rasters, ims)
    ensures AfterStreams(rasters, ims, sps[..0], pixels) == rasters && Rejected(ims, sps[..0]) == 0
  {
  }

  lemma NextStream(rasters: seq<seq<int>>, ims: seq<Image>, pixels: seq<int>, sps: seq<Stream>, n: nat)
    requires Planes(ims) && Sized(rasters, ims) && n < |sps| && forall i :: 0 <= i < |sps| ==>
              Sound(ims, sps[i], pixels)
    ensures AfterStreams(rasters, ims, sps[..n + 1], pixels)
         == AfterStream(AfterStreams(rasters, ims, sps[..n], pixels), ims, sps[n], pixels)
    ensures Rejected(ims, sps[..n + 1]) == Rejected(ims, sps[..n]) + if Accepted(ims, sps[n]) then 0 else 1
  {
    assert sps[..n + 1][..n] == sps[..n];
  }

  /** The pixel that `WritePixels` counts in the image is the one that `dsim_Pixel2D` addresses. */
  lemma CountedFromFirstPixel(r: Region, im: Image, i: int, j: int)
    requires RegionOf(r, im)
    ensures Pixel2D(r, i, j) == im.pixels + PixelAt(im.axlen[0], i, j) * im.pixsize
  {
    AddressIs(r, im, i, j, 0);
    assert 0 * (im.axlen[0] * im.axlen[1]) == 0;
  }

  /** The number of lines of `len` pixels that `n` pixels take. */
  function Lines(n: nat, len: nat): nat
    requires len > 0
  {
    (n + len - 1) / len
  }

  /** When the region test lets a stream pass, for all streams: its parameters are good, and across the
      lines there is room for as many of them as `npix * |xstep| * |ystep|` pixels take; one line too
      many is let through, downwards wherever the stream starts.  In an image with one axis that is not
      looked at for streams that fill lines. */
  lemma AcceptedIs(ims: seq<Image>, sp: Stream)
    requires Planes(ims) && sp.npix >= 0
    ensures Accepted(ims, sp) <==>
            && sp.npix != 0 && 1 <= sp.destimage <= |ims| && sp.xstep != 0 && sp.ystep != 0
            && 0 <= sp.x0 < ims[sp.destimage - 1].axlen[0] && 0 <= sp.y0 < ims[sp.destimage - 1].axlen[1]
            && var im := ims[sp.destimage - 1];
               var first, step := if sp.xydir then sp.x0 else sp.y0, if sp.xydir then sp.xstep else sp.ystep;
               var len, clen := im.axlen[if sp.xydir then 1 else 0], im.axlen[if sp.xydir then 0 else 1];
               var xs, ys := if sp.xstep > 0 then sp.xstep else -sp.xstep, if sp.ystep > 0 then sp.ystep else -sp.ystep;
               var lines := (sp.npix * xs * ys + len - 1) / len;
               (sp.xydir || im.naxes == 2) ==> (if step > 0 then first else 0) + lines <= clen + 1
  {
    if GoodParameters(ims, sp) {
      var im := ims[sp.destimage - 1];
      var totpix := sp.npix * Abs(sp.xstep) * Abs(sp.ystep);
      Positive(sp.npix, Abs(sp.xstep), Abs(sp.ystep));
      if sp.xydir {
        AcrossIs(sp.x0, sp.xstep, totpix, im.axlen[1], im.axlen[0]);
      } else {
        AcrossIs(sp.y0, sp.ystep, totpix, im.axlen[0], im.axlen[1]);
      }
      BoundsOf(im, IoRegion(sp, im.axlen[0], im.axlen[1]));
    }
  }

  lemma Positive(a: nat, b: nat, c: nat)
    requires a > 0 && b > 0 && c > 0
    ensures a * b * c > 0
  {
    Multiples(0, a, b);
    Multiples(0, a * b, c);
  }

  lemma BoundsOf(im: Image, r: ((int, int), (int, int)))
    requires Plane(im)
    ensures InBounds(im, [r.0.0, r.1.0], [r.0.1, r.1.1]) <==>
            && 0 <= r.0.0 && r.0.0 + r.0.1 <= im.axlen[0]
            && (im.naxes == 2 ==> 0 <= r.1.0 && r.1.0 + r.1.1 <= im.axlen[1])
  {
    var sv, nv := [r.0.0, r.1.0], [r.0.1, r.1.1];
    assert sv[0] == r.0.0 && nv[0] == r.0.1 && sv[1] == r.1.0 && nv[1] == r.1.1;
  }

  lemma AcrossIs(first: int, step: int, totpix: nat, len: nat, clen: nat)
    requires len > 0 && totpix > 0 && 0 <= first < clen && step != 0
    ensures var (s, n) := Across(first, step, totpix, len, clen);
      var lines := (totpix + len - 1) / len;
      0 <= s && (s + n <= clen <==> (if step > 0 then first else 0) + lines <= clen + 1)
  {
    AtLeastOne(totpix, len);
  }

  lemma AtLeastOne(n: nat, len: nat)
    requires n > 0 && len > 0
    ensures (n + len - 1) / len >= 1
  {
    Monotonic(len, n + len - 1, len);
    Divides(1, 0, len);
  }

  /** What an accepted stream comes to: its image has every pixel where it goes, the other images are
      as they were. */
  lemma StreamWritten(rasters: seq<seq<int>>, ims: seq<Image>, sp: Stream, pixels: seq<int>)
    requires Planes(ims) && Sized(rasters, ims) && Sound(ims, sp, pixels) && Accepted(ims, sp)
    ensures var after, d := AfterStream(rasters, ims, sp, pixels), sp.destimage - 1;
      && (forall i :: 0 <= i < |rasters| && i != d ==> after[i] == rasters[i])
      && AllLand(rasters[d], after[d], ims[d].axlen[0], ims[d].axlen[1], pixels, sp.npix, sp.offset, sp.stride, sp.x0,
           sp.y0, sp.xstep, sp.ystep, sp.xydir)
  {
    var d := sp.destimage - 1;
    StreamLands(rasters[d], ims[d].axlen[0], ims[d].axlen[1], pixels, sp.npix, sp.offset, sp.stride, sp.x0, sp.y0,
                sp.xstep, sp.ystep, sp.xydir);
  }

  /** A stream that fills whole lines upwards, pixel by pixel, is accepted exactly when its lines
      reach no more than one line beyond the top of the image. */
  lemma WholeLinesAccepted(ims: seq<Image>, sp: Stream)
    requires Planes(ims) && GoodParameters(ims, sp) && sp.npix > 0
    requires !sp.xydir && sp.xstep == 1 && sp.ystep == 1
    ensures var im := ims[sp.destimage - 1];
      Accepted(ims, sp) <==> (im.naxes == 2 ==> sp.y0 + Lines(sp.npix, im.axlen[0]) <= im.axlen[1] + 1)
  {
    var im := ims[sp.destimage - 1];
    var n, lines := im.axlen[0], Lines(sp.npix, im.axlen[0]);
    assert sp.npix * Abs(sp.xstep) * Abs(sp.ystep) == sp.npix;
    assert lines >= 1 by {
      Multiples(0, 1, n);
    }
    var ((sv0, nv0), (sv1, nv1)) := IoRegion(sp, n, im.axlen[1]);
    assert sv0 == 0 && nv0 == n;
    assert sv1 == sp.y0 && nv1 == if sp.y0 + lines - 1 >= im.axlen[1] then lines - 1 else lines;
    assert InBounds(im, [sv0, sv1], [nv0, nv1]) <==> (im.naxes == 2 ==> sv1 + nv1 <= im.axlen[1]) by {
      assert [sv0, sv1][1] == sv1;
    }
  }

  lemma WholeLineOf(s: Scan, k: nat)
    requires s.Ok() && s.step == 1 && s.first == 0
    ensures s.LineOf(k) == k / s.len
  {
    assert s.head == s.room == s.len;
    if k >= s.len {
      OneLineMore(k - s.len, s.len);
    }
  }

  lemma OneLineMore(k: nat, len: nat)
    requires len > 0
    ensures (k + len) / len == k / len + 1
  {
    var q, r := k / len, k % len;
    assert k == q * len + r;
    NextMultiple(q, len);
    Divides(q + 1, r, len);
  }

  /** Such a stream stays inside the image exactly when its lines end below the top: the region test
      lets one line more through. */
  lemma WholeLinesFit(s: Scan, n: nat)
    requires s.Ok() && s.step == 1 && s.cstep == 1 && s.first == 0 && n > 0
    ensures s.Fits(n) <==> s.cfirst + Lines(n, s.len) <= s.clen
  {
    var last := n - 1;
    WholeLineOf(s, last);
    LinesOfLast(n, s.len);
    assert s.CrossOf(last) == s.cfirst + last / s.len;
    forall k | 0 <= k < n ensures 0 <= s.CrossOf(k) <= s.cfirst + last / s.len {
      WholeLineOf(s, k);
      Monotonic(k, last, s.len);
    }
  }

  /** Eight pixels for the top line of a 4 x 4 image are accepted, although they do not fit. */
  lemma OneLineTooMany(ims: seq<Image>, pixels: seq<int>)
    requires Planes(ims) && |ims| > 0 && ims[0].naxes == 2 && ims[0].axlen[0] == ims[0].axlen[1] == 4
    ensures var sp := Stream(8, 0, 1, 1, 0, 3, 1, 1, false);
      Accepted(ims, sp) && !StreamJob(ims[0], sp, pixels).Fits(8)
  {
    var sp := Stream(8, 0, 1, 1, 0, 3, 1, 1, false);
    WholeLinesAccepted(ims, sp);
    assert Lines(8, 4) == 2;
    WholeLinesFit(StreamJob(ims[0], sp, pixels).scan, 8);
  }

  lemma LinesOfLast(n: nat, len: nat)
    requires n > 0 && len > 0
    ensures Lines(n, len) == (n - 1) / len + 1
  {
    var q, r := (n - 1) / len, (n - 1) % len;
    assert n - 1 == q * len + r;
    NextMultiple(q, len);
    Divides(q + 1, r, len);
  }
}
