/** The readout of a detector with two amplifiers (pxf/pxfDCA.c): the raster is split into those of
    the two amplifiers, and each is sent in chunks to the data capture agent, which writes it to an
    image of its own. */
module Amplifiers {
  import opened Arithmetic
  import opened Dsim
  import opened Pixels
  import opened PixelData

  const CCD_ROWS: nat := 32
  const CCD_BPP: nat := 4
  const CCD_YSIZE: nat := 4096
  const NAMPS: nat := 2

  // ----- the rasters of the amplifiers -----

  /** A line of the input holds the pixels of the left and of the right amplifier, and then the
      overscan of the left and of the right one; a line of an amplifier is its pixels and its
      overscan. */
  function AmpLine(data: seq<int>, nx: nat, bias: nat, right: bool, at: nat): (r: seq<int>)
    requires bias <= nx && at + 2 * nx <= |data|
    ensures |r| == nx
  {
    var npix := nx - bias;
    var pixels, overscan := if right then at + npix else at, at + 2 * npix + if right then bias else 0;
    data[pixels..pixels + npix] + data[overscan..overscan + bias]
  }

  /** The first `ny` lines of an amplifier. */
  function AmpRaster(data: seq<int>, nx: nat, bias: nat, right: bool, ny: nat): (r: seq<int>)
    requires bias <= nx && |data| >= 2 * (nx * ny)
    ensures |r| == nx * ny
  {
    if ny == 0 then []
    else
      assert nx * ny == nx * (ny - 1) + nx;
      AmpRaster(data, nx, bias, right, ny - 1) + AmpLine(data, nx, bias, right, 2 * (nx * (ny - 1)))
  }

  /** Pixel `i` of line `j` of the left amplifier comes from the left half of the line, and its
      overscan from the first one behind the two halves. */
  ghost predicate LeftPixel(data: seq<int>, left: seq<int>, nx: nat, bias: nat, j: nat, i: nat) {
    var n, npix := nx * j, nx - bias;
    && n + i < |left| && bias <= nx && 2 * n + nx + i < |data|
    && left[n + i] == if i < npix then data[2 * n + i] else data[2 * n + npix + i]
  }

  /** The same for the right amplifier: the right half, and the second overscan. */
  ghost predicate RightPixel(data: seq<int>, right: seq<int>, nx: nat, bias: nat, j: nat, i: nat) {
    var n, npix := nx * j, nx - bias;
    && n + i < |right| && bias <= nx && 2 * n + nx + i < |data|
    && right[n + i] == if i < npix then data[2 * n + npix + i] else data[2 * n + nx + i]
  }

  ghost predicate LeftPixels(data: seq<int>, left: seq<int>, nx: nat, bias: nat, ny: nat) {
    |left| == nx * ny && forall j: nat, i: nat | j < ny && i < nx :: LeftPixel(data, left, nx, bias, j, i)
  }

  ghost predicate RightPixels(data: seq<int>, right: seq<int>, nx: nat, bias: nat, ny: nat) {
    |right| == nx * ny && forall j: nat, i: nat | j < ny && i < nx :: RightPixel(data, right, nx, bias, j, i)
  }

  /** Where a pixel of line `j` is, in the raster of an amplifier. */
  lemma {:induction false} LineOfRaster(data: seq<int>, nx: nat, bias: nat, right: bool, ny: nat, j: nat, i: nat,
                                        n: nat)
    requires bias <= nx && |data| >= 2 * (nx * ny) && j < ny && i < nx && n == nx * j
    ensures n + nx <= nx * ny
    ensures AmpRaster(data, nx, bias, right, ny)[n + i] == AmpLine(data, nx, bias, right, 2 * n)[i]
  {
    NextLine(nx, j, ny);
    NextLine(nx, ny - 1, ny);
    if j < ny - 1 {
      LineOfRaster(data, nx, bias, right, ny - 1, j, i, n);
    }
  }

  /** Which pixel of the input each pixel of the left raster is.  Line `j` starts at pixel `n` of a
      raster and at pixel `2 * n` of the input.  There the left amplifier has the first `nx - bias`
      pixels and the right one the next, and the two overscans of `bias` pixels follow in the same
      order. */
  lemma LeftIs(data: seq<int>, nx: nat, bias: nat, ny: nat, j: nat, i: nat, n: nat)
    requires bias <= nx && |data| >= 2 * (nx * ny) && j < ny && i < nx && n == nx * j
    ensures n + nx <= nx * ny
    ensures var left, npix := AmpRaster(data, nx, bias, false, ny), nx - bias;
      && (i < npix ==> left[n + i] == data[2 * n + i])
      && (i < bias ==> left[n + npix + i] == data[2 * n + 2 * npix + i])
  {
    LineOfRaster(data, nx, bias, false, ny, j, i, n);
    if i < bias {
      LineOfRaster(data, nx, bias, false, ny, j, nx - bias + i, n);
    }
  }

  /** The same for the right raster. */
  lemma RightIs(data: seq<int>, nx: nat, bias: nat, ny: nat, j: nat, i: nat, n: nat)
    requires bias <= nx && |data| >= 2 * (nx * ny) && j < ny && i < nx && n == nx * j
    ensures n + nx <= nx * ny
    ensures var right, npix := AmpRaster(data, nx, bias, true, ny), nx - bias;
      && (i < npix ==> right[n + i] == data[2 * n + npix + i])
      && (i < bias ==> right[n + npix + i] == data[2 * n + 2 * npix + bias + i])
  {
    LineOfRaster(data, nx, bias, true, ny, j, i, n);
    if i < bias {
      LineOfRaster(data, nx, bias, true, ny, j, nx - bias + i, n);
    }
  }

  lemma LeftPixelIs(data: seq<int>, nx: nat, bias: nat, ny: nat, j: nat, i: nat)
    requires bias <= nx && |data| >= 2 * (nx * ny) && j < ny && i < nx
    ensures LeftPixel(data, AmpRaster(data, nx, bias, false, ny), nx, bias, j, i)
  {
    var n := nx * j;
    if i < nx - bias {
      LeftIs(data, nx, bias, ny, j, i, n);
    } else {
      LeftIs(data, nx, bias, ny, j, i - (nx - bias), n);
    }
  }

  lemma RightPixelIs(data: seq<int>, nx: nat, bias: nat, ny: nat, j: nat, i: nat)
    requires bias <= nx && |data| >= 2 * (nx * ny) && j < ny && i < nx
    ensures RightPixel(data, AmpRaster(data, nx, bias, true, ny), nx, bias, j, i)
  {
    var n := nx * j;
    if i < nx - bias {
      RightIs(data, nx, bias, ny, j, i, n);
    } else {
      RightIs(data, nx, bias, ny, j, i - (nx - bias), n);
    }
  }

  lemma WhosePixels(data: seq<int>, nx: nat, bias: nat, ny: nat)
    requires bias <= nx && |data| >= 2 * (nx * ny)
    ensures LeftPixels(data, AmpRaster(data, nx, bias, false, ny), nx, bias, ny)
    ensures RightPixels(data, AmpRaster(data, nx, bias, true, ny), nx, bias, ny)
  {
    forall j: nat, i: nat | j < ny && i < nx
      ensures LeftPixel(data, AmpRaster(data, nx, bias, false, ny), nx, bias, j, i) {
      LeftPixelIs(data, nx, bias, ny, j, i);
    }
    forall j: nat, i: nat | j < ny && i < nx
      ensures RightPixel(data, AmpRaster(data, nx, bias, true, ny), nx, bias, j, i) {
      RightPixelIs(data, nx, bias, ny, j, i);
    }
  }

  /** Copies `n` pixels. */
  method CopyPixels(data: seq<int>, ip0: nat, amp: array<int>, op0: nat, n: nat) returns (ip: nat, op: nat)
    requires ip0 + n <= |data| && op0 + n <= amp.Length
    modifies amp
    ensures ip == ip0 + n && op == op0 + n && amp[..op] == old(amp[..op0]) + data[ip0..ip]
  {
    ip, op := ip0, op0;
    var i := 0;
    while i < n
      invariant 0 <= i <= n && ip == ip0 + i && op == op0 + i
      invariant amp[..op] == old(amp[..op0]) + data[ip0..ip]
    {
      amp[op] := data[ip];
      ip, op, i := ip + 1, op + 1, i + 1;
    }
  }

  lemma NextLine(nx: nat, j: nat, ny: nat)
    requires j < ny
    ensures nx * (j + 1) == nx * j + nx <= nx * ny
  {
    Multiples(j, ny, nx);
  }

  lemma RasterNext(data: seq<int>, nx: nat, bias: nat, right: bool, j: nat, ny: nat, op: nat)
    requires bias <= nx && |data| >= 2 * (nx * ny) && j < ny && op == nx * j
    ensures nx * (j + 1) == op + nx <= nx * ny
    ensures AmpRaster(data, nx, bias, right, j + 1)
         == AmpRaster(data, nx, bias, right, j) + AmpLine(data, nx, bias, right, 2 * op)
  {
    NextLine(nx, j, ny);
  }

  /** The first `op` pixels of an amplifier, which are its first `j` lines, are there. */
  ghost predicate LinesDone(data: seq<int>, nx: nat, bias: nat, right: bool, ny: nat, amp: array<int>, j: nat, op: nat)
    reads amp
  {
    && bias <= nx && j <= ny && |data| >= 2 * (nx * ny) && op == nx * j <= nx * ny == amp.Length
    && amp[..op] == AmpRaster(data, nx, bias, right, j)
  }

  method LeftLine(data: seq<int>, at: nat, amp: array<int>, op0: nat, nx: nat, bias: nat) returns (ip: nat, op: nat)
    requires bias <= nx && at + 2 * nx <= |data| && op0 + nx <= amp.Length
    modifies amp
    ensures ip == at + 2 * nx && op == op0 + nx
    ensures amp[..op0 + nx] == old(amp[..op0]) + AmpLine(data, nx, bias, false, at)
  {
    var npix := nx - bias;
    ip, op := CopyPixels(data, at, amp, op0, npix);
    ip := ip + npix;
    ip, op := CopyPixels(data, ip, amp, op, bias);
    ip := ip + bias;
  }

  /** `pxf_ampLeft`. */
  method AmpLeft(data: seq<int>, nx: nat, ny: nat, bias: nat) returns (amp: array<int>)
    requires bias <= nx && |data| >= 2 * (nx * ny)
    ensures fresh(amp) && amp[..] == AmpRaster(data, nx, bias, false, ny)
    ensures LeftPixels(data, amp[..], nx, bias, ny)
  {
    amp := new int[nx * ny];
    var ip, op, j := 0, 0, 0;
    while j < ny
      invariant 0 <= j <= ny && op >= 0 && ip == 2 * op && LinesDone(data, nx, bias, false, ny, amp, j, op)
    {
      RasterNext(data, nx, bias, false, j, ny, op);
      ip, op := LeftLine(data, ip, amp, op, nx, bias);
      j := j + 1;
    }
    assert amp[..op] == amp[..];
    WhosePixels(data, nx, bias, ny);
  }

  method RightLine(data: seq<int>, ip0: nat, amp: array<int>, op0: nat, nx: nat, bias: nat, ghost at: nat)
    returns (ip: nat, op: nat)
    requires bias <= nx && at + 2 * nx <= |data| && op0 + nx <= amp.Length && ip0 == at + nx - bias
    modifies amp
    ensures ip == ip0 + 2 * nx && op == op0 + nx
    ensures amp[..op0 + nx] == old(amp[..op0]) + AmpLine(data, nx, bias, true, at)
  {
    var npix := nx - bias;
    ip, op := CopyPixels(data, ip0, amp, op0, npix);
    ip := ip + bias;
    ip, op := CopyPixels(data, ip, amp, op, bias);
    ip := ip + npix;
  }

  /** `pxf_ampRight`. */
  method AmpRight(data: seq<int>, nx: nat, ny: nat, bias: nat) returns (amp: array<int>)
    requires bias <= nx && |data| >= 2 * (nx * ny)
    ensures fresh(amp) && amp[..] == AmpRaster(data, nx, bias, true, ny)
    ensures RightPixels(data, amp[..], nx, bias, ny)
  {
    amp := new int[nx * ny];
    var ip, op, j := nx - bias, 0, 0;
    while j < ny
      invariant 0 <= j <= ny && op >= 0 && ip == nx - bias + 2 * op && LinesDone(data, nx, bias, true, ny, amp, j, op)
    {
      RasterNext(data, nx, bias, true, j, ny, op);
      ip, op := RightLine(data, ip, amp, op, nx, bias, 2 * op);
      j := j + 1;
    }
    assert amp[..op] == amp[..];
    WhosePixels(data, nx, bias, ny);
  }

  /** A line of the input, put together from the lines of the two amplifiers. */
  function JoinLine(left: seq<int>, right: seq<int>, nx: nat, bias: nat): seq<int>
    requires bias <= nx == |left| == |right|
  {
    var npix := nx - bias;
    left[..npix] + right[..npix] + left[npix..] + right[npix..]
  }

  /** The first `ny` lines of the two amplifiers, interleaved again. */
  function Join(left: seq<int>, right: seq<int>, nx: nat, bias: nat, ny: nat): (r: seq<int>)
    requires bias <= nx && |left| == |right| == nx * ny
    ensures |r| == 2 * (nx * ny)
  {
    if ny == 0 then []
    else
      var n := nx * (ny - 1);
      assert nx * ny == n + nx;
      Join(left[..n], right[..n], nx, bias, ny - 1) + JoinLine(left[n..], right[n..], nx, bias)
  }

  lemma LineBack(data: seq<int>, nx: nat, bias: nat, at: nat)
    requires bias <= nx && at + 2 * nx <= |data|
    ensures JoinLine(AmpLine(data, nx, bias, false, at), AmpLine(data, nx, bias, true, at), nx, bias)
         == data[at..at + 2 * nx]
  {
    var npix := nx - bias;
    var l, r := AmpLine(data, nx, bias, false, at), AmpLine(data, nx, bias, true, at);
    assert l[..npix] == data[at..at + npix] && l[npix..] == data[at + 2 * npix..at + 2 * npix + bias];
    assert r[..npix] == data[at + npix..at + 2 * npix] && r[npix..] == data[at + 2 * npix + bias..at + 2 * nx];
    FourPieces(data, at, at + npix, at + 2 * npix, at + 2 * npix + bias, at + 2 * nx);
  }

  lemma FourPieces(s: seq<int>, a: nat, b: nat, c: nat, d: nat, e: nat)
    requires a <= b <= c <= d <= e <= |s|
    ensures s[a..b] + s[b..c] + s[c..d] + s[d..e] == s[a..e]
  {
  }

  /** Interleaving the two amplifiers gives back every input pixel once, in its place. */
  lemma {:induction false} SplitAndJoin(data: seq<int>, nx: nat, bias: nat, ny: nat)
    requires bias <= nx && |data| >= 2 * (nx * ny)
    ensures Join(AmpRaster(data, nx, bias, false, ny), AmpRaster(data, nx, bias, true, ny), nx, bias, ny)
         == data[..2 * (nx * ny)]
  {
    if ny > 0 {
      var n := nx * (ny - 1);
      var left, right := AmpRaster(data, nx, bias, false, ny), AmpRaster(data, nx, bias, true, ny);
      NextLine(nx, ny - 1, ny);
      SplitAndJoin(data, nx, bias, ny - 1);
      LastLine(data, nx, bias, false, ny);
      LastLine(data, nx, bias, true, ny);
      assert Join(left[..n], right[..n], nx, bias, ny - 1) == data[..2 * n];
      LineBack(data, nx, bias, 2 * n);
      JoinLast(left, right, nx, bias, ny, n);
      assert data[..2 * n] + data[2 * n..2 * n + 2 * nx] == data[..2 * (nx * ny)];
    }
  }

  lemma JoinLast(left: seq<int>, right: seq<int>, nx: nat, bias: nat, ny: nat, n: nat)
    requires bias <= nx && |left| == |right| == nx * ny && ny > 0 && n == nx * (ny - 1) && nx * ny == n + nx
    ensures Join(left, right, nx, bias, ny)
         == Join(left[..n], right[..n], nx, bias, ny - 1) + JoinLine(left[n..], right[n..], nx, bias)
  {
  }

  lemma LastLine(data: seq<int>, nx: nat, bias: nat, right: bool, ny: nat)
    requires bias <= nx && |data| >= 2 * (nx * ny) && ny > 0
    ensures var n, r := nx * (ny - 1), AmpRaster(data, nx, bias, right, ny);
      && nx * ny == n + nx
      && r[..n] == AmpRaster(data, nx, bias, right, ny - 1) && r[n..] == AmpLine(data, nx, bias, right, 2 * n)
  {
    NextLine(nx, ny - 1, ny);
  }

  // ----- sending the rasters -----

  /** Image `image` takes the raster of an amplifier. */
  predicate Receives(ims: seq<Image>, image: int, nx: nat, ny: nat) {
    1 <= image <= |ims| && Plane(ims[image - 1]) && ims[image - 1].naxes == 2
    && ims[image - 1].axlen[0] == nx && ims[image - 1].axlen[1] == ny
  }

  /** The stream descriptor of chunk `j`. */
  function ChunkStream(image: int, nx: nat, j: nat): Stream {
    Stream(nx * CCD_ROWS, 0, 1, image, 0, j * 32, 1, 1, false)
  }

  /** Every chunk is accepted and stays inside its image. */
  lemma ChunkFits(ims: seq<Image>, image: int, nx: nat, ny: nat, j: nat, chunk: seq<int>)
    requires Planes(ims) && Receives(ims, image, nx, ny) && nx > 0 && (j + 1) * CCD_ROWS <= ny
    requires |chunk| == nx * CCD_ROWS
    ensures var sp := ChunkStream(image, nx, j);
      Accepted(ims, sp) && StreamJob(ims[image - 1], sp, chunk).Fits(nx * CCD_ROWS)
  {
    var sp, im := ChunkStream(image, nx, j), ims[image - 1];
    Divides(CCD_ROWS, nx - 1, nx);
    assert Lines(nx * CCD_ROWS, nx) == CCD_ROWS;
    assert GoodParameters(ims, sp);
    WholeLinesAccepted(ims, sp);
    var job := StreamJob(im, sp, chunk);
    WholeLinesFit(job.scan, nx * CCD_ROWS);
    forall k | 0 <= k < nx * CCD_ROWS ensures 0 <= job.Source(k) < |chunk| {
    }
  }

  /** Where chunk `j` starts, and that it ends inside the raster. */
  lemma ChunkStarts(nx: nat, ny: nat, j: nat, n: nat)
    requires (j + 1) * CCD_ROWS <= ny && n == nx * CCD_ROWS
    ensures j * 32 * nx == n * j && n * (j + 1) == n * j + n <= nx * ny
  {
    assert n * j == nx * (CCD_ROWS * j);
    assert n * (j + 1) == nx * ((j + 1) * CCD_ROWS);
    if (j + 1) * CCD_ROWS < ny {
      Multiples((j + 1) * CCD_ROWS, ny, nx);
    }
  }

  /** A chunk replaces its lines of the image. */
  lemma ChunkWritten(raster: seq<int>, job: Job, n: nat, chunk: seq<int>, start: nat)
    requires job.Fits(n) && |raster| == job.Size() && n == |chunk| > 0 && job.pixels == chunk && job.offset == 0
    requires !job.columns && job.stride == 1 && job.scan.step == 1 && job.scan.cstep == 1 && job.scan.first == 0
    requires start == job.scan.cfirst * job.axlen1
    ensures start + n <= |raster| && Scattered(raster, job, n) == raster[..start] + chunk + raster[start + n..]
  {
    UnitSteps(raster, job, n);
    assert chunk[0..n] == chunk;
  }

  /** The raster while it is being sent: the new lines up to `k`, the old ones from there on. */
  function Mixed(sent: seq<int>, was: seq<int>, k: nat): seq<int>
    requires k <= |sent| == |was|
  {
    sent[..k] + was[k..]
  }

  lemma MixedNext(sent: seq<int>, was: seq<int>, k: nat, n: nat)
    requires k + n <= |sent| == |was|
    ensures var m := Mixed(sent, was, k); m[..k] + sent[k..k + n] + m[k + n..] == Mixed(sent, was, k + n)
  {
  }

  lemma MixedEnds(sent: seq<int>, was: seq<int>)
    requires |sent| == |was|
    ensures Mixed(sent, was, 0) == was && Mixed(sent, was, |sent|) == sent
  {
  }

  /** The number of chunks and their lines make up the height of the detector. */
  lemma ChunksFill(ccdH: nat, nbin: nat)
    requires ccdH * nbin == CCD_YSIZE && nbin > 0 && 128 % nbin == 0
    ensures ccdH > 0 && CCD_YSIZE / ccdH == nbin && ccdH == 128 / nbin * CCD_ROWS
  {
    var nchunks := 128 / nbin;
    assert nchunks * nbin == 128;
    assert nchunks * CCD_ROWS * nbin == CCD_YSIZE;
    SameFactor(ccdH, nchunks * CCD_ROWS, nbin);
    Divides(nbin, 0, ccdH);
  }

  /** One chunk is sent to image `image`. */
  method SendChunk(ctx: Context, amp: array<int>, ip: nat, npix: nat, image: int, j: nat, ghost nx: nat,
                   ghost ny: nat, ghost before: seq<int>)
    requires ctx.Valid() && Receives(ctx.ds.images, image, nx, ny) && nx > 0 && (j + 1) * CCD_ROWS <= ny
    requires amp.Length == |before| == nx * ny && npix == nx * CCD_ROWS && ip == npix * j && amp !in ctx.memory
    requires npix * j <= nx * ny && ctx.Rasters()[image - 1] == Mixed(amp[..], before, npix * j)
    modifies ctx`synchronized, ctx`iostat, ctx`npixpkt, ctx`tpixpkt, ctx.memory, ctx.ds`iolist
    ensures ctx.Valid() && ctx.iostat == old(ctx.iostat) && npix * (j + 1) <= nx * ny
    ensures ctx.Rasters() == old(ctx.Rasters())[image - 1 := Mixed(amp[..], before, npix * (j + 1))]
  {
    var st := Stream(npix, 0, 1, image, 0, j * 32, 1, 1, false);
    ChunkStarts(nx, ny, j, npix);
    var chunk := amp[ip..ip + npix];
    assert chunk == amp[..][ip..ip + npix];
    ChunkFits(ctx.ds.images, image, nx, ny, j, chunk);
    ChunkLands(ctx.Rasters(), ctx.ds.images, image, nx, ny, j, amp[..], before, ip);
    OneStream(ctx.Rasters(), ctx.ds.images, st, chunk);
    var status := ctx.WritePixelData(1, [st], chunk);
  }

  /** What the images hold once chunk `j` of `amp` was written. */
  lemma ChunkLands(rasters: seq<seq<int>>, ims: seq<Image>, image: int, nx: nat, ny: nat, j: nat, amp: seq<int>,
                   before: seq<int>, ip: nat)
    requires Planes(ims) && Sized(rasters, ims) && Receives(ims, image, nx, ny) && nx > 0 && (j + 1) * CCD_ROWS <= ny
    requires |amp| == |before| == nx * ny && ip == nx * CCD_ROWS * j && ip + nx * CCD_ROWS <= |amp|
    requires rasters[image - 1] == Mixed(amp, before, ip)
    ensures var n := nx * CCD_ROWS;
      var sp, chunk := ChunkStream(image, nx, j), amp[ip..ip + n];
      && Accepted(ims, sp) && Sound(ims, sp, chunk)
      && AfterStream(rasters, ims, sp, chunk) == rasters[image - 1 := Mixed(amp, before, ip + n)]
  {
    var n := nx * CCD_ROWS;
    var chunk := amp[ip..ip + n];
    ChunkStarts(nx, ny, j, n);
    ChunkFits(ims, image, nx, ny, j, chunk);
    ChunkWritten(rasters[image - 1], StreamJob(ims[image - 1], ChunkStream(image, nx, j), chunk), n, chunk, ip);
    MixedNext(amp, before, ip, n);
  }

  lemma OneStream(rasters: seq<seq<int>>, ims: seq<Image>, sp: Stream, pixels: seq<int>)
    requires Planes(ims) && Sized(rasters, ims) && Sound(ims, sp, pixels)
    ensures AfterStreams(rasters, ims, [sp], pixels) == AfterStream(rasters, ims, sp, pixels)
    ensures Rejected(ims, [sp]) == if Accepted(ims, sp) then 0 else 1
  {
    assert [sp][..0] == [];
    assert AfterStreams(rasters, ims, [], pixels) == rasters;
    assert Rejected(ims, []) == 0;
  }

  /** The first `j` chunks of `amp` have been sent to image `image`; `rasters` are the images as
      they were. */
  ghost predicate SentSoFar(ctx: Context, amp: array<int>, image: int, npix: nat, j: nat, rasters: seq<seq<int>>,
                            errors: nat)
    reads ctx, ctx.ds, ctx.memory, amp
  {
    && ctx.Valid() && 1 <= image <= |ctx.memory| == |rasters|
    && |rasters[image - 1]| == amp.Length && npix * j <= amp.Length
    && ctx.iostat == errors
    && ctx.Rasters() == rasters[image - 1 := Mixed(amp[..], rasters[image - 1], npix * j)]
  }

  method SendNext(ctx: Context, amp: array<int>, ip: nat, npix: nat, image: int, j: nat, ghost nx: nat, ghost ny: nat,
                  ghost rasters: seq<seq<int>>, ghost errors: nat)
    requires SentSoFar(ctx, amp, image, npix, j, rasters, errors) && Receives(ctx.ds.images, image, nx, ny) && nx > 0
    requires (j + 1) * CCD_ROWS <= ny && amp.Length == nx * ny && npix == nx * CCD_ROWS && ip == npix * j
    requires amp !in ctx.memory
    modifies ctx`synchronized, ctx`iostat, ctx`npixpkt, ctx`tpixpkt, ctx.memory, ctx.ds`iolist
    ensures SentSoFar(ctx, amp, image, npix, j + 1, rasters, errors) && amp[..] == old(amp[..])
  {
    SendChunk(ctx, amp, ip, npix, image, j, nx, ny, rasters[image - 1]);
  }

  /** All chunks of an amplifier are sent to image `image`. */
  method SendRaster(ctx: Context, amp: array<int>, npix: nat, nchunks: nat, image: int, ghost nx: nat, ghost ny: nat)
    requires ctx.Valid() && Receives(ctx.ds.images, image, nx, ny) && nx > 0 && ny == nchunks * CCD_ROWS
    requires amp.Length == nx * ny && npix == nx * CCD_ROWS && amp !in ctx.memory
    modifies ctx`synchronized, ctx`iostat, ctx`npixpkt, ctx`tpixpkt, ctx.memory, ctx.ds`iolist
    ensures ctx.Valid() && ctx.iostat == old(ctx.iostat) && amp[..] == old(amp[..])
    ensures ctx.Rasters() == old(ctx.Rasters())[image - 1 := amp[..]]
  {
    var ip, j := 0, 0;
    ghost var rasters, errors := ctx.Rasters(), ctx.iostat;
    MixedEnds(amp[..], rasters[image - 1]);
    assert npix * 0 == 0 && rasters[image - 1 := rasters[image - 1]] == rasters;
    while j < nchunks
      invariant 0 <= j <= nchunks && ip == npix * j && amp[..] == old(amp[..])
      invariant SentSoFar(ctx, amp, image, npix, j, rasters, errors)
    {
      NextMultiple(j, npix);
      SendNext(ctx, amp, ip, npix, image, j, nx, ny, rasters, errors);
      ip := ip + npix;
      j := j + 1;
    }
    ChunksAreAll(nx, ny, npix, nchunks);
  }

  lemma ChunksAreAll(nx: nat, ny: nat, npix: nat, nchunks: nat)
    requires npix == nx * CCD_ROWS && ny == nchunks * CCD_ROWS
    ensures npix * nchunks == nx * ny
  {
  }

  /** Both rasters, the left one to the first image and the right one to the second. */
  method SendBoth(ctx: Context, ldata: array<int>, rdata: array<int>, npix: nat, nchunks: nat, nx: nat, ghost ny: nat)
    requires ctx.Valid() && Receives(ctx.ds.images, 1, nx, ny) && Receives(ctx.ds.images, 2, nx, ny)
    requires nx > 0 && ny == nchunks * CCD_ROWS && npix == nx * CCD_ROWS
    requires ldata.Length == rdata.Length == nx * ny && ldata !in ctx.memory && rdata !in ctx.memory
    modifies ctx`synchronized, ctx`iostat, ctx`npixpkt, ctx`tpixpkt, ctx.memory, ctx.ds`iolist
    ensures ctx.Valid() && ctx.iostat == old(ctx.iostat)
    ensures ctx.Rasters() == old(ctx.Rasters())[0 := old(ldata[..])][1 := old(rdata[..])]
  {
    var i := 0;
    ghost var rasters := ctx.Rasters();
    ghost var left, right := ldata[..], rdata[..];
    while i < NAMPS
      invariant 0 <= i <= 2 && ctx.Valid() && ctx.iostat == old(ctx.iostat)
      invariant ldata[..] == left && rdata[..] == right
      invariant ctx.Rasters() == if i == 0 then rasters
                                 else if i == 1 then rasters[0 := left]
                                 else rasters[0 := left][1 := right]
    {
      var amp := if i != 0 then rdata else ldata;
      SendRaster(ctx, amp, npix, nchunks, i + 1, nx, ny);
      i := i + 1;
    }
  }

  /** `procDCAData`, with the amplifiers split: both rasters are sent.  Whatever the two images
      held, they hold the two amplifiers afterwards, and interleaving them gives the input. */
  method SendPage(ctx: Context, data: seq<int>, ccdW: nat, ccdH: nat, bias: nat, ghost bin: nat)
    requires ctx.Valid() && |data| == ccdW * ccdH && ccdW > 0 && ccdW % 2 == 0 && bias <= ccdW / 2
    requires ccdH * bin == CCD_YSIZE && bin > 0 && 128 % bin == 0
    requires Receives(ctx.ds.images, 1, ccdW / 2, ccdH) && Receives(ctx.ds.images, 2, ccdW / 2, ccdH)
    modifies ctx`synchronized, ctx`iostat, ctx`npixpkt, ctx`tpixpkt, ctx.memory, ctx.ds`iolist
    ensures ctx.Valid() && ctx.iostat == old(ctx.iostat) && |data| == 2 * (ccdW / 2 * ccdH)
    ensures ctx.Rasters() == old(ctx.Rasters())[0 := AmpRaster(data, ccdW / 2, bias, false, ccdH)]
                                               [1 := AmpRaster(data, ccdW / 2, bias, true, ccdH)]
    ensures LeftPixels(data, ctx.Rasters()[0], ccdW / 2, bias, ccdH)
    ensures RightPixels(data, ctx.Rasters()[1], ccdW / 2, bias, ccdH)
    ensures Join(ctx.Rasters()[0], ctx.Rasters()[1], ccdW / 2, bias, ccdH) == data
  {
    ChunksFill(ccdH, bin);
    var nbin := CCD_YSIZE / ccdH;
    HalfPage(ccdW, ccdH);
    var ldata := AmpLeft(data, ccdW / 2, ccdH, bias);
    var rdata := AmpRight(data, ccdW / 2, ccdH, bias);
    var nx := ccdW / NAMPS;
    var datalen := nx * CCD_BPP * CCD_ROWS;
    var nchunks := 128 / nbin;
    var npix := datalen / CCD_BPP;
    assert npix == nx * CCD_ROWS by {
      Divides(nx * CCD_ROWS, 0, CCD_BPP);
    }
    SendBoth(ctx, ldata, rdata, npix, nchunks, nx, ccdH);
    SplitAndJoin(data, nx, bias, ccdH);
    WhosePixels(data, nx, bias, ccdH);
    assert data[..|data|] == data;
  }

  lemma HalfPage(w: nat, h: nat)
    requires w % 2 == 0
    ensures w * h == 2 * (w / 2 * h)
  {
    assert w == 2 * (w / 2);
  }
}
