/** `WritePixels` (mosdca/mosdca.c): a linear buffer of pixels is scattered over an image, filling
    lines or columns in one of four directions. */
module Pixels {
  import opened Arithmetic

  // ----- where the pixels go -----

  /** How many pixels fit on a line of `len` pixels from `pos` on, when every `step`-th is visited. */
  function Room(len: nat, step: int, pos: int): nat
    requires step != 0 && 0 <= pos < len
  {
    if step > 0 then (len - pos) / step else (pos + 1) / -step
  }

  /** A walk over the lines (or columns) of an image: `len` pixels on a line, of which every
      `step`-th is visited, starting at `first`; `cstep` leads from a line to the next one, of
      `clen`, starting at `cfirst`.  The first line has `head` pixels of the walk, the others
      have `room`. */
  datatype Scan = Scan(len: nat, step: int, first: nat, clen: nat, cstep: int, cfirst: nat, head: nat, room: nat) {
    predicate Ok() {
      && step != 0 && first < len && cfirst < clen
      && head == Room(len, step, first) && room == Room(len, step, Restart())
    }

    /** The step is not longer than the line. */
    predicate Short() {
      step <= len && -step <= len
    }

    /** Where the lines after the first one start. */
    function Restart(): int {
      if step > 0 then 0 else len - 1
    }

    /** Where line number `line` of the walk starts. */
    function StartPos(line: nat): int {
      if line == 0 then first else Restart()
    }

    function RoomOn(line: nat): nat {
      if line == 0 then head else room
    }

    /** The number of the line that the `k`-th pixel falls on. */
    function LineOf(k: nat): nat {
      if k < head || room == 0 then 0 else 1 + (k - head) / room
    }

    function PosOf(k: nat): int {
      if k < head || room == 0 then first + k * step else Restart() + (k - head) % room * step
    }

    function CrossOf(k: nat): int {
      cfirst + LineOf(k) * cstep
    }

    /** The first pixel of a line of the walk. */
    function Start(line: nat): nat {
      if line == 0 then 0 else Start(line - 1) + RoomOn(line - 1)
    }

    /** The walk gets to `n` pixels, and the line of the last one is in the image. */
    predicate Fits(n: nat) {
      && Ok()
      && (n <= head || Short())
      && (n > 0 ==> 0 <= CrossOf(n - 1) < clen)
    }
  }

  function MakeScan(len: nat, step: int, first: nat, clen: nat, cstep: int, cfirst: nat): (s: Scan)
    requires step != 0 && first < len && cfirst < clen
    ensures s.Ok()
  {
    Scan(len, step, first, clen, cstep, cfirst, Room(len, step, first),
        Room(len, step, if step > 0 then 0 else len - 1))
  }

  /** Later pixels are not on earlier lines. */
  lemma LinesGoOn(s: Scan, k: nat, k': nat)
    requires k <= k'
    ensures s.LineOf(k) <= s.LineOf(k')
  {
    if s.room > 0 && k >= s.head {
      Monotonic(k - s.head, k' - s.head, s.room);
    }
  }

  /** The last pixel decides: a walk that gets to `n` pixels fits if and only if the lines of all of
      them are in the image. */
  lemma LastPixelDecides(s: Scan, n: nat)
    requires s.Ok() && n > 0
    ensures s.Fits(n) <==> (n <= s.head || s.Short()) && forall k :: 0 <= k < n ==> 0 <= s.CrossOf(k) < s.clen
  {
    if s.Fits(n) {
      forall k | 0 <= k < n ensures 0 <= s.CrossOf(k) < s.clen {
        CrossInside(s, n, k);
      }
    }
  }

  lemma CrossInside(s: Scan, n: nat, k: nat)
    requires s.Fits(n) && k < n
    ensures 0 <= s.CrossOf(k) < s.clen && s.Fits(k + 1)
  {
    LinesGoOn(s, k, n - 1);
    Between(s.LineOf(k), s.LineOf(n - 1), s.cstep);
  }

  lemma {:induction false} StartIs(s: Scan, line: nat) returns (full: nat)
    requires line > 0
    ensures full == (line - 1) * s.room && s.Start(line) == s.head + full
  {
    full := 0;
    if line > 1 {
      full := StartIs(s, line - 1);
      NextMultiple(line - 2, s.room);
      full := full + s.room;
    }
  }

  /** Pixel `m` of line `line` is pixel `Start(line) + m` of the walk. */
  lemma OnLine(s: Scan, line: nat, m: nat, k: nat)
    requires m < s.RoomOn(line) && k == s.Start(line) + m
    ensures s.LineOf(k) == line && s.PosOf(k) == s.StartPos(line) + m * s.step
    ensures s.CrossOf(k) == s.cfirst + line * s.cstep
  {
    if line == 0 {
      assert k == m;
    } else {
      var full := StartIs(s, line);
      Divides(line - 1, m, s.room);
      assert k - s.head == full + m;
    }
  }

  /** A whole line has room for a pixel exactly when the step is not longer than the line; without
      room the copying would not get on. */
  lemma RoomForOne(s: Scan)
    requires s.Ok()
    ensures s.room >= 1 <==> s.Short()
  {
  }

  lemma InsideLine(s: Scan, line: nat, m: nat)
    requires s.Ok() && m < s.RoomOn(line)
    ensures 0 <= s.StartPos(line) + m * s.step < s.len
  {
    var q, pos := s.RoomOn(line), s.StartPos(line);
    if s.step > 0 {
      Multiples(m, q, s.step);
      Quotient(s.len - pos, s.step);
    } else {
      Multiples(m, q, -s.step);
      Quotient(pos + 1, -s.step);
      assert m * -s.step == -(m * s.step);
    }
  }

  lemma Quotient(a: nat, b: nat)
    requires b > 0
    ensures a / b * b <= a
  {
    assert a == a / b * b + a % b;
  }

  /** The line and the place on it of every pixel that is reached. */
  lemma LineOfPixel(s: Scan, n: nat, k: nat) returns (line: nat, m: nat)
    requires s.Fits(n) && k < n
    ensures m < s.RoomOn(line) && k == s.Start(line) + m
    ensures s.LineOf(k) == line && s.PosOf(k) == s.StartPos(line) + m * s.step
  {
    if k < s.head {
      line, m := 0, k;
    } else {
      RoomForOne(s);
      line, m := 1 + (k - s.head) / s.room, (k - s.head) % s.room;
      assert k - s.head == (k - s.head) / s.room * s.room + (k - s.head) % s.room;
      var full := StartIs(s, line);
    }
    OnLine(s, line, m, k);
  }

  /** No two pixels of the walk are at the same place, and all are in the image. */
  lemma PlacesDiffer(s: Scan, n: nat, k: nat, k': nat)
    requires s.Fits(n) && k < n && k' < n
    ensures 0 <= s.PosOf(k) < s.len && 0 <= s.CrossOf(k) < s.clen
    ensures s.cstep != 0 && s.PosOf(k) == s.PosOf(k') && s.CrossOf(k) == s.CrossOf(k') ==> k == k'
  {
    var line, m := LineOfPixel(s, n, k);
    var line', m' := LineOfPixel(s, n, k');
    InsideLine(s, line, m);
    CrossInside(s, n, k);
    if s.cstep != 0 && s.CrossOf(k) == s.CrossOf(k') {
      SameFactor(line, line', s.cstep);
      if s.PosOf(k) == s.PosOf(k') {
        SameFactor(m, m', s.step);
      }
    }
  }

  // ----- what is written where -----

  /** A stream of pixels from a buffer to an image: `offset` and `stride` say where they are in
      the buffer, `scan` and `columns` where they go in an image with lines of `axlen1` pixels. */
  datatype Job = Job(pixels: seq<int>, offset: int, stride: int, scan: Scan, columns: bool, axlen1: nat) {
    /** The number of the image pixel at place `pos` of line (or column) `cross`. */
    function Spot(pos: int, cross: int): int {
      if columns then pos * axlen1 + cross else cross * axlen1 + pos
    }

    /** The number of the image pixel that the `k`-th pixel goes to. */
    function Address(k: nat): int {
      Spot(scan.PosOf(k), scan.CrossOf(k))
    }

    function Source(k: nat): int {
      offset + k * stride
    }

    /** The stream stays inside the image and the buffer. */
    predicate Fits(n: nat) {
      && scan.Fits(n) && axlen1 == (if columns then scan.clen else scan.len)
      && (n > 0 ==> 0 <= Source(0) < |pixels| && 0 <= Source(n - 1) < |pixels|)
    }

    function Size(): nat {
      if columns then scan.clen * scan.len else scan.len * scan.clen
    }
  }

  /** All pixels of the stream are in the buffer if the first and the last one are, and a stream
      that fits still fits when it ends earlier. */
  lemma SourceInside(job: Job, n: nat, k: nat)
    requires job.Fits(n) && k < n
    ensures 0 <= job.Source(k) < |job.pixels| && job.Fits(k + 1) && job.Fits(k)
  {
    Between(k, n - 1, job.stride);
    CrossInside(job.scan, n, k);
    if k > 0 {
      Between(k - 1, n - 1, job.stride);
      CrossInside(job.scan, n, k - 1);
    }
  }

  lemma InsideImage(axlen1: nat, axlen2: nat, x: int, y: int)
    requires 0 <= x < axlen1 && 0 <= y < axlen2
    ensures 0 <= y * axlen1 + x < axlen1 * axlen2
  {
    Multiples(y, axlen2, axlen1);
  }

  lemma AddressInside(job: Job, n: nat, k: nat)
    requires job.Fits(n) && k < n
    ensures 0 <= job.Address(k) < job.Size()
  {
    var s := job.scan;
    PlacesDiffer(s, n, k, k);
    if job.columns {
      InsideImage(s.clen, s.len, s.CrossOf(k), s.PosOf(k));
    } else {
      InsideImage(s.len, s.clen, s.PosOf(k), s.CrossOf(k));
    }
  }

  /** Different pixels of the stream go to different pixels of the image. */
  lemma AddressesDiffer(job: Job, n: nat, k: nat, k': nat)
    requires job.Fits(n) && job.scan.cstep != 0 && k < n && k' < n && job.Address(k) == job.Address(k')
    ensures k == k'
  {
    var s := job.scan;
    PlacesDiffer(s, n, k, k');
    PlacesDiffer(s, n, k', k);
    if job.columns {
      SameQuotient(job.axlen1, s.PosOf(k), s.CrossOf(k), s.PosOf(k'), s.CrossOf(k'));
    } else {
      SameQuotient(job.axlen1, s.CrossOf(k), s.PosOf(k), s.CrossOf(k'), s.PosOf(k'));
    }
  }

  /** The image once the first `n` pixels have been written, in their order. */
  ghost function Scattered(image: seq<int>, job: Job, n: nat): (r: seq<int>)
    requires job.Fits(n) && |image| == job.Size()
    ensures |r| == |image|
  {
    if n == 0 then image
    else
      AddressInside(job, n, n - 1);
      SourceInside(job, n, n - 1);
      Scattered(image, job, n - 1)[job.Address(n - 1) := job.pixels[job.Source(n - 1)]]
  }

  /** The same for the first `k` of `n` pixels. */
  ghost function Written(image: seq<int>, job: Job, n: nat, k: nat): (r: seq<int>)
    requires job.Fits(n) && k <= n && |image| == job.Size()
    ensures |r| == |image| && job.Fits(k) && r == Scattered(image, job, k)
  {
    if k == n then Scattered(image, job, n)
    else SourceInside(job, n, k); Scattered(image, job, k)
  }

  /** Every pixel of the stream is where it should be, and nothing else has changed. */
  lemma {:induction false} ScatteredIs(image: seq<int>, job: Job, n: nat)
    requires job.Fits(n) && |image| == job.Size() && job.scan.cstep != 0
    ensures forall k :: 0 <= k < n ==>
              (0 <= job.Address(k) < |image| && 0 <= job.Source(k) < |job.pixels|
               && Scattered(image, job, n)[job.Address(k)] == job.pixels[job.Source(k)])
    ensures forall a :: 0 <= a < |image| && (forall k :: 0 <= k < n ==> job.Address(k) != a) ==>
              Scattered(image, job, n)[a] == image[a]
  {
    if n > 0 {
      SourceInside(job, n, n - 1);
      AddressInside(job, n, n - 1);
      ScatteredIs(image, job, n - 1);
      forall k | 0 <= k < n - 1 ensures job.Address(k) != job.Address(n - 1) {
        if job.Address(k) == job.Address(n - 1) {
          AddressesDiffer(job, n, k, n - 1);
        }
      }
    }
  }

  /** With unit steps along lines the pixels go, in order, to one contiguous run of the image. */
  lemma {:induction false} UnitSteps(image: seq<int>, job: Job, n: nat)
    requires job.Fits(n) && |image| == job.Size() && !job.columns && job.stride == 1
    requires job.scan.step == 1 && job.scan.cstep == 1
    ensures n > 0 ==>
              var a := job.scan.cfirst * job.axlen1 + job.scan.first;
              && 0 <= job.offset && job.offset + n <= |job.pixels| && a + n <= |image|
              && Scattered(image, job, n) == image[..a] + job.pixels[job.offset..job.offset + n] + image[a + n..]
  {
    var a := job.scan.cfirst * job.axlen1 + job.scan.first;
    if n > 0 {
      SourceInside(job, n, n - 1);
      UnitAddress(job, n, n - 1);
      AddressInside(job, n, n - 1);
      assert job.Source(0) == job.offset && job.Source(n - 1) == job.offset + n - 1;
      var before := Scattered(image, job, n - 1);
      if n > 1 {
        UnitSteps(image, job, n - 1);
      } else {
        assert before == image == image[..a] + [] + image[a..];
      }
      ExtendRun(image, before, Scattered(image, job, n), a, job.pixels, job.offset, n);
    }
  }

  lemma ExtendRun(image: seq<int>, before: seq<int>, after: seq<int>, a: nat, pixels: seq<int>, off: nat, n: nat)
    requires n > 0 && a + n <= |image| && off + n <= |pixels|
    requires before == image[..a] + pixels[off..off + n - 1] + image[a + n - 1..]
    requires after == before[a + n - 1 := pixels[off + n - 1]]
    ensures after == image[..a] + pixels[off..off + n] + image[a + n..]
  {
  }

  lemma UnitAddress(job: Job, n: nat, k: nat)
    requires job.Fits(n) && k < n && !job.columns && job.scan.step == 1 && job.scan.cstep == 1
    ensures job.Address(k) == job.scan.cfirst * job.axlen1 + job.scan.first + k
  {
    var s := job.scan;
    var line, m := LineOfPixel(s, n, k);
    if line > 0 {
      var full := StartIs(s, line);
      assert s.head == s.len - s.first && s.room == s.len;
      assert (s.cfirst + line) * s.len == s.cfirst * s.len + (line - 1) * s.len + s.len;
    }
  }

  // ----- the copying -----

  /** `dsim_Pixel2D`, counted in pixels of the image. */
  function PixelAt(axlen1: nat, i: int, j: int): int {
    j * axlen1 + i
  }

  function LineAddress(job: Job, line: nat): int {
    job.Spot(job.scan.StartPos(line), job.scan.cfirst + line * job.scan.cstep)
  }

  /** From a pixel to the next one on its line. */
  function OutStep(job: Job): int {
    if job.columns then job.scan.step * job.axlen1 else job.scan.step
  }

  /** The first pixel of a line is where the line starts. */
  lemma FirstAddress(job: Job, line: nat)
    requires job.scan.RoomOn(line) > 0
    ensures job.Address(job.scan.Start(line)) == LineAddress(job, line)
  {
    OnLine(job.scan, line, 0, job.scan.Start(line));
  }

  /** The next pixel on the same line is one step further. */
  lemma NextAddress(job: Job, line: nat, m: nat)
    requires m + 1 < job.scan.RoomOn(line)
    ensures job.Address(job.scan.Start(line) + m + 1) == job.Address(job.scan.Start(line) + m) + OutStep(job)
  {
    var s := job.scan;
    var k := s.Start(line) + m;
    OnLine(s, line, m, k);
    OnLine(s, line, m + 1, k + 1);
    NextMultiple(m, s.step);
    SpotStep(job, s.PosOf(k), s.CrossOf(k));
  }

  lemma SpotStep(job: Job, pos: int, cross: int)
    ensures job.Spot(pos + job.scan.step, cross) == job.Spot(pos, cross) + OutStep(job)
  {
  }

  /** The first pixels, all but `nleft`, have been written, and line `line` is next. */
  ghost predicate AtLine(image: array<int>, image0: seq<int>, job: Job, n: nat, nleft: int, line: nat, ip: int, op: int)
    reads image
  {
    && job.Fits(n) && image.Length == |image0| == job.Size() && 0 <= nleft <= n
    && image[..] == Written(image0, job, n, n - nleft) && ip == job.Source(n - nleft)
    && (nleft > 0 ==> n - nleft == job.scan.Start(line) && op == LineAddress(job, line))
  }

  /** The inner loop: `np` pixels along a line. */
  method CopyRun(image: array<int>, pixels: seq<int>, ip0: int, istep: int, op0: int, ostep: int, np: nat,
                 ghost image0: seq<int>, ghost job: Job, ghost n: nat, ghost nleft: int, ghost line: nat)
    returns (ip: int)
    requires AtLine(image, image0, job, n, nleft, line, ip0, op0) && pixels == job.pixels
    requires nleft > 0 && np == (var r := job.scan.RoomOn(line); if nleft < r then nleft else r)
    requires istep == job.stride && ostep == OutStep(job)
    modifies image
    ensures AtLine(image, image0, job, n, nleft - np, line + 1, ip, LineAddress(job, line + 1))
  {
    var op, m := op0, np;
    ip := ip0;
    ghost var k, done := n - nleft, 0;
    if np > 0 {
      FirstAddress(job, line);
    }
    while m > 0
      invariant 0 <= m && done + m == np && (m > 0 ==> op == job.Address(k + done))
      invariant AtPixel(image, image0, job, n, k + done, ip)
      decreases m
    {
      m := m - 1;
      CopyPixel(image, pixels, ip, op, image0, job, n, k + done);
      if m > 0 {
        NextAddress(job, line, done);
      }
      done := done + 1;
      ip, op := ip + istep, op + ostep;
    }
    NextStart(job.scan, line);
  }

  lemma NextStart(s: Scan, line: nat)
    ensures s.Start(line + 1) == s.Start(line) + s.RoomOn(line)
  {
  }

  /** The first `k` pixels have been written, and `ip` is at the next one. */
  ghost predicate AtPixel(image: array<int>, image0: seq<int>, job: Job, n: nat, k: nat, ip: int)
    reads image
  {
    && job.Fits(n) && k <= n && image.Length == |image0| == job.Size()
    && image[..] == Written(image0, job, n, k) && ip == job.Source(k)
  }

  method CopyPixel(image: array<int>, pixels: seq<int>, ip: int, op: int, ghost image0: seq<int>, ghost job: Job,
                   ghost n: nat, ghost k: nat)
    requires AtPixel(image, image0, job, n, k, ip) && k < n && op == job.Address(k) && pixels == job.pixels
    modifies image
    ensures AtPixel(image, image0, job, n, k + 1, ip + job.stride)
  {
    AddressInside(job, n, k);
    SourceInside(job, n, k);
    NextMultiple(k, job.stride);
    ghost var before := image[..];
    image[op] := pixels[ip];
    assert image[..] == before[op := pixels[ip]];
  }

  function Min(a: int, b: int): int {
    if a > b then b else a
  }

  /** Fills columns in the +y direction. */
  method FillUp(image: array<int>, axlen1: nat, axlen2: nat, pixels: seq<int>, npix: int, offset: int, stride: int,
                x0: int, y0: int, dx: int, dy: int, ghost job: Job, ghost n: nat)
    requires n == (if npix > 0 then npix else 0) && job.Fits(n) && image.Length == job.Size() && dy > 0
    requires 0 <= x0 < axlen1 && 0 <= y0 < axlen2
    requires job == Job(pixels, offset, stride, MakeScan(axlen2, dy, y0, axlen1, dx, x0), true, axlen1)
    modifies image
    ensures image[..] == Scattered(old(image[..]), job, n)
  {
    var i, j := x0, y0;
    var ip, op := offset, PixelAt(axlen1, i, j);
    var nleft := npix;
    ghost var image0, line := image[..], 0;
    while nleft > 0
      invariant nleft <= npix && AtLine(image, image0, job, n, if npix > 0 then nleft else 0, line, ip, op)
      invariant i == x0 + line * dx && j == job.scan.StartPos(line)
      decreases nleft, if line == 0 then 1 else 0
    {
      MoreRoom(job.scan, n, n - nleft, line);
      var np := Min(nleft, (axlen2 - j) / dy);
      ip := CopyRun(image, pixels, ip, stride, op, dy * axlen1, np, image0, job, n, nleft, line);
      NextMultiple(line, dx);
      i, j := i + dx, 0;
      op := PixelAt(axlen1, i, j);
      nleft, line := nleft - np, line + 1;
    }
  }

  /** Fills columns in the -y direction. */
  method FillDown(image: array<int>, axlen1: nat, axlen2: nat, pixels: seq<int>, npix: int, offset: int, stride: int,
                  x0: int, y0: int, dx: int, dy: int, ghost job: Job, ghost n: nat)
    requires n == (if npix > 0 then npix else 0) && job.Fits(n) && image.Length == job.Size() && dy < 0
    requires 0 <= x0 < axlen1 && 0 <= y0 < axlen2
    requires job == Job(pixels, offset, stride, MakeScan(axlen2, dy, y0, axlen1, dx, x0), true, axlen1)
    modifies image
    ensures image[..] == Scattered(old(image[..]), job, n)
  {
    var i, j := x0, y0;
    var ip, op := offset, PixelAt(axlen1, i, j);
    var nleft := npix;
    ghost var image0, line := image[..], 0;
    while nleft > 0
      invariant nleft <= npix && AtLine(image, image0, job, n, if npix > 0 then nleft else 0, line, ip, op)
      invariant i == x0 + line * dx && j == job.scan.StartPos(line)
      decreases nleft, if line == 0 then 1 else 0
    {
      MoreRoom(job.scan, n, n - nleft, line);
      var np := Min(nleft, (j + 1) / -dy);
      ip := CopyRun(image, pixels, ip, stride, op, dy * axlen1, np, image0, job, n, nleft, line);
      NextMultiple(line, dx);
      i, j := i + dx, axlen2 - 1;
      op := PixelAt(axlen1, i, j);
      nleft, line := nleft - np, line + 1;
    }
  }

  /** Fills lines in the +x direction. */
  method FillRight(image: array<int>, axlen1: nat, axlen2: nat, pixels: seq<int>, npix: int, offset: int, stride: int,
                x0: int, y0: int, dx: int, dy: int, ghost job: Job, ghost n: nat)
    requires n == (if npix > 0 then npix else 0) && job.Fits(n) && image.Length == job.Size() && dx > 0
    requires 0 <= x0 < axlen1 && 0 <= y0 < axlen2
    requires job == Job(pixels, offset, stride, MakeScan(axlen1, dx, x0, axlen2, dy, y0), false, axlen1)
    modifies image
    ensures image[..] == Scattered(old(image[..]), job, n)
  {
    var i, j := x0, y0;
    var ip, op := offset, PixelAt(axlen1, i, j);
    var nleft := npix;
    ghost var image0, line := image[..], 0;
    while nleft > 0
      invariant nleft <= npix && AtLine(image, image0, job, n, if npix > 0 then nleft else 0, line, ip, op)
      invariant i == job.scan.StartPos(line) && j == y0 + line * dy
      decreases nleft, if line == 0 then 1 else 0
    {
      MoreRoom(job.scan, n, n - nleft, line);
      var np := Min(nleft, (axlen1 - i) / dx);
      ip := CopyRun(image, pixels, ip, stride, op, dx, np, image0, job, n, nleft, line);
      NextMultiple(line, dy);
      i, j := 0, j + dy;
      op := PixelAt(axlen1, i, j);
      nleft, line := nleft - np, line + 1;
    }
  }

  /** Fills lines in the -x direction. */
  method FillLeft(image: array<int>, axlen1: nat, axlen2: nat, pixels: seq<int>, npix: int, offset: int, stride: int,
                x0: int, y0: int, dx: int, dy: int, ghost job: Job, ghost n: nat)
    requires n == (if npix > 0 then npix else 0) && job.Fits(n) && image.Length == job.Size() && dx < 0
    requires 0 <= x0 < axlen1 && 0 <= y0 < axlen2
    requires job == Job(pixels, offset, stride, MakeScan(axlen1, dx, x0, axlen2, dy, y0), false, axlen1)
    modifies image
    ensures image[..] == Scattered(old(image[..]), job, n)
  {
    var i, j := x0, y0;
    var ip, op := offset, PixelAt(axlen1, i, j);
    var nleft := npix;
    ghost var image0, line := image[..], 0;
    while nleft > 0
      invariant nleft <= npix && AtLine(image, image0, job, n, if npix > 0 then nleft else 0, line, ip, op)
      invariant i == job.scan.StartPos(line) && j == y0 + line * dy
      decreases nleft, if line == 0 then 1 else 0
    {
      MoreRoom(job.scan, n, n - nleft, line);
      var np := Min(nleft, (i + 1) / -dx);
      ip := CopyRun(image, pixels, ip, stride, op, dx, np, image0, job, n, nleft, line);
      NextMultiple(line, dy);
      i, j := axlen1 - 1, j + dy;
      op := PixelAt(axlen1, i, j);
      nleft, line := nleft - np, line + 1;
    }
  }

  /** Only the first line of a walk that goes on may have no room. */
  lemma MoreRoom(s: Scan, n: nat, k: nat, line: nat)
    requires s.Fits(n) && k < n && k == s.Start(line)
    ensures line > 0 ==> s.RoomOn(line) > 0
  {
    if line > 0 {
      var full := StartIs(s, line);
      RoomForOne(s);
    }
  }

  /** Where the pixels of a stream go. */
  function JobOf(axlen1: nat, axlen2: nat, pixels: seq<int>, offset: int, stride: int, x0: int, y0: int, dx: int,
                 dy: int, xydir: bool): Job
    requires 0 <= x0 < axlen1 && 0 <= y0 < axlen2 && (if xydir then dy else dx) != 0
  {
    Job(pixels, offset, stride,
        if xydir then MakeScan(axlen2, dy, y0, axlen1, dx, x0) else MakeScan(axlen1, dx, x0, axlen2, dy, y0),
        xydir, axlen1)
  }

  // ----- the places, written out -----

  /** Pixel `k` of a stream that fills columns goes to column `x`, row `y`: on the first column the
      walk starts at `y0`, on the others at the bottom or at the top, every `dy`-th pixel is visited, and
      a column has as many as whole steps fit on it. */
  ghost predicate InColumns(axlen2: nat, x0: int, y0: int, dx: int, dy: int, k: nat, x: int, y: int)
    requires dy != 0
  {
    var head := if dy > 0 then (axlen2 - y0) / dy else (y0 + 1) / -dy;
    var room := if dy > 0 then axlen2 / dy else axlen2 / -dy;
    if k < head then x == x0 && y == y0 + k * dy
    else
      && room > 0 && x == x0 + (1 + (k - head) / room) * dx
      && y == (if dy > 0 then 0 else axlen2 - 1) + (k - head) % room * dy
  }

  /** The same for a stream that fills lines. */
  ghost predicate InLines(axlen1: nat, x0: int, y0: int, dx: int, dy: int, k: nat, x: int, y: int)
    requires dx != 0
  {
    var head := if dx > 0 then (axlen1 - x0) / dx else (x0 + 1) / -dx;
    var room := if dx > 0 then axlen1 / dx else axlen1 / -dx;
    if k < head then x == x0 + k * dx && y == y0
    else
      && room > 0 && y == y0 + (1 + (k - head) / room) * dy
      && x == (if dx > 0 then 0 else axlen1 - 1) + (k - head) % room * dx
  }

  ghost predicate GoesTo(axlen1: nat, axlen2: nat, x0: int, y0: int, dx: int, dy: int, xydir: bool, k: nat, x: int,
                         y: int)
    requires (if xydir then dy else dx) != 0
  {
    if xydir then InColumns(axlen2, x0, y0, dx, dy, k, x, y) else InLines(axlen1, x0, y0, dx, dy, k, x, y)
  }

  /** The image has the value `v` in column `x` of row `y`. */
  ghost predicate Shows(image: seq<int>, axlen1: nat, axlen2: nat, x: int, y: int, v: int) {
    0 <= x < axlen1 && 0 <= y < axlen2 && 0 <= y * axlen1 + x < |image| && image[y * axlen1 + x] == v
  }

  /** Pixel `k` of the stream is pixel `offset + k * stride` of the buffer. */
  ghost predicate Lands(image: seq<int>, axlen1: nat, axlen2: nat, pixels: seq<int>, offset: int, stride: int, k: nat,
                        x: int, y: int)
  {
    var ip := offset + k * stride;
    0 <= ip < |pixels| && Shows(image, axlen1, axlen2, x, y, pixels[ip])
  }

  /** Every pixel of the stream is where it goes, and what no pixel goes to is as it was. */
  ghost predicate AllLand(before: seq<int>, after: seq<int>, axlen1: nat, axlen2: nat, pixels: seq<int>, npix: int,
                          offset: int, stride: int, x0: int, y0: int, dx: int, dy: int, xydir: bool)
    requires (if xydir then dy else dx) != 0
  {
    && |after| == |before| == axlen1 * axlen2
    && (forall k: nat, x: int, y: int {:trigger GoesTo(axlen1, axlen2, x0, y0, dx, dy, xydir, k, x, y)} ::
          k < npix && GoesTo(axlen1, axlen2, x0, y0, dx, dy, xydir, k, x, y) ==>
            Lands(after, axlen1, axlen2, pixels, offset, stride, k, x, y))
    && (forall x: int, y: int {:trigger Unvisited(axlen1, axlen2, npix, x0, y0, dx, dy, xydir, x, y)} ::
          Unvisited(axlen1, axlen2, npix, x0, y0, dx, dy, xydir, x, y) && 0 <= y * axlen1 + x < |before| ==>
            Shows(after, axlen1, axlen2, x, y, before[y * axlen1 + x]))
  }

  ghost predicate Unvisited(axlen1: nat, axlen2: nat, npix: int, x0: int, y0: int, dx: int, dy: int, xydir: bool,
                            x: int,
                            y: int)
    requires (if xydir then dy else dx) != 0
  {
    && 0 <= x < axlen1 && 0 <= y < axlen2
    && forall k: nat :: k < npix ==> !GoesTo(axlen1, axlen2, x0, y0, dx, dy, xydir, k, x, y)
  }

  /** The place of a pixel in the image. */
  lemma PlaceIs(axlen1: nat, axlen2: nat, pixels: seq<int>, offset: int, stride: int, x0: int, y0: int, dx: int,
                dy: int, xydir: bool, n: nat, k: nat)
    requires 0 <= x0 < axlen1 && 0 <= y0 < axlen2 && (if xydir then dy else dx) != 0 && k < n
    requires JobOf(axlen1, axlen2, pixels, offset, stride, x0, y0, dx, dy, xydir).Fits(n)
    ensures var s := JobOf(axlen1, axlen2, pixels, offset, stride, x0, y0, dx, dy, xydir).scan;
      var x, y := if xydir then s.CrossOf(k) else s.PosOf(k), if xydir then s.PosOf(k) else s.CrossOf(k);
      && 0 <= x < axlen1 && 0 <= y < axlen2
      && forall x', y' :: GoesTo(axlen1, axlen2, x0, y0, dx, dy, xydir, k, x', y') <==> x' == x && y' == y
  {
    var s := JobOf(axlen1, axlen2, pixels, offset, stride, x0, y0, dx, dy, xydir).scan;
    PlacesDiffer(s, n, k, k);
    if k >= s.head {
      RoomForOne(s);
    }
  }

  /** Everything lands where it goes. */
  lemma StreamLands(before: seq<int>, axlen1: nat, axlen2: nat, pixels: seq<int>, npix: int, offset: int, stride: int,
                    x0: int, y0: int, dx: int, dy: int, xydir: bool)
    requires 0 <= x0 < axlen1 && 0 <= y0 < axlen2 && |before| == axlen1 * axlen2 && dx != 0 && dy != 0
    requires JobOf(axlen1, axlen2, pixels, offset, stride, x0, y0, dx, dy, xydir).Fits(if npix > 0 then npix else 0)
    ensures AllLand(before,
        Scattered(before, JobOf(axlen1, axlen2, pixels, offset, stride, x0, y0, dx, dy, xydir), if npix > 0
            then npix else 0),
        axlen1, axlen2, pixels, npix, offset, stride, x0, y0, dx, dy, xydir)
  {
    var n := if npix > 0 then npix else 0;
    var job := JobOf(axlen1, axlen2, pixels, offset, stride, x0, y0, dx, dy, xydir);
    var after := Scattered(before, job, n);
    ScatteredIs(before, job, n);
    forall k: nat, x: int, y: int | k < npix && GoesTo(axlen1, axlen2, x0, y0, dx, dy, xydir, k, x, y)
      ensures Lands(after, axlen1, axlen2, pixels, offset, stride, k, x, y) {
      PlaceIs(axlen1, axlen2, pixels, offset, stride, x0, y0, dx, dy, xydir, n, k);
      assert job.Address(k) == y * axlen1 + x;
    }
    forall x: int, y: int | Unvisited(axlen1, axlen2, npix, x0, y0, dx, dy, xydir, x, y) &&
        0 <= y * axlen1 + x < |before|
      ensures Shows(after, axlen1, axlen2, x, y, before[y * axlen1 + x]) {
      forall k | 0 <= k < n ensures job.Address(k) != y * axlen1 + x {
        NotThere(axlen1, axlen2, pixels, npix, offset, stride, x0, y0, dx, dy, xydir, x, y, k);
      }
    }
  }

  lemma NotThere(axlen1: nat, axlen2: nat, pixels: seq<int>, npix: int, offset: int, stride: int, x0: int, y0: int,
                 dx: int, dy: int, xydir: bool, x: int, y: int, k: nat)
    requires 0 <= x0 < axlen1 && 0 <= y0 < axlen2 && (if xydir then dy else dx) != 0 && k < npix
    requires JobOf(axlen1, axlen2, pixels, offset, stride, x0, y0, dx, dy, xydir).Fits(npix)
    requires Unvisited(axlen1, axlen2, npix, x0, y0, dx, dy, xydir, x, y)
    ensures JobOf(axlen1, axlen2, pixels, offset, stride, x0, y0, dx, dy, xydir).Address(k) != y * axlen1 + x
  {
    var job := JobOf(axlen1, axlen2, pixels, offset, stride, x0, y0, dx, dy, xydir);
    var s := job.scan;
    var x', y' := if xydir then s.CrossOf(k) else s.PosOf(k), if xydir then s.PosOf(k) else s.CrossOf(k);
    PlaceIs(axlen1, axlen2, pixels, offset, stride, x0, y0, dx, dy, xydir, npix, k);
    assert GoesTo(axlen1, axlen2, x0, y0, dx, dy, xydir, k, x', y');
    if job.Address(k) == y * axlen1 + x {
      SameQuotient(axlen1, y', x', y, x);
      assert false;
    }
  }

  /** `WritePixels`: the image holds the pixels of the stream where they belong; -1 and no change
      when the step along the lines is zero. */
  method WritePixels(image: array<int>, axlen1: nat, axlen2: nat, pixels: seq<int>, npix: int, offset: int, stride: int,
                     x0: int, y0: int, dx: int, dy: int, xydir: bool)
    returns (status: int)
    requires 0 <= x0 < axlen1 && 0 <= y0 < axlen2 && image.Length == axlen1 * axlen2
    requires (if xydir then dy else dx) != 0 ==>
               JobOf(axlen1, axlen2, pixels, offset, stride, x0, y0, dx, dy, xydir).Fits(if npix > 0 then npix else 0)
    modifies image
    ensures status == if (if xydir then dy else dx) == 0 then -1 else 0
    ensures status == -1 ==> image[..] == old(image[..])
    ensures status == 0 ==>
              image[..] == Scattered(old(image[..]),
                  JobOf(axlen1, axlen2, pixels, offset, stride, x0, y0, dx, dy, xydir),
                                     if npix > 0 then npix else 0)
    ensures dx != 0 && dy != 0 ==>
              AllLand(old(image[..]), image[..], axlen1, axlen2, pixels, npix, offset, stride, x0, y0, dx, dy, xydir)
  {
    ghost var n := if npix > 0 then npix else 0;
    if xydir && dy > 0 {
      FillUp(image, axlen1, axlen2, pixels, npix, offset, stride, x0, y0, dx, dy,
             JobOf(axlen1, axlen2, pixels, offset, stride, x0, y0, dx, dy, xydir), n);
    } else if xydir && dy < 0 {
      FillDown(image, axlen1, axlen2, pixels, npix, offset, stride, x0, y0, dx, dy,
               JobOf(axlen1, axlen2, pixels, offset, stride, x0, y0, dx, dy, xydir), n);
    } else if !xydir && dx > 0 {
      FillRight(image, axlen1, axlen2, pixels, npix, offset, stride, x0, y0, dx, dy,
                JobOf(axlen1, axlen2, pixels, offset, stride, x0, y0, dx, dy, xydir), n);
    } else if !xydir && dx < 0 {
      FillLeft(image, axlen1, axlen2, pixels, npix, offset, stride, x0, y0, dx, dy,
               JobOf(axlen1, axlen2, pixels, offset, stride, x0, y0, dx, dy, xydir), n);
    } else {
      return -1;
    }
    status := 0;
    if dx != 0 && dy != 0 {
      StreamLands(old(image[..]), axlen1, axlen2, pixels, npix, offset, stride, x0, y0, dx, dy, xydir);
    }
  }
}
