/** Flipping and transposing rasters (smcmgr/rotate.c). */
module Raster {
  import opened Arithmetic

  datatype Operation = FlipX | FlipY | Transpose1 | Transpose2 {
    predicate Exchanges() {
      Transpose1? || Transpose2?
    }
  }

  /** The width and the height of the output. */
  function Width(o: Operation, nx: nat, ny: nat): nat {
    if o.Exchanges() then ny else nx
  }

  function Height(o: Operation, nx: nat, ny: nat): nat {
    if o.Exchanges() then nx else ny
  }

  /** The column and the row of the input pixel that goes to column `i` of row `j`. */
  function From(o: Operation, nx: nat, ny: nat, i: nat, j: nat): (r: (nat, nat))
    requires i < Width(o, nx, ny) && j < Height(o, nx, ny)
    ensures r.0 < nx && r.1 < ny
  {
    match o
    case FlipX => (nx - 1 - i, j)
    case FlipY => (i, ny - 1 - j)
    case Transpose1 => (j, i)
    case Transpose2 => (nx - 1 - j, ny - 1 - i)
  }

  /** The number of the pixel in column `i` of row `j`, and back. */
  function Number(w: nat, h: nat, i: nat, j: nat): (k: nat)
    requires i < w && j < h
    ensures k == j * w + i < w * h
  {
    Multiples(j, h, w);
    j * w + i
  }

  function Column(w: nat, h: nat, k: nat): (i: nat)
    requires k < w * h
    ensures i < w
  {
    assert w > 0;
    k % w
  }

  function Row(w: nat, h: nat, k: nat): (j: nat)
    requires k < w * h
    ensures j < h
  {
    assert w > 0;
    RowInside(w, h, k);
    k / w
  }

  lemma RowInside(w: nat, h: nat, k: nat)
    requires k < w * h && w > 0
    ensures k / w < h
  {
    assert k == k / w * w + k % w;
    if k / w > h {
      Multiples(h, k / w, w);
      assert false;
    }
  }

  lemma NumberBack(w: nat, h: nat, k: nat)
    requires k < w * h
    ensures Number(w, h, Column(w, h, k), Row(w, h, k)) == k
  {
    assert k == k / w * w + k % w;
  }

  lemma PlaceBack(w: nat, h: nat, i: nat, j: nat)
    requires i < w && j < h
    ensures Column(w, h, Number(w, h, i, j)) == i && Row(w, h, Number(w, h, i, j)) == j
  {
    Divides(j, i, w);
  }

  lemma Area(o: Operation, nx: nat, ny: nat)
    ensures Width(o, nx, ny) * Height(o, nx, ny) == nx * ny
  {
  }

  /** The pixel in column `i` of row `j`. */
  function Pix<T>(s: seq<T>, w: nat, h: nat, i: nat, j: nat): T
    requires |s| == w * h && i < w && j < h
  {
    s[Number(w, h, i, j)]
  }

  /** The number of the input pixel that goes to output pixel `k`. */
  function Source(o: Operation, nx: nat, ny: nat, k: nat): (r: nat)
    requires k < nx * ny
    ensures r < nx * ny
  {
    var w, h := Width(o, nx, ny), Height(o, nx, ny);
    Area(o, nx, ny);
    var (x, y) := From(o, nx, ny, Column(w, h, k), Row(w, h, k));
    Number(nx, ny, x, y)
  }

  lemma SourceAt(o: Operation, nx: nat, ny: nat, i: nat, j: nat)
    requires i < Width(o, nx, ny) && j < Height(o, nx, ny)
    ensures var k := Number(Width(o, nx, ny), Height(o, nx, ny), i, j);
      var (x, y) := From(o, nx, ny, i, j);
      k < nx * ny && Source(o, nx, ny, k) == Number(nx, ny, x, y)
  {
    Area(o, nx, ny);
    PlaceBack(Width(o, nx, ny), Height(o, nx, ny), i, j);
  }

  /** What an operation makes of a raster. */
  function Applied<T>(o: Operation, s: seq<T>, nx: nat, ny: nat): (r: seq<T>)
    requires |s| == nx * ny
    ensures |r| == nx * ny
  {
    seq(nx * ny, k requires 0 <= k < nx * ny => s[Source(o, nx, ny, k)])
  }

  lemma AppliedAt<T>(o: Operation, s: seq<T>, nx: nat, ny: nat, i: nat, j: nat)
    requires |s| == nx * ny && i < Width(o, nx, ny) && j < Height(o, nx, ny)
    ensures var (x, y) := From(o, nx, ny, i, j);
      |Applied(o, s, nx, ny)| == Width(o, nx, ny) * Height(o, nx, ny)
      && Pix(Applied(o, s, nx, ny), Width(o, nx, ny), Height(o, nx, ny), i, j) == Pix(s, nx, ny, x, y)
  {
    Area(o, nx, ny);
    SourceAt(o, nx, ny, i, j);
  }

  /** Output pixel `to` is input pixel `from`. */
  ghost predicate Takes<T>(out: seq<T>, s: seq<T>, to: int, from: int) {
    0 <= to < |out| && 0 <= from < |s| && out[to] == s[from]
  }

  /** Where the operations take column `x` of row `y` of the output from, or where, for the
      transpositions, column `x` of row `y` of the input goes. */
  ghost predicate Moved<T>(o: Operation, s: seq<T>, out: seq<T>, nx: nat, ny: nat, x: nat, y: nat) {
    match o
    case FlipX => Takes(out, s, y * nx + x, y * nx + (nx - 1 - x))
    case FlipY => Takes(out, s, y * nx + x, (ny - 1 - y) * nx + x)
    case Transpose1 => Takes(out, s, x * ny + y, y * nx + x)
    case Transpose2 => Takes(out, s, x * ny + y, (ny - 1 - y) * nx + (nx - 1 - x))
  }

  ghost predicate AllMoved<T>(o: Operation, s: seq<T>, out: seq<T>, nx: nat, ny: nat) {
    |out| == |s| == nx * ny && forall x: nat, y: nat :: x < nx && y < ny ==> Moved(o, s, out, nx, ny, x, y)
  }

  /** Every operation, pixel by pixel. */
  lemma AppliedMoves<T>(o: Operation, s: seq<T>, nx: nat, ny: nat, x: nat, y: nat)
    requires |s| == nx * ny && x < nx && y < ny
    ensures Moved(o, s, Applied(o, s, nx, ny), nx, ny, x, y)
  {
    if o.Exchanges() {
      AppliedAt(o, s, nx, ny, y, x);
    } else {
      AppliedAt(o, s, nx, ny, x, y);
    }
  }

  lemma AppliedMovesAll<T>(o: Operation, s: seq<T>, nx: nat, ny: nat)
    requires |s| == nx * ny
    ensures AllMoved(o, s, Applied(o, s, nx, ny), nx, ny)
  {
    forall x: nat, y: nat | x < nx && y < ny ensures Moved(o, s, Applied(o, s, nx, ny), nx, ny, x, y) {
      AppliedMoves(o, s, nx, ny, x, y);
    }
  }

  /** Rasters with the same pixels are the same. */
  lemma SamePixels<T>(a: seq<T>, b: seq<T>, w: nat, h: nat)
    requires |a| == |b| == w * h
    requires forall i, j :: 0 <= i < w && 0 <= j < h ==> Pix(a, w, h, i, j) == Pix(b, w, h, i, j)
    ensures a == b
  {
    forall k | 0 <= k < |a| ensures a[k] == b[k] {
      NumberBack(w, h, k);
      assert Pix(a, w, h, Column(w, h, k), Row(w, h, k)) == Pix(b, w, h, Column(w, h, k), Row(w, h, k));
    }
  }

  /** Every operation undoes itself; the transpositions with the dimensions exchanged. */
  lemma UndoesItself<T>(o: Operation, s: seq<T>, nx: nat, ny: nat)
    requires |s| == nx * ny
    ensures Applied(o, Applied(o, s, nx, ny), Width(o, nx, ny), Height(o, nx, ny)) == s
  {
    var w, h := Width(o, nx, ny), Height(o, nx, ny);
    var once := Applied(o, s, nx, ny);
    var twice := Applied(o, once, w, h);
    forall i, j | 0 <= i < nx && 0 <= j < ny ensures Pix(twice, nx, ny, i, j) == Pix(s, nx, ny, i, j) {
      AppliedAt(o, once, w, h, i, j);
      var (x, y) := From(o, w, h, i, j);
      AppliedAt(o, s, nx, ny, x, y);
    }
    SamePixels(twice, s, nx, ny);
  }

  /** The second transposition is the first one followed by both flips. */
  lemma SecondDiagonal<T>(s: seq<T>, nx: nat, ny: nat)
    requires |s| == nx * ny
    ensures Applied(Transpose2, s, nx, ny)
         == Applied(FlipY, Applied(FlipX, Applied(Transpose1, s, nx, ny), ny, nx), ny, nx)
  {
    var t := Applied(Transpose1, s, nx, ny);
    var tx := Applied(FlipX, t, ny, nx);
    var txy := Applied(FlipY, tx, ny, nx);
    forall i, j | 0 <= i < ny && 0 <= j < nx
      ensures Pix(txy, ny, nx, i, j) == Pix(Applied(Transpose2, s, nx, ny), ny, nx, i, j) {
      AppliedAt(FlipY, tx, ny, nx, i, j);
      AppliedAt(FlipX, t, ny, nx, i, nx - 1 - j);
      AppliedAt(Transpose1, s, nx, ny, ny - 1 - i, nx - 1 - j);
      AppliedAt(Transpose2, s, nx, ny, i, j);
    }
    SamePixels(txy, Applied(Transpose2, s, nx, ny), ny, nx);
  }

  /** The flips commute. */
  lemma FlipsCommute<T>(s: seq<T>, nx: nat, ny: nat)
    requires |s| == nx * ny
    ensures Applied(FlipX, Applied(FlipY, s, nx, ny), nx, ny) == Applied(FlipY, Applied(FlipX, s, nx, ny), nx, ny)
  {
    var a, b := Applied(FlipY, s, nx, ny), Applied(FlipX, s, nx, ny);
    var ab, ba := Applied(FlipX, a, nx, ny), Applied(FlipY, b, nx, ny);
    forall i, j | 0 <= i < nx && 0 <= j < ny ensures Pix(ab, nx, ny, i, j) == Pix(ba, nx, ny, i, j) {
      AppliedAt(FlipX, a, nx, ny, i, j);
      AppliedAt(FlipY, s, nx, ny, nx - 1 - i, j);
      AppliedAt(FlipY, b, nx, ny, i, j);
      AppliedAt(FlipX, s, nx, ny, i, ny - 1 - j);
    }
    SamePixels(ab, ba, nx, ny);
  }

  // ----- the loops -----

  /** The first `n` output pixels are written. */
  ghost predicate Written<T>(o: Operation, s: seq<T>, out: seq<T>, nx: nat, ny: nat, n: nat) {
    && |s| == |out| == nx * ny && n <= nx * ny
    && forall k :: 0 <= k < n ==> out[k] == s[Source(o, nx, ny, k)]
  }

  /** Stores the output pixel in column `i` of row `j`, which is input pixel `ip`. */
  method Store<T>(input: array<T>, output: array<T>, op: nat, ip: nat, ghost o: Operation, ghost nx: nat,
                  ghost ny: nat, ghost i: nat, ghost j: nat)
    requires input != output && i < Width(o, nx, ny) && j < Height(o, nx, ny) && op == j * Width(o, nx, ny) + i
    requires Written(o, input[..], output[..], nx, ny, op)
    requires ip == (var (x, y) := From(o, nx, ny, i, j); Number(nx, ny, x, y))
    modifies output
    ensures Written(o, input[..], output[..], nx, ny, op + 1)
  {
    SourceAt(o, nx, ny, i, j);
    output[op] := input[ip];
  }

  lemma Finished<T>(o: Operation, s: seq<T>, out: seq<T>, nx: nat, ny: nat, n: nat)
    requires Written(o, s, out, nx, ny, n) && n == Height(o, nx, ny) * Width(o, nx, ny)
    ensures out == Applied(o, s, nx, ny)
  {
  }

  /** `flipx`. */
  method FlipXAxis<T>(input: array<T>, output: array<T>, nx: nat, ny: nat)
    requires input != output && input.Length == output.Length == nx * ny
    modifies output
    ensures output[..] == Applied(FlipX, input[..], nx, ny) && AllMoved(FlipX, input[..], output[..], nx, ny)
  {
    var op := 0;
    ghost var s := input[..];
    var y := 0;
    while y < ny
      invariant 0 <= y <= ny && op == y * nx && Written(FlipX, s, output[..], nx, ny, op)
    {
      ghost var row := op;
      var x := nx;
      while x > 0
        invariant 0 <= x <= nx && op == row + nx - x && Written(FlipX, s, output[..], nx, ny, op)
      {
        Store(input, output, op, y * nx + x - 1, FlipX, nx, ny, nx - x, y);
        op := op + 1;
        x := x - 1;
      }
      NextMultiple(y, nx);
      y := y + 1;
    }
    Finished(FlipX, s, output[..], nx, ny, op);
    AppliedMovesAll(FlipX, s, nx, ny);
  }

  /** `flipy`. */
  method FlipYAxis<T>(input: array<T>, output: array<T>, nx: nat, ny: nat)
    requires input != output && input.Length == output.Length == nx * ny
    modifies output
    ensures output[..] == Applied(FlipY, input[..], nx, ny) && AllMoved(FlipY, input[..], output[..], nx, ny)
  {
    var op := 0;
    ghost var s := input[..];
    var y := ny - 1;
    while y >= 0
      invariant -1 <= y < ny && op == (ny - 1 - y) * nx && Written(FlipY, s, output[..], nx, ny, op)
    {
      ghost var row := op;
      var x := 0;
      while x < nx
        invariant 0 <= x <= nx && op == row + x && Written(FlipY, s, output[..], nx, ny, op)
      {
        Store(input, output, op, y * nx + x, FlipY, nx, ny, x, ny - 1 - y);
        op := op + 1;
        x := x + 1;
      }
      NextMultiple(ny - 1 - y, nx);
      y := y - 1;
    }
    Finished(FlipY, s, output[..], nx, ny, op);
    AppliedMovesAll(FlipY, s, nx, ny);
  }

  /** `transpose1`, for pixels of one and of four bytes. */
  method TransposeMain<T>(input: array<T>, output: array<T>, nx: nat, ny: nat)
    requires input != output && input.Length == output.Length == nx * ny
    modifies output
    ensures output[..] == Applied(Transpose1, input[..], nx, ny) && AllMoved(Transpose1, input[..], output[..], nx, ny)
  {
    var op := 0;
    ghost var s := input[..];
    var x := 0;
    while x < nx
      invariant 0 <= x <= nx && op == x * ny && Written(Transpose1, s, output[..], nx, ny, op)
    {
      ghost var row := op;
      var y := 0;
      while y < ny
        invariant 0 <= y <= ny && op == row + y && Written(Transpose1, s, output[..], nx, ny, op)
      {
        Store(input, output, op, y * nx + x, Transpose1, nx, ny, y, x);
        op := op + 1;
        y := y + 1;
      }
      NextMultiple(x, ny);
      x := x + 1;
    }
    Finished(Transpose1, s, output[..], nx, ny, op);
    AppliedMovesAll(Transpose1, s, nx, ny);
  }

  /** `transpose2`. */
  method TransposeSecond<T>(input: array<T>, output: array<T>, nx: nat, ny: nat)
    requires input != output && input.Length == output.Length == nx * ny
    modifies output
    ensures output[..] == Applied(Transpose2, input[..], nx, ny) && AllMoved(Transpose2, input[..], output[..], nx, ny)
  {
    var op := 0;
    ghost var s := input[..];
    var x := 0;
    while x < nx
      invariant 0 <= x <= nx && op == x * ny && Written(Transpose2, s, output[..], nx, ny, op)
    {
      ghost var row := op;
      var y := ny;
      while y > 0
        invariant 0 <= y <= ny && op == row + ny - y && Written(Transpose2, s, output[..], nx, ny, op)
      {
        NextMultiple(y - 1, nx);
        Store(input, output, op, y * nx - x - 1, Transpose2, nx, ny, ny - y, x);
        op := op + 1;
        y := y - 1;
      }
      NextMultiple(x, ny);
      x := x + 1;
    }
    Finished(Transpose2, s, output[..], nx, ny, op);
    AppliedMovesAll(Transpose2, s, nx, ny);
  }
}
