/** The sparse bilinear motion operator: a per-pixel displacement field becomes
    an (Nx*Ny)-by-(Nx*Ny) interpolation matrix (get_sparse_motion_matrix), and
    the matrix, or its transpose, warps a complex image with a coverage
    normalisation (apply_sparse_motion). Arithmetic is exact (`real`). */
module MotionComp {
  import opened Common

  // ---------------------------------------------------------------------------
  // Data model
  // ---------------------------------------------------------------------------

  /** Displacement of one source pixel: flow_field[x, y, 0] and flow_field[x, y, 1]. */
  datatype Disp = Disp(ux: real, uy: real)

  /** One stored entry of a sparse matrix row. */
  datatype Entry = Entry(col: int, w: real)

  /** The stored entries of one row, in the order they were first written. */
  type Row = seq<Entry>

  /** A square sparse matrix: one row of stored entries per row index. */
  type Matrix = seq<Row>

  /** Every stored column lies inside the square matrix. */
  predicate WellFormed(S: Matrix)
  {
    forall i, k :: 0 <= i < |S| && 0 <= k < |S[i]| ==> 0 <= S[i][k].col < |S|
  }

  predicate NonNegative(S: Matrix)
  {
    forall i, k :: 0 <= i < |S| && 0 <= k < |S[i]| ==> 0.0 <= S[i][k].w
  }

  /** The value the matrix holds at column c of a row (0 where nothing is stored). */
  function Weight(row: Row, c: int): real
  {
    if row == [] then 0.0 else if row[0].col == c then row[0].w else Weight(row[1..], c)
  }

  predicate DistinctCols(row: Row)
  {
    forall k, l :: 0 <= k < l < |row| ==> row[k].col != row[l].col
  }

  /** The coefficient a sparse row contributes at column c: the sum of every
      stored entry of that column, so that a column stored twice counts twice,
      as in a product with the row. */
  function Coeff(row: Row, c: int): real
  {
    if row == [] then 0.0
    else (if row[0].col == c then row[0].w else 0.0) + Coeff(row[1..], c)
  }

  // ---------------------------------------------------------------------------
  // Auxiliary functions (motioncomp.py lines 9-25)
  // ---------------------------------------------------------------------------

  /** Clamps a coordinate into [0, n-1]. */
  function BoundIndex(x: int, n: int): (r: int)
    ensures n >= 1 ==> 0 <= r <= n - 1
    ensures 0 <= x <= n - 1 ==> r == x
    ensures x < 0 && n >= 1 ==> r == 0
    ensures x > n - 1 ==> r == n - 1
  {
    var x' := if x < 0 then 0 else x;
    if x' > n - 1 then n - 1 else x'
  }

  /** (x, y) lies in the field of view [0, nx-1] x [0, ny-1]. */
  predicate InFov(x: int, y: int, nx: int, ny: int)
  {
    0 <= x <= nx - 1 && 0 <= y <= ny - 1
  }

  /** Drops a weight whose corner lies outside the field of view. */
  function BoundWeight(w: real, x: int, y: int, nx: int, ny: int): (r: real)
    ensures InFov(x, y, nx, ny) ==> r == w
    ensures !InFov(x, y, nx, ny) ==> r == 0.0
  {
    if x < 0 || x > nx - 1 || y < 0 || y > ny - 1 then 0.0 else w
  }

  /** Column-major linear index of pixel (x, y). */
  function LinIndex(x: int, y: int, nx: int): int
  {
    x + nx * y
  }

  /** The pixel a linear index stands for: the inverse of LinIndex. */
  function PixelX(i: int, nx: int): int
    requires nx > 0
  {
    i % nx
  }

  function PixelY(i: int, nx: int): int
    requires nx > 0
  {
    i / nx
  }

  lemma LinIndexInjective(x: int, y: int, x': int, y': int, nx: int)
    requires 0 <= x < nx && 0 <= x' < nx
    requires LinIndex(x, y, nx) == LinIndex(x', y', nx)
    ensures x == x' && y == y'
  {
    assert nx * (y - y') == x' - x by {
      assert nx * (y - y') == nx * y - nx * y';
    }
    SmallMultiple(nx, y - y');
  }

  /** LinIndex maps [0, nx) x [0, ny) into [0, nx*ny), and PixelX, PixelY undo it. */
  lemma LinIndexToPixel(x: int, y: int, nx: int, ny: int)
    requires 0 <= x < nx && 0 <= y < ny
    ensures 0 <= LinIndex(x, y, nx) < nx * ny
    ensures PixelX(LinIndex(x, y, nx), nx) == x && PixelY(LinIndex(x, y, nx), nx) == y
  {
    var i := x + nx * y;
    MulLe(nx, y + 1, ny);
    assert nx * (y + 1) == nx * y + nx;
    var q, r := i / nx, i % nx;
    assert i == r + nx * q;
    LinIndexInjective(r, q, x, y, nx);
  }

  /** Every index of [0, nx*ny) is the LinIndex of a pixel of [0, nx) x [0, ny). */
  lemma PixelToLinIndex(i: int, nx: int, ny: int)
    requires nx > 0 && 0 <= i < nx * ny
    ensures 0 <= PixelX(i, nx) < nx && 0 <= PixelY(i, nx) < ny
    ensures LinIndex(PixelX(i, nx), PixelY(i, nx), nx) == i
  {
    var q := i / nx;
    assert nx * q <= i;
    assert nx * (ny - q) == nx * ny - nx * q;
    MulPosCancel(nx, ny - q);
  }

  // ---------------------------------------------------------------------------
  // Column-major (Fortran-order) flattening, motioncomp.py lines 91 and 101
  // ---------------------------------------------------------------------------

  /** The first k lines y = 0 .. k-1 of a grid, each contributing its nx
      pixels in order of x. */
  function FlattenLines<T>(g: seq<seq<T>>, nx: nat, ny: nat, k: nat): (r: seq<T>)
    requires IsGrid(g, nx, ny) && k <= ny
    ensures |r| == nx * k
    decreases k
  {
    if k == 0 then []
    else
      assert nx * k == nx * (k - 1) + nx;
      FlattenLines(g, nx, ny, k - 1) + seq(nx, x requires 0 <= x < nx => g[x][k - 1])
  }

  /** `np.reshape(g, (nx*ny,), order='F')`. */
  function Flatten<T>(g: seq<seq<T>>, nx: nat, ny: nat): (r: seq<T>)
    requires IsGrid(g, nx, ny)
    ensures |r| == nx * ny
  {
    FlattenLines(g, nx, ny, ny)
  }

  lemma {:induction false} FlattenLinesAt<T>(g: seq<seq<T>>, nx: nat, ny: nat, k: nat, x: int, y: int)
    requires IsGrid(g, nx, ny) && k <= ny && 0 <= x < nx && 0 <= y < k
    ensures 0 <= LinIndex(x, y, nx) < nx * k
    ensures FlattenLines(g, nx, ny, k)[LinIndex(x, y, nx)] == g[x][y]
    decreases k
  {
    LinIndexToPixel(x, y, nx, k);
    if y < k - 1 {
      FlattenLinesAt(g, nx, ny, k - 1, x, y);
    } else {
      assert nx * k == nx * (k - 1) + nx;
    }
  }

  /** Element x + nx*y of the flattened grid is g[x][y]. */
  lemma FlattenAt<T>(g: seq<seq<T>>, nx: nat, ny: nat, x: int, y: int)
    requires IsGrid(g, nx, ny) && 0 <= x < nx && 0 <= y < ny
    ensures 0 <= LinIndex(x, y, nx) < nx * ny
    ensures Flatten(g, nx, ny)[LinIndex(x, y, nx)] == g[x][y]
  {
    FlattenLinesAt(g, nx, ny, ny, x, y);
  }

  function UnflattenAt<T>(v: seq<T>, nx: nat, ny: nat, x: int, y: int): T
    requires |v| == nx * ny && 0 <= x < nx && 0 <= y < ny
  {
    LinIndexToPixel(x, y, nx, ny);
    v[LinIndex(x, y, nx)]
  }

  /** `np.reshape(v, (nx, ny), order='F')`. */
  function Unflatten<T>(v: seq<T>, nx: nat, ny: nat): (g: seq<seq<T>>)
    requires |v| == nx * ny
    ensures IsGrid(g, nx, ny)
  {
    seq(nx, x requires 0 <= x < nx =>
      seq(ny, y requires 0 <= y < ny => UnflattenAt(v, nx, ny, x, y)))
  }

  /** The two reshapes are inverse to each other. */
  lemma UnflattenFlatten<T>(g: seq<seq<T>>, nx: nat, ny: nat)
    requires IsGrid(g, nx, ny)
    ensures Unflatten(Flatten(g, nx, ny), nx, ny) == g
  {
    var h := Unflatten(Flatten(g, nx, ny), nx, ny);
    forall x | 0 <= x < nx
      ensures h[x] == g[x]
    {
      forall y | 0 <= y < ny
        ensures h[x][y] == g[x][y]
      {
        FlattenAt(g, nx, ny, x, y);
      }
    }
  }

  lemma FlattenUnflatten<T>(v: seq<T>, nx: nat, ny: nat)
    requires |v| == nx * ny
    ensures Flatten(Unflatten(v, nx, ny), nx, ny) == v
  {
    var g := Unflatten(v, nx, ny);
    forall i | 0 <= i < nx * ny
      ensures Flatten(g, nx, ny)[i] == v[i]
    {
      PixelToLinIndex(i, nx, ny);
      FlattenAt(g, nx, ny, PixelX(i, nx), PixelY(i, nx));
    }
  }

  // ---------------------------------------------------------------------------
  // Building the matrix (motioncomp.py lines 34-78)
  // ---------------------------------------------------------------------------

  /** `sparse_mot[li, c] = w` restricted to row li: overwrites the entry of
      column c if the row stores one, and otherwise stores a new entry. */
  function Put(row: Row, c: int, w: real): (r: Row)
    ensures Weight(r, c) == w
    ensures forall d :: d != c ==> Weight(r, d) == Weight(row, d)
    ensures (forall k :: 0 <= k < |row| ==> row[k].col != c) ==> r == row + [Entry(c, w)]
  {
    if row == [] then [Entry(c, w)]
    else if row[0].col == c then [Entry(c, w)] + row[1..]
    else [row[0]] + Put(row[1..], c, w)
  }

  /** `if w != 0: sparse_mot[li, c] = w`. */
  function PutNonZero(row: Row, c: int, w: real): Row
  {
    if w != 0.0 then Put(row, c, w) else row
  }

  /** The lower-left lattice corner (x1, y1) of the displaced position of pixel
      (x, y); the other corners are (x1 + 1, y1), (x1, y1 + 1), (x1 + 1, y1 + 1). */
  function CornerX(x: int, d: Disp): int { (x as real + d.ux).Floor }
  function CornerY(y: int, d: Disp): int { (y as real + d.uy).Floor }

  /** The fractional parts wx, wy of the displacement (lines 51-52). */
  function FracX(d: Disp): real { d.ux - d.ux.Floor as real }
  function FracY(d: Disp): real { d.uy - d.uy.Floor as real }

  /** The two corner ordinates per axis as the source computes them, and the
      identity x2 == x1 + 1 that makes the corners distinct. */
  lemma CornerFacts(x: int, y: int, d: Disp)
    ensures (x as real + d.ux + 1.0).Floor == CornerX(x, d) + 1
    ensures (y as real + d.uy + 1.0).Floor == CornerY(y, d) + 1
    ensures 0.0 <= FracX(d) < 1.0 && 0.0 <= FracY(d) < 1.0
  {
  }

  /** The four candidate writes of one pixel: the clamped corner columns and
      their bounded weights, in the order lines 69-76 perform them. */
  datatype Writes = Writes(c11: int, w11: real, c12: int, w12: real,
                           c21: int, w21: real, c22: int, w22: real)

  /** The bilinear weights of the four corners (lines 53-56 before the
      out-of-view test). */
  function W11(d: Disp): real { (1.0 - FracX(d)) * (1.0 - FracY(d)) }
  function W12(d: Disp): real { (1.0 - FracX(d)) * FracY(d) }
  function W21(d: Disp): real { FracX(d) * (1.0 - FracY(d)) }
  function W22(d: Disp): real { FracX(d) * FracY(d) }

  /** Lines 44-67 for pixel (x, y) with displacement d. */
  function PixelWrites(d: Disp, x: int, y: int, nx: int, ny: int): Writes
  {
    var y1 := (y as real + d.uy).Floor;
    var y2 := (y as real + d.uy + 1.0).Floor;
    var x1 := (x as real + d.ux).Floor;
    var x2 := (x as real + d.ux + 1.0).Floor;
    Writes(LinIndex(BoundIndex(x1, nx), BoundIndex(y1, ny), nx), BoundWeight(W11(d), x1, y1, nx, ny),
           LinIndex(BoundIndex(x1, nx), BoundIndex(y2, ny), nx), BoundWeight(W12(d), x1, y2, nx, ny),
           LinIndex(BoundIndex(x2, nx), BoundIndex(y1, ny), nx), BoundWeight(W21(d), x2, y1, nx, ny),
           LinIndex(BoundIndex(x2, nx), BoundIndex(y2, ny), nx), BoundWeight(W22(d), x2, y2, nx, ny))
  }

  /** Lines 69-76 on an empty row. */
  function ApplyWrites(ws: Writes): Row
  {
    PutNonZero(PutNonZero(PutNonZero(PutNonZero([], ws.c11, ws.w11), ws.c12, ws.w12), ws.c21, ws.w21), ws.c22, ws.w22)
  }

  /** Row `x + nx*y` of the matrix: the nonzero bounded bilinear weights of
      pixel (x, y) written at their clamped corner columns. */
  function PixelRow(d: Disp, x: int, y: int, nx: int, ny: int): Row
  {
    ApplyWrites(PixelWrites(d, x, y, nx, ny))
  }

  /** The row each pixel writes, as an nx-by-ny grid. */
  function PixelRows(field: seq<seq<Disp>>, nx: nat, ny: nat): (g: seq<seq<Row>>)
    requires IsGrid(field, nx, ny)
    ensures IsGrid(g, nx, ny)
  {
    seq(nx, x requires 0 <= x < nx =>
      seq(ny, y requires 0 <= y < ny => PixelRow(field[x][y], x, y, nx, ny)))
  }

  /** The matrix get_sparse_motion_matrix returns for an nx-by-ny field: row
      LinIndex(x, y) is the row pixel (x, y) writes. */
  function MotionMatrix(field: seq<seq<Disp>>, nx: nat, ny: nat): (S: Matrix)
    requires IsGrid(field, nx, ny)
    ensures |S| == nx * ny
  {
    Flatten(PixelRows(field, nx, ny), nx, ny)
  }

  lemma MotionMatrixRow(field: seq<seq<Disp>>, nx: nat, ny: nat, x: int, y: int)
    requires IsGrid(field, nx, ny) && 0 <= x < nx && 0 <= y < ny
    ensures 0 <= LinIndex(x, y, nx) < nx * ny
    ensures MotionMatrix(field, nx, ny)[LinIndex(x, y, nx)] == PixelRow(field[x][y], x, y, nx, ny)
  {
    FlattenAt(PixelRows(field, nx, ny), nx, ny, x, y);
  }

  /** get_sparse_motion_matrix: the nested loops visit the pixels in increasing
      linear index and write the entries of each row in place. */
  method BuildMotionMatrix(field: seq<seq<Disp>>, nx: nat, ny: nat) returns (m: Matrix)
    requires IsGrid(field, nx, ny)
    ensures m == MotionMatrix(field, nx, ny)
  {
    m := seq(nx * ny, _ => []);
    if nx == 0 {
      return;
    }
    var y := 0;
    var done := 0;  // nx * y: the rows written so far
    while y < ny
      invariant 0 <= y <= ny && done == nx * y <= nx * ny
      invariant |m| == nx * ny
      invariant forall i :: 0 <= i < done ==> m[i] == MotionMatrix(field, nx, ny)[i]
      invariant forall i :: done <= i < nx * ny ==> m[i] == []
    {
      MulLe(nx, y + 1, ny);
      m := WriteLine(m, field, nx, ny, y, done);
      y, done := y + 1, done + nx;
    }
    SameRows(m, MotionMatrix(field, nx, ny), done);
  }

  lemma SameRows(m: Matrix, S: Matrix, n: nat)
    requires |m| == |S| == n && forall i :: 0 <= i < n ==> m[i] == S[i]
    ensures m == S
  {
  }

  /** The inner loop of lines 41-76: the pixels of line y, whose rows are
      done .. done + nx - 1. */
  method WriteLine(m0: Matrix, field: seq<seq<Disp>>, nx: nat, ny: nat, y: int, done: int) returns (m: Matrix)
    requires IsGrid(field, nx, ny) && 0 <= y < ny && done == nx * y && done + nx <= nx * ny
    requires |m0| == nx * ny
    requires forall i :: 0 <= i < done ==> m0[i] == MotionMatrix(field, nx, ny)[i]
    requires forall i :: done <= i < nx * ny ==> m0[i] == []
    ensures |m| == nx * ny
    ensures forall i :: 0 <= i < done + nx ==> m[i] == MotionMatrix(field, nx, ny)[i]
    ensures forall i :: done + nx <= i < nx * ny ==> m[i] == []
  {
    m := m0;
    var x := 0;
    while x < nx
      invariant 0 <= x <= nx
      invariant |m| == nx * ny
      invariant forall i :: 0 <= i < done + x ==> m[i] == MotionMatrix(field, nx, ny)[i]
      invariant forall i :: done + x <= i < nx * ny ==> m[i] == []
    {
      MotionMatrixRow(field, nx, ny, x, y);
      m := WritePixel(m, field[x][y], x, y, nx, ny);
      x := x + 1;
    }
  }

  /** The body of the two loops: the stencil of pixel (x, y) (lines 43-67)
      and its writes into row `x + nx*y` (lines 69-76), which no earlier pixel
      has written. */
  method WritePixel(m0: Matrix, d: Disp, x: int, y: int, nx: nat, ny: nat) returns (m: Matrix)
    requires 0 <= x < nx && 0 <= y < ny && |m0| == nx * ny
    requires 0 <= LinIndex(x, y, nx) < nx * ny && m0[LinIndex(x, y, nx)] == []
    ensures m == m0[LinIndex(x, y, nx) := PixelRow(d, x, y, nx, ny)]
  {
    m := m0;
    var ws := PixelWrites(d, x, y, nx, ny);
    var li := LinIndex(x, y, nx);
    ghost var r1 := PutNonZero([], ws.c11, ws.w11);
    ghost var r2 := PutNonZero(r1, ws.c12, ws.w12);
    ghost var r3 := PutNonZero(r2, ws.c21, ws.w21);
    if ws.w11 != 0.0 { m := m[li := Put(m[li], ws.c11, ws.w11)]; }
    assert m == m0[li := r1];
    if ws.w12 != 0.0 { m := m[li := Put(m[li], ws.c12, ws.w12)]; }
    assert m == m0[li := r2];
    if ws.w21 != 0.0 { m := m[li := Put(m[li], ws.c21, ws.w21)]; }
    assert m == m0[li := r3];
    if ws.w22 != 0.0 { m := m[li := Put(m[li], ws.c22, ws.w22)]; }
  }


  // ---------------------------------------------------------------------------
  // Properties of the built matrix
  // ---------------------------------------------------------------------------

  lemma MulNonNegReal(a: real, b: real)
    requires 0.0 <= a && 0.0 <= b
    ensures 0.0 <= a * b
  {
  }

  lemma ProductInUnit(a: real, b: real)
    requires 0.0 <= a <= 1.0 && 0.0 <= b <= 1.0
    ensures 0.0 <= a * b <= 1.0
  {
    MulNonNegReal(a, b);
    MulNonNegReal(1.0 - a, b);
    assert b - a * b == (1.0 - a) * b;
  }

  /** The four bilinear weights lie in [0, 1] and sum to exactly 1. */
  lemma BilinearWeights(d: Disp)
    ensures 0.0 <= W11(d) <= 1.0 && 0.0 <= W12(d) <= 1.0
    ensures 0.0 <= W21(d) <= 1.0 && 0.0 <= W22(d) <= 1.0
    ensures W11(d) + W12(d) + W21(d) + W22(d) == 1.0
  {
    CornerFacts(0, 0, d);
    var a, b := FracX(d), FracY(d);
    ProductInUnit(1.0 - a, 1.0 - b);
    ProductInUnit(1.0 - a, b);
    ProductInUnit(a, 1.0 - b);
    ProductInUnit(a, b);
    assert (1.0 - a) * (1.0 - b) + (1.0 - a) * b == 1.0 - a;
    assert a * (1.0 - b) + a * b == a;
  }

  /** Lines 44-67 in terms of the lower-left corner: each candidate write is a
      corner's bounded bilinear weight, and a nonzero one sits at the corner's
      own linear index: clamping never redirects a written weight. */
  lemma PixelWritesCorners(d: Disp, x: int, y: int, nx: int, ny: int)
    ensures var ws, x1, y1 := PixelWrites(d, x, y, nx, ny), CornerX(x, d), CornerY(y, d);
      ws.w11 == BoundWeight(W11(d), x1, y1, nx, ny) &&
      ws.w12 == BoundWeight(W12(d), x1, y1 + 1, nx, ny) &&
      ws.w21 == BoundWeight(W21(d), x1 + 1, y1, nx, ny) &&
      ws.w22 == BoundWeight(W22(d), x1 + 1, y1 + 1, nx, ny) &&
      (ws.w11 != 0.0 ==> InFov(x1, y1, nx, ny) && ws.c11 == LinIndex(x1, y1, nx)) &&
      (ws.w12 != 0.0 ==> InFov(x1, y1 + 1, nx, ny) && ws.c12 == LinIndex(x1, y1 + 1, nx)) &&
      (ws.w21 != 0.0 ==> InFov(x1 + 1, y1, nx, ny) && ws.c21 == LinIndex(x1 + 1, y1, nx)) &&
      (ws.w22 != 0.0 ==> InFov(x1 + 1, y1 + 1, nx, ny) && ws.c22 == LinIndex(x1 + 1, y1 + 1, nx))
  {
    CornerFacts(x, y, d);
  }

  /** The entries a pixel's writes leave, provided the nonzero ones go to
      pairwise different columns: then no write overwrites another. */
  function NonZeroWrites(ws: Writes): Row
  {
    (if ws.w11 != 0.0 then [Entry(ws.c11, ws.w11)] else []) +
    (if ws.w12 != 0.0 then [Entry(ws.c12, ws.w12)] else []) +
    (if ws.w21 != 0.0 then [Entry(ws.c21, ws.w21)] else []) +
    (if ws.w22 != 0.0 then [Entry(ws.c22, ws.w22)] else [])
  }

  predicate CollisionFree(ws: Writes)
  {
    (ws.w11 != 0.0 && ws.w12 != 0.0 ==> ws.c11 != ws.c12) &&
    (ws.w11 != 0.0 && ws.w21 != 0.0 ==> ws.c11 != ws.c21) &&
    (ws.w11 != 0.0 && ws.w22 != 0.0 ==> ws.c11 != ws.c22) &&
    (ws.w12 != 0.0 && ws.w21 != 0.0 ==> ws.c12 != ws.c21) &&
    (ws.w12 != 0.0 && ws.w22 != 0.0 ==> ws.c12 != ws.c22) &&
    (ws.w21 != 0.0 && ws.w22 != 0.0 ==> ws.c21 != ws.c22)
  }

  lemma ApplyCollisionFree(ws: Writes)
    requires CollisionFree(ws)
    ensures ApplyWrites(ws) == NonZeroWrites(ws)
  {
    var e1 := if ws.w11 != 0.0 then [Entry(ws.c11, ws.w11)] else [];
    var e2 := if ws.w12 != 0.0 then [Entry(ws.c12, ws.w12)] else [];
    var e3 := if ws.w21 != 0.0 then [Entry(ws.c21, ws.w21)] else [];
    var e4 := if ws.w22 != 0.0 then [Entry(ws.c22, ws.w22)] else [];
    assert PutNonZero([], ws.c11, ws.w11) == e1;
    PutNonZeroFresh(e1, ws.c12, ws.w12);
    PutNonZeroFresh(e1 + e2, ws.c21, ws.w21);
    PutNonZeroFresh(e1 + e2 + e3, ws.c22, ws.w22);
  }

  /** A nonzero write to a column the row does not store appends an entry. */
  lemma PutNonZeroFresh(row: Row, c: int, w: real)
    requires w != 0.0 ==> forall k :: 0 <= k < |row| ==> row[k].col != c
    ensures PutNonZero(row, c, w) == row + if w != 0.0 then [Entry(c, w)] else []
  {
  }

  /** The four corners of an in-view pixel never share a column. */
  lemma PixelWritesCollisionFree(d: Disp, x: int, y: int, nx: int, ny: int)
    ensures CollisionFree(PixelWrites(d, x, y, nx, ny))
  {
    PixelWritesCorners(d, x, y, nx, ny);
    var ws, x1, y1 := PixelWrites(d, x, y, nx, ny), CornerX(x, d), CornerY(y, d);
    if ws.w11 != 0.0 && ws.w12 != 0.0 && ws.c11 == ws.c12 { LinIndexInjective(x1, y1, x1, y1 + 1, nx); }
    if ws.w11 != 0.0 && ws.w21 != 0.0 && ws.c11 == ws.c21 { LinIndexInjective(x1, y1, x1 + 1, y1, nx); }
    if ws.w11 != 0.0 && ws.w22 != 0.0 && ws.c11 == ws.c22 { LinIndexInjective(x1, y1, x1 + 1, y1 + 1, nx); }
    if ws.w12 != 0.0 && ws.w21 != 0.0 && ws.c12 == ws.c21 { LinIndexInjective(x1, y1 + 1, x1 + 1, y1, nx); }
    if ws.w12 != 0.0 && ws.w22 != 0.0 && ws.c12 == ws.c22 { LinIndexInjective(x1, y1 + 1, x1 + 1, y1 + 1, nx); }
    if ws.w21 != 0.0 && ws.w22 != 0.0 && ws.c21 == ws.c22 { LinIndexInjective(x1 + 1, y1, x1 + 1, y1 + 1, nx); }
  }

  /** A pixel's row holds exactly its nonzero bounded corner weights. */
  lemma PixelRowIsNonZeroWrites(d: Disp, x: int, y: int, nx: int, ny: int)
    ensures PixelRow(d, x, y, nx, ny) == NonZeroWrites(PixelWrites(d, x, y, nx, ny))
  {
    PixelWritesCollisionFree(d, x, y, nx, ny);
    ApplyCollisionFree(PixelWrites(d, x, y, nx, ny));
  }

  /** The sum of the weights a row stores. */
  function RowSum(row: Row): real
  {
    if row == [] then 0.0 else row[0].w + RowSum(row[1..])
  }

  lemma {:induction false} RowSumAppend(a: Row, b: Row)
    ensures RowSum(a + b) == RowSum(a) + RowSum(b)
  {
    if a == [] {
      assert a + b == b;
    } else {
      assert (a + b)[1..] == a[1..] + b;
      RowSumAppend(a[1..], b);
    }
  }

  /** Put never duplicates a column: the row it returns stores c once and
      otherwise the columns it already stored. */
  lemma {:induction false} PutDistinct(row: Row, c: int, w: real)
    requires DistinctCols(row)
    ensures DistinctCols(Put(row, c, w))
    ensures forall k :: 0 <= k < |Put(row, c, w)| ==>
      Put(row, c, w)[k] == Entry(c, w) || Put(row, c, w)[k] in row
  {
    if row != [] && row[0].col != c {
      PutDistinct(row[1..], c, w);
      var r := Put(row, c, w);
      assert r == [row[0]] + Put(row[1..], c, w);
      forall k | 1 <= k < |r|
        ensures r[k].col != row[0].col
      {
        assert r[k] == Entry(c, w) || r[k] in row[1..];
      }
    }
  }

  /** The facts the property lemmas need about one pixel's row. */
  predicate GoodRow(row: Row, n: int)
  {
    |row| <= 4 && DistinctCols(row) &&
    (forall k :: 0 <= k < |row| ==> 0 <= row[k].col < n && 0.0 < row[k].w <= 1.0) &&
    RowSum(row) <= 1.0
  }

  /** The row NonZeroWrites lists: at most four entries whose weights add up
      to the four candidate weights. */
  lemma NonZeroWritesSum(ws: Writes)
    ensures |NonZeroWrites(ws)| <= 4
    ensures RowSum(NonZeroWrites(ws)) == ws.w11 + ws.w12 + ws.w21 + ws.w22
    ensures forall e :: e in NonZeroWrites(ws) ==>
      (e == Entry(ws.c11, ws.w11) && ws.w11 != 0.0) || (e == Entry(ws.c12, ws.w12) && ws.w12 != 0.0) ||
      (e == Entry(ws.c21, ws.w21) && ws.w21 != 0.0) || (e == Entry(ws.c22, ws.w22) && ws.w22 != 0.0)
  {
    var e1 := if ws.w11 != 0.0 then [Entry(ws.c11, ws.w11)] else [];
    var e2 := if ws.w12 != 0.0 then [Entry(ws.c12, ws.w12)] else [];
    var e3 := if ws.w21 != 0.0 then [Entry(ws.c21, ws.w21)] else [];
    var e4 := if ws.w22 != 0.0 then [Entry(ws.c22, ws.w22)] else [];
    assert NonZeroWrites(ws) == e1 + e2 + e3 + e4;
    RowSumAppend(e1, e2);
    RowSumAppend(e1 + e2, e3);
    RowSumAppend(e1 + e2 + e3, e4);
  }

  /** The stores of lines 69-76 never leave two entries for one column. */
  lemma ApplyWritesDistinct(ws: Writes)
    ensures DistinctCols(ApplyWrites(ws))
  {
    var r1 := PutNonZero([], ws.c11, ws.w11);
    var r2 := PutNonZero(r1, ws.c12, ws.w12);
    var r3 := PutNonZero(r2, ws.c21, ws.w21);
    if ws.w12 != 0.0 { PutDistinct(r1, ws.c12, ws.w12); }
    if ws.w21 != 0.0 { PutDistinct(r2, ws.c21, ws.w21); }
    if ws.w22 != 0.0 { PutDistinct(r3, ws.c22, ws.w22); }
  }

  /** Each nonzero candidate of a stencil is a weight in (0, 1] for an in-range
      column, and the four candidates add up to at most 1. */
  predicate GoodWrites(ws: Writes, n: int)
  {
    (ws.w11 != 0.0 ==> 0 <= ws.c11 < n && 0.0 < ws.w11 <= 1.0) &&
    (ws.w12 != 0.0 ==> 0 <= ws.c12 < n && 0.0 < ws.w12 <= 1.0) &&
    (ws.w21 != 0.0 ==> 0 <= ws.c21 < n && 0.0 < ws.w21 <= 1.0) &&
    (ws.w22 != 0.0 ==> 0 <= ws.c22 < n && 0.0 < ws.w22 <= 1.0) &&
    ws.w11 + ws.w12 + ws.w21 + ws.w22 <= 1.0
  }

  lemma GoodWritesRow(ws: Writes, n: int)
    requires GoodWrites(ws, n) && CollisionFree(ws)
    ensures GoodRow(ApplyWrites(ws), n)
    ensures RowSum(ApplyWrites(ws)) == ws.w11 + ws.w12 + ws.w21 + ws.w22
  {
    ApplyCollisionFree(ws);
    ApplyWritesDistinct(ws);
    NonZeroWritesSum(ws);
    var row := ApplyWrites(ws);
    forall k | 0 <= k < |row|
      ensures 0 <= row[k].col < n && 0.0 < row[k].w <= 1.0
    {
      assert row[k] in NonZeroWrites(ws);
    }
  }

  lemma BoundWeightBelow(w: real, x: int, y: int, nx: int, ny: int)
    requires 0.0 <= w <= 1.0
    ensures 0.0 <= BoundWeight(w, x, y, nx, ny) <= w
  {
  }

  lemma PixelWritesGood(d: Disp, x: int, y: int, nx: int, ny: int)
    ensures GoodWrites(PixelWrites(d, x, y, nx, ny), nx * ny)
    ensures var x1, y1 := CornerX(x, d), CornerY(y, d);
      InFov(x1, y1, nx, ny) && InFov(x1 + 1, y1 + 1, nx, ny) ==>
      var ws := PixelWrites(d, x, y, nx, ny); ws.w11 + ws.w12 + ws.w21 + ws.w22 == 1.0
  {
    var ws := PixelWrites(d, x, y, nx, ny);
    var x1, y1 := CornerX(x, d), CornerY(y, d);
    PixelWritesCorners(d, x, y, nx, ny);
    BilinearWeights(d);
    BoundWeightBelow(W11(d), x1, y1, nx, ny);
    BoundWeightBelow(W12(d), x1, y1 + 1, nx, ny);
    BoundWeightBelow(W21(d), x1 + 1, y1, nx, ny);
    BoundWeightBelow(W22(d), x1 + 1, y1 + 1, nx, ny);
    if ws.w11 != 0.0 { LinIndexToPixel(x1, y1, nx, ny); }
    if ws.w12 != 0.0 { LinIndexToPixel(x1, y1 + 1, nx, ny); }
    if ws.w21 != 0.0 { LinIndexToPixel(x1 + 1, y1, nx, ny); }
    if ws.w22 != 0.0 { LinIndexToPixel(x1 + 1, y1 + 1, nx, ny); }
  }

  /** Every row a pixel writes: at most four entries (one per in-view corner),
      at distinct in-range columns, each weight in (0, 1]; its sum is the sum
      of the four bounded bilinear weights, so at most 1, and exactly 1 when
      all four corners are in view. */
  lemma PixelRowProperties(d: Disp, x: int, y: int, nx: int, ny: int)
    ensures GoodRow(PixelRow(d, x, y, nx, ny), nx * ny)
    ensures var ws := PixelWrites(d, x, y, nx, ny);
      RowSum(PixelRow(d, x, y, nx, ny)) == ws.w11 + ws.w12 + ws.w21 + ws.w22
    ensures var x1, y1 := CornerX(x, d), CornerY(y, d);
      InFov(x1, y1, nx, ny) && InFov(x1 + 1, y1 + 1, nx, ny) ==> RowSum(PixelRow(d, x, y, nx, ny)) == 1.0
  {
    PixelWritesGood(d, x, y, nx, ny);
    PixelWritesCollisionFree(d, x, y, nx, ny);
    GoodWritesRow(PixelWrites(d, x, y, nx, ny), nx * ny);
  }

  /** The whole matrix: in-range columns, non-negative weights, and every row
      with at most four distinct columns and a sum in [0, 1]. */
  lemma MotionMatrixProperties(field: seq<seq<Disp>>, nx: nat, ny: nat)
    requires IsGrid(field, nx, ny)
    ensures var S := MotionMatrix(field, nx, ny);
      WellFormed(S) && NonNegative(S) &&
      forall i :: 0 <= i < |S| ==> GoodRow(S[i], |S|)
  {
    var S := MotionMatrix(field, nx, ny);
    forall i | 0 <= i < |S|
      ensures GoodRow(S[i], |S|)
    {
      PixelToLinIndex(i, nx, ny);
      var x, y := PixelX(i, nx), PixelY(i, nx);
      MotionMatrixRow(field, nx, ny, x, y);
      PixelRowProperties(field[x][y], x, y, nx, ny);
    }
  }

  /** A pixel whose displaced position lies more than one pixel outside the
      field of view (as the (-10, -10) pixel of the example field does) writes
      nothing: its row is empty. */
  lemma PixelRowOutOfView(d: Disp, x: int, y: int, nx: int, ny: int)
    requires var px, py := x as real + d.ux, y as real + d.uy;
      px < -1.0 || px >= nx as real || py < -1.0 || py >= ny as real
    ensures PixelRow(d, x, y, nx, ny) == []
  {
    PixelWritesCorners(d, x, y, nx, ny);
  }

  /** The n-by-n identity. */
  function Identity(n: nat): (S: Matrix)
    ensures |S| == n
  {
    seq(n, i => [Entry(i, 1.0)])
  }

  predicate IsZeroField(field: seq<seq<Disp>>, nx: nat, ny: nat)
    requires IsGrid(field, nx, ny)
  {
    forall x, y :: 0 <= x < nx && 0 <= y < ny ==> field[x][y] == Disp(0.0, 0.0)
  }

  lemma StillPixelRow(x: int, y: int, nx: int, ny: int)
    requires 0 <= x < nx && 0 <= y < ny
    ensures PixelRow(Disp(0.0, 0.0), x, y, nx, ny) == [Entry(LinIndex(x, y, nx), 1.0)]
  {
    var d := Disp(0.0, 0.0);
    assert FracX(d) == 0.0 && FracY(d) == 0.0;
    assert W11(d) == 1.0 && W12(d) == 0.0 && W21(d) == 0.0 && W22(d) == 0.0;
    assert CornerX(x, d) == x && CornerY(y, d) == y;
    PixelWritesCorners(d, x, y, nx, ny);
    var ws := PixelWrites(d, x, y, nx, ny);
    assert ws.w11 == 1.0 && ws.w12 == 0.0 && ws.w21 == 0.0 && ws.w22 == 0.0;
  }

  /** A field without motion gives the identity matrix. */
  lemma ZeroFieldIdentity(field: seq<seq<Disp>>, nx: nat, ny: nat)
    requires IsGrid(field, nx, ny) && IsZeroField(field, nx, ny)
    ensures MotionMatrix(field, nx, ny) == Identity(nx * ny)
  {
    var S := MotionMatrix(field, nx, ny);
    forall i | 0 <= i < nx * ny
      ensures S[i] == [Entry(i, 1.0)]
    {
      PixelToLinIndex(i, nx, ny);
      var x, y := PixelX(i, nx), PixelY(i, nx);
      MotionMatrixRow(field, nx, ny, x, y);
      StillPixelRow(x, y, nx, ny);
    }
  }

  // ---------------------------------------------------------------------------
  // Products with the matrix and its transpose
  // ---------------------------------------------------------------------------

  /** Row i of `spr_mat * v`: the stored weights times the entries of v. */
  function RowDot(row: Row, v: seq<real>): real
    requires forall k :: 0 <= k < |row| ==> 0 <= row[k].col < |v|
  {
    if row == [] then 0.0 else row[0].w * v[row[0].col] + RowDot(row[1..], v)
  }

  /** `spr_mat * v` for a column vector v. */
  function MatVec(S: Matrix, v: seq<real>): (r: seq<real>)
    requires WellFormed(S) && |v| == |S|
    ensures |r| == |S|
  {
    seq(|S|, i requires 0 <= i < |S| => RowDot(S[i], v))
  }

  /** `spr_mat.transpose()`: row j holds, for every i, the coefficient of
      row i at column j, all entries of that column summed (zeros included,
      which no product can tell apart from an absent entry). */
  function Transpose(S: Matrix): (T: Matrix)
    ensures |T| == |S| && WellFormed(T)
    ensures forall j :: 0 <= j < |T| ==> DistinctCols(T[j])
  {
    seq(|S|, j => seq(|S|, i requires 0 <= i < |S| => Entry(i, Coeff(S[i], j))))
  }

  /** A row that stores each column once holds its stored weight as the
      coefficient of that column. */
  lemma {:induction false} CoeffIsWeight(row: Row, c: int)
    requires DistinctCols(row)
    ensures Coeff(row, c) == Weight(row, c)
  {
    if row != [] {
      CoeffIsWeight(row[1..], c);
      if row[0].col == c {
        CoeffAbsent(row[1..], c);
      }
    }
  }

  lemma {:induction false} CoeffAbsent(row: Row, c: int)
    requires forall k :: 0 <= k < |row| ==> row[k].col != c
    ensures Coeff(row, c) == 0.0
  {
    if row != [] {
      CoeffAbsent(row[1..], c);
    }
  }

  lemma {:induction false} CoeffNonNegative(row: Row, c: int)
    requires forall k :: 0 <= k < |row| ==> 0.0 <= row[k].w
    ensures 0.0 <= Coeff(row, c)
  {
    if row != [] {
      CoeffNonNegative(row[1..], c);
    }
  }

  lemma {:induction false} WeightAt(row: Row, k: int)
    requires DistinctCols(row) && 0 <= k < |row|
    ensures Weight(row, row[k].col) == row[k].w
  {
    if k > 0 {
      assert row[1..][k - 1] == row[k];
      WeightAt(row[1..], k - 1);
    }
  }

  /** Entry (j, i) of the transpose is the coefficient (i, j) of the matrix,
      which is its stored entry when row i stores each column once; the
      transpose of a non-negative matrix is non-negative. */
  lemma TransposeWeight(S: Matrix, i: int, j: int)
    requires 0 <= i < |S| && 0 <= j < |S|
    ensures Weight(Transpose(S)[j], i) == Coeff(S[i], j)
    ensures DistinctCols(S[i]) ==> Weight(Transpose(S)[j], i) == Weight(S[i], j)
  {
    WeightAt(Transpose(S)[j], i);
    if DistinctCols(S[i]) {
      CoeffIsWeight(S[i], j);
    }
  }

  lemma TransposeNonNegative(S: Matrix)
    requires NonNegative(S)
    ensures NonNegative(Transpose(S))
  {
    forall i, j | 0 <= i < |S| && 0 <= j < |S| ensures 0.0 <= Coeff(S[i], j) {
      CoeffNonNegative(S[i], j);
    }
  }

  /** The product with a constant vector is that constant times the row sum. */
  lemma {:induction false} RowDotConstant(row: Row, v: seq<real>, a: real)
    requires forall k :: 0 <= k < |row| ==> 0 <= row[k].col < |v|
    requires forall k :: 0 <= k < |v| ==> v[k] == a
    ensures RowDot(row, v) == a * RowSum(row)
  {
    if row != [] {
      RowDotConstant(row[1..], v, a);
      assert a * RowSum(row) == a * row[0].w + a * RowSum(row[1..]);
    }
  }

  /** A row of non-negative weights summing to 0 annihilates every vector. */
  lemma {:induction false} RowDotNoCoverage(row: Row, v: seq<real>)
    requires forall k :: 0 <= k < |row| ==> 0 <= row[k].col < |v| && 0.0 <= row[k].w
    requires RowSum(row) == 0.0
    ensures RowDot(row, v) == 0.0
  {
    if row != [] {
      RowSumNonNegative(row[1..]);
      RowDotNoCoverage(row[1..], v);
    }
  }

  lemma {:induction false} RowSumNonNegative(row: Row)
    requires forall k :: 0 <= k < |row| ==> 0.0 <= row[k].w
    ensures 0.0 <= RowSum(row)
  {
    if row != [] {
      RowSumNonNegative(row[1..]);
    }
  }

  /** A row whose only nonzero weight is entry k picks one element of v. */
  lemma {:induction false} RowDotSingle(row: Row, v: seq<real>, k: int)
    requires forall l :: 0 <= l < |row| ==> 0 <= row[l].col < |v|
    requires 0 <= k < |row| && forall l :: 0 <= l < |row| && l != k ==> row[l].w == 0.0
    ensures RowDot(row, v) == row[k].w * v[row[k].col]
    ensures RowSum(row) == row[k].w
  {
    if k == 0 {
      RowDotZero(row[1..], v);
    } else {
      RowDotSingle(row[1..], v, k - 1);
    }
  }

  lemma {:induction false} RowDotZero(row: Row, v: seq<real>)
    requires forall l :: 0 <= l < |row| ==> 0 <= row[l].col < |v| && row[l].w == 0.0
    ensures RowDot(row, v) == 0.0 && RowSum(row) == 0.0
  {
    if row != [] {
      RowDotZero(row[1..], v);
    }
  }

  // ---------------------------------------------------------------------------
  // apply_sparse_motion (motioncomp.py lines 85-110)
  // ---------------------------------------------------------------------------

  /** The largest finite float64, 2^1024 - 2^971: what np.nan_to_num puts in
      place of +inf. */
  const MaxFloat: real := 179769313486231570814527423731704356798070567525844996598917476803157260780028538760589558632766878171540458953514382464234321326889464182768467546703537516986049910576551282076245490090389328944075868508455133942304583236903222948165808559332123348274797826204144723168738177180919299881250404026184124858368.0

  /** `np.nan_to_num(np.divide(a, b))` with divide-by-zero ignored: the
      quotient when b != 0; 0/0 is nan and becomes 0; a/0 is an infinity of
      the sign of a and becomes the largest float of that sign. */
  function DivNanToNum(a: real, b: real): (r: real)
    ensures b != 0.0 ==> r * b == a
    ensures b == 0.0 && a == 0.0 ==> r == 0.0
    ensures b == 0.0 && a != 0.0 ==> (r == MaxFloat <==> a > 0.0) && (r == -MaxFloat <==> a < 0.0)
  {
    if b != 0.0 then a / b
    else if a == 0.0 then 0.0
    else if a > 0.0 then MaxFloat
    else -MaxFloat
  }

  function RealParts(v: seq<Complex>): (r: seq<real>)
    ensures |r| == |v| && forall i :: 0 <= i < |v| ==> r[i] == v[i].re
  {
    seq(|v|, i requires 0 <= i < |v| => v[i].re)
  }

  function ImagParts(v: seq<Complex>): (r: seq<real>)
    ensures |r| == |v| && forall i :: 0 <= i < |v| ==> r[i] == v[i].im
  {
    seq(|v|, i requires 0 <= i < |v| => v[i].im)
  }

  function Ones(n: nat): (r: seq<real>)
    ensures |r| == n && forall i :: 0 <= i < n ==> r[i] == 1.0
  {
    seq(n, _ => 1.0)
  }

  /** The operator applied: the matrix, or its transpose when adj_flag == 1. */
  function Operator(S: Matrix, adjFlag: int): (M: Matrix)
    requires WellFormed(S)
    ensures WellFormed(M) && |M| == |S|
  {
    if adjFlag == 1 then Transpose(S) else S
  }

  /** Lines 104-108 on the flattened products: each pixel's real and
      imaginary parts divided by the coverage of its row. */
  function Normalise(re: seq<real>, im: seq<real>, norm: seq<real>): (r: seq<Complex>)
    requires |re| == |im| == |norm|
    ensures |r| == |norm|
  {
    seq(|norm|, i requires 0 <= i < |norm| =>
      Complex(DivNanToNum(re[i], norm[i]), DivNanToNum(im[i], norm[i])))
  }

  /** apply_sparse_motion(img, spr_mat, adj_flag) for an nx-by-ny complex
      image. A matrix whose size does not match the image makes the product
      raise ValueError; so does an empty image, because `np.vectorize`
      without `otypes` refuses input of size 0. */
  function ApplyMotion(img: seq<seq<Complex>>, nx: nat, ny: nat, S: Matrix, adjFlag: int): (r: Result<seq<seq<Complex>>>)
    requires IsGrid(img, nx, ny) && WellFormed(S)
    ensures r.Ok? <==> |S| == nx * ny && nx * ny > 0
    ensures r.Err? ==> r.error == ValueError
    ensures r.Ok? ==> IsGrid(r.value, nx, ny)
  {
    if |S| != nx * ny || nx * ny == 0 then Err(ValueError)
    else
      var M := Operator(S, adjFlag);
      var v := Flatten(img, nx, ny);
      var re := MatVec(M, RealParts(v));
      var im := MatVec(M, ImagParts(v));
      var norm := MatVec(M, Ones(|M|));
      Ok(Unflatten(Normalise(re, im, norm), nx, ny))
  }

  /** The coverage `spr_mat * ones` of a row is its row sum. */
  lemma CoverageIsRowSum(M: Matrix, i: int)
    requires WellFormed(M) && 0 <= i < |M|
    ensures MatVec(M, Ones(|M|))[i] == RowSum(M[i])
  {
    RowDotConstant(M[i], Ones(|M|), 1.0);
  }

  /** Pixel (x, y) of the result is the operator's row LinIndex(x, y) applied
      to the real and imaginary parts of the flattened image, each divided by
      that row's sum. */
  lemma ApplyMotionPixel(img: seq<seq<Complex>>, nx: nat, ny: nat, S: Matrix, adjFlag: int, x: int, y: int)
    requires IsGrid(img, nx, ny) && WellFormed(S) && |S| == nx * ny
    requires 0 <= x < nx && 0 <= y < ny
    ensures 0 <= LinIndex(x, y, nx) < |S|
    ensures var M, v, i := Operator(S, adjFlag), Flatten(img, nx, ny), LinIndex(x, y, nx);
      ApplyMotion(img, nx, ny, S, adjFlag).value[x][y] ==
        Complex(DivNanToNum(RowDot(M[i], RealParts(v)), RowSum(M[i])),
                DivNanToNum(RowDot(M[i], ImagParts(v)), RowSum(M[i])))
  {
    LinIndexToPixel(x, y, nx, ny);
    CoverageIsRowSum(Operator(S, adjFlag), LinIndex(x, y, nx));
  }

  /** Where nothing covers a pixel the result is exactly 0 (never nan). */
  lemma ApplyMotionNoCoverage(img: seq<seq<Complex>>, nx: nat, ny: nat, S: Matrix, adjFlag: int, x: int, y: int)
    requires IsGrid(img, nx, ny) && WellFormed(S) && NonNegative(S) && |S| == nx * ny
    requires 0 <= x < nx && 0 <= y < ny
    requires 0 <= LinIndex(x, y, nx) < |S| && RowSum(Operator(S, adjFlag)[LinIndex(x, y, nx)]) == 0.0
    ensures ApplyMotion(img, nx, ny, S, adjFlag).value[x][y] == CZero
  {
    var M, v, i := Operator(S, adjFlag), Flatten(img, nx, ny), LinIndex(x, y, nx);
    if adjFlag == 1 { TransposeNonNegative(S); }
    ApplyMotionPixel(img, nx, ny, S, adjFlag, x, y);
    RowDotNoCoverage(M[i], RealParts(v));
    RowDotNoCoverage(M[i], ImagParts(v));
  }

  lemma FlattenConstant<T>(g: seq<seq<T>>, nx: nat, ny: nat, c: T)
    requires IsGrid(g, nx, ny)
    requires forall x, y :: 0 <= x < nx && 0 <= y < ny ==> g[x][y] == c
    ensures forall k :: 0 <= k < nx * ny ==> Flatten(g, nx, ny)[k] == c
  {
    forall k | 0 <= k < nx * ny
      ensures Flatten(g, nx, ny)[k] == c
    {
      PixelToLinIndex(k, nx, ny);
      FlattenAt(g, nx, ny, PixelX(k, nx), PixelY(k, nx));
    }
  }

  /** A constant image keeps its value wherever the pixel is covered. */
  lemma ApplyMotionConstant(img: seq<seq<Complex>>, nx: nat, ny: nat, S: Matrix, adjFlag: int, c: Complex, x: int, y: int)
    requires IsGrid(img, nx, ny) && WellFormed(S) && |S| == nx * ny
    requires forall x', y' :: 0 <= x' < nx && 0 <= y' < ny ==> img[x'][y'] == c
    requires 0 <= x < nx && 0 <= y < ny
    requires 0 <= LinIndex(x, y, nx) < |S| && RowSum(Operator(S, adjFlag)[LinIndex(x, y, nx)]) != 0.0
    ensures ApplyMotion(img, nx, ny, S, adjFlag).value[x][y] == c
  {
    var M, v, i := Operator(S, adjFlag), Flatten(img, nx, ny), LinIndex(x, y, nx);
    FlattenConstant(img, nx, ny, c);
    ApplyMotionPixel(img, nx, ny, S, adjFlag, x, y);
    ConstantRowPixel(M, i, v, c);
  }

  lemma ConstantRowPixel(M: Matrix, i: int, v: seq<Complex>, c: Complex)
    requires WellFormed(M) && 0 <= i < |M| && |v| == |M|
    requires forall k :: 0 <= k < |v| ==> v[k] == c
    requires RowSum(M[i]) != 0.0
    ensures Complex(DivNanToNum(RowDot(M[i], RealParts(v)), RowSum(M[i])),
                    DivNanToNum(RowDot(M[i], ImagParts(v)), RowSum(M[i]))) == c
  {
    RowDotConstant(M[i], RealParts(v), c.re);
    RowDotConstant(M[i], ImagParts(v), c.im);
    ConstantPixel(RowDot(M[i], RealParts(v)), RowDot(M[i], ImagParts(v)), RowSum(M[i]), c);
  }

  lemma ConstantPixel(re: real, im: real, sum: real, c: Complex)
    requires sum != 0.0 && re == c.re * sum && im == c.im * sum
    ensures Complex(DivNanToNum(re, sum), DivNanToNum(im, sum)) == c
  {
  }

  /** Row i of the identity, or of its transpose, picks element i. */
  lemma IdentityRowDot(n: nat, adjFlag: int, i: int, v: seq<real>)
    requires 0 <= i < n && |v| == n
    ensures WellFormed(Operator(Identity(n), adjFlag))
    ensures RowDot(Operator(Identity(n), adjFlag)[i], v) == v[i]
    ensures RowSum(Operator(Identity(n), adjFlag)[i]) == 1.0
  {
    var S: Matrix := Identity(n);
    var M: Matrix := Operator(S, adjFlag);
    if adjFlag == 1 {
      forall l | 0 <= l < n && l != i
        ensures M[i][l].w == 0.0
      {
        assert S[l] == [Entry(l, 1.0)] && S[l][1..] == [];
        assert Coeff(S[l], i) == 0.0 + Coeff([], i) == 0.0;
        assert M[i][l] == Entry(l, Coeff(S[l], i));
      }
      assert S[i] == [Entry(i, 1.0)] && S[i][1..] == [];
      assert Coeff(S[i], i) == 1.0 + Coeff([], i) == 1.0;
      assert M[i][i] == Entry(i, Coeff(S[i], i));
      RowDotSingle(M[i], v, i);
    } else {
      assert M[i] == [Entry(i, 1.0)];
      RowDotSingle(M[i], v, 0);
    }
  }

  lemma UnitPixel(re: real, im: real, sum: real, c: Complex)
    requires sum == 1.0 && re == c.re && im == c.im
    ensures Complex(DivNanToNum(re, sum), DivNanToNum(im, sum)) == c
  {
  }

  /** The identity matrix, applied forward or transposed, returns every
      non-empty image; an empty one raises ValueError. */
  lemma ApplyIdentity(img: seq<seq<Complex>>, nx: nat, ny: nat, adjFlag: int)
    requires IsGrid(img, nx, ny)
    ensures nx * ny > 0 ==> ApplyMotion(img, nx, ny, Identity(nx * ny), adjFlag) == Ok(img)
    ensures nx * ny == 0 ==> ApplyMotion(img, nx, ny, Identity(nx * ny), adjFlag) == Err(ValueError)
  {
    if nx * ny == 0 { return; }
    var S := Identity(nx * ny);
    var M, v := Operator(S, adjFlag), Flatten(img, nx, ny);
    var re, im, norm := MatVec(M, RealParts(v)), MatVec(M, ImagParts(v)), MatVec(M, Ones(|M|));
    var out := Normalise(re, im, norm);
    forall i | 0 <= i < nx * ny
      ensures out[i] == v[i]
    {
      CoverageIsRowSum(M, i);
      IdentityRowDot(nx * ny, adjFlag, i, RealParts(v));
      IdentityRowDot(nx * ny, adjFlag, i, ImagParts(v));
      UnitPixel(re[i], im[i], norm[i], v[i]);
    }
    assert out == v;
    FlattenUnflatten(v, nx, ny);
    UnflattenFlatten(img, nx, ny);
  }


  /** A field without motion leaves every non-empty image unchanged. */
  lemma ApplyZeroField(img: seq<seq<Complex>>, field: seq<seq<Disp>>, nx: nat, ny: nat, adjFlag: int)
    requires IsGrid(img, nx, ny) && IsGrid(field, nx, ny) && IsZeroField(field, nx, ny)
    ensures WellFormed(MotionMatrix(field, nx, ny))
    ensures nx * ny > 0 ==> ApplyMotion(img, nx, ny, MotionMatrix(field, nx, ny), adjFlag) == Ok(img)
    ensures nx * ny == 0 ==> ApplyMotion(img, nx, ny, MotionMatrix(field, nx, ny), adjFlag) == Err(ValueError)
  {
    MotionMatrixProperties(field, nx, ny);
    ZeroFieldIdentity(field, nx, ny);
    ApplyIdentity(img, nx, ny, adjFlag);
  }

  // ---------------------------------------------------------------------------
  // The small example field of motioncomp.py lines 117-137
  // ---------------------------------------------------------------------------

  /** The 2-by-3 example field: pixel (0, 0) moves along x, (1, 0) along y,
      (0, 1) leaves the field of view, (1, 1) moves diagonally, (0, 2) stays
      and (1, 2) moves backwards diagonally. */
  const DemoField: seq<seq<Disp>> :=
    [[Disp(0.8, 0.0), Disp(-10.0, -10.0), Disp(0.0, 0.0)],
     [Disp(0.0, 0.2), Disp(-0.5, 0.5), Disp(-0.5, -1.2)]]

  /** A pixel's stencil in terms of its corner and fractional parts. */
  lemma PixelWritesAt(d: Disp, x: int, y: int, nx: int, ny: int, x1: int, y1: int, a: real, b: real)
    requires CornerX(x, d) == x1 && CornerY(y, d) == y1 && FracX(d) == a && FracY(d) == b
    ensures PixelWrites(d, x, y, nx, ny) ==
      Writes(LinIndex(BoundIndex(x1, nx), BoundIndex(y1, ny), nx), BoundWeight((1.0 - a) * (1.0 - b), x1, y1, nx, ny),
             LinIndex(BoundIndex(x1, nx), BoundIndex(y1 + 1, ny), nx), BoundWeight((1.0 - a) * b, x1, y1 + 1, nx, ny),
             LinIndex(BoundIndex(x1 + 1, nx), BoundIndex(y1, ny), nx), BoundWeight(a * (1.0 - b), x1 + 1, y1, nx, ny),
             LinIndex(BoundIndex(x1 + 1, nx), BoundIndex(y1 + 1, ny), nx), BoundWeight(a * b, x1 + 1, y1 + 1, nx, ny))
  {
    PixelWritesCorners(d, x, y, nx, ny);
    assert W11(d) == (1.0 - a) * (1.0 - b) && W12(d) == (1.0 - a) * b;
    assert W21(d) == a * (1.0 - b) && W22(d) == a * b;
    CornerFacts(x, y, d);
  }

  lemma WritesAlongX(ws: Writes)
    requires ws.w11 != 0.0 && ws.w12 == 0.0 && ws.w21 != 0.0 && ws.w22 == 0.0
    ensures NonZeroWrites(ws) == [Entry(ws.c11, ws.w11), Entry(ws.c21, ws.w21)]
  {
  }

  lemma WritesAlongY(ws: Writes)
    requires ws.w11 != 0.0 && ws.w12 != 0.0 && ws.w21 == 0.0 && ws.w22 == 0.0
    ensures NonZeroWrites(ws) == [Entry(ws.c11, ws.w11), Entry(ws.c12, ws.w12)]
  {
  }

  lemma DemoPixel00()
    ensures PixelRow(Disp(0.8, 0.0), 0, 0, 2, 3) == [Entry(0, 0.2), Entry(1, 0.8)]
  {
    PixelWritesAt(Disp(0.8, 0.0), 0, 0, 2, 3, 0, 0, 0.8, 0.0);
    assert PixelWrites(Disp(0.8, 0.0), 0, 0, 2, 3) == Writes(0, 0.2, 2, 0.0, 1, 0.8, 3, 0.0);
    ApplyCollisionFree(Writes(0, 0.2, 2, 0.0, 1, 0.8, 3, 0.0));
    WritesAlongX(Writes(0, 0.2, 2, 0.0, 1, 0.8, 3, 0.0));
  }

  lemma DemoPixel10()
    ensures PixelRow(Disp(0.0, 0.2), 1, 0, 2, 3) == [Entry(1, 0.8), Entry(3, 0.2)]
  {
    PixelWritesAt(Disp(0.0, 0.2), 1, 0, 2, 3, 1, 0, 0.0, 0.2);
    assert PixelWrites(Disp(0.0, 0.2), 1, 0, 2, 3) == Writes(1, 0.8, 3, 0.2, 1, 0.0, 3, 0.0);
    ApplyCollisionFree(Writes(1, 0.8, 3, 0.2, 1, 0.0, 3, 0.0));
    WritesAlongY(Writes(1, 0.8, 3, 0.2, 1, 0.0, 3, 0.0));
  }

  lemma DemoPixel11()
    ensures PixelRow(Disp(-0.5, 0.5), 1, 1, 2, 3) == [Entry(2, 0.25), Entry(4, 0.25), Entry(3, 0.25), Entry(5, 0.25)]
  {
    PixelWritesAt(Disp(-0.5, 0.5), 1, 1, 2, 3, 0, 1, 0.5, 0.5);
    assert PixelWrites(Disp(-0.5, 0.5), 1, 1, 2, 3) == Writes(2, 0.25, 4, 0.25, 3, 0.25, 5, 0.25);
  }

  lemma DemoPixel12()
    ensures PixelRow(Disp(-0.5, -1.2), 1, 2, 2, 3) == [Entry(0, 0.1), Entry(2, 0.4), Entry(1, 0.1), Entry(3, 0.4)]
  {
    PixelWritesAt(Disp(-0.5, -1.2), 1, 2, 2, 3, 0, 0, 0.5, 0.8);
    assert PixelWrites(Disp(-0.5, -1.2), 1, 2, 2, 3) == Writes(0, 0.1, 2, 0.4, 1, 0.1, 3, 0.4);
  }

  lemma DemoFieldRows(field: seq<seq<Disp>>)
    requires field == DemoField
    ensures IsGrid(field, 2, 3)
    ensures var S := MotionMatrix(field, 2, 3);
      |S| == 6 &&
      S[0] == [Entry(0, 0.2), Entry(1, 0.8)] &&
      S[1] == [Entry(1, 0.8), Entry(3, 0.2)] &&
      S[2] == [] &&
      S[3] == [Entry(2, 0.25), Entry(4, 0.25), Entry(3, 0.25), Entry(5, 0.25)] &&
      S[4] == [Entry(4, 1.0)] &&
      S[5] == [Entry(0, 0.1), Entry(2, 0.4), Entry(1, 0.1), Entry(3, 0.4)]
  {
    assert IsGrid(field, 2, 3);
    assert field[0][1] == Disp(-10.0, -10.0) && field[1][0] == Disp(0.0, 0.2);
    var S := MotionMatrix(field, 2, 3);
    assert S[0] == [Entry(0, 0.2), Entry(1, 0.8)] by {
      MotionMatrixRow(field, 2, 3, 0, 0);
      DemoPixel00();
    }
    assert S[1] == [Entry(1, 0.8), Entry(3, 0.2)] by {
      MotionMatrixRow(field, 2, 3, 1, 0);
      DemoPixel10();
    }
    assert S[2] == [] by {
      MotionMatrixRow(field, 2, 3, 0, 1);
      PixelRowOutOfView(Disp(-10.0, -10.0), 0, 1, 2, 3);
    }
    assert S[3] == [Entry(2, 0.25), Entry(4, 0.25), Entry(3, 0.25), Entry(5, 0.25)] by {
      MotionMatrixRow(field, 2, 3, 1, 1);
      DemoPixel11();
    }
    assert S[4] == [Entry(4, 1.0)] by {
      MotionMatrixRow(field, 2, 3, 0, 2);
      StillPixelRow(0, 2, 2, 3);
    }
    assert S[5] == [Entry(0, 0.1), Entry(2, 0.4), Entry(1, 0.1), Entry(3, 0.4)] by {
      MotionMatrixRow(field, 2, 3, 1, 2);
      DemoPixel12();
    }
  }

}
