/** Retrospective motion simulation in k-space (simulate_motion) and the
    centred cropping (crop) that the image transform ends with. The MRI
    forward operator and the affine image transform are parameters. */
module MotionSim {
  import opened Common

  // ---------------------------------------------------------------------------
  // Centred cropping (motionsim.py lines 135-159)
  // ---------------------------------------------------------------------------

  /** The index list line 154 builds for an even target s on an axis of size
      m; for an odd target line 156 passes `dtype=` to `list()` instead of to
      `np.arange`, which raises TypeError. */
  function CropWindow(s: int, m: nat): Result<seq<int>>
  {
    if s % 2 == 0 then Ok(Arange(FloorHalf(m) + 1 + CeilHalf(-s) - 1, FloorHalf(m) + CeilHalf(s)))
    else Err(TypeError)
  }

  /** The index lists of the first n axes. */
  function Windows(s: seq<int>, m: seq<nat>, n: nat): (r: Result<seq<seq<int>>>)
    requires n <= |s| <= |m|
    ensures r.Ok? ==> |r.value| == n
  {
    if n == 0 then Ok([])
    else match Windows(s, m, n - 1)
      case Err(e) => Err(e)
      case Ok(ws) =>
        match CropWindow(s[n - 1], m[n - 1])
        case Err(e) => Err(e)
        case Ok(w) => Ok(ws + [w])
  }

  /** The index lists of one and of two axes whose windows exist. */
  lemma WindowsOk(s: seq<int>, m: seq<nat>)
    requires 1 <= |s| <= 2 <= |m|
    requires forall k :: 0 <= k < |s| ==> CropWindow(s[k], m[k]).Ok?
    ensures Windows(s, m, 1) == Ok([CropWindow(s[0], m[0]).value])
    ensures |s| == 2 ==> Windows(s, m, 2) == Ok([CropWindow(s[0], m[0]).value, CropWindow(s[1], m[1]).value])
  {
    var w0 := CropWindow(s[0], m[0]).value;
    assert Windows(s, m, 1) == Ok([] + [w0]);
    assert [] + [w0] == [w0];
    if |s| == 2 {
      var w1 := CropWindow(s[1], m[1]).value;
      assert Windows(s, m, 2) == Ok([w0] + [w1]);
      assert [w0] + [w1] == [w0, w1];
    }
  }

  /** Once an axis fails, the whole list fails with the same error. */
  lemma {:induction false} WindowsErr(s: seq<int>, m: seq<nat>, n: nat, k: nat)
    requires 1 <= n <= k <= |s| <= |m| && Windows(s, m, n).Err?
    ensures Windows(s, m, k) == Windows(s, m, n)
    decreases k - n
  {
    if n < k {
      WindowsErr(s, m, n + 1, k);
    }
  }

  /** The `for n` loop of lines 152-156. */
  method CropIndices(s: seq<int>, m: seq<nat>) returns (r: Result<seq<seq<int>>>)
    requires |s| <= |m|
    ensures r == Windows(s, m, |s|)
  {
    var idx: seq<seq<int>> := [];
    var n := 0;
    while n < |s|
      invariant 0 <= n <= |s|
      invariant Windows(s, m, n) == Ok(idx)
    {
      var w := CropWindow(s[n], m[n]);
      if w.Err? {
        WindowsErr(s, m, n + 1, |s|);
        return Err(w.error);
      }
      idx := idx + [w.value];
      n := n + 1;
    }
    r := Ok(idx);
  }

  /** NumPy integer indexing of an axis of size n: -n <= j < n is valid and a
      negative index counts from the end. */
  predicate ValidIndex(j: int, n: nat)
  {
    -(n as int) <= j < n
  }

  function Wrap(j: int, n: nat): (r: nat)
    requires ValidIndex(j, n)
    ensures r < n && (r == j || r == j + n)
  {
    if j < 0 then j + n else j
  }

  /** `x[np.ix_(rows, cols)]`: the rows-by-cols sub-array. NumPy checks the
      indices only when the broadcast index shape (|rows|, |cols|) is
      non-empty: then any index out of range raises IndexError; an empty
      block is returned whatever the indices. */
  function Take<T>(x: seq<seq<T>>, nx: nat, ny: nat, rows: seq<int>, cols: seq<int>): (r: Result<seq<seq<T>>>)
    requires IsGrid(x, nx, ny)
    ensures r.Ok? ==> IsGrid(r.value, |rows|, |cols|)
  {
    if |rows| == 0 || |cols| == 0 then Ok(seq(|rows|, _ => []))
    else if (forall i :: 0 <= i < |rows| ==> ValidIndex(rows[i], nx)) &&
       (forall j :: 0 <= j < |cols| ==> ValidIndex(cols[j], ny))
    then Ok(seq(|rows|, i requires 0 <= i < |rows| =>
              seq(|cols|, j requires 0 <= j < |cols| => x[Wrap(rows[i], nx)][Wrap(cols[j], ny)])))
    else Err(IndexError)
  }

  /** `x[np.ix_(rows)]`, that is `x[rows]`: the selected rows of x, every
      index checked, since the index shape (|rows|,) leaves out the columns. */
  function TakeRows<T>(x: seq<seq<T>>, nx: nat, ny: nat, rows: seq<int>): (r: Result<seq<seq<T>>>)
    requires IsGrid(x, nx, ny)
    ensures r.Ok? <==> forall i :: 0 <= i < |rows| ==> ValidIndex(rows[i], nx)
    ensures r.Err? ==> r.error == IndexError
    ensures r.Ok? ==> IsGrid(r.value, |rows|, ny)
  {
    if forall i :: 0 <= i < |rows| ==> ValidIndex(rows[i], nx)
    then Ok(seq(|rows|, i requires 0 <= i < |rows| => x[Wrap(rows[i], nx)]))
    else Err(IndexError)
  }

  /** crop(x, s) on a two-dimensional x of shape (nx, ny). A target of more
      than two axes makes line 146 call np.ones with a dtype that is not a
      type (TypeError); a one-element target is compared against both axes by
      broadcasting but indexes only the first axis; an empty target compares
      unequal and `x[()]` returns x. */
  function CropSpec<T>(x: seq<seq<T>>, nx: nat, ny: nat, s: seq<int>): Result<seq<seq<T>>>
    requires IsGrid(x, nx, ny)
  {
    if |s| > 2 then Err(TypeError)
    else if SameShape(s, nx, ny) then Ok(x)
    else CropApply(x, nx, ny, s, Windows(s, [nx, ny], |s|))
  }

  /** Lines 158-159 on the index lists of lines 151-156, or their error. */
  function CropApply<T>(x: seq<seq<T>>, nx: nat, ny: nat, s: seq<int>, ws: Result<seq<seq<int>>>): Result<seq<seq<T>>>
    requires IsGrid(x, nx, ny) && |s| <= 2 && (ws.Ok? ==> |ws.value| == |s|)
  {
    match ws
    case Err(e) => Err(e)
    case Ok(idx) =>
      if |s| == 0 then Ok(x)
      else if |s| == 1 then TakeRows(x, nx, ny, idx[0])
      else Take(x, nx, ny, idx[0], idx[1])
  }

  method Crop<T>(x: seq<seq<T>>, nx: nat, ny: nat, s: seq<int>) returns (r: Result<seq<seq<T>>>)
    requires IsGrid(x, nx, ny)
    ensures r == CropSpec(x, nx, ny, s)
  {
    if |s| > 2 {
      return Err(TypeError);
    }
    if SameShape(s, nx, ny) {
      return Ok(x);
    }
    var idx := CropIndices(s, [nx, ny]);
    r := CropApply(x, nx, ny, s, idx);
  }

  // Properties of crop

  /** An array already of the target shape is returned as it is. */
  lemma CropSameShape<T>(x: seq<seq<T>>, nx: nat, ny: nat)
    requires IsGrid(x, nx, ny)
    ensures CropSpec(x, nx, ny, [nx, ny]) == Ok(x)
  {
  }

  /** For an even target s >= 0 the window is floor(m/2) - floor(s/2) up to
      floor(m/2) + ceil(s/2) - 1: s consecutive indices. */
  lemma CropWindowEven(s: int, m: nat)
    requires s % 2 == 0 && s >= 0
    ensures CropWindow(s, m).Ok?
    ensures var w := CropWindow(s, m).value;
      |w| == s && forall k :: 0 <= k < s ==> w[k] == FloorHalf(m) - FloorHalf(s) + k
    ensures s > 0 ==> CropWindow(s, m).value[s - 1] == FloorHalf(m) + CeilHalf(s) - 1
  {
  }

  /** Both axes cropped: the windows of both axes, taken together. */
  lemma CropBothAxes<T>(x: seq<seq<T>>, nx: nat, ny: nat, s: seq<int>)
    requires IsGrid(x, nx, ny) && |s| == 2 && (s[0] != nx || s[1] != ny)
    requires CropWindow(s[0], nx).Ok? && CropWindow(s[1], ny).Ok?
    ensures CropSpec(x, nx, ny, s) == Take(x, nx, ny, CropWindow(s[0], nx).value, CropWindow(s[1], ny).value)
  {
    WindowsOk(s, [nx, ny]);
  }

  /** The h-by-w block of x whose top-left element is x[i0][j0]. */
  function Block<T>(x: seq<seq<T>>, nx: nat, ny: nat, i0: nat, j0: nat, h: nat, w: nat): (r: seq<seq<T>>)
    requires IsGrid(x, nx, ny) && i0 + h <= nx && j0 + w <= ny
    ensures IsGrid(r, h, w)
  {
    seq(h, i requires 0 <= i < h => seq(w, j requires 0 <= j < w => x[i0 + i][j0 + j]))
  }

  /** Taking consecutive in-range rows and columns yields a block of x. */
  lemma TakeBlock<T>(x: seq<seq<T>>, nx: nat, ny: nat, rows: seq<int>, cols: seq<int>, i0: nat, j0: nat, h: nat, w: nat)
    requires IsGrid(x, nx, ny) && |rows| == h && |cols| == w && i0 + h <= nx && j0 + w <= ny
    requires forall i :: 0 <= i < h ==> rows[i] == i0 + i
    requires forall j :: 0 <= j < w ==> cols[j] == j0 + j
    ensures Take(x, nx, ny, rows, cols) == Ok(Block(x, nx, ny, i0, j0, h, w))
  {
    var t, b := Take(x, nx, ny, rows, cols).value, Block(x, nx, ny, i0, j0, h, w);
    forall i | 0 <= i < h
      ensures t[i] == b[i]
    {
    }
    assert t == b;
  }

  lemma CropWindowsBlock<T>(x: seq<seq<T>>, nx: nat, ny: nat, s0: int, s1: int)
    requires IsGrid(x, nx, ny) && 0 <= s0 <= nx && 0 <= s1 <= ny && s0 % 2 == 0 && s1 % 2 == 0
    ensures 0 <= FloorHalf(nx) - FloorHalf(s0) && FloorHalf(nx) - FloorHalf(s0) + s0 <= nx
    ensures 0 <= FloorHalf(ny) - FloorHalf(s1) && FloorHalf(ny) - FloorHalf(s1) + s1 <= ny
    ensures CropWindow(s0, nx).Ok? && CropWindow(s1, ny).Ok?
    ensures Take(x, nx, ny, CropWindow(s0, nx).value, CropWindow(s1, ny).value) ==
      Ok(Block(x, nx, ny, FloorHalf(nx) - FloorHalf(s0), FloorHalf(ny) - FloorHalf(s1), s0, s1))
  {
    CropWindowInside(s0, nx);
    CropWindowInside(s1, ny);
    var w0, w1 := CropWindow(s0, nx).value, CropWindow(s1, ny).value;
    var i0: nat, j0: nat := FloorHalf(nx) - FloorHalf(s0), FloorHalf(ny) - FloorHalf(s1);
    TakeBlock(x, nx, ny, w0, w1, i0, j0, s0, s1);
  }

  /** Cropping both axes to even sizes no larger than the array yields the
      centred s0-by-s1 block. */
  lemma CropCentred<T>(x: seq<seq<T>>, nx: nat, ny: nat, s0: int, s1: int)
    requires IsGrid(x, nx, ny) && 0 <= s0 <= nx && 0 <= s1 <= ny && s0 % 2 == 0 && s1 % 2 == 0
    ensures 0 <= FloorHalf(nx) - FloorHalf(s0) && FloorHalf(nx) - FloorHalf(s0) + s0 <= nx
    ensures 0 <= FloorHalf(ny) - FloorHalf(s1) && FloorHalf(ny) - FloorHalf(s1) + s1 <= ny
    ensures CropSpec(x, nx, ny, [s0, s1]) ==
      Ok(Block(x, nx, ny, FloorHalf(nx) - FloorHalf(s0), FloorHalf(ny) - FloorHalf(s1), s0, s1))
  {
    CentredBounds(s0, nx);
    CentredBounds(s1, ny);
    if s0 != nx || s1 != ny {
      CropCentredMoved(x, nx, ny, s0, s1);
    } else {
      BlockWhole(x, nx, ny);
    }
  }

  lemma CropCentredMoved<T>(x: seq<seq<T>>, nx: nat, ny: nat, s0: int, s1: int)
    requires IsGrid(x, nx, ny) && 0 <= s0 <= nx && 0 <= s1 <= ny && s0 % 2 == 0 && s1 % 2 == 0
    requires s0 != nx || s1 != ny
    ensures 0 <= FloorHalf(nx) - FloorHalf(s0) && FloorHalf(nx) - FloorHalf(s0) + s0 <= nx
    ensures 0 <= FloorHalf(ny) - FloorHalf(s1) && FloorHalf(ny) - FloorHalf(s1) + s1 <= ny
    ensures CropSpec(x, nx, ny, [s0, s1]) ==
      Ok(Block(x, nx, ny, FloorHalf(nx) - FloorHalf(s0), FloorHalf(ny) - FloorHalf(s1), s0, s1))
  {
    CropWindowsBlock(x, nx, ny, s0, s1);
    CropBothAxes(x, nx, ny, [s0, s1]);
  }

  lemma BlockWhole<T>(x: seq<seq<T>>, nx: nat, ny: nat)
    requires IsGrid(x, nx, ny)
    ensures Block(x, nx, ny, 0, 0, nx, ny) == x
  {
    var b := Block(x, nx, ny, 0, 0, nx, ny);
    forall i | 0 <= i < nx
      ensures b[i] == x[i]
    {
    }
  }

  /** An even window no larger than the axis lies inside it. */
  lemma CentredBounds(s: int, m: nat)
    requires 0 <= s <= m && s % 2 == 0
    ensures 0 <= FloorHalf(m) - FloorHalf(s) && FloorHalf(m) - FloorHalf(s) + s <= m
  {
  }

  lemma CropWindowInside(s: int, m: nat)
    requires 0 <= s <= m && s % 2 == 0
    ensures CropWindow(s, m).Ok?
    ensures var w, i0 := CropWindow(s, m).value, FloorHalf(m) - FloorHalf(s);
      |w| == s && 0 <= i0 && i0 + s <= m && forall k :: 0 <= k < s ==> w[k] == i0 + k
  {
    CentredBounds(s, m);
    CropWindowEven(s, m);
  }

  /** An odd target on any axis the array does not already match raises
      TypeError. */
  lemma CropOddRaises<T>(x: seq<seq<T>>, nx: nat, ny: nat, s: seq<int>, n: nat)
    requires IsGrid(x, nx, ny) && 1 <= |s| <= 2 && n < |s| && s[n] % 2 == 1
    requires !(|s| == 2 && s[0] == nx && s[1] == ny) && !(|s| == 1 && s[0] == nx && s[0] == ny)
    ensures CropSpec(x, nx, ny, s) == Err(TypeError)
  {
    var m := [nx, ny];
    if n == 0 {
      assert Windows(s, m, 1) == Err(TypeError);
      WindowsErr(s, m, 1, |s|);
    } else {
      if Windows(s, m, 1).Err? {
        WindowsErr(s, m, 1, 2);
      }
    }
  }

  /** An even target more than one larger than the array on the first axis
      reaches past its end and raises IndexError, when the second axis keeps
      some column. */
  lemma CropGrowRaises<T>(x: seq<seq<T>>, nx: nat, ny: nat, s: seq<int>)
    requires IsGrid(x, nx, ny) && |s| == 2 && s[0] % 2 == 0 && s[1] % 2 == 0 && s[0] > nx + 1 && s[1] > 0
    ensures CropSpec(x, nx, ny, s) == Err(IndexError)
  {
    CropWindowEven(s[0], nx);
    CropWindowEven(s[1], ny);
    var w0 := CropWindow(s[0], nx).value;
    assert w0[|w0| - 1] >= nx;
    CropBothAxes(x, nx, ny, s);
  }

  /** An even window for a target s <= 0 is empty. */
  lemma CropWindowEmpty(s: int, m: nat)
    requires s % 2 == 0 && s <= 0
    ensures CropWindow(s, m) == Ok([])
  {
  }

  /** Cropping to an empty axis gives an empty block, whatever the indices
      of the other axis: s0 rows of no columns for s1 <= 0, no rows for
      s0 <= 0. */
  lemma CropToEmptyAxis<T>(x: seq<seq<T>>, nx: nat, ny: nat, s0: int, s1: int)
    requires IsGrid(x, nx, ny) && s0 % 2 == 0 && s1 % 2 == 0
    ensures s0 >= 0 && s1 <= 0 ==> CropSpec(x, nx, ny, [s0, s1]) == Ok(seq(s0, _ => []))
    ensures s0 <= 0 ==> CropSpec(x, nx, ny, [s0, s1]) == Ok([])
  {
    if s0 >= 0 && s1 <= 0 {
      CropToNoColumns(x, nx, ny, s0, s1);
    }
    if s0 <= 0 {
      CropToNoRows(x, nx, ny, s0, s1);
    }
  }

  lemma CropToNoColumns<T>(x: seq<seq<T>>, nx: nat, ny: nat, s0: int, s1: int)
    requires IsGrid(x, nx, ny) && s0 % 2 == 0 && s1 % 2 == 0 && s0 >= 0 && s1 <= 0
    ensures CropSpec(x, nx, ny, [s0, s1]) == Ok(seq(s0, _ => []))
  {
    if s0 == nx && s1 == ny {
      assert x == seq(s0, _ => []);
    } else {
      WindowsOk([s0, s1], [nx, ny]);
      CropWindowEmpty(s1, ny);
      CropWindowEven(s0, nx);
    }
  }

  lemma CropToNoRows<T>(x: seq<seq<T>>, nx: nat, ny: nat, s0: int, s1: int)
    requires IsGrid(x, nx, ny) && s0 % 2 == 0 && s1 % 2 == 0 && s0 <= 0
    ensures CropSpec(x, nx, ny, [s0, s1]) == Ok([])
  {
    if s0 != nx || s1 != ny {
      CropWindowEmpty(s0, nx);
      assert CropWindow(s1, ny).Ok?;
      CropBothAxes(x, nx, ny, [s0, s1]);
      assert Take(x, nx, ny, [], CropWindow(s1, ny).value) == Ok([]);
    } else {
      assert |x| == 0;
    }
  }

  /** A 2x2 array cropped to (6, 0): rows -2 .. 3 lie out of range, yet the
      block has no columns, so NumPy returns an empty 6x0 array. */
  lemma CropToEmptyColumns()
    ensures CropSpec([[1, 2], [3, 4]], 2, 2, [6, 0]) == Ok(seq(6, _ => []))
  {
    CropToEmptyAxis([[1, 2], [3, 4]], 2, 2, 6, 0);
  }

  /** On an odd axis an even target one larger than the axis starts at -1,
      so NumPy's negative indexing repeats the last row in front. */
  lemma CropPastEdgeWraps<T>(x: seq<seq<T>>, nx: nat, ny: nat)
    requires IsGrid(x, nx, ny) && nx % 2 == 1
    ensures CropSpec(x, nx, ny, [nx + 1]) == Ok([x[nx - 1]] + x)
  {
    CropWindowEven(nx + 1, nx);
    var w := CropWindow(nx + 1, nx).value;
    CropFirstAxis(x, nx, ny, nx + 1);
    WrappedRows(x, nx, ny, w);
  }

  /** The rows -1, 0, ..., nx - 1 of x: the last row, then all of x. */
  lemma WrappedRows<T>(x: seq<seq<T>>, nx: nat, ny: nat, w: seq<int>)
    requires IsGrid(x, nx, ny) && nx > 0 && |w| == nx + 1 && forall i :: 0 <= i <= nx ==> w[i] == i - 1
    ensures forall l :: 0 <= l < |w| ==> ValidIndex(w[l], nx)
    ensures seq(|w|, i requires 0 <= i < |w| => x[Wrap(w[i], nx)]) == [x[nx - 1]] + x
  {
    var r, e := seq(|w|, i requires 0 <= i < |w| => x[Wrap(w[i], nx)]), [x[nx - 1]] + x;
    assert forall i :: 1 <= i <= nx ==> r[i] == x[i - 1] == e[i];
    assert r == e;
  }

  /** With at least one column, `x[rows]` is `x[np.ix_(rows, all columns)]`;
      they differ only on an array without columns, where x[rows] still checks
      its indices. */
  lemma TakeWholeRows<T>(x: seq<seq<T>>, nx: nat, ny: nat, rows: seq<int>)
    requires IsGrid(x, nx, ny) && ny > 0
    ensures TakeRows(x, nx, ny, rows) == Take(x, nx, ny, rows, Arange(0, ny))
  {
    if TakeRows(x, nx, ny, rows).Ok? && |rows| > 0 {
      var t := Take(x, nx, ny, rows, Arange(0, ny)).value;
      var e := TakeRows(x, nx, ny, rows).value;
      forall i | 0 <= i < |rows|
        ensures t[i] == e[i]
      {
        assert forall j :: 0 <= j < ny ==> t[i][j] == e[i][j];
      }
      assert t == e;
    }
  }

  /** A one-element target crops the first axis and keeps every column. */
  lemma CropFirstAxis<T>(x: seq<seq<T>>, nx: nat, ny: nat, t: int)
    requires IsGrid(x, nx, ny) && (t != nx || t != ny) && CropWindow(t, nx).Ok?
    ensures CropSpec(x, nx, ny, [t]) == TakeRows(x, nx, ny, CropWindow(t, nx).value)
  {
    WindowsOk([t], [nx, ny]);
  }

  /** A crop to more than two axes raises TypeError. */
  lemma CropTooManyAxes<T>(x: seq<seq<T>>, nx: nat, ny: nat, s: seq<int>)
    requires IsGrid(x, nx, ny) && |s| > 2
    ensures CropSpec(x, nx, ny, s) == Err(TypeError)
  {
  }

  // ---------------------------------------------------------------------------
  // Motion simulation (motionsim.py lines 6-33)
  // ---------------------------------------------------------------------------

  /** k-space data indexed [readout][phase-encoding line][coil]. */
  type Cube = seq<seq<seq<Complex>>>

  /** The motion argument p: one parameter vector for the whole scan (a
      one-dimensional array) or one row per phase-encoding line. */
  datatype Motion = Fixed(q: seq<real>) | Course(rows: seq<seq<real>>)

  function Sum(xs: seq<real>): real
  {
    if xs == [] then 0.0 else Sum(xs[..|xs| - 1]) + xs[|xs| - 1]
  }

  function Min(a: int, b: int): int
  {
    if a < b then a else b
  }

  /** `p[:, :5]` of one row. */
  function Head5(row: seq<real>): (r: seq<real>)
    ensures |r| == Min(5, |row|) && forall k :: 0 <= k < |r| ==> r[k] == row[k]
  {
    row[..Min(5, |row|)]
  }

  /** Line 21: a line counts as moving when the sum of its first five
      parameters is non-zero. */
  predicate LineMoves(row: seq<real>)
  {
    Sum(Head5(row)) != 0.0
  }

  /** The motion mask of lines 18-22, of k-space's shape: all ones for a fixed
      parameter vector, otherwise 1 on the lines that move. */
  function MotionMask(p: Motion, n0: nat, n1: nat, n2: nat): (mask: seq<seq<seq<real>>>)
    requires p.Course? ==> |p.rows| == n1
    ensures IsCube(mask, n0, n1, n2)
  {
    seq(n0, i => seq(n1, j requires 0 <= j < n1 =>
      seq(n2, c => if p.Fixed? || LineMoves(p.rows[j]) then 1.0 else 0.0)))
  }

  predicate AllZero(row: seq<real>)
  {
    forall k :: 0 <= k < |row| ==> row[k] == 0.0
  }

  /** The rows of the course that are not all zero, in order. */
  function NonZeroRows(rows: seq<seq<real>>): (nz: seq<seq<real>>)
    ensures forall k :: 0 <= k < |nz| ==> nz[k] in rows && !AllZero(nz[k])
    ensures forall k :: 0 <= k < |rows| && !AllZero(rows[k]) ==> rows[k] in nz
  {
    if rows == [] then []
    else
      var front := NonZeroRows(rows[..|rows| - 1]);
      assert forall k :: 0 <= k < |rows| - 1 ==> rows[..|rows| - 1][k] == rows[k];
      if AllZero(rows[|rows| - 1]) then front else front + [rows[|rows| - 1]]
  }

  /** Line 24: the distinct non-zero rows (`np.unique` minus the all-zero
      row) are exactly one. */
  predicate ConstantCourse(rows: seq<seq<real>>)
  {
    var nz := NonZeroRows(rows);
    |nz| > 0 && forall k :: 0 <= k < |nz| ==> nz[k] == nz[0]
  }

  /** Line 26: that one row. */
  function MotionRow(rows: seq<seq<real>>): seq<real>
    requires ConstantCourse(rows)
  {
    NonZeroRows(rows)[0]
  }

  /** Line 28: kspace * (1 - mask) + kspace_motion * mask. */
  function Blend(k: Cube, km: Cube, mask: seq<seq<seq<real>>>, n0: nat, n1: nat, n2: nat): (r: Cube)
    requires IsCube(k, n0, n1, n2) && IsCube(km, n0, n1, n2) && IsCube(mask, n0, n1, n2)
    ensures IsCube(r, n0, n1, n2)
  {
    seq(n0, i requires 0 <= i < n0 => seq(n1, j requires 0 <= j < n1 => seq(n2, c requires 0 <= c < n2 =>
      CAdd(CScale(k[i][j][c], 1.0 - mask[i][j][c]), CScale(km[i][j][c], mask[i][j][c])))))
  }

  /** The shape the forward operator is given for every image. */
  lemma FwdShape<Img(!new)>(fwd: Img -> Cube, n0: nat, n1: nat, n2: nat, im: Img)
    requires forall im :: IsCube(fwd(im), n0, n1, n2)
    ensures IsCube(fwd(im), n0, n1, n2)
  {
  }

  lemma MovedShapes<Img(!new)>(img: Img, rows: seq<seq<real>>, fwd: Img -> Cube,
                               transform: (Img, seq<real>) -> Img, n0: nat, n1: nat, n2: nat)
    requires forall im :: IsCube(fwd(im), n0, n1, n2)
    ensures forall j :: 0 <= j < |rows| ==> IsCube(fwd(transform(img, rows[j])), n0, n1, n2)
  {
    forall j | 0 <= j < |rows| {
      FwdShape(fwd, n0, n1, n2, transform(img, rows[j]));
    }
  }

  /** k-space of shape (n0, n1, n2) in which line j < upTo comes from the
      image moved with the parameters of row j and the other lines are zero. */
  function PartialCourse<Img(!new)>(img: Img, rows: seq<seq<real>>, fwd: Img -> Cube,
                               transform: (Img, seq<real>) -> Img,
                               n0: nat, n1: nat, n2: nat, upTo: nat): (r: Cube)
    requires forall im :: IsCube(fwd(im), n0, n1, n2)
    requires upTo <= n1 && upTo <= |rows|
    ensures IsCube(r, n0, n1, n2)
  {
    MovedShapes(img, rows, fwd, transform, n0, n1, n2);
    seq(n0, i requires 0 <= i < n0 => seq(n1, j requires 0 <= j < n1 =>
      if j < upTo then fwd(transform(img, rows[j]))[i][j] else seq(n2, _ => CZero)))
  }

  /** One iteration of the loop at line 32 fills line j from row j. */
  lemma PartialCourseStep<Img(!new)>(img: Img, rows: seq<seq<real>>, fwd: Img -> Cube,
                                     transform: (Img, seq<real>) -> Img, n0: nat, n1: nat, n2: nat, j: nat)
    requires forall im :: IsCube(fwd(im), n0, n1, n2)
    requires j < n1 && j < |rows|
    ensures var k, line := PartialCourse(img, rows, fwd, transform, n0, n1, n2, j), fwd(transform(img, rows[j]));
      IsCube(line, n0, n1, n2) &&
      PartialCourse(img, rows, fwd, transform, n0, n1, n2, j + 1) == seq(n0, i requires 0 <= i < n0 => k[i][j := line[i][j]])
  {
    var k, k' := PartialCourse(img, rows, fwd, transform, n0, n1, n2, j), PartialCourse(img, rows, fwd, transform, n0, n1, n2, j + 1);
    var line := fwd(transform(img, rows[j]));
    FwdShape(fwd, n0, n1, n2, transform(img, rows[j]));
    var u := seq(n0, i requires 0 <= i < n0 => k[i][j := line[i][j]]);
    forall i | 0 <= i < n0
      ensures k'[i] == u[i]
    {
      assert forall l :: 0 <= l < n1 ==> k'[i][l] == u[i][l];
    }
  }

  /** Lines 29-33: the loop runs over the image's second axis (of size ny);
      a line beyond the course or beyond k-space raises IndexError. */
  function TimeCourse<Img(!new)>(img: Img, rows: seq<seq<real>>, fwd: Img -> Cube,
                           transform: (Img, seq<real>) -> Img,
                           n0: nat, n1: nat, n2: nat, ny: nat): Result<Cube>
    requires forall im :: IsCube(fwd(im), n0, n1, n2)
  {
    if ny > n1 || ny > |rows| then Err(IndexError)
    else Ok(PartialCourse(img, rows, fwd, transform, n0, n1, n2, ny))
  }

  /** simulate_motion(img, smaps, mask, p), with `fwd` standing for
      mriForwardOp(., smaps, mask), of shape (n0, n1, n2), and `transform` for
      transform_img; ny is the size of the image's second axis. The result is
      the corrupted k-space and the motion mask. */
  function SimulateSpec<Img(!new)>(img: Img, p: Motion, fwd: Img -> Cube, transform: (Img, seq<real>) -> Img,
                             n0: nat, n1: nat, n2: nat, ny: nat): Result<(Cube, seq<seq<seq<real>>>)>
    requires forall im :: IsCube(fwd(im), n0, n1, n2)
    requires p.Course? ==> |p.rows| == n1
  {
    var mask := MotionMask(p, n0, n1, n2);
    FwdShape(fwd, n0, n1, n2, img);
    if p.Fixed? then FwdShape(fwd, n0, n1, n2, transform(img, p.q)); Ok((Blend(fwd(img), fwd(transform(img, p.q)), mask, n0, n1, n2), mask))
    else if ConstantCourse(p.rows) then
      FwdShape(fwd, n0, n1, n2, transform(img, MotionRow(p.rows)));
      Ok((Blend(fwd(img), fwd(transform(img, MotionRow(p.rows))), mask, n0, n1, n2), mask))
    else match TimeCourse(img, p.rows, fwd, transform, n0, n1, n2, ny)
      case Err(e) => Err(e)
      case Ok(k) => Ok((k, mask))
  }

  method SimulateMotion<Img(!new)>(img: Img, p: Motion, fwd: Img -> Cube, transform: (Img, seq<real>) -> Img,
                             n0: nat, n1: nat, n2: nat, ny: nat)
    returns (r: Result<(Cube, seq<seq<seq<real>>>)>)
    requires forall im :: IsCube(fwd(im), n0, n1, n2)
    requires p.Course? ==> |p.rows| == n1
    ensures r == SimulateSpec(img, p, fwd, transform, n0, n1, n2, ny)
  {
    var kspace := fwd(img);
    FwdShape(fwd, n0, n1, n2, img);
    var mask := MotionMask(p, n0, n1, n2);
    if p.Fixed? || ConstantCourse(p.rows) {
      var q := if p.Fixed? then p.q else MotionRow(p.rows);
      var kMotion := fwd(transform(img, q));
      FwdShape(fwd, n0, n1, n2, transform(img, q));
      return Ok((Blend(kspace, kMotion, mask, n0, n1, n2), mask));
    }
    var rows := p.rows;
    var kAff := PartialCourse(img, rows, fwd, transform, n0, n1, n2, 0);
    var ky := 0;
    while ky < ny
      invariant ky <= ny && ky <= n1 && ky <= |rows|
      invariant kAff == PartialCourse(img, rows, fwd, transform, n0, n1, n2, ky)
    {
      if ky >= |rows| || ky >= n1 {
        return Err(IndexError);
      }
      var line := fwd(transform(img, rows[ky]));
      PartialCourseStep(img, rows, fwd, transform, n0, n1, n2, ky);
      kAff := seq(n0, i requires 0 <= i < n0 => kAff[i][ky := line[i][ky]]);
      ky := ky + 1;
    }
    r := Ok((kAff, mask));
  }

  // Properties of simulate_motion

  /** A fixed parameter vector moves every line: the result is the k-space of
      the moved image and the mask is all ones. */
  lemma FixedMotion<Img(!new)>(img: Img, q: seq<real>, fwd: Img -> Cube, transform: (Img, seq<real>) -> Img,
                         n0: nat, n1: nat, n2: nat, ny: nat)
    requires forall im :: IsCube(fwd(im), n0, n1, n2)
    ensures var r := SimulateSpec(img, Fixed(q), fwd, transform, n0, n1, n2, ny);
      r.Ok? && r.value.0 == fwd(transform(img, q)) &&
      forall i, j, c :: 0 <= i < n0 && 0 <= j < n1 && 0 <= c < n2 ==> r.value.1[i][j][c] == 1.0
  {
    var km := fwd(transform(img, q));
    var r := Blend(fwd(img), km, MotionMask(Fixed(q), n0, n1, n2), n0, n1, n2);
    forall i | 0 <= i < n0
      ensures r[i] == km[i]
    {
      forall j | 0 <= j < n1
        ensures r[i][j] == km[i][j]
      {
        assert forall c :: 0 <= c < n2 ==> r[i][j][c] == km[i][j][c];
      }
    }
  }

  /** The mask of a course marks line j exactly when its first five
      parameters sum to a non-zero value. */
  lemma CourseMask(rows: seq<seq<real>>, n0: nat, n1: nat, n2: nat, i: nat, j: nat, c: nat)
    requires |rows| == n1 && i < n0 && j < n1 && c < n2
    ensures MotionMask(Course(rows), n0, n1, n2)[i][j][c] == (if LineMoves(rows[j]) then 1.0 else 0.0)
  {
  }

  /** A course with a single distinct non-zero row is applied as that row:
      moving lines take the moved image's k-space, the others keep the
      motion-free k-space. */
  lemma ConstantCourseBlend<Img(!new)>(img: Img, rows: seq<seq<real>>, fwd: Img -> Cube, transform: (Img, seq<real>) -> Img,
                                 n0: nat, n1: nat, n2: nat, ny: nat)
    requires forall im :: IsCube(fwd(im), n0, n1, n2)
    requires |rows| == n1 && ConstantCourse(rows)
    ensures forall k :: 0 <= k < |rows| && !AllZero(rows[k]) ==> rows[k] == MotionRow(rows)
    ensures var r := SimulateSpec(img, Course(rows), fwd, transform, n0, n1, n2, ny);
      r.Ok? &&
      forall i, j, c :: 0 <= i < n0 && 0 <= j < n1 && 0 <= c < n2 ==>
        r.value.0[i][j][c] == (if LineMoves(rows[j]) then fwd(transform(img, MotionRow(rows)))[i][j][c]
                               else fwd(img)[i][j][c])
  {
    var nz := NonZeroRows(rows);
    forall k | 0 <= k < |rows| && !AllZero(rows[k])
      ensures rows[k] == MotionRow(rows)
    {
      var l :| 0 <= l < |nz| && nz[l] == rows[k];
    }
  }

  /** Conversely, a course whose non-zero rows all equal one non-zero row q
      is a constant course with motion row q. */
  lemma ConstantCourseFromRow(rows: seq<seq<real>>, q: seq<real>, k0: nat)
    requires k0 < |rows| && rows[k0] == q && !AllZero(q)
    requires forall k :: 0 <= k < |rows| && !AllZero(rows[k]) ==> rows[k] == q
    ensures ConstantCourse(rows) && MotionRow(rows) == q
  {
    var nz := NonZeroRows(rows);
    assert q in nz;
    forall k | 0 <= k < |nz|
      ensures nz[k] == q
    {
      var l :| 0 <= l < |rows| && rows[l] == nz[k];
    }
  }

  /** In the time-dependent branch, line j < ny of the result is line j of
      the k-space of the image moved with row j, and lines from ny on are
      zero. */
  lemma TimeCourseLines<Img(!new)>(img: Img, rows: seq<seq<real>>, fwd: Img -> Cube, transform: (Img, seq<real>) -> Img,
                             n0: nat, n1: nat, n2: nat, ny: nat)
    requires forall im :: IsCube(fwd(im), n0, n1, n2)
    requires ny <= n1 == |rows|
    ensures var r := TimeCourse(img, rows, fwd, transform, n0, n1, n2, ny);
      r.Ok? && IsCube(r.value, n0, n1, n2) &&
      (forall i, j :: 0 <= i < n0 && 0 <= j < ny ==> r.value[i][j] == fwd(transform(img, rows[j]))[i][j]) &&
      (forall i, j, c :: 0 <= i < n0 && ny <= j < n1 && 0 <= c < n2 ==> r.value[i][j][c] == CZero)
  {
  }

  /** Nothing but row j contributes to line j: two courses that agree on row
      j give the same line j. */
  lemma TimeCourseLocal<Img(!new)>(img: Img, rows: seq<seq<real>>, rows': seq<seq<real>>, fwd: Img -> Cube,
                             transform: (Img, seq<real>) -> Img, n0: nat, n1: nat, n2: nat, ny: nat, j: nat)
    requires forall im :: IsCube(fwd(im), n0, n1, n2)
    requires ny <= n1 == |rows| == |rows'| && j < n1 && rows[j] == rows'[j]
    ensures var r, r' := TimeCourse(img, rows, fwd, transform, n0, n1, n2, ny),
                         TimeCourse(img, rows', fwd, transform, n0, n1, n2, ny);
      r.Ok? && r'.Ok? && forall i :: 0 <= i < n0 ==> r.value[i][j] == r'.value[i][j]
  {
  }

  /** Run over all lines with every row equal to q, the time-dependent
      branch yields the k-space of the image moved with q. */
  lemma TimeCourseOfConstantRows<Img(!new)>(img: Img, rows: seq<seq<real>>, q: seq<real>, fwd: Img -> Cube,
                                      transform: (Img, seq<real>) -> Img, n0: nat, n1: nat, n2: nat)
    requires forall im :: IsCube(fwd(im), n0, n1, n2)
    requires n1 == |rows| && forall k :: 0 <= k < |rows| ==> rows[k] == q
    ensures TimeCourse(img, rows, fwd, transform, n0, n1, n2, n1) == Ok(fwd(transform(img, q)))
  {
    var r := PartialCourse(img, rows, fwd, transform, n0, n1, n2, n1);
    var km := fwd(transform(img, q));
    FwdShape(fwd, n0, n1, n2, transform(img, q));
    forall i | 0 <= i < n0
      ensures r[i] == km[i]
    {
      assert forall j :: 0 <= j < n1 ==> r[i][j] == km[i][j];
    }
    assert r == km;
  }

  /** Too many lines in the image for k-space or for the course raise
      IndexError in the time-dependent branch. */
  lemma TimeCourseRaises<Img(!new)>(img: Img, rows: seq<seq<real>>, fwd: Img -> Cube, transform: (Img, seq<real>) -> Img,
                              n0: nat, n1: nat, n2: nat, ny: nat)
    requires forall im :: IsCube(fwd(im), n0, n1, n2)
    requires n1 == |rows| && !ConstantCourse(rows) && ny > n1
    ensures SimulateSpec(img, Course(rows), fwd, transform, n0, n1, n2, ny) == Err(IndexError)
  {
  }

  // ---------------------------------------------------------------------------
  // The mask of line 21 against the comment of line 12
  // ---------------------------------------------------------------------------

  /** The documented rule: a line moves when any of its first five
      parameters is non-zero. */
  predicate LineMovesAny(row: seq<real>)
  {
    exists k :: 0 <= k < |Head5(row)| && Head5(row)[k] != 0.0
  }

  lemma {:induction false} SumOfZeros(xs: seq<real>)
    requires forall k :: 0 <= k < |xs| ==> xs[k] == 0.0
    ensures Sum(xs) == 0.0
  {
    if xs != [] {
      SumOfZeros(xs[..|xs| - 1]);
    }
  }

  lemma SumSnoc(xs: seq<real>, x: real)
    ensures Sum(xs + [x]) == Sum(xs) + x
  {
    assert (xs + [x])[..|xs|] == xs;
  }

  lemma {:induction false} SumAppend(xs: seq<real>, ys: seq<real>)
    ensures Sum(xs + ys) == Sum(xs) + Sum(ys)
    decreases |ys|
  {
    if ys == [] {
      assert xs + ys == xs;
    } else {
      var ys', y := ys[..|ys| - 1], ys[|ys| - 1];
      assert xs + ys == (xs + ys') + [y];
      assert ys == ys' + [y];
      SumAppend(xs, ys');
      SumSnoc(xs + ys', y);
      SumSnoc(ys', y);
    }
  }

  /** Every line the code marks is a line the documented rule marks. */
  lemma LineMovesIsAny(row: seq<real>)
    ensures LineMoves(row) ==> LineMovesAny(row)
  {
    if !LineMovesAny(row) {
      SumOfZeros(Head5(row));
    }
  }

  /** As written, parameters that cancel in the sum hide a moving line. */
  lemma CancellingRowHidden()
    ensures var row := [0.5, -0.5, 0.0, 0.0, 0.0, 0.0];
      LineMovesAny(row) && !LineMoves(row)
  {
    var row := [0.5, -0.5, 0.0, 0.0, 0.0, 0.0];
    var h := Head5(row);
    assert h == [0.5, -0.5] + [0.0, 0.0, 0.0];
    SumSnoc([], 0.5);
    SumSnoc([0.5], -0.5);
    SumOfZeros([0.0, 0.0, 0.0]);
    SumAppend([0.5, -0.5], [0.0, 0.0, 0.0]);
    assert h[0] != 0.0;
  }

  /** The mask of lines 18-22 under the documented rule of line 12. */
  function MotionMaskDocumented(p: Motion, n0: nat, n1: nat, n2: nat): (mask: seq<seq<seq<real>>>)
    requires p.Course? ==> |p.rows| == n1
    ensures IsCube(mask, n0, n1, n2)
  {
    seq(n0, i => seq(n1, j requires 0 <= j < n1 =>
      seq(n2, c => if p.Fixed? || LineMovesAny(p.rows[j]) then 1.0 else 0.0)))
  }

  lemma {:induction false} SumPositive(xs: seq<real>, k: nat)
    requires forall l :: 0 <= l < |xs| ==> xs[l] >= 0.0
    requires k < |xs| && xs[k] > 0.0
    ensures Sum(xs) > 0.0
  {
    var front := xs[..|xs| - 1];
    if k == |xs| - 1 {
      SumNonNegative(front);
    } else {
      SumPositive(front, k);
    }
  }

  lemma {:induction false} SumNonNegative(xs: seq<real>)
    requires forall l :: 0 <= l < |xs| ==> xs[l] >= 0.0
    ensures Sum(xs) >= 0.0
  {
    if xs != [] {
      SumNonNegative(xs[..|xs| - 1]);
    }
  }

  /** The documented mask marks every line the code marks, and the two
      agree on a line whose first five parameters are all non-negative. */
  lemma DocumentedMaskCovers(p: Motion, n0: nat, n1: nat, n2: nat, i: nat, j: nat, c: nat)
    requires p.Course? ==> |p.rows| == n1
    requires i < n0 && j < n1 && c < n2
    ensures MotionMask(p, n0, n1, n2)[i][j][c] == 1.0 ==> MotionMaskDocumented(p, n0, n1, n2)[i][j][c] == 1.0
    ensures p.Course? && (forall k :: 0 <= k < |Head5(p.rows[j])| ==> Head5(p.rows[j])[k] >= 0.0) ==>
      MotionMask(p, n0, n1, n2)[i][j][c] == MotionMaskDocumented(p, n0, n1, n2)[i][j][c]
  {
    if p.Course? {
      var row := p.rows[j];
      LineMovesIsAny(row);
      if (forall k :: 0 <= k < |Head5(row)| ==> Head5(row)[k] >= 0.0) && LineMovesAny(row) {
        var k :| 0 <= k < |Head5(row)| && Head5(row)[k] != 0.0;
        SumPositive(Head5(row), k);
      }
    }
  }

  /** On the cancelling row the two masks differ. */
  lemma CancellingRowMasks(n0: nat, n2: nat)
    requires n0 > 0 && n2 > 0
    ensures var p := Course([[0.5, -0.5, 0.0, 0.0, 0.0, 0.0]]);
      MotionMask(p, n0, 1, n2)[0][0][0] == 0.0 && MotionMaskDocumented(p, n0, 1, n2)[0][0][0] == 1.0
  {
    CancellingRowHidden();
  }
}
