/** Centred zero-padding of a two-dimensional array (zpad): per-axis pad
    amounts from floor/ceil window formulas, then constant padding. */
module Padding {
  import opened Common

  // ---------------------------------------------------------------------------
  // Pad amounts of one axis (padding.py lines 20-32)
  // ---------------------------------------------------------------------------

  /** Amounts of padding before and after one axis. */
  datatype Pad = Pad(before: nat, after: nat)

  /** The bounds (start, stop) of the index window `np.arange(start, stop)`
      that lines 24-27 compute for target s and current size m. */
  function WindowStart(s: int, m: int): int
  {
    if s % 2 == 0 then FloorHalf(s) + 1 + CeilHalf(-m) - 1
    else FloorHalf(s) + CeilHalf(-m) - 1
  }

  function WindowStop(s: int, m: int): int
  {
    if s % 2 == 0 then FloorHalf(s) + CeilHalf(m)
    else FloorHalf(s) + CeilHalf(m) - 1
  }

  /** Lines 24-32 for one axis: (0, 0) when the axis already has its target
      size; otherwise the distances of the window's first index from 0 and of
      its last index from s - 1, both taken absolutely. An empty window (an
      axis of size 0) has no first element: IndexError. */
  function AxisPad(s: int, m: nat): Result<Pad>
  {
    var idx := Arange(WindowStart(s, m), WindowStop(s, m));
    if s == m then Ok(Pad(0, 0))
    else if idx == [] then Err(IndexError)
    else Ok(Pad(Abs(idx[0]), Abs(s - 1 - idx[|idx| - 1])))
  }

  /** The pad list lines 20-32 build for the first |s| axes of an array of
      shape m. */
  function Widths(s: seq<int>, m: seq<nat>, n: nat): (r: Result<seq<Pad>>)
    requires n <= |s| <= |m|
    ensures r.Ok? ==> |r.value| == n
  {
    if n == 0 then Ok([])
    else match Widths(s, m, n - 1)
      case Err(e) => Err(e)
      case Ok(ws) =>
        match AxisPad(s[n - 1], m[n - 1])
        case Err(e) => Err(e)
        case Ok(p) => Ok(ws + [p])
  }

  /** The `for n` loop of lines 20-32. */
  method PadWidths(s: seq<int>, m: seq<nat>) returns (r: Result<seq<Pad>>)
    requires |s| <= |m|
    ensures r == Widths(s, m, |s|)
    ensures r.Ok? ==> |r.value| == |s| && forall n :: 0 <= n < |s| ==> AxisPad(s[n], m[n]) == Ok(r.value[n])
  {
    var diff: seq<Pad> := [];
    var n := 0;
    while n < |s|
      invariant 0 <= n <= |s|
      invariant Widths(s, m, n) == Ok(diff)
      invariant |diff| == n && forall k :: 0 <= k < n ==> AxisPad(s[k], m[k]) == Ok(diff[k])
    {
      var p := AxisPad(s[n], m[n]);
      if p.Err? {
        r := Err(p.error);
        WidthsErr(s, m, n + 1, |s|);
        return;
      }
      diff := diff + [p.value];
      n := n + 1;
    }
    r := Ok(diff);
  }

  /** The pad lists of one and of two axes whose amounts exist. */
  lemma WidthsOk(s: seq<int>, m: seq<nat>)
    requires 1 <= |s| <= 2 <= |m|
    requires forall k :: 0 <= k < |s| ==> AxisPad(s[k], m[k]).Ok?
    ensures Widths(s, m, 1) == Ok([AxisPad(s[0], m[0]).value])
    ensures |s| == 2 ==> Widths(s, m, 2) == Ok([AxisPad(s[0], m[0]).value, AxisPad(s[1], m[1]).value])
  {
    var w0 := AxisPad(s[0], m[0]).value;
    assert Widths(s, m, 1) == Ok([] + [w0]);
    assert [] + [w0] == [w0];
    if |s| == 2 {
      var w1 := AxisPad(s[1], m[1]).value;
      assert Widths(s, m, 2) == Ok([w0] + [w1]);
      assert [w0] + [w1] == [w0, w1];
    }
  }

  /** Once an axis fails, the whole list fails with the same error. */
  lemma {:induction false} WidthsErr(s: seq<int>, m: seq<nat>, n: nat, k: nat)
    requires 1 <= n <= k <= |s| <= |m| && Widths(s, m, n).Err?
    ensures Widths(s, m, k) == Widths(s, m, n)
    decreases k - n
  {
    if n < k {
      WidthsErr(s, m, n + 1, k);
    }
  }

  // ---------------------------------------------------------------------------
  // np.pad and zpad (padding.py lines 3-35)
  // ---------------------------------------------------------------------------

  /** `np.pad(x, ((b0, a0), (b1, a1)), mode='constant')`: x placed at offset
      (b0, b1) of a larger array filled with zero. */
  function PadGrid<T>(x: seq<seq<T>>, nx: nat, ny: nat, p0: Pad, p1: Pad, zero: T): (r: seq<seq<T>>)
    requires IsGrid(x, nx, ny)
    ensures IsGrid(r, p0.before + nx + p0.after, p1.before + ny + p1.after)
  {
    seq(p0.before + nx + p0.after, i =>
      seq(p1.before + ny + p1.after, j =>
        if p0.before <= i < p0.before + nx && p1.before <= j < p1.before + ny
        then x[i - p0.before][j - p1.before] else zero))
  }

  /** zpad(x, s) on a two-dimensional x of shape (nx, ny), zero being the
      zero of x's element type. A longer target makes line 15 call np.ones
      with a dtype that is not a type (TypeError); a one-element target is
      compared against both axes by broadcasting and its one pad pair is
      applied to both axes; an empty target leaves np.pad an empty, hence
      floating-point, pad_width, which it refuses with TypeError. */
  function ZpadSpec<T>(x: seq<seq<T>>, nx: nat, ny: nat, s: seq<int>, zero: T): Result<seq<seq<T>>>
    requires IsGrid(x, nx, ny)
  {
    if |s| > 2 then Err(TypeError)
    else if SameShape(s, nx, ny) then Ok(x)
    else ZpadApply(x, nx, ny, s, Widths(s, [nx, ny], |s|), zero)
  }

  /** Lines 34-35 on the pad list of lines 20-32, or its error. */
  function ZpadApply<T>(x: seq<seq<T>>, nx: nat, ny: nat, s: seq<int>, ws: Result<seq<Pad>>, zero: T): Result<seq<seq<T>>>
    requires IsGrid(x, nx, ny) && |s| <= 2 && (ws.Ok? ==> |ws.value| == |s|)
  {
    match ws
    case Err(e) => Err(e)
    case Ok(ps) =>
      if |s| == 0 then Err(TypeError)
      else if |s| == 1 then Ok(PadGrid(x, nx, ny, ps[0], ps[0], zero))
      else Ok(PadGrid(x, nx, ny, ps[0], ps[1], zero))
  }

  method Zpad<T>(x: seq<seq<T>>, nx: nat, ny: nat, s: seq<int>, zero: T) returns (r: Result<seq<seq<T>>>)
    requires IsGrid(x, nx, ny)
    ensures r == ZpadSpec(x, nx, ny, s, zero)
  {
    if |s| > 2 {
      return Err(TypeError);
    }
    if SameShape(s, nx, ny) {
      return Ok(x);
    }
    var ws := PadWidths(s, [nx, ny]);
    r := ZpadApply(x, nx, ny, s, ws, zero);
  }

  // ---------------------------------------------------------------------------
  // Properties
  // ---------------------------------------------------------------------------

  /** An array already of the target shape is returned as it is. */
  lemma ZpadSameShape<T>(x: seq<seq<T>>, nx: nat, ny: nat, zero: T)
    requires IsGrid(x, nx, ny)
    ensures ZpadSpec(x, nx, ny, [nx, ny], zero) == Ok(x)
  {
  }

  /** An axis at its target size gets no padding. */
  lemma AxisPadUnchanged(m: nat)
    ensures AxisPad(m, m) == Ok(Pad(0, 0))
  {
  }

  /** An even target s >= m >= 1 pads floor(s/2) - floor(m/2) before and
      s - m in total, so the axis reaches length s. */
  lemma AxisPadEven(s: int, m: nat)
    requires s % 2 == 0 && 1 <= m <= s
    ensures AxisPad(s, m).Ok?
    ensures AxisPad(s, m).value.before == FloorHalf(s) - FloorHalf(m)
    ensures AxisPad(s, m).value.before + AxisPad(s, m).value.after == s - m
  {
  }

  /** An odd target s > m >= 1 whose window starts at or after 0 also pads
      s - m in total; the start is floor(s/2) - floor(m/2) - 1. */
  lemma AxisPadOdd(s: int, m: nat)
    requires s % 2 == 1 && 1 <= m < s
    ensures WindowStart(s, m) == FloorHalf(s) - FloorHalf(m) - 1
    ensures AxisPad(s, m).Ok?
    ensures WindowStart(s, m) >= 0 ==>
      AxisPad(s, m).value.before == WindowStart(s, m) &&
      AxisPad(s, m).value.before + AxisPad(s, m).value.after == s - m
    ensures WindowStart(s, m) < 0 <==> s == m + 1 && m % 2 == 0
  {
  }

  /** As written: for an odd target one more than an even size, the window
      starts at -1, and the absolute values at line 30 pad 1 before and 2
      after, so the axis ends up with length s + 2 instead of s. */
  lemma OddTargetOverpads(m: nat)
    requires m >= 2 && m % 2 == 0
    ensures WindowStart(m + 1, m) == -1
    ensures AxisPad(m + 1, m) == Ok(Pad(1, 2))
  {
  }

  /** zpad of a 4-by-4 array to 5-by-5 yields a 7-by-7 array. */
  lemma OddTargetExample(x: seq<seq<int>>)
    requires IsGrid(x, 4, 4)
    ensures ZpadSpec(x, 4, 4, [5, 5], 0).Ok?
    ensures IsGrid(ZpadSpec(x, 4, 4, [5, 5], 0).value, 7, 7)
  {
    OddTargetOverpads(4);
    WidthsOk([5, 5], [4, 4]);
  }

  /** With a pad pair for both axes, zpad to a two-element target is np.pad
      with exactly those pairs. */
  lemma ZpadBothAxes<T>(x: seq<seq<T>>, nx: nat, ny: nat, s0: int, s1: int, zero: T)
    requires IsGrid(x, nx, ny) && (s0 != nx || s1 != ny)
    requires AxisPad(s0, nx).Ok? && AxisPad(s1, ny).Ok?
    ensures ZpadSpec(x, nx, ny, [s0, s1], zero) ==
      Ok(PadGrid(x, nx, ny, AxisPad(s0, nx).value, AxisPad(s1, ny).value, zero))
  {
    WidthsOk([s0, s1], [nx, ny]);
  }

  /** An axis without a pad pair makes zpad raise that axis's error. */
  lemma ZpadAxisRaises<T>(x: seq<seq<T>>, nx: nat, ny: nat, s0: int, s1: int, zero: T)
    requires IsGrid(x, nx, ny) && (s0 != nx || s1 != ny)
    ensures AxisPad(s0, nx).Err? ==> ZpadSpec(x, nx, ny, [s0, s1], zero) == Err(AxisPad(s0, nx).error)
    ensures AxisPad(s0, nx).Ok? && AxisPad(s1, ny).Err? ==>
      ZpadSpec(x, nx, ny, [s0, s1], zero) == Err(AxisPad(s1, ny).error)
  {
    var s, m := [s0, s1], [nx, ny];
    if AxisPad(s0, nx).Err? {
      assert Widths(s, m, 1) == Err(AxisPad(s0, nx).error);
      WidthsErr(s, m, 1, 2);
    } else if AxisPad(s1, ny).Err? {
      assert Widths(s, m, 1).Ok?;
      assert Widths(s, m, 2) == Err(AxisPad(s1, ny).error);
    }
  }

  /** np.pad keeps the input at the before-offsets and fills the rest with the
      zero value. */
  lemma PadGridContents<T>(x: seq<seq<T>>, nx: nat, ny: nat, p0: Pad, p1: Pad, zero: T)
    requires IsGrid(x, nx, ny)
    ensures var r := PadGrid(x, nx, ny, p0, p1, zero);
      (forall i, j :: 0 <= i < nx && 0 <= j < ny ==> r[p0.before + i][p1.before + j] == x[i][j]) &&
      (forall i, j ::
         0 <= i < |r| && 0 <= j < |r[i]| && !(p0.before <= i < p0.before + nx && p1.before <= j < p1.before + ny)
         ==> r[i][j] == zero)
  {
  }

  /** Even targets at least as large as the input give exactly the target
      shape. */
  lemma ZpadEvenShape<T>(x: seq<seq<T>>, nx: nat, ny: nat, s: seq<int>, zero: T)
    requires IsGrid(x, nx, ny) && |s| == 2 && (s[0] != nx || s[1] != ny)
    requires 1 <= nx <= s[0] && 1 <= ny <= s[1] && s[0] % 2 == 0 && s[1] % 2 == 0
    ensures ZpadSpec(x, nx, ny, s, zero).Ok?
    ensures IsGrid(ZpadSpec(x, nx, ny, s, zero).value, s[0], s[1])
  {
    AxisPadEven(s[0], nx);
    AxisPadEven(s[1], ny);
    WidthsOk(s, [nx, ny]);
  }

  /** A one-element target is compared against both axes, and the pad pair
      of the first axis is applied to both. */
  lemma ZpadBroadcast<T>(x: seq<seq<T>>, nx: nat, ny: nat, t: int, zero: T)
    requires IsGrid(x, nx, ny) && (t != nx || t != ny) && AxisPad(t, nx).Ok?
    ensures ZpadSpec(x, nx, ny, [t], zero) == Ok(PadGrid(x, nx, ny, AxisPad(t, nx).value, AxisPad(t, nx).value, zero))
  {
    WidthsOk([t], [nx, ny]);
  }

  /** The errors: a target of more than two axes, an empty target, and an
      axis of size 0 that must grow. */
  lemma ZpadErrors<T>(x: seq<seq<T>>, nx: nat, ny: nat, s: seq<int>, zero: T)
    requires IsGrid(x, nx, ny)
    ensures |s| > 2 ==> ZpadSpec(x, nx, ny, s, zero) == Err(TypeError)
    ensures |s| == 0 ==> ZpadSpec(x, nx, ny, s, zero) == Err(TypeError)
    ensures |s| == 2 && nx == 0 && s[0] != 0 ==> ZpadSpec(x, nx, ny, s, zero) == Err(IndexError)
  {
    if |s| == 2 && nx == 0 && s[0] != 0 {
      assert Widths(s, [nx, ny], 1) == Err(IndexError);
      WidthsErr(s, [nx, ny], 1, 2);
    }
  }

  // ---------------------------------------------------------------------------
  // The evidently intended centring
  // ---------------------------------------------------------------------------

  /** Padding that puts element floor(m/2) at floor(s/2), the convention of the
      even branch, for every target s >= m. */
  function CentredPad(s: int, m: nat): (p: Pad)
    requires s >= m
    ensures p.before + p.after == s - m
    ensures p.before == FloorHalf(s) - FloorHalf(m)
  {
    Pad(FloorHalf(s) - FloorHalf(m), CeilHalf(s) - CeilHalf(m))
  }

  /** The correction agrees with the code on even targets and on every axis
      left unchanged. */
  lemma CentredPadAgrees(s: int, m: nat)
    requires s >= m >= 1 && (s % 2 == 0 || s == m)
    ensures AxisPad(s, m) == Ok(CentredPad(s, m))
  {
  }

  /** An odd target two above an odd size keeps the size but not the centre:
      the code pads 3 lines to 5 as (0, 2), the centred padding as (1, 1). */
  lemma OddTargetShifted()
    ensures AxisPad(5, 3) == Ok(Pad(0, 2))
    ensures CentredPad(5, 3) == Pad(1, 1)
  {
  }

  /** Centred zero-padding to a target of at least the array's shape. */
  function ZpadCentred<T>(x: seq<seq<T>>, nx: nat, ny: nat, s0: int, s1: int, zero: T): (r: seq<seq<T>>)
    requires IsGrid(x, nx, ny) && s0 >= nx && s1 >= ny
    ensures IsGrid(r, s0, s1)
  {
    PadGrid(x, nx, ny, CentredPad(s0, nx), CentredPad(s1, ny), zero)
  }

  /** The centred result holds element (i, j) of x at offset
      (floor(s0/2) - floor(nx/2), floor(s1/2) - floor(ny/2)) and zero
      everywhere else. */
  lemma ZpadCentredPlaces<T>(x: seq<seq<T>>, nx: nat, ny: nat, s0: int, s1: int, zero: T)
    requires IsGrid(x, nx, ny) && s0 >= nx && s1 >= ny
    ensures var r, b0, b1 := ZpadCentred(x, nx, ny, s0, s1, zero), FloorHalf(s0) - FloorHalf(nx), FloorHalf(s1) - FloorHalf(ny);
      (forall i, j :: 0 <= i < nx && 0 <= j < ny ==> r[b0 + i][b1 + j] == x[i][j]) &&
      (forall i, j :: 0 <= i < s0 && 0 <= j < s1 && !(b0 <= i < b0 + nx && b1 <= j < b1 + ny) ==> r[i][j] == zero)
  {
    PadGridContents(x, nx, ny, CentredPad(s0, nx), CentredPad(s1, ny), zero);
  }

  /** On even targets at least the array's size, zpad is the centred
      padding. */
  lemma ZpadIsCentred<T>(x: seq<seq<T>>, nx: nat, ny: nat, s: seq<int>, zero: T)
    requires IsGrid(x, nx, ny) && |s| == 2 && (s[0] != nx || s[1] != ny)
    requires 1 <= nx <= s[0] && 1 <= ny <= s[1] && s[0] % 2 == 0 && s[1] % 2 == 0
    ensures ZpadSpec(x, nx, ny, s, zero) == Ok(ZpadCentred(x, nx, ny, s[0], s[1], zero))
  {
    CentredPadAgrees(s[0], nx);
    CentredPadAgrees(s[1], ny);
    WidthsOk(s, [nx, ny]);
  }
}
