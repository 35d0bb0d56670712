/** Cartesian undersampling masks (generate_mask): every R-th phase-encoding
    line, or a random selection, plus a fully sampled centre block, repeated
    over the frequency-encoding lines. */
module CartesianSampling {
  import opened Common

  // ---------------------------------------------------------------------------
  // Python slice semantics
  // ---------------------------------------------------------------------------

  /** One bound of `a[lo:hi]` on a sequence of length n: a negative bound
      counts from the end, and the result is clamped into [0, n]. */
  function SliceBound(b: int, n: nat): (r: int)
    ensures 0 <= r <= n
    ensures 0 <= b <= n ==> r == b
    ensures b < 0 && 0 <= b + n ==> r == b + n
  {
    if b < 0 then (if b + n < 0 then 0 else b + n)
    else if b > n then n
    else b
  }

  /** Line k belongs to `mask[::R]` on nPE lines: for R > 0 the lines
      0, R, 2R, ...; for R < 0 the lines nPE-1, nPE-1+R, ... */
  predicate OnStep(k: int, r: int, nPE: nat)
    requires r != 0
  {
    if r > 0 then k % r == 0 else (nPE - 1 - k) % (-r) == 0
  }

  /** The centre block `nPE//2 - nRef//2 : nPE//2 + nRef//2` as a half-open
      range of line indices. */
  function CentreLo(nPE: nat, nRef: int): int
  {
    SliceBound(FloorHalf(nPE) - FloorHalf(nRef), nPE)
  }

  function CentreHi(nPE: nat, nRef: int): int
  {
    SliceBound(FloorHalf(nPE) + FloorHalf(nRef), nPE)
  }

  predicate InCentre(k: int, nPE: nat, nRef: int)
  {
    CentreLo(nPE, nRef) <= k < CentreHi(nPE, nRef)
  }

  /** A random draw of `np.random.choice([1, 0], nPE, ...)`: nPE values, each
      0 or 1 (no values for a negative nPE, which the call refuses). */
  predicate IsDraw(draw: seq<int>, nPE: int)
  {
    |draw| == (if nPE < 0 then 0 else nPE) && forall k :: 0 <= k < |draw| ==> draw[k] == 0 || draw[k] == 1
  }

  // ---------------------------------------------------------------------------
  // The mask, as a specification
  // ---------------------------------------------------------------------------

  /** The one-dimensional line mask lines 9-19 produce, or the exception they
      raise: a zero R divides by zero in `1/R`; a negative R gives negative
      probabilities; a negative nPE is a negative array size; `mask[::0]` has
      a zero step; any other mode is undefined. */
  function LineMask(r: int, nPE: int, nRef: int, mode: string, draw: seq<int>): (res: Result<seq<int>>)
    requires IsDraw(draw, nPE)
    ensures res.Ok? ==> nPE >= 0 && |res.value| == nPE
  {
    if mode == "random" then
      if r == 0 then Err(ZeroDivisionError)
      else if r < 0 || nPE < 0 then Err(ValueError)
      else Ok(seq(nPE, k requires 0 <= k < nPE => if InCentre(k, nPE, nRef) then 1 else draw[k]))
    else if mode == "regular" then
      if nPE < 0 || r == 0 then Err(ValueError)
      else Ok(seq(nPE, k requires 0 <= k < nPE => if InCentre(k, nPE, nRef) || OnStep(k, r, nPE) then 1 else 0))
    else Err(ValueError)
  }

  /** Lines 22-24: the line mask repeated over nFE rows with a trailing axis
      of length one (a negative nFE is a negative repeat count, ValueError). */
  function Expand(line: seq<int>, nFE: nat): (m: seq<seq<seq<int>>>)
    ensures IsCube(m, nFE, |line|, 1)
    ensures forall i, j :: 0 <= i < nFE && 0 <= j < |line| ==> m[i][j] == [line[j]]
  {
    seq(nFE, _ => seq(|line|, j requires 0 <= j < |line| => [line[j]]))
  }

  function MaskResult(r: int, nPE: int, nFE: int, nRef: int, mode: string, draw: seq<int>): Result<seq<seq<seq<int>>>>
    requires IsDraw(draw, nPE)
  {
    match LineMask(r, nPE, nRef, mode, draw)
    case Err(e) => Err(e)
    case Ok(line) => if nFE < 0 then Err(ValueError) else Ok(Expand(line, nFE))
  }

  // ---------------------------------------------------------------------------
  // generate_mask (cartesiansampling.py lines 3-24)
  // ---------------------------------------------------------------------------

  /** generate_mask(R, nPE, nFE, nRef, mode) with the random draw given. The
      line mask is built in an array by slice assignments, then expanded. */
  method GenerateMask(r: int, nPE: int, nFE: int, nRef: int, mode: string, draw: seq<int>)
    returns (res: Result<seq<seq<seq<int>>>>)
    requires IsDraw(draw, nPE)
    ensures res == MaskResult(r, nPE, nFE, nRef, mode, draw)
  {
    var mask: array<int>;
    if mode == "random" {
      if r == 0 {
        return Err(ZeroDivisionError);
      }
      if r < 0 || nPE < 0 {
        return Err(ValueError);
      }
      mask := new int[nPE](k requires 0 <= k < nPE => draw[k]);
    } else if mode == "regular" {
      if nPE < 0 || r == 0 {
        return Err(ValueError);
      }
      mask := new int[nPE](_ => 0);
      SetStride(mask, r);
    } else {
      return Err(ValueError);
    }
    var before := mask[..];
    SetCentre(mask, nRef);
    var line := mask[..];
    assert line == LineMask(r, nPE, nRef, mode, draw).value by {
      forall k | 0 <= k < nPE
        ensures line[k] == LineMask(r, nPE, nRef, mode, draw).value[k]
      {
        assert line[k] == if InCentre(k, nPE, nRef) then 1 else before[k];
      }
    }
    if nFE < 0 {
      return Err(ValueError);
    }
    res := Ok(Expand(line, nFE));
  }

  /** A draw for callers of regular mode, which draws nothing. */
  function NoDraw(nPE: int): (d: seq<int>)
    ensures IsDraw(d, nPE)
  {
    seq(if nPE < 0 then 0 else nPE, _ => 0)
  }

  /** generate_mask(R, nPE, nFE) with the default arguments nRef = 20 and
      mode = 'regular': the result of regular mode with any draw. */
  method GenerateMaskDefault(r: int, nPE: int, nFE: int) returns (res: Result<seq<seq<seq<int>>>>)
    ensures forall draw :: IsDraw(draw, nPE) ==> res == MaskResult(r, nPE, nFE, 20, "regular", draw)
  {
    res := GenerateMask(r, nPE, nFE, 20, "regular", NoDraw(nPE));
    forall draw | IsDraw(draw, nPE)
      ensures res == MaskResult(r, nPE, nFE, 20, "regular", draw)
    {
      RegularIgnoresDraw(r, nPE, nFE, 20, NoDraw(nPE), draw);
    }
  }

  /** Regular mode does not depend on the random draw. */
  lemma RegularIgnoresDraw(r: int, nPE: int, nFE: int, nRef: int, d1: seq<int>, d2: seq<int>)
    requires IsDraw(d1, nPE) && IsDraw(d2, nPE)
    ensures MaskResult(r, nPE, nFE, nRef, "regular", d1) == MaskResult(r, nPE, nFE, nRef, "regular", d2)
  {
    if nPE >= 0 && r != 0 {
      assert LineMask(r, nPE, nRef, "regular", d1) == LineMask(r, nPE, nRef, "regular", d2);
    }
  }

  /** `mask[::R] = 1`. */
  method SetStride(mask: array<int>, r: int)
    requires r != 0
    modifies mask
    ensures forall k :: 0 <= k < mask.Length ==>
      mask[k] == if OnStep(k, r, mask.Length) then 1 else old(mask[k])
  {
    var n := mask.Length;
    if r > 0 {
      var i := 0;
      while i < n
        invariant 0 <= i && i % r == 0
        invariant forall k :: 0 <= k < n ==>
          mask[k] == if k < i && OnStep(k, r, n) then 1 else old(mask[k])
        decreases n - i
      {
        mask[i] := 1;
        StrideGap(i, r);
        assert forall k :: i < k < i + r ==> !OnStep(k, r, n) by {
          forall k | i < k < i + r ensures !OnStep(k, r, n) { assert !Divides(r, k); }
        }
        i := i + r;
      }
    } else {
      var i := n - 1;
      while i >= 0
        invariant i <= n - 1 && (n - 1 - i) % (-r) == 0
        invariant forall k :: 0 <= k < n ==>
          mask[k] == if k > i && OnStep(k, r, n) then 1 else old(mask[k])
        decreases i
      {
        mask[i] := 1;
        StrideGapDown(i, r, n);
        i := i + r;
      }
    }
  }

  /** No line strictly between two consecutive strides is on the stride. */
  lemma StrideGap(i: int, r: int)
    requires r > 0 && i % r == 0
    ensures (i + r) % r == 0
    ensures forall k :: i < k < i + r ==> !Divides(r, k)
  {
    var q := i / r;
    DivModUnique(i + r, r, q + 1, 0);
    forall k | i < k < i + r
      ensures !Divides(r, k)
    {
      DivModUnique(k, r, q, k - i);
    }
  }

  predicate Divides(r: int, k: int)
    requires r > 0
  {
    k % r == 0
  }

  lemma StrideGapDown(i: int, r: int, n: nat)
    requires r < 0 && (n - 1 - i) % (-r) == 0
    ensures (n - 1 - (i + r)) % (-r) == 0
    ensures forall k :: i + r < k < i ==> !OnStep(k, r, n)
  {
    StrideGap(n - 1 - i, -r);
    forall k | i + r < k < i
      ensures !OnStep(k, r, n)
    {
      assert !Divides(-r, n - 1 - k);
    }
  }

  /** `mask[nPE//2 - nRef//2 : nPE//2 + nRef//2] = 1`. */
  method SetCentre(mask: array<int>, nRef: int)
    modifies mask
    ensures forall k :: 0 <= k < mask.Length ==>
      mask[k] == if InCentre(k, mask.Length, nRef) then 1 else old(mask[k])
  {
    var lo, hi := CentreLo(mask.Length, nRef), CentreHi(mask.Length, nRef);
    var k := lo;
    while k < hi
      invariant lo <= k && (k <= hi || k == lo)
      invariant forall j :: 0 <= j < mask.Length ==>
        mask[j] == if lo <= j < k then 1 else old(mask[j])
    {
      mask[k] := 1;
      k := k + 1;
    }
  }

  // ---------------------------------------------------------------------------
  // Properties of the mask
  // ---------------------------------------------------------------------------

  /** The number of sampled lines, `np.sum(mask)`. */
  function Sum(s: seq<int>): int
  {
    if s == [] then 0 else Sum(s[..|s| - 1]) + s[|s| - 1]
  }

  /** Only 'random' and 'regular' are defined modes. */
  lemma UnknownModeRaises(r: int, nPE: int, nFE: int, nRef: int, mode: string, draw: seq<int>)
    requires IsDraw(draw, nPE) && mode != "random" && mode != "regular"
    ensures MaskResult(r, nPE, nFE, nRef, mode, draw) == Err(ValueError)
  {
  }

  /** The exceptions the two modes raise, and success otherwise. */
  lemma MaskErrors(r: int, nPE: int, nFE: int, nRef: int, mode: string, draw: seq<int>)
    requires IsDraw(draw, nPE)
    ensures mode == "regular" ==> (MaskResult(r, nPE, nFE, nRef, mode, draw).Ok? <==> r != 0 && nPE >= 0 && nFE >= 0)
    ensures mode == "random" ==> (MaskResult(r, nPE, nFE, nRef, mode, draw).Ok? <==> r > 0 && nPE >= 0 && nFE >= 0)
    ensures mode == "random" && r == 0 ==> MaskResult(r, nPE, nFE, nRef, mode, draw) == Err(ZeroDivisionError)
    ensures (nPE < 0 || nFE < 0) && !(mode == "random" && r == 0) ==>
      MaskResult(r, nPE, nFE, nRef, mode, draw) == Err(ValueError)
  {
  }

  /** Every row of the result is the line mask, with shape nFE x nPE x 1. */
  lemma MaskShape(r: int, nPE: nat, nFE: nat, nRef: int, mode: string, draw: seq<int>)
    requires IsDraw(draw, nPE) && MaskResult(r, nPE, nFE, nRef, mode, draw).Ok?
    ensures var m, line := MaskResult(r, nPE, nFE, nRef, mode, draw).value, LineMask(r, nPE, nRef, mode, draw).value;
      IsCube(m, nFE, nPE, 1) &&
      forall i, j :: 0 <= i < nFE && 0 <= j < nPE ==> m[i][j] == [line[j]]
  {
  }

  /** Regular mode: line k is sampled exactly when it is on the stride or in
      the centre block, so every entry is 0 or 1. */
  lemma RegularLines(r: int, nPE: nat, nRef: int, draw: seq<int>, k: int)
    requires IsDraw(draw, nPE) && r != 0 && 0 <= k < nPE
    ensures var line := LineMask(r, nPE, nRef, "regular", draw).value;
      (line[k] == 1 <==> OnStep(k, r, nPE) || InCentre(k, nPE, nRef)) &&
      (line[k] == 0 <==> !OnStep(k, r, nPE) && !InCentre(k, nPE, nRef))
  {
  }

  /** For R > 0, lines 0, R, 2R, ... are sampled. */
  lemma StrideLinesSampled(r: int, nPE: nat, nRef: int, draw: seq<int>, j: nat)
    requires IsDraw(draw, nPE) && r > 0 && j * r < nPE
    ensures LineMask(r, nPE, nRef, "regular", draw).value[j * r] == 1
  {
    DivModUnique(j * r, r, j, 0);
  }

  /** In both modes, when 0 <= nRef <= nPE, the lines nPE//2 - nRef//2 up to
      nPE//2 + nRef//2 are sampled, whatever the draw. */
  lemma CentreSampled(r: int, nPE: nat, nRef: int, mode: string, draw: seq<int>, k: int)
    requires IsDraw(draw, nPE) && LineMask(r, nPE, nRef, mode, draw).Ok?
    requires 0 <= nRef <= nPE
    requires FloorHalf(nPE) - FloorHalf(nRef) <= k < FloorHalf(nPE) + FloorHalf(nRef)
    ensures 0 <= k < nPE && LineMask(r, nPE, nRef, mode, draw).value[k] == 1
  {
  }

  /** Every mask entry is 0 or 1, in both modes. */
  lemma MaskBinary(r: int, nPE: nat, nRef: int, mode: string, draw: seq<int>, k: int)
    requires IsDraw(draw, nPE) && LineMask(r, nPE, nRef, mode, draw).Ok? && 0 <= k < nPE
    ensures var v := LineMask(r, nPE, nRef, mode, draw).value[k]; v == 0 || v == 1
  {
  }

  /** The strided lines alone, as a 0/1 sequence. */
  function StrideMask(r: int, n: nat): (s: seq<int>)
    requires r != 0
    ensures |s| == n
  {
    seq(n, k requires 0 <= k < n => if OnStep(k, r, n) then 1 else 0)
  }

  lemma {:induction false} SumMonotone(a: seq<int>, b: seq<int>)
    requires |a| == |b| && forall k :: 0 <= k < |a| ==> a[k] >= b[k]
    ensures Sum(a) >= Sum(b)
  {
    if a != [] {
      SumMonotone(a[..|a| - 1], b[..|b| - 1]);
    }
  }

  /** 0, R, 2R, ... below n: R times their number is at least n. */
  lemma {:induction false} StrideCountUp(r: int, n: nat)
    requires r > 0
    ensures r * Sum(seq(n, k requires 0 <= k < n => if Divides(r, k) then 1 else 0)) >= n
  {
    var s := seq(n, k requires 0 <= k < n => if Divides(r, k) then 1 else 0);
    if n > 0 {
      var t := seq(n - 1, k requires 0 <= k < n - 1 => if Divides(r, k) then 1 else 0);
      assert s[..n - 1] == t;
      StrideCountUp(r, n - 1);
      assert Sum(s) == Sum(t) + s[n - 1];
      StrideStep(r, n - 1, Sum(t));
    }
  }

  /** One more line keeps R times the count at least the number of lines:
      either the line is on the stride, or the count already covered it. */
  lemma StrideStep(r: int, k: nat, c: int)
    requires r > 0 && r * c >= k
    ensures r * (c + if Divides(r, k) then 1 else 0) >= k + 1
  {
    if Divides(r, k) {
      assert r * (c + 1) == r * c + r;
    } else {
      // k = r*q + m with 0 < m < r, and r*c >= k forces c > q
      var q, m := k / r, k % r;
      assert r * (c - q) > 0 by {
        assert r * (c - q) == r * c - r * q;
      }
      MulPosCancel(r, c - q);
      MulLe(r, q + 1, c);
      assert r * (q + 1) == r * q + r;
    }
  }

  /** Sum is invariant under reversal, which turns the R < 0 stride into the
      stride -R counted from line 0. */
  lemma {:induction false} SumReverse(a: seq<int>, b: seq<int>)
    requires |a| == |b| && forall k :: 0 <= k < |a| ==> a[k] == b[|b| - 1 - k]
    ensures Sum(a) == Sum(b)
    decreases |a|
  {
    if |a| > 0 {
      var n := |a|;
      var a' := a[1..];
      var b' := b[..n - 1];
      SumReverse(a', b');
      SumFront(a);
    }
  }

  lemma {:induction false} SumFront(a: seq<int>)
    requires a != []
    ensures Sum(a) == a[0] + Sum(a[1..])
    decreases |a|
  {
    if |a| > 1 {
      SumFront(a[..|a| - 1]);
      assert a[..|a| - 1][1..] == a[1..][..|a| - 2];
    }
  }

  lemma StrideCount(r: int, n: nat)
    requires r != 0
    ensures Abs(r) * Sum(StrideMask(r, n)) >= n
  {
    var s := StrideMask(r, n);
    if r > 0 {
      assert s == seq(n, k requires 0 <= k < n => if Divides(r, k) then 1 else 0);
      StrideCountUp(r, n);
    } else {
      var u := seq(n, k requires 0 <= k < n => if Divides(-r, k) then 1 else 0);
      StrideCountUp(-r, n);
      SumReverse(s, u);
    }
  }

  /** Regular mode samples at least ceil(nPE / |R|) lines, so the effective
      acceleration Reff = nPE / sum(mask) is at most |R|. */
  lemma RegularAcceleration(r: int, nPE: nat, nRef: int, draw: seq<int>)
    requires IsDraw(draw, nPE) && r != 0
    ensures Abs(r) * Sum(LineMask(r, nPE, nRef, "regular", draw).value) >= nPE
  {
    var line := LineMask(r, nPE, nRef, "regular", draw).value;
    SumMonotone(line, StrideMask(r, nPE));
    StrideCount(r, nPE);
    MulLe(Abs(r), Sum(StrideMask(r, nPE)), Sum(line));
  }
}
