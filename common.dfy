/** Shared vocabulary of the model: complex numbers, Python-style errors,
    rectangular grids and the integer halving used by the centring formulas. */
module Common {

  /** A complex number with exact real and imaginary parts. */
  datatype Complex = Complex(re: real, im: real)

  const CZero := Complex(0.0, 0.0)

  function CAdd(a: Complex, b: Complex): (r: Complex)
    ensures r.re == a.re + b.re && r.im == a.im + b.im
  {
    Complex(a.re + b.re, a.im + b.im)
  }

  /** Multiplication of a complex value by a real factor. */
  function CScale(a: Complex, k: real): (r: Complex)
    ensures r.re == a.re * k && r.im == a.im * k
  {
    Complex(a.re * k, a.im * k)
  }

  /** The exception classes the modelled Python code can raise. */
  datatype Error = ValueError | TypeError | IndexError | ZeroDivisionError

  datatype Result<T> = Ok(value: T) | Err(error: Error)

  /** `g` is a rectangular nx-by-ny array, indexed g[x][y]. */
  predicate IsGrid<T>(g: seq<seq<T>>, nx: nat, ny: nat)
  {
    |g| == nx && forall x :: 0 <= x < nx ==> |g[x]| == ny
  }

  /** `k` is a rectangular n0-by-n1-by-n2 array, indexed k[i][j][c]. */
  predicate IsCube<T>(k: seq<seq<seq<T>>>, n0: nat, n1: nat, n2: nat)
  {
    |k| == n0 &&
    forall i :: 0 <= i < n0 ==> |k[i]| == n1 && forall j :: 0 <= j < n1 ==> |k[i][j]| == n2
  }

  /** A zpad or crop target that equals a two-dimensional shape (nx, ny):
      element by element, or a one-element target broadcast against both
      axes. */
  predicate SameShape(s: seq<int>, nx: nat, ny: nat)
  {
    (|s| == 2 && s[0] == nx && s[1] == ny) || (|s| == 1 && s[0] == nx && s[0] == ny)
  }

  /** floor(a / 2); Dafny's division by a positive divisor rounds down, as
      Python's `//` and `np.floor(a / 2)` do. */
  function FloorHalf(a: int): (r: int)
    ensures 2 * r <= a < 2 * r + 2
  {
    a / 2
  }

  /** ceil(a / 2). */
  function CeilHalf(a: int): (r: int)
    ensures 2 * r - 2 < a <= 2 * r
  {
    -((-a) / 2)
  }

  // Facts of integer multiplication that the solver does not find unaided.

  lemma MulPosCancel(a: int, b: int)
    requires a > 0 && a * b > 0
    ensures b > 0
  {
  }

  lemma MulLe(a: int, b: int, c: int)
    requires a >= 0 && b <= c
    ensures a * b <= a * c
  {
    assert a * c - a * b == a * (c - b);
  }

  lemma SmallMultiple(n: int, k: int)
    requires n > 0 && -n < n * k < n
    ensures k == 0
  {
  }

  /** Euclidean division is determined by quotient and remainder. */
  lemma DivModUnique(k: int, r: int, q: int, rem: int)
    requires r > 0 && k == r * q + rem && 0 <= rem < r
    ensures k % r == rem && k / r == q
  {
    var q', rem' := k / r, k % r;
    assert k == r * q' + rem';
    assert r * (q - q') == rem' - rem by {
      assert r * (q - q') == r * q - r * q';
    }
    SmallMultiple(r, q - q');
  }

  function Abs(a: int): (r: nat)
    ensures r == a || r == -a
  {
    if a < 0 then -a else a
  }

  /** `np.arange(start, stop)` on integer-valued bounds: start, start + 1, ...
      strictly below stop. */
  function Arange(start: int, stop: int): (r: seq<int>)
    ensures |r| == if stop <= start then 0 else stop - start
    ensures forall k :: 0 <= k < |r| ==> r[k] == start + k
  {
    if stop <= start then [] else seq(stop - start, k => start + k)
  }
}
