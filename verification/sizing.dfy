/**
  The constructor's preprocessing: the working size N (the next power of two
  at or above the larger image side), the number of accumulator rows per
  degree, and the zero padding of the image to an N x N plane.
 */
module Sizing {
  import opened Arith
  import opened Grids

  /** Degrees in a half-turn, the constructor's kPiDegree. */
  const PiDegree: nat := 180

  /**
    ceil(log2 m) for m >= 1 (and 0 for m = 0): the exponent of the smallest
    power of two that is at least m.
   */
  function Log2Ceil(m: nat): (k: nat)
    ensures Pow2(k) >= m
    ensures k == 0 || Pow2(k - 1) < m
    decreases m
  {
    if m <= 1 then 0 else 1 + Log2Ceil((m + 1) / 2)
  }

  /** No smaller exponent reaches m: Log2Ceil is the least such exponent. */
  lemma Log2CeilLeast(m: nat, j: nat)
    requires Pow2(j) >= m
    ensures Log2Ceil(m) <= j
  {
    Pow2Order(j, Log2Ceil(m));
  }

  function Max(a: nat, b: nat): nat {
    if a >= b then a else b
  }

  /**
    The working size N for a width x height image. The source evaluates
    pow(2, ceil(log2(max))) in doubles; for an empty image log2(0) is minus
    infinity and the power is 0, which is what this returns for max = 0.
   */
  function WorkingSize(width: nat, height: nat): (n: nat)
    ensures Max(width, height) == 0 ==> n == 0
    ensures Max(width, height) >= 1 ==> IsPow2(n)
    ensures Max(width, height) <= n
    ensures Max(width, height) >= 1 ==> n < 2 * Max(width, height)
    ensures forall j: nat :: Pow2(j) >= Max(width, height) ==> n <= Pow2(j)
  {
    var m := Max(width, height);
    if m == 0 then 0
    else
      var k := Log2Ceil(m);
      Pow2Grows(k);
      LeastPowerBelowAll(m, k);
      Pow2(k)
  }

  lemma LeastPowerBelowAll(m: nat, k: nat)
    requires k == Log2Ceil(m)
    ensures forall j: nat :: Pow2(j) >= m ==> Pow2(k) <= Pow2(j)
  {
    forall j: nat | Pow2(j) >= m
      ensures Pow2(k) <= Pow2(j)
    {
      Log2CeilLeast(m, j);
      Pow2Monotone(k, j);
    }
  }

  /** The number of merge levels of a non-empty image: log2 N. */
  function LevelCount(width: nat, height: nat): (k: nat)
    requires Max(width, height) >= 1
    ensures Pow2(k) == WorkingSize(width, height)
  {
    Log2Ceil(Max(width, height))
  }

  /** markInDegree: accumulator rows per degree, 2N/180 in integer division. */
  function MarkInDegree(n: nat): (m: nat)
    ensures 90 * m <= n < 90 * (m + 1)
    ensures n % 90 == 0 ==> 90 * m == n
  {
    2 * n / PiDegree
  }

  /** Working sizes up to 64 get no accumulator rows at all. */
  lemma SmallSizeHasNoRows(n: nat)
    requires n <= 64
    ensures MarkInDegree(n) == 0
  {
  }

  /** Accumulator height: one band of markInDegree rows for each of 90 degrees. */
  function AccumulatorRows(n: nat): (rows: nat)
    ensures rows <= n
    ensures rows % 90 == 0
  {
    (PiDegree / 2) * MarkInDegree(n)
  }

  /**
    copyMakeBorder with a zero border of n - height rows at the bottom and
    n - width columns at the right.
   */
  function Pad(img: Grid, height: nat, width: nat, n: nat): (p: Grid)
    requires IsGrid(img, height, width) && height <= n && width <= n
    ensures IsGrid(p, n, n)
    ensures forall r, c :: 0 <= r < n && 0 <= c < n ==>
              p[r][c] == (if r < height && c < width then img[r][c] else 0)
  {
    var top := seq(height, r requires 0 <= r < height => PadRow(img[r], n));
    var bottom := seq(n - height, _ => Zeros(n));
    assert forall r :: 0 <= r < height ==> (top + bottom)[r] == PadRow(img[r], n);
    assert forall r :: height <= r < n ==> (top + bottom)[r] == Zeros(n);
    top + bottom
  }

  /** The top-left height x width rectangle of g. */
  function Crop(g: Grid, height: nat, width: nat): Grid
    requires height <= |g|
    requires forall r :: 0 <= r < height ==> width <= |g[r]|
  {
    seq(height, r requires 0 <= r < height => g[r][..width])
  }

  /** Cropping the padded plane gives the image back. */
  lemma CropPad(img: Grid, height: nat, width: nat, n: nat)
    requires IsGrid(img, height, width) && height <= n && width <= n
    ensures Crop(Pad(img, height, width, n), height, width) == img
  {
    var p := Pad(img, height, width, n);
    forall r | 0 <= r < height
      ensures p[r][..width] == img[r]
    {
    }
  }

  /** Padding adds only zeros: the padded plane's total is the image's total. */
  lemma PadTotal(img: Grid, height: nat, width: nat, n: nat)
    requires IsGrid(img, height, width) && height <= n && width <= n
    ensures Total(Pad(img, height, width, n)) == Total(img)
  {
    var p := Pad(img, height, width, n);
    forall r | 0 <= r < height
      ensures Sum(p[r]) == Sum(img[r])
    {
      assert p[r] == PadRow(img[r], n) == img[r] + Zeros(n - width);
      SumConcat(img[r], Zeros(n - width));
      SumZeros(n - width);
    }
    PadRowsTotal(img, p, height, height);
    forall r | height <= r < n
      ensures Sum(p[r]) == 0
    {
      assert p[r] == Zeros(n);
      SumZeros(n);
    }
    ZeroRowsTotal(p, height, n);
    RowsTotalSplit(p, 0, height, n);
  }

  lemma {:induction false} PadRowsTotal(img: Grid, p: Grid, height: nat, hi: nat)
    requires |img| == height <= |p| && hi <= height
    requires forall r :: 0 <= r < height ==> Sum(p[r]) == Sum(img[r])
    ensures RowsTotal(p, 0, hi) == RowsTotal(img, 0, hi)
  {
    if hi > 0 {
      PadRowsTotal(img, p, height, hi - 1);
    }
  }

  lemma {:induction false} ZeroRowsTotal(g: Grid, lo: nat, hi: nat)
    requires lo <= hi <= |g|
    requires forall r :: lo <= r < hi ==> Sum(g[r]) == 0
    ensures RowsTotal(g, lo, hi) == 0
    decreases hi - lo
  {
    if lo < hi {
      ZeroRowsTotal(g, lo, hi - 1);
    }
  }
}
