/**
  Integer grids (the model's stand-in for single-channel integer matrices)
  and the sums the transform's invariants are stated with.
 */
module Grids {
  import opened Arith

  /** A grid stored row-major: g[row][col]. */
  type Grid = seq<seq<int>>

  /** g has exactly `rows` rows of `cols` cells each. */
  predicate IsGrid(g: Grid, rows: nat, cols: nat) {
    |g| == rows && forall r :: 0 <= r < rows ==> |g[r]| == cols
  }

  /** Every cell of g is non-negative. */
  predicate NonNegative(g: Grid) {
    forall r, c :: 0 <= r < |g| && 0 <= c < |g[r]| ==> g[r][c] >= 0
  }

  /** Every cell of g lies in [lo, hi]. */
  predicate CellsWithin(g: Grid, lo: int, hi: int) {
    forall r, c :: 0 <= r < |g| && 0 <= c < |g[r]| ==> lo <= g[r][c] <= hi
  }

  function Zeros(len: nat): seq<int> {
    seq(len, _ => 0)
  }

  /** The all-zero grid of the given shape. */
  function ZeroGrid(rows: nat, cols: nat): Grid {
    seq(rows, _ => Zeros(cols))
  }

  /** One image row extended with zeros on the right to length n. */
  function PadRow(row: seq<int>, n: nat): (p: seq<int>)
    requires |row| <= n
    ensures |p| == n
    ensures forall c :: 0 <= c < n ==> p[c] == (if c < |row| then row[c] else 0)
  {
    row + Zeros(n - |row|)
  }

  /** Sum of a row. */
  function Sum(s: seq<int>): int {
    if |s| == 0 then 0 else Sum(s[..|s| - 1]) + s[|s| - 1]
  }

  lemma {:induction false} SumConcat(a: seq<int>, b: seq<int>)
    ensures Sum(a + b) == Sum(a) + Sum(b)
  {
    if |b| == 0 {
      assert a + b == a;
    } else {
      assert (a + b)[..|a + b| - 1] == a + b[..|b| - 1];
      SumConcat(a, b[..|b| - 1]);
    }
  }

  lemma {:induction false} SumZeros(len: nat)
    ensures Sum(Zeros(len)) == 0
  {
    if len > 0 {
      assert Zeros(len)[..len - 1] == Zeros(len - 1);
      SumZeros(len - 1);
    }
  }

  lemma {:induction false} SumNonNegative(s: seq<int>)
    requires forall j :: 0 <= j < |s| ==> s[j] >= 0
    ensures Sum(s) >= 0
  {
    if |s| > 0 {
      SumNonNegative(s[..|s| - 1]);
    }
  }

  /** Cell-wise sum of two rows of equal length. */
  function AddRows(u: seq<int>, v: seq<int>): seq<int>
    requires |u| == |v|
  {
    seq(|u|, x requires 0 <= x < |u| => u[x] + v[x])
  }

  lemma {:induction false} SumAddRows(u: seq<int>, v: seq<int>)
    requires |u| == |v|
    ensures Sum(AddRows(u, v)) == Sum(u) + Sum(v)
  {
    if |u| > 0 {
      var k := |u| - 1;
      assert AddRows(u, v)[..k] == AddRows(u[..k], v[..k]);
      SumAddRows(u[..k], v[..k]);
    }
  }

  /** Cyclic left shift by s: cell x of the result is cell (x + s) mod |row|. */
  function Rotate(row: seq<int>, s: nat): seq<int>
    requires |row| > 0
  {
    seq(|row|, x requires 0 <= x < |row| => row[(x + s) % |row|])
  }

  /** A cyclic shift by s < |row| is the row's tail from s followed by its head. */
  lemma RotateIsSplice(row: seq<int>, s: nat)
    requires 0 < |row| && s < |row|
    ensures Rotate(row, s) == row[s..] + row[..s]
  {
    var L := |row|;
    var back := row[s..] + row[..s];
    forall x | 0 <= x < L
      ensures Rotate(row, s)[x] == back[x]
    {
      ModOnce(x + s, L);
      var j := (x + s) % L;
      assert Rotate(row, s)[x] == row[j];
      if x < L - s {
        assert back[x] == row[x + s];
      } else {
        assert back[x] == row[x + s - L];
      }
    }
  }

  /** Moving a row's head behind its tail keeps the sum. */
  lemma SumSwapHalves(row: seq<int>, s: nat)
    requires s <= |row|
    ensures Sum(row[s..] + row[..s]) == Sum(row)
  {
    SumConcat(row[s..], row[..s]);
    assert row[..s] + row[s..] == row;
    SumConcat(row[..s], row[s..]);
  }

  /** A cyclic shift moves cells around without changing the row's sum. */
  lemma RotateSum(row: seq<int>, s: nat)
    requires 0 < |row| && s < |row|
    ensures Sum(Rotate(row, s)) == Sum(row)
  {
    RotateIsSplice(row, s);
    SumSwapHalves(row, s);
  }

  /** Sum of the rows lo .. hi-1 of g, each row summed over all its cells. */
  function RowsTotal(g: Grid, lo: nat, hi: nat): int
    requires lo <= hi <= |g|
    decreases hi - lo
  {
    if lo == hi then 0 else RowsTotal(g, lo, hi - 1) + Sum(g[hi - 1])
  }

  /** Sum of every cell of g. */
  function Total(g: Grid): int {
    RowsTotal(g, 0, |g|)
  }

  lemma {:induction false} RowsTotalSplit(g: Grid, lo: nat, mid: nat, hi: nat)
    requires lo <= mid <= hi <= |g|
    ensures RowsTotal(g, lo, hi) == RowsTotal(g, lo, mid) + RowsTotal(g, mid, hi)
    decreases hi - mid
  {
    if mid < hi {
      RowsTotalSplit(g, lo, mid, hi - 1);
    }
  }

  /** Cell-wise sum of two grids of the same shape (the accumulator's `+=`). */
  function AddGrids(g: Grid, h: Grid, rows: nat, cols: nat): Grid
    requires IsGrid(g, rows, cols) && IsGrid(h, rows, cols)
  {
    seq(rows, r requires 0 <= r < rows => AddRows(g[r], h[r]))
  }
}
