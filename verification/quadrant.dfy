/**
  The quadrant transform (tranform_from_zero_to_pi_div_4): the dyadic-pattern
  merge that turns one N x N plane into an N x 2N table of line sums for the
  slopes of a quarter-turn, using only additions.

  Level i (1 <= i <= log2 N) works on blocks of step = 2^i rows. Row a of the
  block starting at y, column x, becomes
      R[y + a/2][x] + R[y + step/2 + a/2][(x + (a+1)/2) mod 2N]
  of the previous level's buffer R: two half-length patterns joined into one
  of length step. The lower pattern's cells lie (a+1)/2 columns to the
  right, so its row is read rotated left by (a+1)/2.
 */
module Quadrant {
  import opened Arith
  import opened Grids

  /** The N x 2N buffer before the first level: the plane on the left, zeros on the right. */
  function Seed(img: Grid, n: nat): (R: Grid)
    requires IsGrid(img, n, n)
    ensures IsGrid(R, n, 2 * n)
    ensures forall y, x :: 0 <= y < n && 0 <= x < 2 * n ==>
              R[y][x] == (if x < n then img[y][x] else 0)
  {
    seq(n, y requires 0 <= y < n => PadRow(img[y], 2 * n))
  }

  /**
    The value a level with blocks of 2 * half rows writes into row a of the
    block starting at row y, column x.
   */
  function MergedCell(R: Grid, n: nat, y: nat, half: nat, a: nat, x: nat): int
    requires IsGrid(R, n, 2 * n)
    requires y + 2 * half <= n && a < 2 * half && x < 2 * n
  {
    R[y + a / 2][x] + R[y + half + a / 2][(x + (a + 1) / 2) % (2 * n)]
  }

  /** One merge level with blocks of 2 * half rows, n = 2 * half * blocks. */
  function MergeLevel(R: Grid, n: nat, half: nat, blocks: nat): (R': Grid)
    requires half >= 1 && n == 2 * half * blocks && IsGrid(R, n, 2 * n)
    ensures IsGrid(R', n, 2 * n)
  {
    seq(n, r requires 0 <= r < n =>
      BlockOfRow(r, 2 * half, blocks);
      seq(2 * n, x requires 0 <= x < 2 * n =>
        MergedCell(R, n, BlockStart(r, 2 * half), half, r % (2 * half), x)))
  }

  /** Level i of a transform of size 2^k has half-blocks of 2^(i-1) rows and 2^(k-i) blocks. */
  lemma LevelShape(k: nat, i: nat)
    requires 1 <= i <= k
    ensures Pow2(k) == 2 * Pow2(i - 1) * Pow2(k - i)
  {
    Pow2Add(i, k - i);
  }

  /** The buffer after the first i merge levels. */
  function Levels(img: Grid, n: nat, k: nat, i: nat): (R: Grid)
    requires n == Pow2(k) && i <= k && IsGrid(img, n, n)
    ensures IsGrid(R, n, 2 * n)
  {
    if i == 0 then Seed(img, n)
    else
      LevelShape(k, i);
      MergeLevel(Levels(img, n, k, i - 1), n, Pow2(i - 1), Pow2(k - i))
  }

  /** The quadrant transform of an n x n plane, n = 2^k: all k levels. */
  function Transform(img: Grid, n: nat, k: nat): Grid
    requires n == Pow2(k) && IsGrid(img, n, n)
  {
    Levels(img, n, k, k)
  }

  /**
    Row r of L sums to the total of the rows of the plane in r's block of
    height d.
   */
  predicate BlockSums(L: Grid, img: Grid, n: nat, d: nat)
    requires IsGrid(L, n, 2 * n) && IsGrid(img, n, n) && d > 0
  {
    forall r :: 0 <= r < n ==>
      BlockStart(r, d) + d <= n &&
      Sum(L[r]) == RowsTotal(img, BlockStart(r, d), BlockStart(r, d) + d)
  }

  /** Row r of a merged level, written as a cell-wise sum of two rows of the previous one. */
  lemma MergedRow(L: Grid, n: nat, half: nat, blocks: nat, r: nat)
    requires half >= 1 && n == 2 * half * blocks && IsGrid(L, n, 2 * n) && r < n
    ensures BlockStart(r, 2 * half) + 2 * half <= n
    ensures (r % (2 * half) + 1) / 2 < 2 * n
    ensures MergeLevel(L, n, half, blocks)[r] ==
            AddRows(L[BlockStart(r, 2 * half) + r % (2 * half) / 2],
                    Rotate(L[BlockStart(r, 2 * half) + half + r % (2 * half) / 2],
                           (r % (2 * half) + 1) / 2))
  {
    BlockOfRow(r, 2 * half, blocks);
    var y := BlockStart(r, 2 * half);
    var a := r % (2 * half);
    var M := MergeLevel(L, n, half, blocks);
    var up := L[y + a / 2];
    var down := L[y + half + a / 2];
    forall x | 0 <= x < 2 * n
      ensures M[r][x] == AddRows(up, Rotate(down, (a + 1) / 2))[x]
    {
      assert M[r][x] == MergedCell(L, n, y, half, a, x);
    }
  }

  /** The two rows level 2 * half reads for row r lie in the two halves of r's block. */
  lemma SourceRowsBlocks(r: nat, half: nat)
    requires half >= 1
    ensures BlockStart(BlockStart(r, 2 * half) + r % (2 * half) / 2, half) == BlockStart(r, 2 * half)
    ensures BlockStart(BlockStart(r, 2 * half) + half + r % (2 * half) / 2, half)
            == BlockStart(r, 2 * half) + half
  {
    var q := r / (2 * half);
    var a := r % (2 * half);
    assert BlockStart(r, 2 * half) == (2 * q) * half;
    BlockStartOf(2 * q, half, a / 2);
    BlockStartOf(2 * q + 1, half, a / 2);
  }

  lemma BlockSumsAt(L: Grid, img: Grid, n: nat, d: nat, r: nat)
    requires IsGrid(L, n, 2 * n) && IsGrid(img, n, n) && d > 0 && r < n
    requires BlockSums(L, img, n, d)
    ensures BlockStart(r, d) + d <= n
    ensures Sum(L[r]) == RowsTotal(img, BlockStart(r, d), BlockStart(r, d) + d)
  {
  }

  /**
    An upper row summing to the plane's rows [y, y + half) plus a rotated
    lower row summing to [y + half, y + 2 * half) sums to [y, y + 2 * half).
   */
  lemma JoinedRowSum(img: Grid, up: seq<int>, down: seq<int>, s: nat, y: nat, half: nat)
    requires 0 < |up| == |down| && s < |down| && y + 2 * half <= |img|
    requires Sum(up) == RowsTotal(img, y, y + half)
    requires Sum(down) == RowsTotal(img, y + half, y + 2 * half)
    ensures Sum(AddRows(up, Rotate(down, s))) == RowsTotal(img, y, y + 2 * half)
  {
    SumAddRows(up, Rotate(down, s));
    RotateSum(down, s);
    RowsTotalSplit(img, y, y + half, y + 2 * half);
  }

  /** Row r after a merge level sums to the total of the plane's rows in its block. */
  lemma MergedRowSum(img: Grid, L: Grid, n: nat, half: nat, blocks: nat, r: nat)
    requires half >= 1 && n == 2 * half * blocks && r < n
    requires IsGrid(img, n, n) && IsGrid(L, n, 2 * n)
    requires BlockSums(L, img, n, half)
    ensures BlockStart(r, 2 * half) + 2 * half <= n
    ensures Sum(MergeLevel(L, n, half, blocks)[r])
            == RowsTotal(img, BlockStart(r, 2 * half), BlockStart(r, 2 * half) + 2 * half)
  {
    MergedRow(L, n, half, blocks, r);
    var a := r % (2 * half);
    var y := BlockStart(r, 2 * half);
    var r1 := y + a / 2;
    var r2 := y + half + a / 2;
    SourceRowsBlocks(r, half);
    BlockSumsAt(L, img, n, half, r1);
    BlockSumsAt(L, img, n, half, r2);
    JoinedRowSum(img, L[r1], L[r2], (a + 1) / 2, y, half);
  }

  /** One merge level doubles the block height of the row-sum invariant. */
  lemma MergeLevelBlockSums(img: Grid, L: Grid, n: nat, half: nat, blocks: nat)
    requires half >= 1 && n == 2 * half * blocks
    requires IsGrid(img, n, n) && IsGrid(L, n, 2 * n)
    requires BlockSums(L, img, n, half)
    ensures BlockSums(MergeLevel(L, n, half, blocks), img, n, 2 * half)
  {
    forall r | 0 <= r < n
      ensures BlockStart(r, 2 * half) + 2 * half <= n
      ensures Sum(MergeLevel(L, n, half, blocks)[r])
              == RowsTotal(img, BlockStart(r, 2 * half), BlockStart(r, 2 * half) + 2 * half)
    {
      MergedRowSum(img, L, n, half, blocks, r);
    }
  }

  /**
    Row-sum invariant: after level i, every row sums (over all 2N columns) to
    the total of the plane's rows in its block of 2^i rows.
   */
  lemma {:induction false} LevelBlockSums(img: Grid, n: nat, k: nat, i: nat)
    requires n == Pow2(k) && i <= k && IsGrid(img, n, n)
    ensures BlockSums(Levels(img, n, k, i), img, n, Pow2(i))
  {
    if i == 0 {
      var R := Seed(img, n);
      forall r | 0 <= r < n
        ensures BlockStart(r, 1) == r
        ensures Sum(R[r]) == RowsTotal(img, r, r + 1)
      {
        assert R[r] == img[r] + Zeros(n);
        SumConcat(img[r], Zeros(n));
        SumZeros(n);
      }
    } else {
      LevelBlockSums(img, n, k, i - 1);
      LevelShape(k, i);
      MergeLevelBlockSums(img, Levels(img, n, k, i - 1), n, Pow2(i - 1), Pow2(k - i));
    }
  }

  /** After all log2 N levels, every output row sums to the total of the whole plane. */
  lemma TransformRowSums(img: Grid, n: nat, k: nat)
    requires n == Pow2(k) && IsGrid(img, n, n)
    ensures forall r :: 0 <= r < n ==> Sum(Transform(img, n, k)[r]) == Total(img)
  {
    LevelBlockSums(img, n, k, k);
    forall r | 0 <= r < n
      ensures BlockStart(r, n) == 0
    {
      DivModOfBlock(0, n, r);
    }
  }

  /** A merge level only adds cells, so it keeps non-negativity. */
  lemma MergeLevelNonNegative(L: Grid, n: nat, half: nat, blocks: nat)
    requires half >= 1 && n == 2 * half * blocks && IsGrid(L, n, 2 * n) && NonNegative(L)
    ensures NonNegative(MergeLevel(L, n, half, blocks))
  {
    var M := MergeLevel(L, n, half, blocks);
    forall r, x | 0 <= r < n && 0 <= x < 2 * n
      ensures M[r][x] >= 0
    {
      BlockOfRow(r, 2 * half, blocks);
      assert M[r][x] == MergedCell(L, n, BlockStart(r, 2 * half), half, r % (2 * half), x);
    }
  }

  /** A non-negative plane gives a non-negative buffer at every level. */
  lemma {:induction false} LevelsNonNegative(img: Grid, n: nat, k: nat, i: nat)
    requires n == Pow2(k) && i <= k && IsGrid(img, n, n) && NonNegative(img)
    ensures NonNegative(Levels(img, n, k, i))
  {
    if i > 0 {
      LevelsNonNegative(img, n, k, i - 1);
      LevelShape(k, i);
      MergeLevelNonNegative(Levels(img, n, k, i - 1), n, Pow2(i - 1), Pow2(k - i));
    }
  }

  /** Non-negative inputs give non-negative line sums. */
  lemma TransformNonNegative(img: Grid, n: nat, k: nat)
    requires n == Pow2(k) && IsGrid(img, n, n) && NonNegative(img)
    ensures NonNegative(Transform(img, n, k))
  {
    LevelsNonNegative(img, n, k, k);
  }

  /** The cell of block b, row a, column x after a merge level, spelled out. */
  lemma MergedCellAt(L: Grid, n: nat, half: nat, blocks: nat, y: nat, b: nat, a: nat, x: nat)
    requires half >= 1 && n == 2 * half * blocks && IsGrid(L, n, 2 * n)
    requires y == b * (2 * half) && y + 2 * half <= n && a < 2 * half && x < 2 * n
    ensures MergeLevel(L, n, half, blocks)[y + a][x] ==
            L[y + a / 2][x] + L[y + half + a / 2][(x + (a + 1) / 2) % (2 * n)]
  {
    BlockStartOf(b, 2 * half, a);
  }

  /** An array read back as a grid. */
  function GridOf(A: array2<int>): (g: Grid)
    reads A
    ensures IsGrid(g, A.Length0, A.Length1)
    ensures forall r, c :: 0 <= r < A.Length0 && 0 <= c < A.Length1 ==> g[r][c] == A[r, c]
  {
    seq(A.Length0, r requires 0 <= r < A.Length0 reads A =>
      seq(A.Length1, c requires 0 <= c < A.Length1 reads A => A[r, c]))
  }

  /** A block that starts inside blocks * d rows ends inside them too. */
  lemma NextBlockFits(b: nat, blocks: nat, d: nat)
    requires d > 0
    ensures b * d < blocks * d ==> b < blocks && b * d + d <= blocks * d
  {
    MulCancelLess(b, blocks, d);
    if b < blocks {
      MulMonotone(b + 1, blocks, d);
    }
  }

  /** The innermost loop: rows y .. y + 2 * half - 1 of column x. */
  method MergeColumn(cur: array2<int>, next: array2<int>, n: nat, half: nat,
                     ghost blocks: nat, ghost L: Grid, ghost M: Grid, y: nat, ghost b: nat, x: nat)
    requires cur != next
    requires half >= 1 && n == 2 * half * blocks && IsGrid(L, n, 2 * n)
    requires M == MergeLevel(L, n, half, blocks)
    requires cur.Length0 == n && cur.Length1 == 2 * n
    requires next.Length0 == n && next.Length1 == 2 * n
    requires forall r, c :: 0 <= r < n && 0 <= c < 2 * n ==> cur[r, c] == L[r][c]
    requires y == b * (2 * half) && y + 2 * half <= n && x < 2 * n
    modifies next
    ensures forall r :: y <= r < y + 2 * half ==>
              next[r, x] == M[r][x]
    ensures forall r, c :: 0 <= r < n && 0 <= c < 2 * n && !(y <= r < y + 2 * half && c == x) ==>
              next[r, c] == old(next[r, c])
  {
    for a := 0 to 2 * half
      invariant forall r :: y <= r < y + a ==> next[r, x] == M[r][x]
      invariant forall r, c :: 0 <= r < n && 0 <= c < 2 * n && !(y <= r < y + 2 * half && c == x) ==>
                  next[r, c] == old(next[r, c])
    {
      var upStick := cur[y + a / 2, x];
      var downStick := cur[y + half + a / 2, (x + (a + 1) / 2) % (2 * n)];
      next[y + a, x] := upStick + downStick;
      MergedCellAt(L, n, half, blocks, y, b, a, x);
    }
  }

  /** The middle loop: every column of the block of rows starting at y. */
  method MergeBlock(cur: array2<int>, next: array2<int>, n: nat, half: nat,
                    ghost blocks: nat, ghost L: Grid, ghost M: Grid, y: nat, ghost b: nat)
    requires cur != next
    requires half >= 1 && n == 2 * half * blocks && IsGrid(L, n, 2 * n)
    requires M == MergeLevel(L, n, half, blocks)
    requires cur.Length0 == n && cur.Length1 == 2 * n
    requires next.Length0 == n && next.Length1 == 2 * n
    requires forall r, c :: 0 <= r < n && 0 <= c < 2 * n ==> cur[r, c] == L[r][c]
    requires y == b * (2 * half) && y + 2 * half <= n
    modifies next
    ensures forall r, c :: y <= r < y + 2 * half && 0 <= c < 2 * n ==>
              next[r, c] == M[r][c]
    ensures forall r, c :: 0 <= r < n && 0 <= c < 2 * n && !(y <= r < y + 2 * half) ==>
              next[r, c] == old(next[r, c])
  {
    for x := 0 to 2 * n
      invariant forall r, c :: y <= r < y + 2 * half && 0 <= c < x ==>
                  next[r, c] == M[r][c]
      invariant forall r, c :: 0 <= r < n && 0 <= c < 2 * n && !(y <= r < y + 2 * half) ==>
                  next[r, c] == old(next[r, c])
    {
      MergeColumn(cur, next, n, half, blocks, L, M, y, b, x);
    }
  }

  /** One merge level, written from `cur` into `next` block by block. */
  method MergeInto(cur: array2<int>, next: array2<int>, n: nat, half: nat,
                   ghost blocks: nat, ghost L: Grid)
    requires cur != next
    requires half >= 1 && n == 2 * half * blocks && IsGrid(L, n, 2 * n)
    requires cur.Length0 == n && cur.Length1 == 2 * n
    requires next.Length0 == n && next.Length1 == 2 * n
    requires forall r, c :: 0 <= r < n && 0 <= c < 2 * n ==> cur[r, c] == L[r][c]
    modifies next
    ensures forall r, c :: 0 <= r < n && 0 <= c < 2 * n ==>
              next[r, c] == MergeLevel(L, n, half, blocks)[r][c]
  {
    ghost var M := MergeLevel(L, n, half, blocks);
    var y := 0;
    ghost var b := 0;
    while y < n
      invariant b <= blocks && y == b * (2 * half)
      invariant forall r, c :: 0 <= r < y && 0 <= c < 2 * n ==> next[r, c] == M[r][c]
    {
      NextBlockFits(b, blocks, 2 * half);
      MergeBlock(cur, next, n, half, blocks, L, M, y, b);
      y := y + 2 * half;
      b := b + 1;
    }
  }

  /** The first buffer: a fresh N x 2N array, the plane copied into its left half. */
  method SeedBuffer(img: Grid, n: nat) returns (cur: array2<int>)
    requires IsGrid(img, n, n)
    ensures fresh(cur) && cur.Length0 == n && cur.Length1 == 2 * n
    ensures forall r, c :: 0 <= r < n && 0 <= c < 2 * n ==> cur[r, c] == Seed(img, n)[r][c]
  {
    cur := new int[n, 2 * n];
    ghost var seed := Seed(img, n);
    for r := 0 to n
      invariant forall rr, c :: 0 <= rr < r && 0 <= c < 2 * n ==> cur[rr, c] == seed[rr][c]
    {
      for c := 0 to 2 * n
        invariant forall rr, cc :: 0 <= rr < r && 0 <= cc < 2 * n ==> cur[rr, cc] == seed[rr][cc]
        invariant forall cc :: 0 <= cc < c ==> cur[r, cc] == seed[r][cc]
      {
        cur[r, c] := if c < n then img[r][c] else 0;
      }
    }
  }

  /**
    tranform_from_zero_to_pi_div_4 with its two N x 2N buffers: seed one
    from the plane, then run log2 N levels, swapping the buffers' roles
    after each. Every row of the result sums to the plane's total.
   */
  method TransformQuadrant(img: Grid, n: nat, k: nat) returns (R: Grid)
    requires n == Pow2(k) && IsGrid(img, n, n)
    ensures R == Transform(img, n, k)
    ensures IsGrid(R, n, 2 * n)
    ensures forall r :: 0 <= r < n ==> Sum(R[r]) == Total(img)
  {
    var cur := SeedBuffer(img, n);
    var next := new int[n, 2 * n];
    var half := 1;
    for i := 1 to k + 1
      invariant half == Pow2(i - 1)
      invariant cur != next && fresh(cur) && fresh(next)
      invariant cur.Length0 == n && cur.Length1 == 2 * n
      invariant next.Length0 == n && next.Length1 == 2 * n
      invariant forall r, c :: 0 <= r < n && 0 <= c < 2 * n ==>
                  cur[r, c] == Levels(img, n, k, i - 1)[r][c]
    {
      LevelShape(k, i);
      MergeInto(cur, next, n, half, Pow2(k - i), Levels(img, n, k, i - 1));
      cur, next := next, cur;
      half := 2 * half;
    }
    R := GridOf(cur);
    ghost var T := Transform(img, n, k);
    forall r | 0 <= r < n
      ensures R[r] == T[r]
    {
    }
    TransformRowSums(img, n, k);
  }
}
