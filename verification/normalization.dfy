/**
  The constructor's last step: find the accumulator's global minimum and
  maximum (minMaxLoc) and rescale every cell v to int((v - min) / (max - min) * 255).
  The double arithmetic is modelled with exact reals; int(...) truncates
  toward zero.
 */
module Normalization {
  import opened Arith
  import opened Grids

  datatype Option<T> = None | Some(value: T)

  /** C's conversion of a floating value to int: truncation toward zero. */
  function Trunc(x: real): int {
    if x >= 0.0 then x.Floor else -((-x).Floor)
  }

  /** The floor of an exact quotient of integers is their integer quotient. */
  lemma FloorOfQuotient(p: int, q: int)
    requires p >= 0 && q > 0
    ensures ((p as real) / (q as real)).Floor == p / q
  {
    var t := p / q;
    var rem := p % q;
    assert p == t * q + rem;
    assert (p as real) == (t as real) * (q as real) + (rem as real);
    assert (p as real) / (q as real) == (t as real) + (rem as real) / (q as real);
    assert 0.0 <= (rem as real) / (q as real) < 1.0;
  }

  lemma DivMonotone(a: int, b: int, q: int)
    requires 0 <= a <= b && q > 0
    ensures a / q <= b / q
  {
    MulCancelLess(a / q, b / q + 1, q);
  }

  /** One cell rescaled from [lo, hi] to [0, 255], truncating. */
  function NormalizeCell(v: int, lo: int, hi: int): (r: int)
    requires lo < hi
    ensures lo <= v ==> r == (v - lo) * 255 / (hi - lo)
  {
    var x := (v - lo) as real / (hi - lo) as real * 255.0;
    if lo <= v then
      assert x == ((v - lo) * 255) as real / (hi - lo) as real;
      FloorOfQuotient((v - lo) * 255, hi - lo);
      Trunc(x)
    else
      Trunc(x)
  }

  /** The rescale sends [lo, hi] into [0, 255], lo to 0 and hi to 255, and keeps order. */
  lemma NormalizeCellRange(v: int, w: int, lo: int, hi: int)
    requires lo < hi && lo <= v <= w <= hi
    ensures 0 <= NormalizeCell(v, lo, hi) <= NormalizeCell(w, lo, hi) <= 255
    ensures NormalizeCell(lo, lo, hi) == 0
    ensures NormalizeCell(hi, lo, hi) == 255
  {
    var q := hi - lo;
    DivMonotone((v - lo) * 255, (w - lo) * 255, q);
    DivMonotone((w - lo) * 255, q * 255, q);
    DivModOfBlock(255, q, 0);
  }

  /** Rescaling cells that already span exactly [0, 255] leaves them as they are. */
  lemma NormalizeCellFixed(v: int)
    requires 0 <= v <= 255
    ensures NormalizeCell(v, 0, 255) == v
  {
    DivModOfBlock(v, 255, 0);
  }

  /** Every cell of g rescaled from [lo, hi] to [0, 255]. */
  function NormalizeGrid(g: Grid, lo: int, hi: int): (r: Grid)
    requires lo < hi
    ensures |r| == |g| && forall i :: 0 <= i < |g| ==> |r[i]| == |g[i]|
    ensures CellsWithin(g, lo, hi) ==> CellsWithin(r, 0, 255)
  {
    var r := seq(|g|, i requires 0 <= i < |g| =>
               seq(|g[i]|, j requires 0 <= j < |g[i]| => NormalizeCell(g[i][j], lo, hi)));
    assert CellsWithin(g, lo, hi) ==> CellsWithin(r, 0, 255) by {
      if CellsWithin(g, lo, hi) {
        forall i, j | 0 <= i < |g| && 0 <= j < |g[i]|
          ensures 0 <= r[i][j] <= 255
        {
          NormalizeCellRange(g[i][j], g[i][j], lo, hi);
        }
      }
    }
    r
  }

  /** Least element of a non-empty row. */
  function RowMin(s: seq<int>): (m: int)
    requires |s| > 0
    ensures exists j :: 0 <= j < |s| && s[j] == m
    ensures forall j :: 0 <= j < |s| ==> m <= s[j]
  {
    if |s| == 1 then s[0]
    else
      var m := RowMin(s[..|s| - 1]);
      if s[|s| - 1] < m then s[|s| - 1] else m
  }

  /** Greatest element of a non-empty row. */
  function RowMax(s: seq<int>): (m: int)
    requires |s| > 0
    ensures exists j :: 0 <= j < |s| && s[j] == m
    ensures forall j :: 0 <= j < |s| ==> s[j] <= m
  {
    if |s| == 1 then s[0]
    else
      var m := RowMax(s[..|s| - 1]);
      if s[|s| - 1] > m then s[|s| - 1] else m
  }

  /** g has at least one row and no empty row. */
  predicate HasCells(g: Grid) {
    |g| > 0 && forall i :: 0 <= i < |g| ==> |g[i]| > 0
  }

  /** Global minimum of a grid (minMaxLoc's min). */
  function GridMin(g: Grid): (m: int)
    requires HasCells(g)
    ensures exists i, j :: 0 <= i < |g| && 0 <= j < |g[i]| && g[i][j] == m
    ensures forall i, j :: 0 <= i < |g| && 0 <= j < |g[i]| ==> m <= g[i][j]
  {
    if |g| == 1 then RowMin(g[0])
    else
      var m := GridMin(g[..|g| - 1]);
      var last := RowMin(g[|g| - 1]);
      assert forall i :: 0 <= i < |g| - 1 ==> g[..|g| - 1][i] == g[i];
      if last < m then last else m
  }

  /** Global maximum of a grid (minMaxLoc's max). */
  function GridMax(g: Grid): (m: int)
    requires HasCells(g)
    ensures exists i, j :: 0 <= i < |g| && 0 <= j < |g[i]| && g[i][j] == m
    ensures forall i, j :: 0 <= i < |g| && 0 <= j < |g[i]| ==> g[i][j] <= m
  {
    if |g| == 1 then RowMax(g[0])
    else
      var m := GridMax(g[..|g| - 1]);
      var last := RowMax(g[|g| - 1]);
      assert forall i :: 0 <= i < |g| - 1 ==> g[..|g| - 1][i] == g[i];
      if last > m then last else m
  }

  /** Every cell of g equals every other. */
  predicate Uniform(g: Grid) {
    forall i, j, i', j' :: 0 <= i < |g| && 0 <= j < |g[i]| && 0 <= i' < |g| && 0 <= j' < |g[i']| ==>
      g[i][j] == g[i'][j']
  }

  /**
    The constructor's normalization as written. An accumulator without cells
    is left as it is (minMaxLoc reports 0 and 0, and the loop body never
    runs); a non-empty accumulator whose cells are all equal makes the
    source compute 0.0 / 0.0 and convert NaN to int, which C++ leaves
    undefined: None.
   */
  function NormalizeAsWritten(acc: Grid, rows: nat, cols: nat): (r: Option<Grid>)
    requires IsGrid(acc, rows, cols)
    ensures (rows == 0 || cols == 0) ==> r == Some(acc)
    ensures r.None? <==> rows > 0 && cols > 0 && Uniform(acc)
    ensures r.Some? ==> IsGrid(r.value, rows, cols)
    ensures r.Some? && rows > 0 && cols > 0 ==> CellsWithin(r.value, 0, 255)
  {
    if rows == 0 || cols == 0 then Some(acc)
    else
      var lo := GridMin(acc);
      var hi := GridMax(acc);
      if lo == hi then None
      else
        assert !Uniform(acc);
        Some(NormalizeGrid(acc, lo, hi))
  }

  /**
    A guarded normalization: a uniform accumulator becomes all zeros
    instead of dividing by zero.
   */
  function NormalizeGuarded(acc: Grid, rows: nat, cols: nat): (r: Grid)
    requires IsGrid(acc, rows, cols)
    ensures IsGrid(r, rows, cols)
    ensures CellsWithin(r, 0, 255)
    ensures NormalizeAsWritten(acc, rows, cols).Some? ==> r == NormalizeAsWritten(acc, rows, cols).value
    ensures rows > 0 && cols > 0 && Uniform(acc) ==> r == ZeroGrid(rows, cols)
  {
    if rows == 0 || cols == 0 then acc
    else
      var lo := GridMin(acc);
      var hi := GridMax(acc);
      if lo == hi then ZeroGrid(rows, cols) else NormalizeGrid(acc, lo, hi)
  }

  /** An all-zero accumulator with at least one cell hits the 0 / 0 case. */
  lemma ZeroAccumulatorUndefined(rows: nat, cols: nat)
    requires rows > 0 && cols > 0
    ensures NormalizeAsWritten(ZeroGrid(rows, cols), rows, cols) == None
    ensures NormalizeGuarded(ZeroGrid(rows, cols), rows, cols) == ZeroGrid(rows, cols)
  {
    var z := ZeroGrid(rows, cols);
    assert forall i :: 0 <= i < rows ==> z[i] == Zeros(cols);
    assert Uniform(z);
  }

  /** Rescaling a grid whose cells lie in [0, 255] from [0, 255] changes nothing. */
  lemma NormalizeGridFixed(g: Grid)
    requires CellsWithin(g, 0, 255)
    ensures NormalizeGrid(g, 0, 255) == g
  {
    var r := NormalizeGrid(g, 0, 255);
    forall i | 0 <= i < |g|
      ensures r[i] == g[i]
    {
      forall j | 0 <= j < |g[i]|
        ensures r[i][j] == g[i][j]
      {
        NormalizeCellFixed(g[i][j]);
      }
    }
  }

  /**
    Normalizing an accumulator that already spans exactly [0, 255] leaves
    it unchanged.
   */
  lemma RenormalizeIsIdentity(acc: Grid, rows: nat, cols: nat)
    requires rows > 0 && cols > 0 && IsGrid(acc, rows, cols)
    requires GridMin(acc) == 0 && GridMax(acc) == 255
    ensures NormalizeAsWritten(acc, rows, cols) == Some(acc)
  {
    NormalizeGridFixed(acc);
  }

  /** Normalization keeps the order of cells and sends a min cell to 0 and a max cell to 255. */
  lemma NormalizeExtremes(acc: Grid, rows: nat, cols: nat)
    requires rows > 0 && cols > 0 && IsGrid(acc, rows, cols) && !Uniform(acc)
    ensures NormalizeAsWritten(acc, rows, cols).Some?
    ensures var r := NormalizeAsWritten(acc, rows, cols).value;
            forall i, j, i', j' :: 0 <= i < rows && 0 <= j < cols && 0 <= i' < rows && 0 <= j' < cols ==>
              (acc[i][j] == GridMin(acc) ==> r[i][j] == 0) &&
              (acc[i][j] == GridMax(acc) ==> r[i][j] == 255) &&
              (acc[i][j] <= acc[i'][j'] ==> r[i][j] <= r[i'][j'])
  {
    var lo := GridMin(acc);
    var hi := GridMax(acc);
    var r := NormalizeAsWritten(acc, rows, cols).value;
    forall i, j, i', j' | 0 <= i < rows && 0 <= j < cols && 0 <= i' < rows && 0 <= j' < cols
      ensures (acc[i][j] == lo ==> r[i][j] == 0) && (acc[i][j] == hi ==> r[i][j] == 255)
      ensures acc[i][j] <= acc[i'][j'] ==> r[i][j] <= r[i'][j']
    {
      NormalizeCellRange(acc[i][j], acc[i][j], lo, hi);
      if acc[i][j] <= acc[i'][j'] {
        NormalizeCellRange(acc[i][j], acc[i'][j'], lo, hi);
      }
    }
  }
}
