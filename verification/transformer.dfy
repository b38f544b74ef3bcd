/**
  The FastHoughTransformer constructor as a whole: working size, padding of
  every channel, per-channel Radon tables added into one shared accumulator,
  then normalization. radon_transform itself (floating-point trigonometry)
  is a parameter: any function producing a table of the accumulator's shape.
 */
module Transformer {
  import opened Arith
  import opened Grids
  import opened Sizing
  import opened Normalization

  /** The state the constructor leaves behind: N, markInDegree and the accumulator. */
  datatype State = State(n: nat, markInDegree: nat, acc: Grid)

  /**
    The channels' tables added cell by cell into `acc`, in channel order, with
    no reset in between (the `+=` of radon_transform).
   */
  function Accumulate(acc: Grid, tables: seq<Grid>, rows: nat, cols: nat): (r: Grid)
    requires IsGrid(acc, rows, cols)
    requires forall i :: 0 <= i < |tables| ==> IsGrid(tables[i], rows, cols)
    ensures IsGrid(r, rows, cols)
  {
    if |tables| == 0 then acc
    else
      AddGrids(Accumulate(acc, tables[..|tables| - 1], rows, cols), tables[|tables| - 1], rows, cols)
  }

  /** Sum of the totals of a list of tables. */
  function TablesTotal(tables: seq<Grid>): int {
    if |tables| == 0 then 0 else TablesTotal(tables[..|tables| - 1]) + Total(tables[|tables| - 1])
  }

  lemma {:induction false} RowsTotalAdd(g: Grid, h: Grid, rows: nat, cols: nat, hi: nat)
    requires IsGrid(g, rows, cols) && IsGrid(h, rows, cols) && hi <= rows
    ensures RowsTotal(AddGrids(g, h, rows, cols), 0, hi) == RowsTotal(g, 0, hi) + RowsTotal(h, 0, hi)
  {
    if hi > 0 {
      RowsTotalAdd(g, h, rows, cols, hi - 1);
      SumAddRows(g[hi - 1], h[hi - 1]);
    }
  }

  /** Accumulation conserves mass: the result's total is the start's plus every table's. */
  lemma {:induction false} AccumulateTotal(acc: Grid, tables: seq<Grid>, rows: nat, cols: nat)
    requires IsGrid(acc, rows, cols)
    requires forall i :: 0 <= i < |tables| ==> IsGrid(tables[i], rows, cols)
    ensures Total(Accumulate(acc, tables, rows, cols)) == Total(acc) + TablesTotal(tables)
  {
    if |tables| > 0 {
      var init := tables[..|tables| - 1];
      AccumulateTotal(acc, init, rows, cols);
      RowsTotalAdd(Accumulate(acc, init, rows, cols), tables[|tables| - 1], rows, cols, rows);
    }
  }

  /**
    No reset between channels: accumulating two lists of tables one after
    the other is accumulating their concatenation.
   */
  lemma {:induction false} AccumulateConcat(acc: Grid, a: seq<Grid>, b: seq<Grid>, rows: nat, cols: nat)
    requires IsGrid(acc, rows, cols)
    requires forall i :: 0 <= i < |a| ==> IsGrid(a[i], rows, cols)
    requires forall i :: 0 <= i < |b| ==> IsGrid(b[i], rows, cols)
    ensures forall i :: 0 <= i < |a + b| ==> IsGrid((a + b)[i], rows, cols)
    ensures Accumulate(acc, a + b, rows, cols)
            == Accumulate(Accumulate(acc, a, rows, cols), b, rows, cols)
  {
    if |b| == 0 {
      assert a + b == a;
    } else {
      var b' := b[..|b| - 1];
      assert (a + b)[..|a + b| - 1] == a + b';
      AccumulateConcat(acc, a, b', rows, cols);
    }
  }

  lemma AddGridsSwap(acc: Grid, t: Grid, u: Grid, rows: nat, cols: nat)
    requires IsGrid(acc, rows, cols) && IsGrid(t, rows, cols) && IsGrid(u, rows, cols)
    ensures AddGrids(AddGrids(acc, t, rows, cols), u, rows, cols)
            == AddGrids(AddGrids(acc, u, rows, cols), t, rows, cols)
  {
    var tu := AddGrids(AddGrids(acc, t, rows, cols), u, rows, cols);
    var ut := AddGrids(AddGrids(acc, u, rows, cols), t, rows, cols);
    forall r | 0 <= r < rows
      ensures tu[r] == ut[r]
    {
      forall x | 0 <= x < cols
        ensures tu[r][x] == ut[r][x]
      {
      }
    }
  }

  lemma AccumulateTwo(acc: Grid, t: Grid, u: Grid, rows: nat, cols: nat)
    requires IsGrid(acc, rows, cols) && IsGrid(t, rows, cols) && IsGrid(u, rows, cols)
    ensures Accumulate(acc, [t, u], rows, cols)
            == AddGrids(AddGrids(acc, t, rows, cols), u, rows, cols)
  {
    var tables := [t, u];
    assert tables[..1] == [t];
    assert [t][..0] == [];
    assert Accumulate(acc, [t], rows, cols) == AddGrids(acc, t, rows, cols);
  }

  /** The channels' order does not matter: swapping two tables gives the same accumulator. */
  lemma AccumulateSwap(acc: Grid, t: Grid, u: Grid, rows: nat, cols: nat)
    requires IsGrid(acc, rows, cols) && IsGrid(t, rows, cols) && IsGrid(u, rows, cols)
    ensures Accumulate(acc, [t, u], rows, cols) == Accumulate(acc, [u, t], rows, cols)
  {
    AccumulateTwo(acc, t, u, rows, cols);
    AccumulateTwo(acc, u, t, rows, cols);
    AddGridsSwap(acc, t, u, rows, cols);
  }

  /** Each channel padded to n x n and run through `radon`, in channel order. */
  function ChannelTables(planes: seq<Grid>, height: nat, width: nat, n: nat,
                         radon: Grid -> Grid, rows: nat, cols: nat): (tables: seq<Grid>)
    requires height <= n && width <= n
    requires forall i :: 0 <= i < |planes| ==> IsGrid(planes[i], height, width)
    requires forall g :: IsGrid(radon(g), rows, cols)
    ensures |tables| == |planes|
    ensures forall i :: 0 <= i < |planes| ==> tables[i] == radon(Pad(planes[i], height, width, n))
    ensures forall i :: 0 <= i < |tables| ==> IsGrid(tables[i], rows, cols)
  {
    seq(|planes|, i requires 0 <= i < |planes| => radon(Pad(planes[i], height, width, n)))
  }

  /**
    The constructor: N and markInDegree from the image size, every channel
    padded to N x N and transformed by `radon`, the tables added into a zero
    accumulator of 90 * markInDegree rows and `accWidth` columns, and the
    result normalized (with the zero-division guard; see the uniform case
    of NormalizeAsWritten).
   */
  function Construct(planes: seq<Grid>, height: nat, width: nat, accWidth: nat,
                     radon: Grid -> Grid): (s: State)
    requires forall i :: 0 <= i < |planes| ==> IsGrid(planes[i], height, width)
    requires forall g :: IsGrid(radon(g), AccumulatorRows(WorkingSize(width, height)), accWidth)
    ensures s.n == WorkingSize(width, height)
    ensures s.markInDegree == MarkInDegree(s.n)
    ensures IsGrid(s.acc, 90 * s.markInDegree, accWidth)
    ensures CellsWithin(s.acc, 0, 255)
  {
    var n := WorkingSize(width, height);
    var rows := AccumulatorRows(n);
    assert height <= n && width <= n;
    assert rows == 90 * MarkInDegree(n);
    var tables := ChannelTables(planes, height, width, n, radon, rows, accWidth);
    var acc := Accumulate(ZeroGrid(rows, accWidth), tables, rows, accWidth);
    State(n, MarkInDegree(n), NormalizeGuarded(acc, rows, accWidth))
  }
}
