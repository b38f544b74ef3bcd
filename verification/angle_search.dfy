/**
  apply(): the slant angle is the 1-degree band of the accumulator whose
  non-zero cells have the largest variance. Band `angle` (-45 <= angle < 45)
  is the markInDegree rows starting at (angle + 45) * markInDegree. The
  source's doubles are modelled as exact reals.
 */
module AngleSearch {
  import opened Arith
  import opened Grids

  /** -kPiDegree / 4 and kPiDegree / 4: the angles apply tries are FirstAngle .. EndAngle - 1. */
  const FirstAngle: int := -45
  const EndAngle: int := 45

  /** Count of non-zero cells, their sum and their sum of squares. */
  datatype Stats = Stats(count: nat, sum: int, sumSq: int)

  /** The statistics after one more cell: zero cells add nothing. */
  function AddCell(s: Stats, v: int): Stats {
    Stats(s.count + (if v == 0 then 0 else 1), s.sum + v, s.sumSq + v * v)
  }

  /** Statistics of a sequence of cells, taken in order. */
  function CellStats(cells: seq<int>): Stats {
    if |cells| == 0 then Stats(0, 0, 0)
    else AddCell(CellStats(cells[..|cells| - 1]), cells[|cells| - 1])
  }

  /** The rows of a grid laid end to end. */
  function Flatten(rows: seq<seq<int>>): seq<int> {
    if |rows| == 0 then [] else Flatten(rows[..|rows| - 1]) + rows[|rows| - 1]
  }

  /** First accumulator row of the band of `angle`. */
  function BandStart(angle: int, m: nat): int {
    (angle - FirstAngle) * m
  }

  /**
    Every row index apply reads, (angle + 45) * m + row for -45 <= angle < 45
    and row < m, lies inside the accumulator's 90 * m rows.
   */
  lemma BandRowInBounds(angle: int, m: nat, row: nat)
    requires FirstAngle <= angle < EndAngle && row < m
    ensures 0 <= BandStart(angle, m) + row < 90 * m
  {
    BandInBounds(angle, m);
  }

  /** The whole band of `angle` lies inside the accumulator. */
  lemma BandInBounds(angle: int, m: nat)
    requires FirstAngle <= angle < EndAngle
    ensures 0 <= BandStart(angle, m) && BandStart(angle, m) + m <= 90 * m
  {
    MulMonotone(angle - FirstAngle + 1, 90, m);
  }

  /** Conversely, every accumulator row belongs to exactly one band: the one of angle r / m - 45. */
  lemma RowInOneBand(r: nat, m: nat, angle: int)
    requires m > 0 && r < 90 * m && FirstAngle <= angle < EndAngle
    ensures BandStart(angle, m) <= r < BandStart(angle, m) + m <==> angle == r / m + FirstAngle
  {
    var a := angle - FirstAngle;
    DivModOfBlock(r / m, m, r % m);
    if BandStart(angle, m) <= r < BandStart(angle, m) + m {
      DivModOfBlock(a, m, r - a * m);
    }
  }

  /** The cells of the band of `angle`, row after row. */
  function BandCells(acc: Grid, m: nat, angle: int): seq<int>
    requires |acc| == 90 * m && FirstAngle <= angle < EndAngle
  {
    BandInBounds(angle, m);
    Flatten(acc[BandStart(angle, m)..BandStart(angle, m) + m])
  }

  /** count, sum and sumSquared of the band of `angle`. */
  function BandStats(acc: Grid, m: nat, angle: int): Stats
    requires |acc| == 90 * m && FirstAngle <= angle < EndAngle
  {
    CellStats(BandCells(acc, m, angle))
  }

  /** The band of `angle` has a non-zero cell, so apply does not skip it. */
  predicate Scored(acc: Grid, m: nat, angle: int)
    requires |acc| == 90 * m && FirstAngle <= angle < EndAngle
  {
    BandStats(acc, m, angle).count > 0
  }

  /** dispersion = sumSquared / count - mean * mean, mean = sum / count. */
  function Variance(s: Stats): real
    requires s.count > 0
  {
    var mean := s.sum as real / s.count as real;
    s.sumSq as real / s.count as real - mean * mean
  }

  /** The dispersion apply computes for a band it does not skip. */
  function Dispersion(acc: Grid, m: nat, angle: int): real
    requires |acc| == 90 * m && FirstAngle <= angle < EndAngle
    requires Scored(acc, m, angle)
  {
    Variance(BandStats(acc, m, angle))
  }

  /** The count is the number of non-zero cells: it is 0 exactly when every cell is 0. */
  lemma {:induction false} CountZeroIffAllZero(cells: seq<int>)
    ensures CellStats(cells).count == 0 <==> forall j :: 0 <= j < |cells| ==> cells[j] == 0
  {
    if |cells| > 0 {
      CountZeroIffAllZero(cells[..|cells| - 1]);
      assert forall j :: 0 <= j < |cells| - 1 ==> cells[..|cells| - 1][j] == cells[j];
    }
  }

  /** A flattened band is all zeros exactly when each of its rows is. */
  lemma {:induction false} FlattenAllZero(rows: seq<seq<int>>)
    ensures (forall j :: 0 <= j < |Flatten(rows)| ==> Flatten(rows)[j] == 0) <==>
            (forall r, c :: 0 <= r < |rows| && 0 <= c < |rows[r]| ==> rows[r][c] == 0)
  {
    if |rows| > 0 {
      var init := rows[..|rows| - 1];
      var last := rows[|rows| - 1];
      FlattenAllZero(init);
      var f := Flatten(rows);
      assert f == Flatten(init) + last;
      assert forall j :: 0 <= j < |Flatten(init)| ==> f[j] == Flatten(init)[j];
      assert forall c :: 0 <= c < |last| ==> f[|Flatten(init)| + c] == last[c];
      assert forall r :: 0 <= r < |init| ==> init[r] == rows[r];
    }
  }

  /** apply skips the band of `angle` exactly when every cell of its rows is 0. */
  lemma ScoredIffNonZeroCell(acc: Grid, m: nat, angle: int)
    requires |acc| == 90 * m && FirstAngle <= angle < EndAngle
    ensures Scored(acc, m, angle) <==>
            exists r, c :: BandStart(angle, m) <= r < BandStart(angle, m) + m && r < |acc| &&
                           0 <= c < |acc[r]| && acc[r][c] != 0
  {
    BandInBounds(angle, m);
    var lo := BandStart(angle, m);
    var band := acc[lo..lo + m];
    CountZeroIffAllZero(BandCells(acc, m, angle));
    FlattenAllZero(band);
    assert forall r :: 0 <= r < m ==> band[r] == acc[lo + r];
    if exists r, c :: lo <= r < lo + m && r < |acc| && 0 <= c < |acc[r]| && acc[r][c] != 0 {
      var r, c :| lo <= r < lo + m && r < |acc| && 0 <= c < |acc[r]| && acc[r][c] != 0;
      assert band[r - lo][c] != 0;
    }
  }

  /**
    An all-zero accumulator (the normalized result of a uniform one) has no
    band apply scores, so apply returns 0 for it.
   */
  lemma ZeroAccumulatorUnscored(m: nat, width: nat, angle: int)
    requires FirstAngle <= angle < EndAngle
    ensures !Scored(ZeroGrid(90 * m, width), m, angle)
  {
    var z := ZeroGrid(90 * m, width);
    BandInBounds(angle, m);
    var lo := BandStart(angle, m);
    var band := z[lo..lo + m];
    assert forall r :: 0 <= r < m ==> band[r] == Zeros(width);
    FlattenAllZero(band);
    CountZeroIffAllZero(BandCells(z, m, angle));
  }

  /**
    With markInDegree 0 the accumulator has no rows and every band is empty,
    so apply skips them all and returns 0.
   */
  lemma EmptyAccumulatorUnscored(acc: Grid, angle: int)
    requires |acc| == 0 && FirstAngle <= angle < EndAngle
    ensures !Scored(acc, 0, angle)
  {
    assert acc[BandStart(angle, 0)..BandStart(angle, 0)] == [];
  }

  /**
    sum (q * x - p)^2 over the non-zero cells x, expanded; non-negative for
    every p and q.
   */
  function SquareSpread(s: Stats, p: int, q: int): int {
    q * q * s.sumSq - 2 * p * q * s.sum + p * p * s.count
  }

  lemma AddCellSpread(s: Stats, v: int, p: int, q: int)
    requires v != 0
    ensures SquareSpread(AddCell(s, v), p, q) == SquareSpread(s, p, q) + (q * v - p) * (q * v - p)
  {
  }

  lemma SquareNonNegative(e: int)
    ensures e * e >= 0
  {
  }

  /** A product with a positive factor is non-negative only if the other factor is. */
  lemma NonNegativeFactor(c: int, x: int)
    requires c > 0 && c * x >= 0
    ensures x >= 0
  {
    if x < 0 {
      MulMonotone(x, -1, c);
      assert false;
    }
  }

  lemma {:induction false} SpreadNonNegative(cells: seq<int>, p: int, q: int)
    ensures SquareSpread(CellStats(cells), p, q) >= 0
  {
    if |cells| > 0 {
      var v := cells[|cells| - 1];
      SpreadNonNegative(cells[..|cells| - 1], p, q);
      if v != 0 {
        AddCellSpread(CellStats(cells[..|cells| - 1]), v, p, q);
        SquareNonNegative(q * v - p);
      }
    }
  }

  /** The spread about the band's own mean, scaled by count^2. */
  lemma SpreadAtMean(s: Stats)
    ensures SquareSpread(s, s.sum, s.count) == s.count * (s.count * s.sumSq - s.sum * s.sum)
  {
  }

  /** count * sumSquared >= sum^2 (Cauchy-Schwarz over the non-zero cells). */
  lemma CountTimesSquaresBound(cells: seq<int>)
    ensures var s := CellStats(cells); s.count > 0 ==> s.count * s.sumSq >= s.sum * s.sum
  {
    var s := CellStats(cells);
    SpreadNonNegative(cells, s.sum, s.count);
    SpreadAtMean(s);
    if s.count > 0 {
      NonNegativeFactor(s.count, s.count * s.sumSq - s.sum * s.sum);
    }
  }

  /** Variance written over the common denominator count^2. */
  lemma VarianceNonNegative(s: Stats)
    requires s.count > 0 && s.count * s.sumSq >= s.sum * s.sum
    ensures Variance(s) >= 0.0
  {
    var c := s.count as real;
    var S := s.sum as real;
    var Q := s.sumSq as real;
    assert (S / c) * (S / c) == (S * S) / (c * c);
    assert Q / c == (Q * c) / (c * c);
    assert Variance(s) == (Q * c - S * S) / (c * c);
    assert Q * c - S * S == (s.count * s.sumSq - s.sum * s.sum) as real;
  }

  /** Exact dispersion is never negative, so the running maximum's start value 0 is a lower bound. */
  lemma DispersionNonNegative(acc: Grid, m: nat, angle: int)
    requires |acc| == 90 * m && FirstAngle <= angle < EndAngle
    requires Scored(acc, m, angle)
    ensures Dispersion(acc, m, angle) >= 0.0
  {
    CountTimesSquaresBound(BandCells(acc, m, angle));
    VarianceNonNegative(BandStats(acc, m, angle));
  }

  lemma CellStatsAppend(cells: seq<int>, v: int)
    ensures CellStats(cells + [v]) == AddCell(CellStats(cells), v)
  {
    assert (cells + [v])[..|cells|] == cells;
  }

  lemma FlattenStep(rows: seq<seq<int>>, i: nat)
    requires i < |rows|
    ensures Flatten(rows[..i + 1]) == Flatten(rows[..i]) + rows[i]
  {
    assert rows[..i + 1][..i] == rows[..i];
  }

  /** The innermost loop of apply: the cells of one row added to running statistics. */
  method AddRow(ghost before: seq<int>, row: seq<int>, st0: Stats) returns (st: Stats)
    requires st0 == CellStats(before)
    ensures st == CellStats(before + row)
  {
    var count: nat, sum, sumSquared := st0.count, st0.sum, st0.sumSq;
    assert before + row[..0] == before;
    for col := 0 to |row|
      invariant Stats(count, sum, sumSquared) == CellStats(before + row[..col])
    {
      var val := row[col];
      CellStatsAppend(before + row[..col], val);
      assert before + row[..col + 1] == (before + row[..col]) + [val];
      count := count + (if val == 0 then 0 else 1);
      sum := sum + val;
      sumSquared := sumSquared + val * val;
    }
    assert row[..|row|] == row;
    st := Stats(count, sum, sumSquared);
  }

  /**
    The two inner loops of apply for one angle: every column of every row of
    the band, accumulating count, sum and sumSquared.
   */
  method BandStatsOf(acc: Grid, m: nat, width: nat, angle: int) returns (st: Stats)
    requires IsGrid(acc, 90 * m, width) && FirstAngle <= angle < EndAngle
    ensures st == BandStats(acc, m, angle)
  {
    BandInBounds(angle, m);
    var start := (angle - FirstAngle) * m;
    ghost var band := acc[start..start + m];
    st := Stats(0, 0, 0);
    for row := 0 to m
      invariant st == CellStats(Flatten(band[..row]))
    {
      BandRowInBounds(angle, m, row);
      st := AddRow(Flatten(band[..row]), acc[start + row], st);
      FlattenStep(band, row);
    }
    assert band[..m] == band;
  }

  /** No scored band below angle `hi` has a dispersion above d. */
  predicate NoneAbove(acc: Grid, m: nat, hi: int, d: real)
    requires |acc| == 90 * m && hi <= EndAngle
  {
    forall a :: FirstAngle <= a < hi && Scored(acc, m, a) ==> Dispersion(acc, m, a) <= d
  }

  /** Every scored band below angle `hi` has a dispersion below d. */
  predicate AllBelow(acc: Grid, m: nat, hi: int, d: real)
    requires |acc| == 90 * m && hi <= EndAngle
  {
    forall a :: FirstAngle <= a < hi && Scored(acc, m, a) ==> Dispersion(acc, m, a) < d
  }

  /** Looking at one more band: the bound still holds if it covers that band too. */
  lemma NoneAboveStep(acc: Grid, m: nat, angle: int, d: real, d': real)
    requires |acc| == 90 * m && FirstAngle <= angle < EndAngle
    requires NoneAbove(acc, m, angle, d) && d <= d'
    requires Scored(acc, m, angle) ==> Dispersion(acc, m, angle) <= d'
    ensures NoneAbove(acc, m, angle + 1, d')
  {
  }

  /** A new strict maximum is above every band seen before it. */
  lemma NoneAboveStrict(acc: Grid, m: nat, hi: int, d: real, d': real)
    requires |acc| == 90 * m && hi <= EndAngle
    requires NoneAbove(acc, m, hi, d) && d < d'
    ensures AllBelow(acc, m, hi, d')
  {
  }

  /**
    apply(): the angle of the band with the strictly largest dispersion,
    scanning from -45 up and starting from dispersion 0 at angle 0. Bands
    without a non-zero cell are skipped; ties keep the lower angle.
   */
  method Apply(acc: Grid, m: nat, width: nat) returns (slant: int)
    requires IsGrid(acc, 90 * m, width)
    requires CellsWithin(acc, 0, 255)
    ensures FirstAngle <= slant < EndAngle
    ensures NoneAbove(acc, m, EndAngle, 0.0) ==> slant == 0
    ensures !NoneAbove(acc, m, EndAngle, 0.0) ==>
              && Scored(acc, m, slant)
              && Dispersion(acc, m, slant) > 0.0
              && NoneAbove(acc, m, EndAngle, Dispersion(acc, m, slant))
              && AllBelow(acc, m, slant, Dispersion(acc, m, slant))
  {
    var maxDispersion: real := 0.0;
    slant := 0;
    for angle := FirstAngle to EndAngle
      invariant FirstAngle <= slant < EndAngle
      invariant maxDispersion == 0.0 ==> slant == 0
      invariant maxDispersion != 0.0 ==>
                  && slant < angle
                  && Scored(acc, m, slant)
                  && maxDispersion == Dispersion(acc, m, slant) > 0.0
                  && AllBelow(acc, m, slant, maxDispersion)
      invariant maxDispersion >= 0.0
      invariant NoneAbove(acc, m, angle, maxDispersion)
    {
      var st := BandStatsOf(acc, m, width, angle);
      if st.count != 0 {
        var mean := st.sum as real / st.count as real;
        var dispersion := st.sumSq as real / st.count as real - mean * mean;
        assert dispersion == Dispersion(acc, m, angle);
        if maxDispersion < dispersion {
          NoneAboveStrict(acc, m, angle, maxDispersion, dispersion);
          maxDispersion := dispersion;
          slant := angle;
        }
      }
      NoneAboveStep(acc, m, angle, maxDispersion, maxDispersion);
    }
  }
}
