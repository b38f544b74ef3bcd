# Fast Hough Transform core, modelled in Dafny

This project models the integer core of `FastHoughTransformer`, the skew
detector of the FHT repository (`fast_Hough_transform/fast_hough_transform.cpp`).
The class turns an image into a Hough accumulator and then picks the slant
angle. The model covers four steps of that pipeline:

- **Working size and padding** (module `Sizing`).
  - N is the smallest power of two at least max(width, height).
  - `markInDegree` is 2N / 180 in integer division.
  - Every channel is zero-padded on the bottom and right to N x N.
  - The accumulator has 90 * markInDegree rows.
- **The quadrant transform** `tranform_from_zero_to_pi_div_4` (module `Quadrant`).
  - The plane is seeded into an N x 2N buffer.
  - log2 N merge levels follow. At each level, every cell is the sum of two cells of the previous level, and the column index wraps modulo 2N.
  - The model has two forms:
    - a pure function, `Transform`, built level by level;
    - a two-buffer `array2` method, `TransformQuadrant`, that swaps buffers after each level, as the source does.
  - The method is proved to compute the function.
- **Normalization** (module `Normalization`). The global min and max are found, and each cell becomes int((v - min) / (max - min) * 255). The doubles are modelled as exact reals, and int(...) as truncation toward zero.
- **Angle selection** `apply` (module `AngleSearch`).
  - For each 1-degree band of markInDegree rows, the model takes the count, sum and sum of squares of the band's non-zero cells.
  - The dispersion is sumSquared / count - mean².
  - The result is the argmax over bands, found with a strict `<` and starting from dispersion 0 at angle 0.

Module `Transformer` assembles the constructor:
- the working size;
- padding of every channel;
- one table per channel, added with `+=` into one shared accumulator;
- normalization.

The Radon assembly step that produces each channel's table is a function parameter (see "Left out"). Modules `Arith` (powers of two, block division) and `Grids` (grids as `seq<seq<int>>`, row sums, rotation) hold shared definitions.

Notes on the code's behaviour:
- The code truncates when it normalizes; it does not round.
- The code has no guard for max == min. Its uniform case is undefined (see "Findings"). `NormalizeGuarded` is the corrected version, and the constructor model uses it.
- An image with no pixels does not fail fast. In the code, pow(2, ceil(log2(0))) gives N = 0, and `WorkingSize` returns 0 for that case.
- For N <= 64, `markInDegree` is 0 (`SmallSizeHasNoRows`). The accumulator then has no rows, no band is scored (`EmptyAccumulatorUnscored`), and apply returns 0.

## Model

| member | source | states |
|---|---|---|
| Sizing.WorkingSize | fast_Hough_transform/fast_hough_transform.cpp:14-16 | N is a power of two, at least max(width, height), below 2 * max, and no larger than any power of two that covers max; N is 0 for an image with no pixels |
| Sizing.LevelCount | fast_Hough_transform/fast_hough_transform.cpp:109 | the merge loop's bound log2 N is the exponent k with 2^k = N |
| Sizing.Log2CeilLeast | fast_Hough_transform/fast_hough_transform.cpp:14-16 | ceil(log2 m) is the least exponent whose power of two covers m |
| Sizing.MarkInDegree | fast_Hough_transform/fast_hough_transform.cpp:17 | markInDegree is the number of whole 90-row groups in N: 90m <= N < 90(m+1), and exact when 90 divides N |
| Sizing.SmallSizeHasNoRows | fast_Hough_transform/fast_hough_transform.cpp:17 | for N <= 64, markInDegree is 0 |
| Sizing.AccumulatorRows | fast_Hough_transform/fast_hough_transform.cpp:23 | the accumulator has a multiple of 90 rows and at most N of them |
| Sizing.Pad | fast_Hough_transform/fast_hough_transform.cpp:18-21 | the padded plane is N x N, equals the image on the top-left height x width rectangle and is 0 everywhere else |
| Sizing.CropPad | fast_Hough_transform/fast_hough_transform.cpp:18-21 | cropping the padded plane back to height x width gives the image again |
| Sizing.PadTotal | fast_Hough_transform/fast_hough_transform.cpp:18-21 | padding adds only zeros: the plane's total is the image's |
| Quadrant.Seed | fast_Hough_transform/fast_hough_transform.cpp:104-105 | the N x 2N buffer holds the plane in its left N columns and zeros in the right N |
| Quadrant.SeedBuffer | fast_Hough_transform/fast_hough_transform.cpp:104-105 | the first array buffer is fresh, N x 2N, and holds the seeded buffer cell by cell |
| Quadrant.LevelShape | fast_Hough_transform/fast_hough_transform.cpp:109-113 | at level i, N splits into 2^(k-i) blocks of 2^i rows, each made of two halves of 2^(i-1) rows |
| Quadrant.MergedCellAt | fast_Hough_transform/fast_hough_transform.cpp:113-120 | cell (y + a, x) of a level is R[y + a/2][x] + R[y + half + a/2][(x + (a+1)/2) mod 2N], for y a multiple of the block height and every index in bounds |
| Quadrant.MergedRow | fast_Hough_transform/fast_hough_transform.cpp:113-120 | a merged row is the cell-wise sum of one row of the upper half-block and one row of the lower half-block rotated left by (a+1)/2 |
| Quadrant.SourceRowsBlocks | fast_Hough_transform/fast_hough_transform.cpp:116-118 | the two rows read for row y + a lie in the upper and the lower half of y's block |
| Quadrant.JoinedRowSum | fast_Hough_transform/fast_hough_transform.cpp:116-120 | an upper row summing to the plane's rows [y, y + half), joined with a rotated lower row summing to [y + half, y + 2·half), sums to [y, y + 2·half) |
| Quadrant.MergedRowSum | fast_Hough_transform/fast_hough_transform.cpp:113-124 | if every row sums to the total of its half-block of the plane, a merged row sums to the total of its whole block |
| Quadrant.MergeLevelBlockSums | fast_Hough_transform/fast_hough_transform.cpp:113-124 | one merge level doubles the block height of the row-sum invariant |
| Quadrant.LevelBlockSums | fast_Hough_transform/fast_hough_transform.cpp:109-125 | after level i, each row sums over all 2N columns to the total of the plane's rows in its 2^i-row block |
| Quadrant.TransformRowSums | fast_Hough_transform/fast_hough_transform.cpp:102-127 | after log2 N levels, every output row sums to the total of the whole plane |
| Quadrant.MergeLevelNonNegative | fast_Hough_transform/fast_hough_transform.cpp:116-120 | a merge level only adds cells of the previous buffer, so a non-negative buffer stays non-negative |
| Quadrant.LevelsNonNegative | fast_Hough_transform/fast_hough_transform.cpp:109-125 | a non-negative plane gives a non-negative buffer after every level |
| Quadrant.TransformNonNegative | fast_Hough_transform/fast_hough_transform.cpp:102-127 | non-negative input gives non-negative line sums |
| Quadrant.MergeColumn | fast_Hough_transform/fast_hough_transform.cpp:115-121 | the innermost loop writes rows y .. y + 2·half - 1 of column x with the merged values, reading only in-bounds cells |
| Quadrant.MergeBlock | fast_Hough_transform/fast_hough_transform.cpp:114-122 | one block of rows, all 2N columns, is written with the merged values |
| Quadrant.MergeInto | fast_Hough_transform/fast_hough_transform.cpp:113-123 | one level over all blocks writes the whole next buffer as the merge of the current one |
| Quadrant.TransformQuadrant | fast_Hough_transform/fast_hough_transform.cpp:102-127 | the two-buffer loop with swaps returns exactly the level-by-level transform; the result is N x 2N and every row sums to the plane's total |
| Normalization.NormalizeCell | fast_Hough_transform/fast_hough_transform.cpp:48-49 | for v >= min, the truncated real rescale equals the integer quotient (v - min) * 255 / (max - min) |
| Normalization.NormalizeCellRange | fast_Hough_transform/fast_hough_transform.cpp:48-49 | the rescale maps [min, max] into [0, 255], min to 0 and max to 255, and keeps order |
| Normalization.NormalizeGrid | fast_Hough_transform/fast_hough_transform.cpp:46-52 | the rescaled grid has the accumulator's shape; if the cells lie in [min, max], the results lie in [0, 255] |
| Normalization.GridMin | fast_Hough_transform/fast_hough_transform.cpp:41 | minMaxLoc's min is attained by some cell and is at most every cell |
| Normalization.GridMax | fast_Hough_transform/fast_hough_transform.cpp:41 | minMaxLoc's max is attained by some cell and is at least every cell |
| Normalization.NormalizeAsWritten | fast_Hough_transform/fast_hough_transform.cpp:37-52 | an accumulator without cells is unchanged; the result is undefined exactly when the accumulator has cells and they are all equal; otherwise it keeps the shape and every cell is in [0, 255] |
| Normalization.ZeroAccumulatorUndefined | fast_Hough_transform/fast_hough_transform.cpp:48-49 | an all-zero accumulator with a cell hits 0.0 / 0.0; the guarded version gives all zeros |
| Normalization.NormalizeGuarded | fast_Hough_transform/fast_hough_transform.cpp:37-52 | agrees with the code wherever the code is defined; maps a uniform accumulator to all zeros; always gives cells in [0, 255] |
| Normalization.NormalizeExtremes | fast_Hough_transform/fast_hough_transform.cpp:41-51 | on a non-uniform accumulator, a min cell becomes 0, a max cell 255, and the order of cells is kept |
| Normalization.RenormalizeIsIdentity | fast_Hough_transform/fast_hough_transform.cpp:41-51 | an accumulator that already spans exactly [0, 255] is unchanged by normalization |
| AngleSearch.BandRowInBounds | fast_Hough_transform/fast_hough_transform.cpp:136-144 | the row (angle + 45) * markInDegree + row is inside the 90 * markInDegree accumulator rows for every angle in [-45, 44] and row < markInDegree |
| AngleSearch.RowInOneBand | fast_Hough_transform/fast_hough_transform.cpp:136-144 | every accumulator row belongs to exactly one band, the one of angle r / markInDegree - 45 |
| AngleSearch.CountZeroIffAllZero | fast_Hough_transform/fast_hough_transform.cpp:145 | the count is 0 exactly when every cell read is 0 |
| AngleSearch.ScoredIffNonZeroCell | fast_Hough_transform/fast_hough_transform.cpp:141-153 | apply skips a band exactly when every cell of its rows is 0 |
| AngleSearch.EmptyAccumulatorUnscored | fast_Hough_transform/fast_hough_transform.cpp:141-153 | with markInDegree 0 the accumulator has no rows, so every band is skipped and apply returns 0 |
| AngleSearch.ZeroAccumulatorUnscored | fast_Hough_transform/fast_hough_transform.cpp:151-153 | an all-zero accumulator has no band apply scores |
| AngleSearch.CountTimesSquaresBound | fast_Hough_transform/fast_hough_transform.cpp:145-147 | over the non-zero cells, count * sumSquared >= sum² |
| AngleSearch.DispersionNonNegative | fast_Hough_transform/fast_hough_transform.cpp:155-156 | the exact dispersion of a scored band is never negative |
| AngleSearch.AddRow | fast_Hough_transform/fast_hough_transform.cpp:142-148 | the column loop adds one row's cells to the running count, sum and sumSquared |
| AngleSearch.BandStatsOf | fast_Hough_transform/fast_hough_transform.cpp:137-149 | the two inner loops compute count, sum and sumSquared of the band's cells |
| AngleSearch.Apply | fast_Hough_transform/fast_hough_transform.cpp:129-165 | the result is in [-45, 44]. It is 0 when no band has dispersion > 0. Otherwise it is a scored band whose dispersion is positive and maximal, and strictly greater than that of every scored band at a lower angle |
| Transformer.AccumulateTotal | fast_Hough_transform/fast_hough_transform.cpp:33-35 | adding the channels' tables conserves mass: the accumulator total is the start total plus every table's total |
| Transformer.AccumulateConcat | fast_Hough_transform/fast_hough_transform.cpp:33-35 | there is no reset between channels: accumulating two lists one after the other is accumulating their concatenation |
| Transformer.AccumulateSwap | fast_Hough_transform/fast_hough_transform.cpp:33-35 | the order of two channels does not change the accumulator |
| Transformer.Construct | fast_Hough_transform/fast_hough_transform.cpp:9-52 | the constructor's state has N = WorkingSize, markInDegree = 2N / 180 and a 90 * markInDegree-row accumulator, with every cell in [0, 255] |

## Left out

- `radon_transform` (fast_hough_transform.cpp:56-100) is not modelled. Its read positions come from `cos`, `tan` and `round` on doubles. `Construct` takes it as a function parameter that returns a table of the accumulator's shape. Only the `+=` accumulation of the tables into one shared accumulator is modelled.
- `prod_n_sqrt_2` (line 7) uses `sqrt(2)`. The accumulator width is a parameter (`accWidth`).
- `main.cpp` is not part of this model. It covers argument handling, image reading, colour conversion, timing and console output.
- `imReadAfterTransformation` is not modelled: it is a file write.
- The `pow` and `log2` doubles at lines 14-16 and 109 are modelled by their integer meaning: the least power of two, and k = log2 N.
- The OpenCV calls (`copyMakeBorder`, `split`, `minMaxLoc`, `swap`) are modelled by their effect on plain grids.
- Normalization.NormalizeAsWritten: for an accumulator with no rows (N <= 64), `minMaxLoc` is assumed to return without failing. The loop then writes nothing, so the model leaves the accumulator unchanged. What OpenCV reports as min and max for an empty matrix is not modelled.
- Normalization.NormalizeCell: doubles are exact reals, so the rounding of the double division is not modelled and bit-exact agreement is not claimed.
- AngleSearch.Apply: the variance uses exact reals, so the rounding of the double division is not modelled. This can matter for near-ties.
- AngleSearch.Apply requires the accumulator's cells to lie in [0, 255]. `Construct` guarantees this, and in that range the `uint64_t` cast is the identity. The wrap-around of the cast for negative cells is not modelled, nor the overflow of `sum`, `sumSquared` and `count`, which cannot happen at these cell values and accumulator sizes.
- Quadrant.TransformQuadrant models `CV_32S` cells as unbounded integers. 32-bit overflow of the line sums is not modelled; it cannot happen for 8-bit planes up to N = 2^12.
- Quadrant.TransformRowSums states conservation, not the geometry: it does not prove that each output cell is the sum along one particular discrete dyadic line.
- Transformer.Construct uses the guarded normalization (see "Findings"). For a uniform non-empty accumulator it does not model the code's undefined result.

## Findings

| source | as written | input that shows it | evidently intended | confidence | as-written member | corrected member |
|---|---|---|---|---|---|---|
| fast_Hough_transform/fast_hough_transform.cpp:48-49 | normalization divides by (max - min) with no check; when every accumulator cell is equal, this computes 0.0 / 0.0 = NaN and converts it to int, which C++ leaves undefined | an all-black single-channel image of 128 x 128 (N = 128, markInDegree = 1): the accumulator is 90 rows of zeros, so min = max = 0 | a uniform accumulator maps to all zeros | not executed | Normalization.NormalizeAsWritten, exhibited by Normalization.ZeroAccumulatorUndefined | Normalization.NormalizeGuarded |
