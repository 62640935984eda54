# rusty-tank in Dafny

rusty-tank predicts how well a World of Tanks player does with a tank. The data is a sparse matrix:
- one row per account;
- one column per tank;
- each entry is a rating.

This project models the core of the repository:

- **Compressed storage** (`csr.dfy`). The compressed sparse row matrix is a class holding:
  - `values`, a sequence of (index, value) entries;
  - `pointers`, a sequence of row starts.

  `Rows()` is the row view that `start`/`next` build and `get_slice` reads.
- **Varint decoder** (`protobuf.dfy`). It reads a protocol-buffers unsigned varint from a byte sequence and a read position. Decoding is:
  - truncated to 32 bits, like the source's `u32`;
  - reports end of input;
  - reports as `ShiftOverflow` a shift of 32 or more, which panics in Rust debug builds.

  A reference encoder gives the round trip.
- **Statistics reader** (`stats.dfy`). It decodes one account record: a two-byte header, the account id, the tank count, then id/battles/wins for each tank. The tank id is truncated to 16 bits. A round-trip theorem holds for every well-formed record.
- **Pearson correlation** (`itemcf.dfy`). It covers the correlation of two rows, the column map in which the last entry wins, and the symmetry and order-independence of the coefficient.
- **k-means clustering** (`kmeans.dfy`). It covers the model's fields and one clustering step. The step reassigns each row to the first centroid of highest correlation, resets the centroids, sums and divides. After the step, every centroid cell is the mean of the ratings of the rows assigned to it.
- **Naive predictor** (`naive.dfy`). It predicts a column's average rating.
- **Slope One predictor** (`slopeone.dfy`). It covers:
  - training, which stores the average pairwise rating differences and per-column rating counts;
  - the weighted prediction.
- **SVD model** (`svd.dfy`). Only its construction exists in the source.

`common.dfy` holds shared pieces:
- `Option`;
- a `Float` type: a real, or NaN for the results of a division by zero;
- `Flat(i, j, width)`, the row-major position `i * width + j` that the source uses for its square and rectangular tables.

Behaviours of the code that the model keeps:
- `pearson` keys a hash map on the first row's columns, so the last entry of a repeated column wins.
- It returns 0.0 when no column is shared, or when the denominator is below `1e-9`.
- An entry added before the first `start` belongs to no row.

## Model

| member | source | states |
|---|---|---|
| Csr.CompressedStorage.constructor | src/csr.rs:16-18 | A new storage has no values and no row starts. |
| Csr.CompressedStorage.Start | src/csr.rs:20-25 | Pushes the current value count onto `pointers` and leaves the values alone. The row starts stay ascending and within the values, so the storage stays well formed. |
| Csr.CompressedStorage.Next | src/csr.rs:27-30 | Appends exactly the entry (index, value) to `values`. The row starts are unchanged. |
| Csr.CompressedStorage.Len | src/csr.rs:32-35 | The value count is the number of entries appended by `next`. |
| Csr.CompressedStorage.GetSlice | src/csr.rs:37-40 | Row `index` has `pointers[index+1] - pointers[index]` entries. |
| Csr.CompressedStorage.RowIsSlice | src/csr.rs:37-40 | `get_slice(i)` is the i-th row of the row view: the entries appended between the i-th and the (i+1)-th `start`. |
| Csr.SlicesAt | src/csr.rs:10-13 | Row `i` of the row view is `values[pointers[i]..pointers[i+1]]`. |
| Csr.SlicesSnoc | src/csr.rs:20-25 | A `start` closes the current row with exactly the values appended since the previous `start`. |
| Csr.SlicesAppend | src/csr.rs:27-30 | A `next` leaves every closed row unchanged. |
| Csr.CompressedStorage.RowCount | src/slopeone.rs:32 | The number of rows is the number of rows in the row view. |
| Csr.CompressedStorage.SetRowValue | src/kmeans.rs:80 | A write through a mutable row changes the value of one entry. It keeps the entry's index and every row start. |
| Csr.SlicesUpdate | src/kmeans.rs:80 | That write changes exactly entry `offset` of row `index` in the row view. |
| Csr.ColumnCountZero | src/naive.rs:29-31 | A column has no ratings exactly when no row has an entry in it. Its rating sum is then 0. |
| Csr.StartScenario | src/csr.rs:43-74 | start, next(0, 1.0), next(2, 2.0), start gives `pointers == [0, 2]`, `len() == 2` and one row. |
| Csr.NextScenario | src/csr.rs:55-64 | Three `next` calls between two `start` calls give three values. |
| Csr.GetSliceFirstRow | src/csr.rs:78-81 | The first three calls of the `get_slice` test produce exactly these pointers and values. |
| Csr.GetSliceFirstRows | src/csr.rs:78-84 | The first six calls of that test produce exactly these pointers and values. |
| Csr.GetSliceStorage | src/csr.rs:77-86 | The whole construction produces `pointers == [0, 1, 3, 4]` and the four values in order. |
| Csr.GetSliceScenario | src/csr.rs:76-89 | `get_slice(1)` is `[(2, 2.0), (5, 3.0)]`, so it has length 2 and its first index is 2. |
| Protobuf.Decode | src/protobuf.rs:5-22 | A decoded varint uses at least one byte and at most five, all inside the input. |
| Protobuf.DecodeBound | src/protobuf.rs:14 | The decoded value fits in 32 bits. |
| Protobuf.DecodeStops | src/protobuf.rs:9-19 | Decoding stops at the first byte whose high bit is clear. It reports end of input exactly when the input ends within the five-byte limit and every remaining byte has the high bit set. It reports a shift overflow exactly when five continuation bytes are followed by another byte. |
| Protobuf.LongInputs | src/protobuf.rs:9-19 | Five continuation bytes then the end of the input give None. Any sixth byte is shifted by 35 bits. |
| Protobuf.ChunkAligned | src/protobuf.rs:14 | Each byte's bits land on a multiple of its place value, above every earlier bit, so or-ing them in adds them. |
| Protobuf.ReadUvarint | src/protobuf.rs:5-22 | The byte loop returns what `Decode` defines, and the value is below 2^32. |
| Protobuf.TestVectors | src/protobuf.rs:28-32 | `[0x80]` gives None; `[0x00]` gives 0; `[0x03]` gives 3; `[0x8E, 0x02]` gives 270; `[0x9E, 0xA7, 0x05]` gives 86942. |
| Protobuf.SingleByte | src/protobuf.rs:14-17 | A byte below 0x80 is a complete varint holding its own value. |
| Protobuf.RoundTrip | src/protobuf.rs:5-22 | Every u32 encodes in at most five bytes. Decoding the encoding, whatever follows it, gives back the value and stops after the encoding. |
| Protobuf.StopsAtLastByte | src/protobuf.rs:15-17 | Bytes after the terminating byte are never read. Replacing them does not change the result. |
| Protobuf.ReadsOnlySuffix | src/protobuf.rs:9-13 | The result depends only on the bytes from the read position on. |
| Stats.SkipAccountHeader | src/stats.rs:37-40 | Succeeds exactly when two bytes remain, and then advances by two. Otherwise it consumes the rest of the input. |
| Stats.ParseTank | src/stats.rs:28-31 | A tank read consumes at least one byte and stays inside the input. |
| Stats.ParseTanks | src/stats.rs:27-32 | Reading `count` tanks yields exactly `count` more tanks and advances within the input. |
| Stats.ParseAccount | src/stats.rs:20-34 | Gives end of stream exactly when fewer than two bytes remain. A read account ends after its header and inside the input. |
| Stats.ReadAccount | src/stats.rs:20-34 | The reading loop returns what `ParseAccount` defines. |
| Stats.TestRecord | src/stats.rs:42-52 | The test record decodes to account 3 with the single tank (270, 86942, 86941). It consumes all twelve bytes. |
| Stats.TankIdWraps | src/stats.rs:31 | The `as u16` cast keeps the low 16 bits of a tank id: 65541 becomes 5. |
| Stats.TankRoundTrip | src/stats.rs:28-31 | The encoding of a tank whose fields fit their widths decodes to that tank. |
| Stats.TanksRoundTrip | src/stats.rs:27-32 | The encodings of a list of such tanks decode to that list, in order. |
| Stats.AccountRoundTrip | src/stats.rs:20-34 | Any two header bytes followed by an encoded account decode to that account. The read ends after the record. |
| Stats.HeaderIgnored | src/stats.rs:21-23 | The contents of the two header bytes do not affect the account read. |
| Stats.TanksReadOnlySuffix | src/stats.rs:27-32 | Reading tanks depends only on the bytes from the read position on. |
| ItemCf.Pearson | src/itemcf.rs:22-56 | The map and accumulation loops return the coefficient of the sums over the second row's entries whose column the first row rates. |
| ItemCf.ColumnMapLastWins | src/itemcf.rs:25-28 | The map's keys are the first row's columns. Each key maps to the value of the last entry of that column. |
| ItemCf.ColumnMapDistinct | src/itemcf.rs:25-28 | Without repeated columns, each column maps to its own entry's value. |
| ItemCf.MapIgnoresOrder | src/itemcf.rs:25-28 | Without repeated columns, the map does not depend on the order of the entries. |
| ItemCf.PearsonIgnoresOrder | src/itemcf.rs:22-56 | The coefficient does not depend on the order of the first row's entries when its columns are distinct. |
| ItemCf.AccumulateShared | src/itemcf.rs:36-45 | When the second row's columns are distinct, the sums are the sums over the columns the two rows share. |
| ItemCf.SharedCount | src/itemcf.rs:36-45 | When the second row's columns are distinct, `n` is the number of shared columns. |
| ItemCf.NoSharedColumn | src/itemcf.rs:47-49 | `n == 0` exactly when no column is shared. The coefficient is then 0. |
| ItemCf.PearsonSymmetric | src/itemcf.rs:22-56 | When both rows' columns are distinct, swapping the rows swaps the per-row sums, and the coefficient is unchanged. |
| ItemCf.SelfAccumulate | src/itemcf.rs:22-45 | When the map holds each entry's own value, the sums pair each value with itself: both value sums equal the row's sum, and the two squared sums and the product sum equal its sum of squares. |
| ItemCf.SelfCorrelation | src/itemcf.rs:22-56 | A row with distinct columns and a variance spread at or above the 1e-9 guard correlates exactly 1.0 with itself, given a `sqrt` that returns that spread at its square. |
| ItemCf.CoefficientSwap | src/itemcf.rs:50-55 | The closing formula is symmetric in the two rows. |
| ItemCf.SingleSharedColumn | src/itemcf.rs:50-54 | With one shared column the denominator is 0, so the coefficient is 0. |
| ItemCf.TobyAndUnknownArtist | src/itemcf.rs:141 | The test's rows 6 and 7 share one column, so their coefficient is 0.0. |
| KMeans.Model.constructor | src/kmeans.rs:18-37 | Centroid `k` holds one entry per column, in column order, with the initial value for that column. Every row is in cluster 0. |
| KMeans.AppendDenseRow | src/kmeans.rs:24-26 | Appends one entry per column, in column order, and leaves the row starts alone. |
| KMeans.DenseValuesLayout | src/kmeans.rs:22-28 | Value `c` of centroid `k` sits at position `k * column_count + c`. |
| KMeans.Model.ClusterCount | src/kmeans.rs:40-42 | The cluster count is the number of centroid rows. |
| KMeans.Model.GetCluster | src/kmeans.rs:45-47 | Returns the row's assigned cluster, which is below the cluster count. |
| KMeans.Model.GetCentroid | src/kmeans.rs:50-52 | Returns centroid row `index`: one entry per column, whose values are the centroid's cells. |
| KMeans.Model.GetNearestCentroid | src/kmeans.rs:94-109 | Returns the index the running maximum settles on. The maximum starts at minus infinity and is replaced only by a strictly greater correlation, so a NaN correlation is never chosen. |
| KMeans.FirstMaxIsFirstHighest | src/kmeans.rs:97-108 | When every correlation is NaN, the index is 0. Otherwise its correlation is a number at least every numeric correlation. Every earlier one is NaN or strictly smaller. |
| KMeans.Model.MakeStep | src/kmeans.rs:55-91 | Each row is assigned its nearest centroid under the old centroids. The result is the number of changed assignments. Each centroid cell becomes the mean of its column over the rows assigned to it. |
| KMeans.Model.Reassign | src/kmeans.rs:58-64 | Each row gets its nearest centroid; the count of changed assignments is returned. |
| KMeans.ChangesCount | src/kmeans.rs:56-64 | The changed count is 0 exactly when no assignment changed, and is at most the row count. |
| KMeans.Model.ResetCentroids | src/kmeans.rs:66-71 | Every centroid value becomes 0.0 and every entry keeps its column. |
| KMeans.Model.SumUp | src/kmeans.rs:73-82 | Each cell holds the sum of its column over the rows assigned to its cluster. Each count is the number of those ratings. |
| KMeans.Model.AddRow | src/kmeans.rs:75-81 | Adding a row's entries extends those sums and counts by that row. |
| KMeans.Model.AddToCentroid | src/kmeans.rs:80 | Adds `value` to one cell and leaves every other cell alone. |
| KMeans.Model.Divide | src/kmeans.rs:84-88 | Each cell is divided by its own count. An empty count gives NaN. |
| KMeans.Model.DivideCell | src/kmeans.rs:86 | Divides one cell by its count and leaves every other cell alone. |
| KMeans.MeanDefined | src/kmeans.rs:73-88 | A centroid cell is NaN exactly when no row assigned to the cluster rates that column. Otherwise the cell times the count is the sum. |
| KMeans.AssignedCountZero | src/kmeans.rs:78 | A cell's count is 0 exactly when no assigned row rates its column. |
| KMeans.OnlyClusterMatrix | src/kmeans.rs:114-117 | The test matrix has one row holding (0, 50.0). |
| KMeans.OnlyClusterMeans | src/kmeans.rs:123-124 | On that matrix, column 0's mean is 50.0 and column 1 has no mean. |
| KMeans.OnlyClusterScenario | src/kmeans.rs:112-125 | One step with one cluster changes nothing and assigns cluster 0. The centroid becomes (50.0, NaN), whatever the initial centroid. |
| Naive.Model.constructor | src/naive.rs:20-22 | Every column's average starts at 0.0. |
| Naive.Model.Train | src/naive.rs:24-38 | Each column's new average is computed from its old one. The column's sum over the rows before the last is added to it. It is then divided by the column's rating count, except for the last column. |
| Naive.Model.AddRow | src/naive.rs:28-32 | One row adds its values and counts to its own columns only. |
| Naive.TrainedFromZero | src/naive.rs:24-38 | After training a new model, a column other than the last is NaN exactly when no row rates it. Otherwise it is the mean of its ratings. The last column holds the plain sum. |
| Naive.TrainTwiceDiffers | src/naive.rs:30 | Training twice on one row rating 4.0 gives 4.0, then 8.0: the sums build on the previous averages. |
| Naive.Model.Predict | src/naive.rs:43-45 | The prediction is the column's stored average, whatever the row. |
| Naive.PredictAfterTraining | src/naive.rs:20-45 | A prediction after `new` and `train` is the trained value of the column. |
| SlopeOne.Model.constructor | src/slopeone.rs:21-23 | A new model has no averages and no counts. |
| SlopeOne.Model.FlatIndex | src/slopeone.rs:59-61 | The index is `column_1 * column_count + column_2`. |
| SlopeOne.Model.Train | src/slopeone.rs:25-56 | The table has `column_count²` cells and the rating counts have `column_count` entries. Cell (a, b) is the average difference of `r[a] - r[b]` over all co-rating pairs, or None. The rating count of a column is its number of ratings. |
| SlopeOne.Model.AccumulateRow | src/slopeone.rs:33-43 | One row adds its pair sums and pair counts to every cell. It adds its ratings to the counts. |
| SlopeOne.Model.AccumulatePairs | src/slopeone.rs:36-42 | One entry paired with each entry of the row adds its differences and hits to the cells. |
| SlopeOne.Model.AverageAll | src/slopeone.rs:46-55 | Every cell becomes the average difference, or None. |
| SlopeOne.Model.AverageRow | src/slopeone.rs:47-54 | The averaging extends from rows `< column_1` to rows `<= column_1`. |
| SlopeOne.Model.SetAverage | src/slopeone.rs:49-52 | Exactly one cell is set, to its average difference. |
| SlopeOne.InnerClosed | src/slopeone.rs:36-42 | The inner loop's sum and count have closed forms in the row's per-column totals. |
| SlopeOne.OuterClosed | src/slopeone.rs:36-42 | The difference sum of a row for (a, b) is `count_b * sum_a - count_a * sum_b`. |
| SlopeOne.OuterCountClosed | src/slopeone.rs:36-42 | The pair count of a row for (a, b) is `count_a * count_b` for distinct columns. |
| SlopeOne.DifferenceAntisymmetric | src/slopeone.rs:36-42 | The difference sum of (b, a) is the negated sum of (a, b). Their pair counts are equal. |
| SlopeOne.AverageAntisymmetric | src/slopeone.rs:46-55 | The average of (b, a) exists exactly when that of (a, b) does, and it is its negation. |
| SlopeOne.CoRatingsPositive | src/slopeone.rs:36-40 | Pairs exist exactly when the columns differ and some row rates both. |
| SlopeOne.AverageDefined | src/slopeone.rs:46-52 | An average is stored exactly when the columns differ, neither is the last column, and some row rates both. |
| SlopeOne.CoRatedColumnRated | src/slopeone.rs:35 | A column with pairs has been rated, so its weight is positive. |
| SlopeOne.TimesIsProduct | src/slopeone.rs:72 | The weighted term built by repeated addition equals `rating_count * (value + diff)`. |
| SlopeOne.WeightedSumBounds | src/slopeone.rs:69-76 | If every usable estimate lies in [lo, hi], the weighted sum lies between weight·lo and weight·hi. |
| SlopeOne.PredictionBounds | src/slopeone.rs:65-79 | A prediction lies within the range of the usable estimates `value + diff`. |
| SlopeOne.PredictionNone | src/slopeone.rs:78 | The prediction is None exactly when every usable entry has rating count 0. |
| SlopeOne.Model.Predict | src/slopeone.rs:65-79 | The loop returns the weighted mean of the usable estimates, or None when the weight is 0. |
| SlopeOne.TrainedPredictionNone | src/slopeone.rs:25-79 | After training, a prediction is None exactly when no entry of the row has a stored average with the target. |
| SlopeOne.TrainTwice | src/slopeone.rs:26-30 | Training resets the model first: training twice on one matrix gives the same table and counts as training once. |
| Svd.Zeros | src/svd.rs:24-25 | `vec![0.0; count]` has `count` zeros. |
| Svd.NewFeatureVectors | src/svd.rs:37-39 | Gives `count` vectors of `feature_count` zeros. |
| Svd.New | src/svd.rs:21-29 | The model has the requested dimensions, and its base, every bias and every feature is zero. |
| Svd.NewDetermined | src/svd.rs:21-29 | Two models with those dimensions and nothing learned are equal. |
| Numeric.Plus | src/naive.rs:30 | `+=` on a float leaves NaN as NaN and otherwise adds the value. |
| Numeric.DivideBy | src/kmeans.rs:86 | `/=` by a count is defined exactly when the count is positive and the value is a number. The quotient times the count is the value. |

## Left out

- **Input.** File and stream reading is left out. `Read` is modelled as a byte sequence and a position. A `read` that returns 0 is the end of the sequence.
- **Panics.** An `unwrap` that fails in `read_account` becomes the `Aborted` result. A shift of 32 or more in `read_uvarint` panics in debug builds and becomes `ShiftOverflow` here. Release builds mask the shift to `shift % 32` and OR the bits into `value`, which is not modelled.
- **Randomness.** `thread_rng().gen_range(0.0, 100.0)` in `kmeans::Model::new` is replaced by a parameter `initial`. It holds the values drawn, each required to lie in [0, 100).
- **Floating point.**
  - `f64` and `f32` are real numbers. Rounding is not modelled.
  - A division by zero gives NaN in `Float`. ±infinity is not distinguished from NaN.
- **Infinite correlations.** The k-means correlation is a `Float`. A correlation of +∞ is therefore not modelled: it would be NaN here and never chosen, where Rust would choose it. A correlation of −∞ is never chosen in either.
- **Correlation.** `sqrt` in `pearson` is a parameter.
  - The correlation used by k-means is also a parameter (`Correlation`), because `corr::pearson` is not part of this model.
- **Not part of this model:**
  - `helpers.rs`, `main.rs`, `ccf.rs`, `svdcf.rs` and `corr.rs`;
  - the `main` functions;
  - the encyclopedia, evaluation and printing code.
- **The matrix.** `csr::Csr` and `csr::Row` are not part of this model. The model maps them onto `CompressedStorage<nat, real>`:
  - `column` is the entry's `index`;
  - `get_row` is `GetSlice`;
  - `get_mutable_row` writes through `SetRowValue`;
  - `row_count` is the number of rows closed by `start`, which is `|pointers| - 1`.
  
  So `naive::train`'s `0..row_count() - 1` leaves the final row out.
- **Integer widths.** `usize` and `u32` counters, and the `usize` index arithmetic, are unbounded. The only wrap-arounds modelled are the 32-bit `value` of `read_uvarint` and the `as u16` cast of tank ids.
- **Underflow.** `self.column_count - 1` underflows, and panics in Rust, for zero columns. The trainers require `column_count >= 1`, and `naive::train` requires at least one closed row.
- **KMeans.Model.GetNearestCentroid** requires only a well-formed centroid storage with one row per cluster, not the whole model invariant.
- **Svd.** `svd::Model::make_step` takes no arguments and has an empty body, so there is nothing to model.
- **SlopeOne.Model.Train** requires every row entry's column to be below `column_count`. In Rust an out-of-range column panics on the index.
- **KMeans.Model.MakeStep** requires the same of every row entry.
- **KMeans.Model.MakeStep** also requires a positive cluster count unless every row is empty. With no clusters, a rated row indexes the empty `value_count` and panics.
- **Csr.CompressedStorage.GetSlice** requires `index + 1 < |pointers|`. Otherwise the slice in `get_slice` panics.
- **Naive.Model.Train** requires every entry of the rows it reads to name a column below `column_count`. Otherwise indexing `average_rating` panics.
- **Naive.Model.Predict** requires `columnIndex < columnCount`. Otherwise the index into `average_rating` in `predict` panics.
- **KMeans.Model.GetCluster** requires `row < rowCount`. Otherwise the index into `row_clusters` in `get_cluster` panics.
- **KMeans.Model.GetCentroid** requires `index < clusterCount`. Otherwise the slice in `get_row` panics.
- **SlopeOne.Model.Predict** requires:
  - a trained model, meaning tables of size `column_count²` and `column_count`;
  - `column_index < column_count`;
  - every entry of the row to name a column below `column_count`.

  Rust differs as follows:
  - on an untrained model, an empty row gives None and a row with an entry panics;
  - an out-of-range column either panics on `rating_count` or reads another pair's cell through `flat_index`.
