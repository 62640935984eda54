/**
 * K-Means clustering of the rows of a sparse matrix. The centroids are a
 * compressed sparse storage of dense rows, one per cluster; a step assigns
 * every row to its most correlated centroid and then moves each centroid to
 * the per-column mean of the rows assigned to it.
 */
module KMeans {
  import opened Csr
  import opened Numeric
  import opened Options
  import opened Grid

  /**
   * The correlation of a matrix row with a centroid row, supplied by the
   * caller. It is a float: a centroid cell with no ratings is NaN, and so may
   * be a correlation computed from it.
   */
  type Correlation = (Row<real>, Row<Float>) -> Float

  /** A centroid row: one entry per column, in column order. */
  ghost predicate Dense(row: Row<Float>, columnCount: nat) {
    |row| == columnCount && forall c :: 0 <= c < |row| ==> row[c].index == c
  }

  ghost predicate AllDense(rows: seq<Row<Float>>, clusterCount: nat, columnCount: nat) {
    |rows| == clusterCount && forall k :: 0 <= k < |rows| ==> Dense(rows[k], columnCount)
  }

  /** The centroid row `new` builds from initial values. */
  function DenseRow(values: seq<real>): (row: Row<Float>)
    ensures |row| == |values|
  {
    seq(|values|, c requires 0 <= c < |values| => IndexedValue(c, Num(values[c])))
  }

  /** The correlation of `row` with each centroid, in cluster order. */
  function Scores(row: Row<real>, centroids: seq<Row<Float>>, correlation: Correlation): (s: seq<Float>)
    ensures |s| == |centroids|
  {
    seq(|centroids|, i requires 0 <= i < |centroids| => correlation(row, centroids[i]))
  }

  // Choosing the nearest centroid.

  /**
   * Whether score `x` replaces the running maximum held at index `m` of the
   * scores before it. The maximum starts at minus infinity, and a NaN
   * compares greater than nothing, so a NaN never replaces it and a number
   * replaces a maximum that is still the start value.
   */
  predicate Exceeds(x: Float, before: seq<Float>, m: nat) {
    x.Num? && (m >= |before| || before[m].NaN? || x.value > before[m].value)
  }

  /** The index a running maximum with a strict comparison settles on; 0 when no score is a number. */
  function FirstMax(scores: seq<Float>): (m: nat)
    ensures |scores| > 0 ==> m < |scores|
    ensures |scores| == 0 ==> m == 0
  {
    if |scores| == 0 then 0
    else
      var before := scores[..|scores| - 1];
      var m := FirstMax(before);
      if Exceeds(scores[|scores| - 1], before, m) then |scores| - 1 else m
  }

  /**
   * It is the first index holding the highest numeric score, and 0 when
   * every score is NaN.
   */
  lemma {:induction false} FirstMaxIsFirstHighest(scores: seq<Float>)
    requires |scores| > 0
    ensures (forall i :: 0 <= i < |scores| ==> scores[i].NaN?) ==> FirstMax(scores) == 0
    ensures (exists i :: 0 <= i < |scores| && scores[i].Num?) ==> scores[FirstMax(scores)].Num?
    ensures forall i :: 0 <= i < |scores| && scores[i].Num? ==>
      scores[FirstMax(scores)].Num? && scores[i].value <= scores[FirstMax(scores)].value
    ensures forall i :: 0 <= i < FirstMax(scores) ==>
      scores[i].NaN? || scores[i].value < scores[FirstMax(scores)].value
  {
    var n := |scores| - 1;
    var before := scores[..n];
    assert forall i :: 0 <= i < n ==> before[i] == scores[i];
    if n > 0 {
      FirstMaxIsFirstHighest(before);
    }
  }

  // Counting reassignments.

  /** The number of positions at which two assignments differ. */
  function Changes(before: seq<nat>, after: seq<nat>): nat
    requires |before| == |after|
  {
    if before == [] then 0
    else Changes(before[..|before| - 1], after[..|after| - 1]) + if before[|before| - 1] != after[|after| - 1] then 1 else 0
  }

  /** No change is counted exactly when nothing changed, and never more than one per row. */
  lemma {:induction false} ChangesCount(before: seq<nat>, after: seq<nat>)
    requires |before| == |after|
    ensures Changes(before, after) == 0 <==> before == after
    ensures Changes(before, after) <= |before|
  {
    if before != [] {
      var n := |before| - 1;
      ChangesCount(before[..n], after[..n]);
      if before[..n] == after[..n] && before[n] == after[n] {
        assert before == before[..n] + [before[n]] && after == after[..n] + [after[n]];
      }
      if before == after {
        assert before[..n] == after[..n];
      }
    }
  }

  /** Settling position `r` counts one more change exactly when it moves. */
  lemma ChangesStep(before: seq<nat>, previous: seq<nat>, r: nat, nearest: nat)
    requires |before| == |previous| && r < |before| && previous[r] == before[r]
    ensures Changes(before[..r + 1], previous[r := nearest][..r + 1])
      == Changes(before[..r], previous[..r]) + if nearest != before[r] then 1 else 0
  {
    assert before[..r + 1][..r] == before[..r] && previous[r := nearest][..r + 1][..r] == previous[..r];
  }

  // Per-cluster column means.

  /** The sum of `column` over the rows assigned to `cluster`. */
  function AssignedSum(rows: seq<Row<real>>, clusters: seq<nat>, cluster: nat, column: nat): real
    requires |rows| <= |clusters|
  {
    if rows == [] then 0.0
    else
      AssignedSum(rows[..|rows| - 1], clusters, cluster, column)
        + if clusters[|rows| - 1] == cluster then EntrySum(rows[|rows| - 1], column) else 0.0
  }

  /** The number of values of `column` in the rows assigned to `cluster`. */
  function AssignedCount(rows: seq<Row<real>>, clusters: seq<nat>, cluster: nat, column: nat): nat
    requires |rows| <= |clusters|
  {
    if rows == [] then 0
    else
      AssignedCount(rows[..|rows| - 1], clusters, cluster, column)
        + if clusters[|rows| - 1] == cluster then EntryCount(rows[|rows| - 1], column) else 0
  }

  /** A centroid value after a step: the mean of its column over its rows, NaN without any value. */
  function Mean(rows: seq<Row<real>>, clusters: seq<nat>, cluster: nat, column: nat): (m: Float)
    requires |rows| <= |clusters|
  {
    DivideBy(Num(AssignedSum(rows, clusters, cluster, column)), AssignedCount(rows, clusters, cluster, column))
  }

  /**
   * The mean is a number exactly when some row assigned to the cluster has an
   * entry in the column, and then it times the count is the sum.
   */
  lemma {:induction false} MeanDefined(rows: seq<Row<real>>, clusters: seq<nat>, cluster: nat, column: nat)
    requires |rows| <= |clusters|
    ensures Mean(rows, clusters, cluster, column).NaN? <==>
      forall r, j :: 0 <= r < |rows| && clusters[r] == cluster && 0 <= j < |rows[r]| ==> rows[r][j].index != column
    ensures Mean(rows, clusters, cluster, column).Num? ==>
      Mean(rows, clusters, cluster, column).value * (AssignedCount(rows, clusters, cluster, column) as real)
        == AssignedSum(rows, clusters, cluster, column)
  {
    AssignedCountZero(rows, clusters, cluster, column);
  }

  lemma {:induction false} AssignedCountZero(rows: seq<Row<real>>, clusters: seq<nat>, cluster: nat, column: nat)
    requires |rows| <= |clusters|
    ensures AssignedCount(rows, clusters, cluster, column) == 0 <==>
      forall r, j :: 0 <= r < |rows| && clusters[r] == cluster && 0 <= j < |rows[r]| ==> rows[r][j].index != column
  {
    if rows != [] {
      var n := |rows| - 1;
      AssignedCountZero(rows[..n], clusters, cluster, column);
      EntryCountZero(rows[n], column);
      assert forall r :: 0 <= r < n ==> rows[..n][r] == rows[r];
    }
  }

  // The centroid layout: cluster `k`, column `c` lives at entry `Flat(k, c, columnCount)`.

  /** Row `k` opens at `Flat(k, 0, columnCount)`; the last offset closes the entries. */
  ghost predicate Layout(pointers: seq<nat>, count: nat, clusterCount: nat, columnCount: nat) {
    |pointers| == clusterCount + 1 && count == Flat(clusterCount, 0, columnCount)
    && forall k :: 0 <= k <= clusterCount ==> pointers[k] == Flat(k, 0, columnCount)
  }

  /** Entry `c` of every centroid row is indexed by column `c`. */
  ghost predicate Columns(values: seq<IndexedValue<nat, Float>>, clusterCount: nat, columnCount: nat) {
    forall k: nat, c: nat :: k < clusterCount && c < columnCount ==>
      Flat(k, c, columnCount) < |values| && values[Flat(k, c, columnCount)].index == c
  }

  /** The offsets of `count` rows `width` entries wide. */
  ghost function Offsets(count: nat, width: nat): (pointers: seq<nat>)
    ensures |pointers| == count
  {
    seq(count, i requires 0 <= i => Flat(i, 0, width))
  }

  /** The entries `new` stores: the dense rows of `rows`, one after the other. */
  ghost function DenseValues(rows: seq<seq<real>>): seq<IndexedValue<nat, Float>> {
    if rows == [] then [] else DenseValues(rows[..|rows| - 1]) + DenseRow(rows[|rows| - 1])
  }

  /** Rows of equal width land in the layout: value `c` of row `k` at `Flat(k, c, width)`. */
  lemma {:induction false} DenseValuesLayout(rows: seq<seq<real>>, width: nat)
    requires forall k :: 0 <= k < |rows| ==> |rows[k]| == width
    ensures |DenseValues(rows)| == Flat(|rows|, 0, width)
    ensures forall k: nat, c: nat :: k < |rows| && c < width ==>
      Flat(k, c, width) < |DenseValues(rows)| && DenseValues(rows)[Flat(k, c, width)] == IndexedValue(c, Num(rows[k][c]))
  {
    if rows != [] {
      var n := |rows| - 1;
      var init := rows[..n];
      DenseValuesLayout(init, width);
      var prefix, last := DenseValues(init), DenseRow(rows[n]);
      assert DenseValues(rows) == prefix + last;
      forall k: nat, c: nat | k < |rows| && c < width
        ensures Flat(k, c, width) < |DenseValues(rows)| && DenseValues(rows)[Flat(k, c, width)] == IndexedValue(c, Num(rows[k][c]))
      {
        FlatShift(k, c, width);
        if k < n {
          assert init[k] == rows[k];
          assert (prefix + last)[Flat(k, c, width)] == prefix[Flat(k, c, width)];
        } else {
          assert (prefix + last)[Flat(k, c, width)] == last[c];
        }
      }
    }
  }

  /** Each centroid row is `columnCount` entries wide. */
  lemma LayoutWidth(pointers: seq<nat>, count: nat, clusterCount: nat, columnCount: nat, k: nat)
    requires Layout(pointers, count, clusterCount, columnCount) && k < clusterCount
    ensures pointers[k + 1] == pointers[k] + columnCount
  {
  }

  /** Entry `j` of centroid row `k` is cell (`k`, `j`), indexed by column `j`. */
  lemma LayoutCell(values: seq<IndexedValue<nat, Float>>, pointers: seq<nat>, clusterCount: nat, columnCount: nat, k: nat, j: nat)
    requires Layout(pointers, |values|, clusterCount, columnCount) && Columns(values, clusterCount, columnCount)
    requires k < clusterCount && j < columnCount
    ensures pointers[k] + j == Flat(k, j, columnCount) < |values| && values[pointers[k] + j].index == j
  {
    FlatShift(k, j, columnCount);
  }

  /** In this layout the rows are dense, and entry `c` of row `k` is the entry at `Flat(k, c, columnCount)`. */
  lemma DenseRows(values: seq<IndexedValue<nat, Float>>, pointers: seq<nat>, clusterCount: nat, columnCount: nat)
    requires Ascending(pointers) && Bounded(pointers, |values|)
    requires Layout(pointers, |values|, clusterCount, columnCount) && Columns(values, clusterCount, columnCount)
    ensures AllDense(Slices(values, pointers), clusterCount, columnCount)
    ensures forall k, c :: 0 <= k < clusterCount && 0 <= c < columnCount ==>
      Slices(values, pointers)[k][c] == values[Flat(k, c, columnCount)]
  {
    SlicesAt(values, pointers);
    forall k | 0 <= k < clusterCount
      ensures Dense(Slices(values, pointers)[k], columnCount)
      ensures forall c :: 0 <= c < columnCount ==> Slices(values, pointers)[k][c] == values[Flat(k, c, columnCount)]
    {
      LayoutWidth(pointers, |values|, clusterCount, columnCount, k);
      LayoutRow(values, Slices(values, pointers)[k], clusterCount, columnCount, k);
    }
  }

  /** The entries of row `k` of the layout are the cells of cluster `k`. */
  lemma LayoutRow(values: seq<IndexedValue<nat, Float>>, row: Row<Float>, clusterCount: nat, columnCount: nat, k: nat)
    requires Columns(values, clusterCount, columnCount) && k < clusterCount
    requires Flat(k, 0, columnCount) + columnCount <= |values|
    requires row == values[Flat(k, 0, columnCount)..Flat(k, 0, columnCount) + columnCount]
    ensures Dense(row, columnCount)
    ensures forall c :: 0 <= c < columnCount ==> row[c] == values[Flat(k, c, columnCount)]
  {
    forall c | 0 <= c < columnCount
      ensures row[c] == values[Flat(k, c, columnCount)]
    {
      FlatShift(k, c, columnCount);
    }
  }

  // Summing up, one entry at a time.

  /**
   * The counts and centroid values after the rows `rows` and then the entries
   * `row` of a row in cluster `cluster`: each cell holds the count and the sum
   * of its column over the rows of its cluster seen so far.
   */
  ghost predicate PartialSums(counts: seq<nat>, values: seq<IndexedValue<nat, Float>>, rows: seq<Row<real>>, clusters: seq<nat>,
                              row: Row<real>, cluster: nat, clusterCount: nat, columnCount: nat)
    requires |rows| <= |clusters|
  {
    |counts| == Flat(clusterCount, 0, columnCount) && |values| == Flat(clusterCount, 0, columnCount)
    && forall k: nat, c: nat :: k < clusterCount && c < columnCount ==>
      Flat(k, c, columnCount) < |counts|
      && counts[Flat(k, c, columnCount)] == AssignedCount(rows, clusters, k, c) + (if cluster == k then EntryCount(row, c) else 0)
      && values[Flat(k, c, columnCount)]
        == IndexedValue(c, Num(AssignedSum(rows, clusters, k, c) + if cluster == k then EntrySum(row, c) else 0.0))
  }

  /** Counting entry `j` in its cell and adding its value to its centroid cell accounts for it. */
  lemma SumStep(counts: seq<nat>, values: seq<IndexedValue<nat, Float>>, counts': seq<nat>, values': seq<IndexedValue<nat, Float>>,
                rows: seq<Row<real>>, clusters: seq<nat>, row: Row<real>, j: nat, cluster: nat, clusterCount: nat, columnCount: nat)
    requires |rows| <= |clusters| && j < |row| && cluster < clusterCount && row[j].index < columnCount
    requires PartialSums(counts, values, rows, clusters, row[..j], cluster, clusterCount, columnCount)
    requires Flat(cluster, row[j].index, columnCount) < |counts| == |values|
    requires counts' == counts[Flat(cluster, row[j].index, columnCount) := counts[Flat(cluster, row[j].index, columnCount)] + 1]
    requires values' == values[Flat(cluster, row[j].index, columnCount) :=
      IndexedValue(row[j].index, Plus(values[Flat(cluster, row[j].index, columnCount)].value, row[j].value))]
    ensures PartialSums(counts', values', rows, clusters, row[..j + 1], cluster, clusterCount, columnCount)
  {
    var column := row[j].index;
    var cell := Flat(cluster, column, columnCount);
    forall k: nat, c: nat | k < clusterCount && c < columnCount
      ensures counts'[Flat(k, c, columnCount)] == AssignedCount(rows, clusters, k, c) + (if cluster == k then EntryCount(row[..j + 1], c) else 0)
      ensures values'[Flat(k, c, columnCount)]
        == IndexedValue(c, Num(AssignedSum(rows, clusters, k, c) + if cluster == k then EntrySum(row[..j + 1], c) else 0.0))
    {
      EntryStep(row, j, c);
      if k != cluster || c != column {
        if Flat(k, c, columnCount) == cell {
          FlatInjective(k, c, cluster, column, columnCount);
        }
      }
    }
  }

  /** Before any row: zero counts, and zero centroid values indexed by their columns. */
  lemma SumStart(values: seq<IndexedValue<nat, Float>>, clusters: seq<nat>, clusterCount: nat, columnCount: nat)
    requires |values| == Flat(clusterCount, 0, columnCount) && Columns(values, clusterCount, columnCount)
    requires forall q :: 0 <= q < |values| ==> values[q].value == Num(0.0)
    ensures PartialSums(seq(Flat(clusterCount, 0, columnCount), i => 0), values, [], clusters, [], 0, clusterCount, columnCount)
  {
  }

  /**
   * Dividing every summed cell by its count leaves in each cell the mean of
   * its column over the rows of its cluster.
   */
  lemma MeanCells(counts: seq<nat>, sums: seq<IndexedValue<nat, Float>>, values: seq<IndexedValue<nat, Float>>,
                  rows: seq<Row<real>>, clusters: seq<nat>, clusterCount: nat, columnCount: nat)
    requires |rows| <= |clusters|
    requires PartialSums(counts, sums, rows, clusters, [], 0, clusterCount, columnCount)
    requires |values| == |sums| && forall q :: 0 <= q < |sums| ==> values[q].value == DivideBy(sums[q].value, counts[q])
    ensures forall k: nat, c: nat :: k < clusterCount && c < columnCount ==>
      Flat(k, c, columnCount) < |values| && values[Flat(k, c, columnCount)].value == Mean(rows, clusters, k, c)
  {
  }

  /** Before any entry of a row, which cluster it is in makes no difference. */
  lemma RowStart(counts: seq<nat>, values: seq<IndexedValue<nat, Float>>, rows: seq<Row<real>>, clusters: seq<nat>,
                 cluster: nat, clusterCount: nat, columnCount: nat)
    requires |rows| <= |clusters|
    requires PartialSums(counts, values, rows, clusters, [], 0, clusterCount, columnCount)
    ensures PartialSums(counts, values, rows, clusters, [], cluster, clusterCount, columnCount)
  {
  }

  /** Once all entries of the next row are in, that row joins the rows summed up. */
  lemma RowDone(counts: seq<nat>, values: seq<IndexedValue<nat, Float>>, rows: seq<Row<real>>, clusters: seq<nat>,
                r: nat, clusterCount: nat, columnCount: nat)
    requires r < |rows| <= |clusters|
    requires PartialSums(counts, values, rows[..r], clusters, rows[r], clusters[r], clusterCount, columnCount)
    ensures PartialSums(counts, values, rows[..r + 1], clusters, [], 0, clusterCount, columnCount)
  {
    assert rows[..r + 1][..r] == rows[..r];
  }

  /** The inner loop of `new`: one entry per value, indexed by its column, appended to the open row. */
  method AppendDenseRow(storage: CompressedStorage<nat, Float>, values: seq<real>)
    requires storage.Valid()
    modifies storage
    ensures storage.Valid() && storage.pointers == old(storage.pointers)
    ensures storage.values == old(storage.values) + DenseRow(values)
  {
    ghost var start := storage.values;
    for c := 0 to |values|
      invariant storage.Valid() && storage.pointers == old(storage.pointers)
      invariant storage.values == start + DenseRow(values[..c])
    {
      storage.Next(c, Num(values[c]));
      assert DenseRow(values[..c + 1]) == DenseRow(values[..c]) + [IndexedValue(c, Num(values[c]))];
    }
    assert values[..|values|] == values;
  }

  class Model {
    const rowCount: nat
    const columnCount: nat
    const clusterCount: nat
    /** One dense row per cluster. */
    const centroids: CompressedStorage<nat, Float>
    /** The cluster of each matrix row. */
    var rowClusters: seq<nat>

    ghost predicate Valid()
      reads this, centroids
    {
      centroids.Valid()
      && Layout(centroids.pointers, |centroids.values|, clusterCount, columnCount)
      && Columns(centroids.values, clusterCount, columnCount)
      && |rowClusters| == rowCount
      && forall r :: 0 <= r < rowCount ==> rowClusters[r] == 0 || rowClusters[r] < clusterCount
    }

    /** The value of column `c` in centroid `k`. */
    ghost function Cell(k: nat, c: nat): Float
      reads this, centroids
      requires Valid() && k < clusterCount && c < columnCount
    {
      centroids.values[Flat(k, c, columnCount)].value
    }

    /**
     * `new`: a dense centroid row per cluster from `initial`, which stands for
     * the random values drawn in [0, 100), and every row in cluster 0.
     */
    constructor (rowCount: nat, columnCount: nat, clusterCount: nat, initial: seq<seq<real>>)
      requires |initial| == clusterCount
      requires forall k :: 0 <= k < clusterCount ==> |initial[k]| == columnCount
      requires forall k, c :: 0 <= k < clusterCount && 0 <= c < columnCount ==> 0.0 <= initial[k][c] < 100.0
      ensures Valid() && fresh(centroids)
      ensures this.rowCount == rowCount && this.columnCount == columnCount && this.clusterCount == clusterCount
      ensures forall k :: 0 <= k < clusterCount ==> centroids.Rows()[k] == DenseRow(initial[k])
      ensures rowClusters == seq(rowCount, r => 0)
    {
      var storage := new CompressedStorage<nat, Float>();
      for k := 0 to clusterCount
        invariant fresh(storage) && storage.Valid()
        invariant storage.values == DenseValues(initial[..k]) && storage.pointers == Offsets(k, columnCount)
      {
        DenseValuesLayout(initial[..k], columnCount);
        storage.Start();
        assert storage.pointers == Offsets(k + 1, columnCount);
        AppendDenseRow(storage, initial[k]);
        assert initial[..k + 1][..k] == initial[..k] && initial[..k + 1][k] == initial[k];
      }
      assert initial[..clusterCount] == initial;
      DenseValuesLayout(initial, columnCount);
      storage.Start();
      assert storage.pointers == Offsets(clusterCount + 1, columnCount);
      this.rowCount, this.columnCount, this.clusterCount := rowCount, columnCount, clusterCount;
      centroids := storage;
      rowClusters := seq(rowCount, r => 0);
      new;
      DenseRows(storage.values, storage.pointers, clusterCount, columnCount);
      forall k | 0 <= k < clusterCount
        ensures centroids.Rows()[k] == DenseRow(initial[k])
      {
        assert forall c :: 0 <= c < columnCount ==> centroids.Rows()[k][c] == DenseRow(initial[k])[c];
      }
    }

    /** `cluster_count`: the number of centroid rows. */
    function ClusterCount(): (n: nat)
      reads this, centroids
      requires Valid()
      ensures n == |centroids.Rows()|
    {
      clusterCount
    }

    /** `get_cluster`: the cluster of a row, a centroid index whenever there are centroids. */
    function GetCluster(row: nat): (k: nat)
      reads this, centroids
      requires Valid() && row < rowCount
      ensures k == rowClusters[row]
      ensures clusterCount > 0 ==> k < clusterCount
    {
      rowClusters[row]
    }

    /** `get_centroid`: a centroid row, dense over the columns, holding the centroid's cells. */
    function GetCentroid(index: nat): (row: Row<Float>)
      reads this, centroids
      requires Valid() && index < clusterCount
      ensures row == centroids.Rows()[index]
      ensures Dense(row, columnCount)
      ensures forall c :: 0 <= c < columnCount ==> row[c].value == Cell(index, c)
    {
      centroids.RowIsSlice(index);
      DenseRows(centroids.values, centroids.pointers, clusterCount, columnCount);
      centroids.GetSlice(index)
    }

    /**
     * `get_nearest_centroid`: a running maximum of the correlations, replaced
     * only by a strictly greater one; it starts at minus infinity, which
     * every number exceeds and no NaN does.
     */
    method GetNearestCentroid(row: Row<real>, correlation: Correlation) returns (index: nat)
      requires centroids.Valid() && |centroids.pointers| == clusterCount + 1
      ensures index == FirstMax(Scores(row, centroids.Rows(), correlation))
    {
      ghost var scores := Scores(row, centroids.Rows(), correlation);
      var maxCorrelation: Option<real> := None;  // None is minus infinity
      index := 0;
      for i := 0 to clusterCount
        invariant index == FirstMax(scores[..i])
        invariant maxCorrelation == if index < i && scores[index].Num? then Some(scores[index].value) else None
      {
        assert scores[..i + 1][..i] == scores[..i];
        centroids.RowIsSlice(i);
        var current := correlation(row, centroids.GetSlice(i));
        if current.Num? && (maxCorrelation.None? || current.value > maxCorrelation.value) {
          maxCorrelation := Some(current.value);
          index := i;
        }
      }
      assert scores[..clusterCount] == scores;
    }

    /**
     * `make_step`: reassigns every row to its nearest centroid, counting the
     * rows that move, then recomputes every centroid value as the mean of its
     * column over the rows now in its cluster.
     */
    method MakeStep(matrix: CompressedStorage<nat, real>, correlation: Correlation) returns (changed: nat)
      requires Valid() && matrix.Valid() && rowCount < |matrix.pointers|
      requires clusterCount > 0 || forall r :: 0 <= r < rowCount ==> matrix.Rows()[r] == []
      requires forall r, j :: 0 <= r < rowCount && 0 <= j < |matrix.Rows()[r]| ==> matrix.Rows()[r][j].index < columnCount
      modifies this, centroids
      ensures Valid() && centroids.pointers == old(centroids.pointers)
      ensures forall r :: 0 <= r < rowCount ==>
        rowClusters[r] == FirstMax(Scores(matrix.Rows()[r], old(centroids.Rows()), correlation))
      ensures changed == Changes(old(rowClusters), rowClusters)
      ensures forall k: nat, c: nat :: k < clusterCount && c < columnCount ==>
        Cell(k, c) == Mean(matrix.Rows()[..rowCount], rowClusters, k, c)
    {
      changed := Reassign(matrix, correlation);
      ResetCentroids();
      var counts := SumUp(matrix);
      ghost var sums := centroids.values;
      Divide(counts);
      MeanCells(counts, sums, centroids.values, matrix.Rows()[..rowCount], rowClusters, clusterCount, columnCount);
    }

    /** The first loop of `make_step`: the new cluster of every row, and how many changed. */
    method Reassign(matrix: CompressedStorage<nat, real>, correlation: Correlation) returns (changed: nat)
      requires Valid() && matrix.Valid() && rowCount < |matrix.pointers|
      modifies this
      ensures Valid()
      ensures forall r :: 0 <= r < rowCount ==>
        rowClusters[r] == FirstMax(Scores(matrix.Rows()[r], centroids.Rows(), correlation))
      ensures changed == Changes(old(rowClusters), rowClusters)
    {
      ghost var before := rowClusters;
      ghost var rows := matrix.Rows();
      ghost var centres := centroids.Rows();
      changed := 0;
      for r := 0 to rowCount
        invariant centroids.Valid() && |centroids.pointers| == clusterCount + 1 && centroids.Rows() == centres
        invariant matrix.Valid() && matrix.Rows() == rows
        invariant |rowClusters| == rowCount && forall i :: r <= i < rowCount ==> rowClusters[i] == before[i]
        invariant forall i :: 0 <= i < r ==> rowClusters[i] == FirstMax(Scores(rows[i], centres, correlation))
        invariant changed == Changes(before[..r], rowClusters[..r])
      {
        matrix.RowIsSlice(r);
        var nearest := GetNearestCentroid(matrix.GetSlice(r), correlation);
        if nearest != rowClusters[r] {
          changed := changed + 1;
        }
        ChangesStep(before, rowClusters, r, nearest);
        rowClusters := rowClusters[r := nearest];
      }
      assert before[..rowCount] == before && rowClusters[..rowCount] == rowClusters;
      forall r | 0 <= r < rowCount
        ensures rowClusters[r] == 0 || rowClusters[r] < clusterCount
      {
        assert |Scores(rows[r], centres, correlation)| == clusterCount;
      }
    }

    /** The second loop of `make_step`: every centroid value set to zero, the columns kept. */
    method ResetCentroids()
      requires Valid()
      modifies centroids
      ensures Valid() && centroids.pointers == old(centroids.pointers)
      ensures |centroids.values| == |old(centroids.values)|
      ensures forall q :: 0 <= q < |centroids.values| ==> centroids.values[q] == IndexedValue(old(centroids.values)[q].index, Num(0.0))
    {
      ghost var start := centroids.values;
      ghost var pointers := centroids.pointers;
      assert Columns(start, clusterCount, columnCount) && Layout(pointers, |start|, clusterCount, columnCount);
      for k := 0 to clusterCount
        invariant centroids.Valid() && centroids.pointers == pointers && |centroids.values| == |start|
        invariant forall q :: 0 <= q < |start| ==>
          centroids.values[q] == if q < pointers[k] then IndexedValue(start[q].index, Num(0.0)) else start[q]
      {
        LayoutWidth(pointers, |start|, clusterCount, columnCount, k);
        var width := |centroids.GetSlice(k)|;
        for j := 0 to width
          invariant centroids.Valid() && centroids.pointers == pointers && |centroids.values| == |start|
          invariant forall q :: 0 <= q < |start| ==>
            centroids.values[q] == if q < pointers[k] + j then IndexedValue(start[q].index, Num(0.0)) else start[q]
        {
          centroids.SetRowValue(k, j, Num(0.0));
        }
      }
    }

    /**
     * The third loop of `make_step`: every value of every row is added to its
     * column in the centroid of the row's cluster, and counted in `counts`,
     * one cell per (cluster, column).
     */
    method SumUp(matrix: CompressedStorage<nat, real>) returns (counts: seq<nat>)
      requires Valid() && matrix.Valid() && rowCount < |matrix.pointers|
      requires clusterCount > 0 || forall r :: 0 <= r < rowCount ==> matrix.Rows()[r] == []
      requires forall r, j :: 0 <= r < rowCount && 0 <= j < |matrix.Rows()[r]| ==> matrix.Rows()[r][j].index < columnCount
      requires forall q :: 0 <= q < |centroids.values| ==> centroids.values[q].value == Num(0.0)
      modifies centroids
      ensures Valid() && centroids.pointers == old(centroids.pointers)
      ensures PartialSums(counts, centroids.values, matrix.Rows()[..rowCount], rowClusters, [], 0, clusterCount, columnCount)
    {
      ghost var rows: seq<Row<real>> := matrix.Rows()[..rowCount];
      ghost var pointers := centroids.pointers;
      assert Layout(pointers, |centroids.values|, clusterCount, columnCount);
      assert forall r, j :: 0 <= r < rowCount && 0 <= j < |rows[r]| ==> rows[r][j].index < columnCount;
      assert forall r :: 0 <= r < rowCount ==> rows[r] == [] || rowClusters[r] < clusterCount;
      SumStart(centroids.values, rowClusters, clusterCount, columnCount);
      counts := seq(|centroids.values|, i => 0);
      for r := 0 to rowCount
        invariant centroids.Valid() && centroids.pointers == pointers
        invariant Layout(pointers, |centroids.values|, clusterCount, columnCount)
        invariant PartialSums(counts, centroids.values, rows[..r], rowClusters, [], 0, clusterCount, columnCount)
      {
        matrix.RowIsSlice(r);
        var row := matrix.GetSlice(r);
        counts := AddRow(rows, r, row, counts);
      }
      assert rows[..rowCount] == rows;
    }

    /** The inner loop of the third loop: every value of one row added to its cell of the row's centroid. */
    method AddRow(ghost rows: seq<Row<real>>, r: nat, row: Row<real>, counts: seq<nat>) returns (counts': seq<nat>)
      requires centroids.Valid() && Layout(centroids.pointers, |centroids.values|, clusterCount, columnCount)
      requires r < |rows| <= |rowClusters| && row == rows[r]
      requires forall r, j :: 0 <= r < |rows| && 0 <= j < |rows[r]| ==> rows[r][j].index < columnCount
      requires forall r :: 0 <= r < |rows| ==> rows[r] == [] || rowClusters[r] < clusterCount
      requires PartialSums(counts, centroids.values, rows[..r], rowClusters, [], 0, clusterCount, columnCount)
      modifies centroids
      ensures centroids.Valid() && centroids.pointers == old(centroids.pointers)
      ensures PartialSums(counts', centroids.values, rows[..r + 1], rowClusters, [], 0, clusterCount, columnCount)
    {
      ghost var pointers := centroids.pointers;
      var cluster := rowClusters[r];
      RowStart(counts, centroids.values, rows[..r], rowClusters, cluster, clusterCount, columnCount);
      counts' := counts;
      assert row[..0] == [];
      for j := 0 to |row|
        invariant centroids.Valid() && centroids.pointers == pointers
        invariant Layout(pointers, |centroids.values|, clusterCount, columnCount)
        invariant PartialSums(counts', centroids.values, rows[..r], rowClusters, row[..j], cluster, clusterCount, columnCount)
      {
        var column := row[j].index;
        var cell := Flat(cluster, column, columnCount);
        ghost var values := centroids.values;
        ghost var values' := values[cell := IndexedValue(column, Plus(values[cell].value, row[j].value))];
        var next := counts'[cell := counts'[cell] + 1];
        SumStep(counts', values, next, values', rows[..r], rowClusters, row, j, cluster, clusterCount, columnCount);
        counts' := next;
        AddToCentroid(cluster, column, row[j].value);
      }
      assert row[..|row|] == row;
      RowDone(counts', centroids.values, rows, rowClusters, r, clusterCount, columnCount);
    }

    /** The body of the third loop: one value added to its cell of a centroid, through the centroid's row. */
    method AddToCentroid(cluster: nat, column: nat, value: real)
      requires centroids.Valid() && Layout(centroids.pointers, |centroids.values|, clusterCount, columnCount)
      requires cluster < clusterCount && column < columnCount
      requires Flat(cluster, column, columnCount) < |centroids.values|
      requires centroids.values[Flat(cluster, column, columnCount)].index == column
      modifies centroids
      ensures centroids.Valid() && centroids.pointers == old(centroids.pointers)
      ensures var cell := Flat(cluster, column, columnCount);
        centroids.values == old(centroids.values)[cell := IndexedValue(column, Plus(old(centroids.values)[cell].value, value))]
    {
      LayoutWidth(centroids.pointers, |centroids.values|, clusterCount, columnCount, cluster);
      FlatShift(cluster, column, columnCount);
      var current := centroids.GetSlice(cluster)[column].value;
      centroids.SetRowValue(cluster, column, Plus(current, value));
    }

    /**
     * The fourth loop of `make_step`: every centroid value divided by the
     * count of its (cluster, column) cell.
     */
    method Divide(counts: seq<nat>)
      requires Valid() && |counts| == |centroids.values|
      modifies centroids
      ensures Valid() && centroids.pointers == old(centroids.pointers)
      ensures |centroids.values| == |old(centroids.values)|
      ensures forall q :: 0 <= q < |centroids.values| ==>
        centroids.values[q] == IndexedValue(old(centroids.values)[q].index, DivideBy(old(centroids.values)[q].value, counts[q]))
    {
      ghost var start := centroids.values;
      ghost var pointers := centroids.pointers;
      assert Columns(start, clusterCount, columnCount) && Layout(pointers, |start|, clusterCount, columnCount);
      for k := 0 to clusterCount
        invariant centroids.Valid() && centroids.pointers == pointers && |centroids.values| == |start|
        invariant forall q :: 0 <= q < |start| ==>
          centroids.values[q] == if q < pointers[k] then IndexedValue(start[q].index, DivideBy(start[q].value, counts[q])) else start[q]
      {
        LayoutWidth(pointers, |start|, clusterCount, columnCount, k);
        var width := |centroids.GetSlice(k)|;
        for j := 0 to width
          invariant centroids.Valid() && centroids.pointers == pointers && |centroids.values| == |start|
          invariant forall q :: 0 <= q < |start| ==>
            centroids.values[q]
              == if q < pointers[k] + j then IndexedValue(start[q].index, DivideBy(start[q].value, counts[q])) else start[q]
        {
          LayoutCell(start, pointers, clusterCount, columnCount, k, j);
          DivideCell(k, j, counts);
        }
      }
    }

    /** The body of the fourth loop: entry `j` of centroid row `k` divided by the count of its cell. */
    method DivideCell(k: nat, j: nat, counts: seq<nat>)
      requires centroids.Valid() && Layout(centroids.pointers, |centroids.values|, clusterCount, columnCount)
      requires k < clusterCount && j < columnCount && |counts| == |centroids.values|
      requires centroids.pointers[k] + j < |centroids.values| && centroids.values[centroids.pointers[k] + j].index == j
      modifies centroids
      ensures centroids.Valid() && centroids.pointers == old(centroids.pointers)
      ensures centroids.values == old(centroids.values)[centroids.pointers[k] + j :=
        IndexedValue(j, DivideBy(old(centroids.values)[centroids.pointers[k] + j].value, counts[centroids.pointers[k] + j]))]
    {
      LayoutWidth(centroids.pointers, |centroids.values|, clusterCount, columnCount, k);
      FlatShift(k, j, columnCount);
      var entry := centroids.GetSlice(k)[j];
      centroids.SetRowValue(k, j, DivideBy(entry.value, counts[Flat(k, entry.index, columnCount)]));
    }
  }

  /** The means of the single-cluster example: column 0 averages one value, column 1 none. */
  lemma OnlyClusterMeans(rows: seq<Row<real>>, clusters: seq<nat>)
    requires rows == [[IndexedValue(0, 50.0)]] && |clusters| == 1 && clusters[0] == 0
    ensures Mean(rows, clusters, 0, 0) == Num(50.0) && Mean(rows, clusters, 0, 1).NaN?
  {
    var row := rows[0];
    assert rows[..0] == [] && row[..0] == [];
    assert EntrySum(row, 0) == 50.0 && EntryCount(row, 0) == 1 && EntryCount(row, 1) == 0;
    assert AssignedSum(rows, clusters, 0, 0) == 50.0 && AssignedCount(rows, clusters, 0, 0) == 1;
    assert AssignedCount(rows, clusters, 0, 1) == 0;
  }

  /** The matrix of the single-cluster example: one row rating column 0 at 50. */
  method OnlyClusterMatrix() returns (matrix: CompressedStorage<nat, real>)
    ensures fresh(matrix) && matrix.Valid() && |matrix.pointers| == 2
    ensures matrix.Rows() == [[IndexedValue(0, 50.0)]]
  {
    matrix := new CompressedStorage<nat, real>();
    matrix.Start();
    matrix.Next(0, 50.0);
    matrix.Start();
    assert matrix.pointers[..1] == [0] && matrix.values[0..1] == matrix.values;
  }

  /**
   * The single-cluster example: one row rating column 0 at 50, one cluster
   * over two columns. Whatever the initial centroid, one step changes no
   * row, keeps the row in cluster 0 and leaves the centroid [50, NaN].
   */
  method OnlyClusterScenario(initial: seq<seq<real>>, correlation: Correlation)
    returns (changed: nat, cluster: nat, centroid: Row<Float>)
    requires |initial| == 1 && |initial[0]| == 2 && 0.0 <= initial[0][0] < 100.0 && 0.0 <= initial[0][1] < 100.0
    ensures changed == 0 && cluster == 0
    ensures |centroid| == 2 && centroid[0].value == Num(50.0) && centroid[1].value.NaN?
  {
    var matrix := OnlyClusterMatrix();
    var model := new Model(1, 2, 1, initial);
    assert model.rowClusters == [0];
    changed := model.MakeStep(matrix, correlation);
    assert matrix.Rows()[..1] == matrix.Rows();
    OnlyClusterMeans(matrix.Rows(), model.rowClusters);
    cluster := model.GetCluster(0);
    centroid := model.GetCentroid(0);
  }
}
