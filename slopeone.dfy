/**
 * Slope One: for every ordered pair of vehicles (a, b) the model keeps the
 * average of the rating differences r[a] - r[b] over the accounts that rated
 * both, and predicts a rating of vehicle a from the account's other ratings
 * shifted by those averages, weighted by how often each other vehicle was
 * rated.
 */
module SlopeOne {
  import opened Options
  import opened Grid
  import opened Csr

  // The training totals, defined pair by pair as the loops of `train` visit them.

  /** What the pair (x, y) adds to cell (a, b): x - y when x rates a and y rates b, a != b. */
  function PairTerm(x: IndexedValue<nat, real>, y: IndexedValue<nat, real>, a: nat, b: nat): real {
    if x.index == a && y.index == b && a != b then x.value - y.value else 0.0
  }

  /** Whether the pair (x, y) counts towards cell (a, b). */
  function PairHit(x: IndexedValue<nat, real>, y: IndexedValue<nat, real>, a: nat, b: nat): nat {
    if x.index == a && y.index == b && a != b then 1 else 0
  }

  /** The inner loop: `x` paired with every entry of `ys`. */
  function InnerSum(x: IndexedValue<nat, real>, ys: Row<real>, a: nat, b: nat): real {
    if ys == [] then 0.0 else InnerSum(x, ys[..|ys| - 1], a, b) + PairTerm(x, ys[|ys| - 1], a, b)
  }

  function InnerCount(x: IndexedValue<nat, real>, ys: Row<real>, a: nat, b: nat): nat {
    if ys == [] then 0 else InnerCount(x, ys[..|ys| - 1], a, b) + PairHit(x, ys[|ys| - 1], a, b)
  }

  /** The outer loop: every entry of `xs` paired with every entry of `ys`. */
  function OuterSum(xs: Row<real>, ys: Row<real>, a: nat, b: nat): real {
    if xs == [] then 0.0 else OuterSum(xs[..|xs| - 1], ys, a, b) + InnerSum(xs[|xs| - 1], ys, a, b)
  }

  function OuterCount(xs: Row<real>, ys: Row<real>, a: nat, b: nat): nat {
    if xs == [] then 0 else OuterCount(xs[..|xs| - 1], ys, a, b) + InnerCount(xs[|xs| - 1], ys, a, b)
  }

  /** The sum of r[a] - r[b] over every row and every pair of its entries rating a and b. */
  function Difference(rows: seq<Row<real>>, a: nat, b: nat): real {
    if rows == [] then 0.0
    else Difference(rows[..|rows| - 1], a, b) + OuterSum(rows[|rows| - 1], rows[|rows| - 1], a, b)
  }

  /** The number of those pairs. */
  function CoRatings(rows: seq<Row<real>>, a: nat, b: nat): nat {
    if rows == [] then 0
    else CoRatings(rows[..|rows| - 1], a, b) + OuterCount(rows[|rows| - 1], rows[|rows| - 1], a, b)
  }

  /**
   * The average difference `train` stores for (a, b): defined for distinct
   * columns that have pairs, except that the averaging loops stop one short
   * of the last column.
   */
  function AverageDifference(rows: seq<Row<real>>, a: nat, b: nat, columnCount: nat): Option<real> {
    if a != b && a + 1 < columnCount && b + 1 < columnCount && CoRatings(rows, a, b) != 0
    then Some(Difference(rows, a, b) / (CoRatings(rows, a, b) as real))
    else None
  }

  // Closed forms of the pair sums, in terms of the per-column totals.

  /** `n` copies of `x` added up: the product n * x built by repeated addition. */
  function Times(n: nat, x: real): real {
    if n == 0 then 0.0 else Times(n - 1, x) + x
  }

  /** Repeated addition distributes over a sum. */
  lemma {:induction false} TimesAdd(n: nat, x: real, y: real)
    ensures Times(n, x + y) == Times(n, x) + Times(n, y)
  {
    if n > 0 {
      TimesAdd(n - 1, x, y);
    }
  }

  /** Repeated addition is the product. */
  lemma {:induction false} TimesIsProduct(n: nat, x: real)
    ensures Times(n, x) == n as real * x
  {
    if n > 0 {
      TimesIsProduct(n - 1, x);
      assert (n - 1) as real * x + x == n as real * x;
    }
  }

  /** Repeated addition over a sum of counts. */
  lemma {:induction false} TimesSplit(m: nat, n: nat, x: real)
    ensures Times(m + n, x) == Times(m, x) + Times(n, x)
  {
    if n > 0 {
      TimesSplit(m, n - 1, x);
    }
  }

  /** Repeated addition keeps the order of what it adds. */
  lemma {:induction false} TimesMonotonic(n: nat, x: real, y: real)
    requires x <= y
    ensures Times(n, x) <= Times(n, y)
  {
    if n > 0 {
      TimesMonotonic(n - 1, x, y);
    }
  }

  lemma {:induction false} InnerClosed(x: IndexedValue<nat, real>, ys: Row<real>, a: nat, b: nat)
    ensures InnerSum(x, ys, a, b) == if x.index == a && a != b then Times(EntryCount(ys, b), x.value) - EntrySum(ys, b) else 0.0
    ensures InnerCount(x, ys, a, b) == if x.index == a && a != b then EntryCount(ys, b) else 0
  {
    if ys != [] {
      InnerClosed(x, ys[..|ys| - 1], a, b);
    }
  }

  /** Pairing `xs` with `ys` sums count(ys, b) * sum(xs, a) - count(xs, a) * sum(ys, b). */
  lemma {:induction false} OuterClosed(xs: Row<real>, ys: Row<real>, a: nat, b: nat)
    ensures OuterSum(xs, ys, a, b) ==
      if a != b then Times(EntryCount(ys, b), EntrySum(xs, a)) - Times(EntryCount(xs, a), EntrySum(ys, b)) else 0.0
  {
    if xs != [] {
      var n := |xs| - 1;
      var init, x := xs[..n], xs[n];
      OuterClosed(init, ys, a, b);
      InnerClosed(x, ys, a, b);
      EntryStep(xs, n, a);
      assert xs[..n + 1] == xs;
      if a != b && x.index == a {
        TimesAdd(EntryCount(ys, b), EntrySum(init, a), x.value);
        assert Times(EntryCount(init, a) + 1, EntrySum(ys, b)) == Times(EntryCount(init, a), EntrySum(ys, b)) + EntrySum(ys, b);
      }
    } else {
      TimesIsProduct(EntryCount(ys, b), 0.0);
    }
  }

  lemma Successor(m: nat, n: nat)
    ensures (m + 1) * n == m * n + n
  {
  }

  /** Pairing `xs` with `ys` counts count(xs, a) * count(ys, b) pairs. */
  lemma {:induction false} OuterCountClosed(xs: Row<real>, ys: Row<real>, a: nat, b: nat)
    ensures OuterCount(xs, ys, a, b) == if a != b then EntryCount(xs, a) * EntryCount(ys, b) else 0
  {
    if xs != [] {
      var n := |xs| - 1;
      var init, x := xs[..n], xs[n];
      OuterCountClosed(init, ys, a, b);
      InnerClosed(x, ys, a, b);
      EntryStep(xs, n, a);
      assert xs[..n + 1] == xs;
      if a != b && x.index == a {
        Successor(EntryCount(init, a), EntryCount(ys, b));
      }
    }
  }

  /** Swapping the columns negates every difference and keeps the number of pairs. */
  lemma {:induction false} DifferenceAntisymmetric(rows: seq<Row<real>>, a: nat, b: nat)
    ensures Difference(rows, b, a) == -Difference(rows, a, b)
    ensures CoRatings(rows, b, a) == CoRatings(rows, a, b)
  {
    if rows != [] {
      var last := rows[|rows| - 1];
      DifferenceAntisymmetric(rows[..|rows| - 1], a, b);
      OuterClosed(last, last, a, b);
      OuterClosed(last, last, b, a);
      OuterCountClosed(last, last, a, b);
      OuterCountClosed(last, last, b, a);
    }
  }

  /** The stored averages are antisymmetric: the (b, a) average is minus the (a, b) one. */
  lemma AverageAntisymmetric(rows: seq<Row<real>>, a: nat, b: nat, columnCount: nat)
    ensures AverageDifference(rows, b, a, columnCount).Some? == AverageDifference(rows, a, b, columnCount).Some?
    ensures AverageDifference(rows, a, b, columnCount).Some? ==>
      AverageDifference(rows, b, a, columnCount).value == -AverageDifference(rows, a, b, columnCount).value
  {
    DifferenceAntisymmetric(rows, a, b);
    var count := CoRatings(rows, a, b) as real;
    if count != 0.0 {
      NegatedQuotient(Difference(rows, a, b), count);
    }
  }

  lemma NegatedQuotient(d: real, c: real)
    requires c != 0.0
    ensures (-d) / c == -(d / c)
  {
    assert (-(d / c)) * c == -d;
  }

  /** Pairs exist for distinct columns exactly when some row rates both. */
  lemma {:induction false} CoRatingsPositive(rows: seq<Row<real>>, a: nat, b: nat)
    ensures CoRatings(rows, a, b) != 0 <==>
      a != b && exists r :: 0 <= r < |rows| && EntryCount(rows[r], a) != 0 && EntryCount(rows[r], b) != 0
  {
    if rows != [] {
      var n := |rows| - 1;
      CoRatingsPositive(rows[..n], a, b);
      OuterCountClosed(rows[n], rows[n], a, b);
      assert forall r :: 0 <= r < n ==> rows[..n][r] == rows[r];
    }
  }

  /**
   * The stored average for (a, b) exists exactly when the columns differ,
   * neither is the last column and some row rates both.
   */
  lemma AverageDefined(rows: seq<Row<real>>, a: nat, b: nat, columnCount: nat)
    ensures AverageDifference(rows, a, b, columnCount).Some? <==>
      a != b && a + 1 < columnCount && b + 1 < columnCount &&
      exists r :: 0 <= r < |rows| && EntryCount(rows[r], a) != 0 && EntryCount(rows[r], b) != 0
  {
    CoRatingsPositive(rows, a, b);
  }

  /** A column with pairs has been rated, so it carries a positive weight in predictions. */
  lemma {:induction false} CoRatedColumnRated(rows: seq<Row<real>>, a: nat, b: nat)
    requires CoRatings(rows, a, b) != 0
    ensures ColumnCount(rows, b) != 0
  {
    var n := |rows| - 1;
    if CoRatings(rows[..n], a, b) != 0 {
      CoRatedColumnRated(rows[..n], a, b);
    } else {
      OuterCountClosed(rows[n], rows[n], a, b);
    }
  }

  // The prediction, as a weighted mean over the usable entries of a row.

  /** The stored average difference of (target, column), when the row entry at `column` may be used. */
  function Offset(diffs: seq<Option<real>>, columnCount: nat, target: nat, column: nat): Option<real> {
    if column != target && target < columnCount && column < columnCount && Flat(target, column, columnCount) < |diffs|
    then diffs[Flat(target, column, columnCount)]
    else None
  }

  /** The rating count of `column`, the weight of an estimate drawn from it. */
  function Support(counts: seq<nat>, column: nat): nat {
    if column < |counts| then counts[column] else 0
  }

  function Weight(row: Row<real>, target: nat, diffs: seq<Option<real>>, counts: seq<nat>, columnCount: nat): nat {
    if row == [] then 0
    else
      var y := row[|row| - 1];
      Weight(row[..|row| - 1], target, diffs, counts, columnCount)
        + if Offset(diffs, columnCount, target, y.index).Some? then Support(counts, y.index) else 0
  }

  /** The weighted sum of the estimates `y + diff(target, y's column)`. */
  function WeightedSum(row: Row<real>, target: nat, diffs: seq<Option<real>>, counts: seq<nat>, columnCount: nat): real {
    if row == [] then 0.0
    else
      var y := row[|row| - 1];
      var d := Offset(diffs, columnCount, target, y.index);
      WeightedSum(row[..|row| - 1], target, diffs, counts, columnCount)
        + if d.Some? then Times(Support(counts, y.index), y.value + d.value) else 0.0
  }

  function Prediction(row: Row<real>, target: nat, diffs: seq<Option<real>>, counts: seq<nat>, columnCount: nat): Option<real> {
    var weight := Weight(row, target, diffs, counts, columnCount);
    if weight != 0 then Some(WeightedSum(row, target, diffs, counts, columnCount) / weight as real) else None
  }

  /** The weighted sum lies between `lo` and `hi` times the weight when every estimate does. */
  lemma {:induction false} WeightedSumBounds(row: Row<real>, target: nat, diffs: seq<Option<real>>, counts: seq<nat>, columnCount: nat, lo: real, hi: real)
    requires forall j :: 0 <= j < |row| && Offset(diffs, columnCount, target, row[j].index).Some? ==>
      lo <= row[j].value + Offset(diffs, columnCount, target, row[j].index).value <= hi
    ensures Times(Weight(row, target, diffs, counts, columnCount), lo) <= WeightedSum(row, target, diffs, counts, columnCount)
    ensures WeightedSum(row, target, diffs, counts, columnCount) <= Times(Weight(row, target, diffs, counts, columnCount), hi)
  {
    if row != [] {
      var n := |row| - 1;
      var init := row[..n];
      assert forall j :: 0 <= j < n ==> init[j] == row[j];
      WeightedSumBounds(init, target, diffs, counts, columnCount, lo, hi);
      var d := Offset(diffs, columnCount, target, row[n].index);
      if d.Some? {
        var w := Support(counts, row[n].index);
        var before := Weight(init, target, diffs, counts, columnCount);
        TimesMonotonic(w, lo, row[n].value + d.value);
        TimesMonotonic(w, row[n].value + d.value, hi);
        TimesSplit(before, w, lo);
        TimesSplit(before, w, hi);
      }
    }
  }

  /** A quotient whose dividend lies between `lo` and `hi` times the divisor lies between them. */
  lemma QuotientBounds(sum: real, weight: real, lo: real, hi: real)
    requires weight > 0.0 && weight * lo <= sum <= weight * hi
    ensures lo <= sum / weight <= hi
  {
    var p := sum / weight;
    assert sum == p * weight;
    assert (p - lo) * weight >= 0.0 && (hi - p) * weight >= 0.0;
  }

  /** The prediction is a weighted mean: it lies within the range of the estimates it averages. */
  lemma PredictionBounds(row: Row<real>, target: nat, diffs: seq<Option<real>>, counts: seq<nat>, columnCount: nat, lo: real, hi: real)
    requires forall j :: 0 <= j < |row| && Offset(diffs, columnCount, target, row[j].index).Some? ==>
      lo <= row[j].value + Offset(diffs, columnCount, target, row[j].index).value <= hi
    ensures Prediction(row, target, diffs, counts, columnCount).Some? ==>
      lo <= Prediction(row, target, diffs, counts, columnCount).value <= hi
  {
    var weight := Weight(row, target, diffs, counts, columnCount);
    WeightedSumBounds(row, target, diffs, counts, columnCount, lo, hi);
    TimesIsProduct(weight, lo);
    TimesIsProduct(weight, hi);
    if weight != 0 {
      QuotientBounds(WeightedSum(row, target, diffs, counts, columnCount), weight as real, lo, hi);
    }
  }

  /** No prediction exactly when no entry of the row has both a stored average and a rated column. */
  lemma {:induction false} PredictionNone(row: Row<real>, target: nat, diffs: seq<Option<real>>, counts: seq<nat>, columnCount: nat)
    ensures Prediction(row, target, diffs, counts, columnCount).None? <==>
      forall j :: 0 <= j < |row| && Offset(diffs, columnCount, target, row[j].index).Some? ==> Support(counts, row[j].index) == 0
  {
    if row != [] {
      var n := |row| - 1;
      PredictionNone(row[..n], target, diffs, counts, columnCount);
      assert forall j :: 0 <= j < n ==> row[..n][j] == row[j];
    }
  }

  class Model {
    const columnCount: nat
    /** The average difference of every ordered pair of columns, row-major. */
    var averageDifferences: seq<Option<real>>
    /** The number of ratings of every column. */
    var ratingCount: seq<nat>

    /** `new`: nothing trained yet. */
    constructor (columnCount: nat)
      ensures this.columnCount == columnCount && averageDifferences == [] && ratingCount == []
    {
      this.columnCount := columnCount;
      averageDifferences := [];
      ratingCount := [];
    }

    /** `flat_index`: the row-major position of the pair (column1, column2). */
    function FlatIndex(column1: nat, column2: nat): (index: nat)
      ensures index == Flat(column1, column2, columnCount)
    {
      FlatIsProduct(column1, column2, columnCount);
      column1 * columnCount + column2
    }

    /**
     * `train`: resets the model, then stores for every pair of columns below
     * the last the average difference over all rows, and for every column its
     * number of ratings. The averaging loops run to `columnCount - 1`, so the
     * source needs at least one column.
     */
    method Train(matrix: CompressedStorage<nat, real>)
      requires matrix.Valid() && |matrix.pointers| >= 1 && columnCount >= 1
      requires WithinColumns(matrix.Rows(), columnCount)
      modifies this
      ensures |averageDifferences| == Flat(columnCount, 0, columnCount) && |ratingCount| == columnCount
      ensures forall a: nat, b: nat :: a < columnCount && b < columnCount ==>
        TableCell(averageDifferences, a, b, columnCount) == AverageDifference(matrix.Rows(), a, b, columnCount)
      ensures forall c :: 0 <= c < columnCount ==> ratingCount[c] == ColumnCount(matrix.Rows(), c)
    {
      ghost var rows := matrix.Rows();
      FlatBounds(columnCount, columnCount);
      var size := columnCount * columnCount;
      var differenceSums := seq(size, q => 0.0);
      var differenceCount := seq(size, q => 0);
      averageDifferences := seq(size, q => None);
      ratingCount := seq(columnCount, c => 0);
      for r := 0 to matrix.RowCount()
        invariant |differenceSums| == |differenceCount| == size && |ratingCount| == columnCount
        invariant |averageDifferences| == size && forall q :: 0 <= q < size ==> averageDifferences[q] == None
        invariant Totals(differenceSums, differenceCount, rows[..r])
        invariant forall c :: 0 <= c < columnCount ==> ratingCount[c] == ColumnCount(rows[..r], c)
      {
        matrix.RowIsSlice(r);
        var row := matrix.GetSlice(r);
        differenceSums, differenceCount := AccumulateRow(row, rows, r, differenceSums, differenceCount);
      }
      assert rows[..|rows|] == rows;
      AverageAll(differenceSums, differenceCount, rows);
    }

    /** Cell (a, b) of the totals holds the sum and the number of the (a, b) differences of `rows`. */
    ghost predicate Totals(sums: seq<real>, counts: seq<nat>, rows: seq<Row<real>>) {
      |sums| == |counts| == Flat(columnCount, 0, columnCount)
      && forall a: nat, b: nat :: a < columnCount && b < columnCount ==>
        TableCell(sums, a, b, columnCount) == Difference(rows, a, b) && TableCell(counts, a, b, columnCount) == CoRatings(rows, a, b)
    }

    /** One row of the training loop: its ratings counted and every pair of its entries added. */
    method AccumulateRow(row: Row<real>, ghost rows: seq<Row<real>>, r: nat, sums: seq<real>, counts: seq<nat>)
      returns (sums': seq<real>, counts': seq<nat>)
      requires r < |rows| && row == rows[r] && WithinColumns(rows, columnCount)
      requires Totals(sums, counts, rows[..r]) && |ratingCount| == columnCount
      requires forall c :: 0 <= c < columnCount ==> ratingCount[c] == ColumnCount(rows[..r], c)
      modifies this
      ensures Totals(sums', counts', rows[..r + 1]) && |ratingCount| == columnCount
      ensures forall c :: 0 <= c < columnCount ==> ratingCount[c] == ColumnCount(rows[..r + 1], c)
      ensures averageDifferences == old(averageDifferences)
    {
      sums', counts' := sums, counts;
      assert row[..0] == [];
      for i := 0 to |row|
        invariant |sums'| == |counts'| == Flat(columnCount, 0, columnCount) && |ratingCount| == columnCount
        invariant forall a: nat, b: nat :: a < columnCount && b < columnCount ==>
          TableCell(sums', a, b, columnCount) == Difference(rows[..r], a, b) + OuterSum(row[..i], row, a, b)
          && TableCell(counts', a, b, columnCount) == CoRatings(rows[..r], a, b) + OuterCount(row[..i], row, a, b)
        invariant forall c :: 0 <= c < columnCount ==> ratingCount[c] == ColumnCount(rows[..r], c) + EntryCount(row[..i], c)
        invariant averageDifferences == old(averageDifferences)
      {
        assert row[..i + 1][..i] == row[..i];
        var column := row[i].index;
        forall c | 0 <= c < columnCount {
          EntryStep(row, i, c);
        }
        ratingCount := ratingCount[column := ratingCount[column] + 1];
        sums', counts' := AccumulatePairs(row[i], row, sums', counts');
      }
      assert row[..|row|] == row;
      assert rows[..r + 1][..r] == rows[..r];
      forall c | 0 <= c < columnCount {
        RowsStep(rows, r, c);
      }
    }

    /** The inner loop of `train`: the entry `x` paired with every entry of its row. */
    method AccumulatePairs(x: IndexedValue<nat, real>, row: Row<real>, sums: seq<real>, counts: seq<nat>)
      returns (sums': seq<real>, counts': seq<nat>)
      requires x.index < columnCount && forall j :: 0 <= j < |row| ==> row[j].index < columnCount
      requires |sums| == |counts| == Flat(columnCount, 0, columnCount)
      ensures |sums'| == |counts'| == Flat(columnCount, 0, columnCount)
      ensures forall a: nat, b: nat :: a < columnCount && b < columnCount ==>
        TableCell(sums', a, b, columnCount) == TableCell(sums, a, b, columnCount) + InnerSum(x, row, a, b)
        && TableCell(counts', a, b, columnCount) == TableCell(counts, a, b, columnCount) + InnerCount(x, row, a, b)
    {
      FlatBounds(columnCount, columnCount);
      sums', counts' := sums, counts;
      assert row[..0] == [];
      for j := 0 to |row|
        invariant |sums'| == |counts'| == Flat(columnCount, 0, columnCount)
        invariant forall a: nat, b: nat :: a < columnCount && b < columnCount ==>
          TableCell(sums', a, b, columnCount) == TableCell(sums, a, b, columnCount) + InnerSum(x, row[..j], a, b)
          && TableCell(counts', a, b, columnCount) == TableCell(counts, a, b, columnCount) + InnerCount(x, row[..j], a, b)
      {
        assert row[..j + 1][..j] == row[..j];
        var y := row[j];
        if x.index != y.index {
          var index := FlatIndex(x.index, y.index);
          forall a: nat, b: nat | a < columnCount && b < columnCount && Flat(a, b, columnCount) == index
            ensures a == x.index && b == y.index
          {
            FlatInjective(a, b, x.index, y.index, columnCount);
          }
          sums' := sums'[index := sums'[index] + (x.value - y.value)];
          counts' := counts'[index := counts'[index] + 1];
        }
      }
      assert row[..|row|] == row;
    }

    /** The averaging loops of `train`: the quotient of every pair of distinct columns below the last that has pairs. */
    method AverageAll(sums: seq<real>, counts: seq<nat>, ghost rows: seq<Row<real>>)
      requires columnCount >= 1 && Totals(sums, counts, rows)
      requires |averageDifferences| == Flat(columnCount, 0, columnCount)
      requires forall q :: 0 <= q < |averageDifferences| ==> averageDifferences[q] == None
      modifies this
      ensures |averageDifferences| == Flat(columnCount, 0, columnCount) && ratingCount == old(ratingCount)
      ensures forall a: nat, b: nat :: a < columnCount && b < columnCount ==>
        TableCell(averageDifferences, a, b, columnCount) == AverageDifference(rows, a, b, columnCount)
    {
      FlatBounds(columnCount, columnCount);
      for column1 := 0 to columnCount - 1
        invariant |averageDifferences| == Flat(columnCount, 0, columnCount) && ratingCount == old(ratingCount)
        invariant forall a: nat, b: nat :: a < columnCount && b < columnCount ==>
          TableCell(averageDifferences, a, b, columnCount) == if a < column1 then AverageDifference(rows, a, b, columnCount) else None
      {
        AverageRow(column1, sums, counts, rows);
      }
    }

    /** One pass of the outer averaging loop: the row `column1` of the table. */
    method AverageRow(column1: nat, sums: seq<real>, counts: seq<nat>, ghost rows: seq<Row<real>>)
      requires column1 + 1 < columnCount && Totals(sums, counts, rows)
      requires |averageDifferences| == Flat(columnCount, 0, columnCount)
      requires forall a: nat, b: nat :: a < columnCount && b < columnCount ==>
        TableCell(averageDifferences, a, b, columnCount) == if a < column1 then AverageDifference(rows, a, b, columnCount) else None
      modifies this
      ensures |averageDifferences| == Flat(columnCount, 0, columnCount) && ratingCount == old(ratingCount)
      ensures forall a: nat, b: nat :: a < columnCount && b < columnCount ==>
        TableCell(averageDifferences, a, b, columnCount) == if a <= column1 then AverageDifference(rows, a, b, columnCount) else None
    {
      FlatBounds(columnCount, columnCount);
      for column2 := 0 to columnCount - 1
        invariant |averageDifferences| == Flat(columnCount, 0, columnCount) && ratingCount == old(ratingCount)
        invariant forall a: nat, b: nat :: a < columnCount && b < columnCount ==>
          TableCell(averageDifferences, a, b, columnCount) ==
            if a < column1 || (a == column1 && b < column2) then AverageDifference(rows, a, b, columnCount) else None
      {
        var index := FlatIndex(column1, column2);
        assert TableCell(averageDifferences, column1, column2, columnCount) == None;
        ghost var before := averageDifferences;
        SetAverage(column1, column2, index, sums, counts, rows);
        forall a: nat, b: nat | a < columnCount && b < columnCount
          ensures TableCell(averageDifferences, a, b, columnCount) ==
            if a < column1 || (a == column1 && b <= column2) then AverageDifference(rows, a, b, columnCount) else None
        {
          if Flat(a, b, columnCount) == index {
            FlatInjective(a, b, column1, column2, columnCount);
          } else {
            assert TableCell(averageDifferences, a, b, columnCount) == TableCell(before, a, b, columnCount);
          }
        }
      }
    }

    /** The body of the inner averaging loop: cell (column1, column2) gets its average, if it has one. */
    method SetAverage(column1: nat, column2: nat, index: nat, sums: seq<real>, counts: seq<nat>, ghost rows: seq<Row<real>>)
      requires column1 + 1 < columnCount && column2 + 1 < columnCount && index == Flat(column1, column2, columnCount)
      requires Totals(sums, counts, rows) && |averageDifferences| == Flat(columnCount, 0, columnCount)
      requires index < |averageDifferences| && averageDifferences[index] == None
      modifies this
      ensures averageDifferences == old(averageDifferences)[index := AverageDifference(rows, column1, column2, columnCount)]
      ensures ratingCount == old(ratingCount)
    {
      assert counts[index] == CoRatings(rows, column1, column2) && sums[index] == Difference(rows, column1, column2);
      if column1 != column2 {
        if counts[index] != 0 {
          averageDifferences := averageDifferences[index := Some(sums[index] / counts[index] as real)];
        }
      }
    }

    /**
     * `predict`: the weighted mean, over the entries of the row outside the
     * target column that have a stored average difference, of the entry
     * plus that difference, weighted by the rating count of its column; no
     * prediction when the weights sum to zero.
     */
    method Predict(matrix: CompressedStorage<nat, real>, rowIndex: nat, columnIndex: nat) returns (r: Option<real>)
      requires matrix.Valid() && rowIndex + 1 < |matrix.pointers| && columnIndex < columnCount
      requires |averageDifferences| == Flat(columnCount, 0, columnCount) && |ratingCount| == columnCount
      requires forall j :: 0 <= j < |matrix.Rows()[rowIndex]| ==> matrix.Rows()[rowIndex][j].index < columnCount
      ensures r == Prediction(matrix.Rows()[rowIndex], columnIndex, averageDifferences, ratingCount, columnCount)
    {
      FlatBounds(columnCount, columnCount);
      matrix.RowIsSlice(rowIndex);
      var row := matrix.GetSlice(rowIndex);
      var sum := 0.0;
      var weight := 0;
      assert row[..0] == [];
      for j := 0 to |row|
        invariant sum == WeightedSum(row[..j], columnIndex, averageDifferences, ratingCount, columnCount)
        invariant weight == Weight(row[..j], columnIndex, averageDifferences, ratingCount, columnCount)
      {
        assert row[..j + 1][..j] == row[..j];
        var value := row[j];
        if value.index != columnIndex {
          var difference := averageDifferences[FlatIndex(columnIndex, value.index)];
          if difference.Some? {
            TimesIsProduct(ratingCount[value.index], value.value + difference.value);
            sum := sum + ratingCount[value.index] as real * (value.value + difference.value);
            weight := weight + ratingCount[value.index];
          }
        }
      }
      assert row[..|row|] == row;
      r := if weight != 0 then Some(sum / weight as real) else None;
    }
  }

  /**
   * After training, a row gets no prediction for `target` exactly when none
   * of its entries rates a column with a defined average difference to it.
   */
  lemma TrainedPredictionNone(rows: seq<Row<real>>, row: Row<real>, target: nat, diffs: seq<Option<real>>, counts: seq<nat>, columnCount: nat)
    requires |diffs| == Flat(columnCount, 0, columnCount) && |counts| == columnCount
    requires forall a: nat, b: nat :: a < columnCount && b < columnCount ==> TableCell(diffs, a, b, columnCount) == AverageDifference(rows, a, b, columnCount)
    requires forall c :: 0 <= c < columnCount ==> counts[c] == ColumnCount(rows, c)
    requires target < columnCount && forall j :: 0 <= j < |row| ==> row[j].index < columnCount
    ensures Prediction(row, target, diffs, counts, columnCount).None? <==>
      forall j :: 0 <= j < |row| ==> AverageDifference(rows, target, row[j].index, columnCount).None?
  {
    FlatBounds(columnCount, columnCount);
    PredictionNone(row, target, diffs, counts, columnCount);
    forall j | 0 <= j < |row| && AverageDifference(rows, target, row[j].index, columnCount).Some?
      ensures Offset(diffs, columnCount, target, row[j].index).Some? && Support(counts, row[j].index) != 0
    {
      CoRatedColumnRated(rows, target, row[j].index);
    }
  }

  /** `train` starts from scratch: training twice on one matrix leaves the model as training once does. */
  method TrainTwice(matrix: CompressedStorage<nat, real>, columnCount: nat)
    returns (once: seq<Option<real>>, twice: seq<Option<real>>, countsOnce: seq<nat>, countsTwice: seq<nat>)
    requires matrix.Valid() && |matrix.pointers| >= 1 && columnCount >= 1
    requires WithinColumns(matrix.Rows(), columnCount)
    ensures once == twice && countsOnce == countsTwice
  {
    var model := new Model(columnCount);
    model.Train(matrix);
    once, countsOnce := model.averageDifferences, model.ratingCount;
    model.Train(matrix);
    twice, countsTwice := model.averageDifferences, model.ratingCount;
    forall q | 0 <= q < |once|
      ensures once[q] == twice[q]
    {
      FlatCovers(q, columnCount, columnCount);
      var a, b := q / columnCount, q % columnCount;
      assert TableCell(once, a, b, columnCount) == TableCell(twice, a, b, columnCount);
    }
  }
}
