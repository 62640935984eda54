/**
 * The naive recommender: the rating predicted for any account and any
 * vehicle is the average rating of the vehicle over the training rows.
 */
module Naive {
  import opened Numeric
  import opened Csr

  /**
   * The value `train` leaves in `column`: the previous value plus the ratings
   * of the column, divided by their number in every column but the last.
   */
  function Trained(previous: Float, rows: seq<Row<real>>, column: nat, columnCount: nat): Float {
    var total := Plus(previous, ColumnSum(rows, column));
    if column + 1 < columnCount then DivideBy(total, ColumnCount(rows, column)) else total
  }

  /**
   * From the zero averages of `new`: every column but the last holds the mean
   * of its ratings, undefined (0/0) exactly when no row rates it; the last
   * column holds the plain sum.
   */
  lemma TrainedFromZero(rows: seq<Row<real>>, column: nat, columnCount: nat)
    ensures column + 1 < columnCount ==>
      (Trained(Num(0.0), rows, column, columnCount).NaN? <==>
        forall r, j :: 0 <= r < |rows| && 0 <= j < |rows[r]| ==> rows[r][j].index != column)
    ensures column + 1 < columnCount && Trained(Num(0.0), rows, column, columnCount).Num? ==>
      Trained(Num(0.0), rows, column, columnCount).value * (ColumnCount(rows, column) as real) == ColumnSum(rows, column)
    ensures column + 1 == columnCount ==> Trained(Num(0.0), rows, column, columnCount) == Num(ColumnSum(rows, column))
  {
    ColumnCountZero(rows, column);
  }

  /**
   * `train` does not reset the averages: training twice on one matrix adds the
   * ratings twice. One row rating column 0 at 4.0 gives 4.0, then 8.0.
   */
  lemma TrainTwiceDiffers()
    ensures var rows := [[IndexedValue(0, 4.0)]];
      Trained(Num(0.0), rows, 0, 2) == Num(4.0) && Trained(Trained(Num(0.0), rows, 0, 2), rows, 0, 2) == Num(8.0)
  {
    var rows := [[IndexedValue(0, 4.0)]];
    assert rows[..0] == [] && rows[0][..0] == [];
    assert ColumnSum(rows, 0) == 4.0 && ColumnCount(rows, 0) == 1;
  }

  class Model {
    const columnCount: nat
    /** One average per column (vehicle). */
    var averageRating: seq<Float>

    ghost predicate Valid()
      reads this
    {
      |averageRating| == columnCount
    }

    /** `new`: a zero average for every column. */
    constructor (columnCount: nat)
      ensures Valid() && this.columnCount == columnCount
      ensures forall c :: 0 <= c < columnCount ==> averageRating[c] == Num(0.0)
    {
      this.columnCount := columnCount;
      averageRating := seq(columnCount, c => Num(0.0));
    }

    /**
     * `train`: adds the ratings of every row but the last to the averages of
     * their columns, then divides every column but the last by its count.
     * With no rows or no columns the loop bounds underflow, so the source
     * needs at least one row and one column.
     */
    method Train(matrix: CompressedStorage<nat, real>)
      requires Valid() && matrix.Valid() && |matrix.pointers| >= 2 && columnCount >= 1
      requires WithinColumns(matrix.Rows()[..|matrix.pointers| - 2], columnCount)
      modifies this
      ensures Valid()
      ensures forall c :: 0 <= c < columnCount ==>
        averageRating[c] == Trained(old(averageRating[c]), matrix.Rows()[..|matrix.pointers| - 2], c, columnCount)
    {
      ghost var rows := matrix.Rows()[..|matrix.pointers| - 2];
      ghost var start := averageRating;
      var ratingCount := seq(columnCount, c => 0);
      for r := 0 to matrix.RowCount() - 1
        invariant |averageRating| == columnCount && |ratingCount| == columnCount
        invariant forall c :: 0 <= c < columnCount ==>
          averageRating[c] == Plus(start[c], ColumnSum(rows[..r], c)) && ratingCount[c] == ColumnCount(rows[..r], c)
      {
        matrix.RowIsSlice(r);
        var row := matrix.GetSlice(r);
        assert row == rows[r];
        ratingCount := AddRow(row, rows[..r], start, ratingCount);
        forall c | 0 <= c < columnCount {
          RowsStep(rows, r, c);
        }
      }
      assert rows[..|rows|] == rows;
      for c := 0 to columnCount - 1
        invariant |averageRating| == columnCount
        invariant forall c' :: 0 <= c' < columnCount ==>
          averageRating[c'] == if c' < c then Trained(start[c'], rows, c', columnCount) else Plus(start[c'], ColumnSum(rows, c'))
      {
        averageRating := averageRating[c := DivideBy(averageRating[c], ratingCount[c])];
      }
    }

    /** The inner loop of `train`: the ratings of one row added to their columns and counted. */
    method AddRow(row: Row<real>, ghost done: seq<Row<real>>, ghost start: seq<Float>, ratingCount: seq<nat>)
      returns (ratingCount': seq<nat>)
      requires |averageRating| == columnCount == |ratingCount| == |start|
      requires forall j :: 0 <= j < |row| ==> row[j].index < columnCount
      requires forall c :: 0 <= c < columnCount ==>
        averageRating[c] == Plus(start[c], ColumnSum(done, c)) && ratingCount[c] == ColumnCount(done, c)
      modifies this
      ensures |averageRating| == columnCount == |ratingCount'|
      ensures forall c :: 0 <= c < columnCount ==>
        averageRating[c] == Plus(start[c], ColumnSum(done, c) + EntrySum(row, c))
        && ratingCount'[c] == ColumnCount(done, c) + EntryCount(row, c)
    {
      ratingCount' := ratingCount;
      assert row[..0] == [];
      for j := 0 to |row|
        invariant |averageRating| == columnCount == |ratingCount'|
        invariant forall c :: 0 <= c < columnCount ==>
          averageRating[c] == Plus(start[c], ColumnSum(done, c) + EntrySum(row[..j], c))
          && ratingCount'[c] == ColumnCount(done, c) + EntryCount(row[..j], c)
      {
        var column := row[j].index;
        forall c | 0 <= c < columnCount {
          EntryStep(row, j, c);
        }
        averageRating := averageRating[column := Plus(averageRating[column], row[j].value)];
        ratingCount' := ratingCount'[column := ratingCount'[column] + 1];
      }
      assert row[..|row|] == row;
    }

    /** `predict`: the average of the column; the row plays no part. */
    function Predict(rowIndex: nat, columnIndex: nat): (rating: Float)
      reads this
      requires Valid() && columnIndex < columnCount
      ensures rating == averageRating[columnIndex]
    {
      averageRating[columnIndex]
    }
  }

  /**
   * A fresh model trained on `matrix` predicts, for any row, the value
   * `Trained` gives from zero: the column mean, except in the last column.
   */
  method PredictAfterTraining(matrix: CompressedStorage<nat, real>, columnCount: nat, rowIndex: nat, columnIndex: nat)
    returns (rating: Float)
    requires matrix.Valid() && |matrix.pointers| >= 2 && columnCount >= 1 && columnIndex < columnCount
    requires WithinColumns(matrix.Rows()[..|matrix.pointers| - 2], columnCount)
    ensures rating == Trained(Num(0.0), matrix.Rows()[..|matrix.pointers| - 2], columnIndex, columnCount)
  {
    var model := new Model(columnCount);
    model.Train(matrix);
    rating := model.Predict(rowIndex, columnIndex);
  }
}
