/**
 * Compressed sparse row storage: one flat, append-only sequence of
 * (index, value) entries and a sequence of row offsets into it. Row `i` is
 * the run of entries between offsets `i` and `i + 1`.
 */
module Csr {

  /** One stored entry: its index (a column, for a row-major matrix) and its value. */
  datatype IndexedValue<I, V> = IndexedValue(index: I, value: V)

  /** A row as the trainers read it: entries whose index is a column number. */
  type Row<V> = seq<IndexedValue<nat, V>>

  /** Offsets never decrease. */
  ghost predicate Ascending(pointers: seq<nat>) {
    forall i, j :: 0 <= i <= j < |pointers| ==> pointers[i] <= pointers[j]
  }

  /** Every offset points into (or just past) the entries. */
  ghost predicate Bounded(pointers: seq<nat>, count: nat) {
    forall i :: 0 <= i < |pointers| ==> pointers[i] <= count
  }

  /**
   * The rows that consecutive offsets delimit, built the way the offsets are:
   * each offset after the first closes the row the previous one opened.
   */
  ghost function Slices<I, V>(values: seq<IndexedValue<I, V>>, pointers: seq<nat>): (rows: seq<seq<IndexedValue<I, V>>>)
    requires Ascending(pointers) && Bounded(pointers, |values|)
    ensures |rows| == if |pointers| == 0 then 0 else |pointers| - 1
  {
    if |pointers| <= 1 then []
    else Slices(values, pointers[..|pointers| - 1]) + [values[pointers[|pointers| - 2]..pointers[|pointers| - 1]]]
  }

  /** Row `i` is the run of entries between offsets `i` and `i + 1`. */
  lemma {:induction false} SlicesAt<I, V>(values: seq<IndexedValue<I, V>>, pointers: seq<nat>)
    requires Ascending(pointers) && Bounded(pointers, |values|)
    ensures forall i :: 0 <= i < |Slices(values, pointers)| ==> Slices(values, pointers)[i] == values[pointers[i]..pointers[i + 1]]
    decreases |pointers|
  {
    if |pointers| > 1 {
      var init := pointers[..|pointers| - 1];
      SlicesAt(values, init);
    }
  }

  /** An offset no smaller than the last, and within the entries, keeps the offsets valid. */
  lemma OffsetsSnoc(pointers: seq<nat>, count: nat, n: nat)
    requires Ascending(pointers) && Bounded(pointers, count)
    requires (|pointers| > 0 ==> pointers[|pointers| - 1] <= n) && n <= count
    ensures Ascending(pointers + [n]) && Bounded(pointers + [n], count)
  {
  }

  /** Opening a row at `n` closes the last one at `n`. */
  lemma SlicesSnoc<I, V>(values: seq<IndexedValue<I, V>>, pointers: seq<nat>, n: nat)
    requires Ascending(pointers) && Bounded(pointers, |values|)
    requires Ascending(pointers + [n]) && Bounded(pointers + [n], |values|)
    requires |pointers| > 0 && pointers[|pointers| - 1] <= n <= |values|
    ensures Slices(values, pointers + [n]) == Slices(values, pointers) + [values[pointers[|pointers| - 1]..n]]
  {
    assert (pointers + [n])[..|pointers|] == pointers;
  }

  /** An entry appended after the last offset belongs to no row yet. */
  lemma SlicesAppend<I, V>(values: seq<IndexedValue<I, V>>, pointers: seq<nat>, entry: IndexedValue<I, V>)
    requires Ascending(pointers) && Bounded(pointers, |values|)
    ensures Bounded(pointers, |values + [entry]|)
    ensures Slices(values + [entry], pointers) == Slices(values, pointers)
  {
    var values' := values + [entry];
    SlicesAt(values, pointers);
    SlicesAt(values', pointers);
    forall i | 0 <= i < |Slices(values, pointers)|
      ensures Slices(values', pointers)[i] == Slices(values, pointers)[i]
    {
      assert values'[pointers[i]..pointers[i + 1]] == values[pointers[i]..pointers[i + 1]];
    }
  }

  /** Overwriting the value of one entry changes that entry of its row and nothing else. */
  lemma SlicesUpdate<I, V>(values: seq<IndexedValue<I, V>>, pointers: seq<nat>, index: nat, offset: nat, value: V)
    requires Ascending(pointers) && Bounded(pointers, |values|)
    requires index + 1 < |pointers| && offset < pointers[index + 1] - pointers[index]
    ensures |Slices(values, pointers)[index]| == pointers[index + 1] - pointers[index]
    ensures var at := pointers[index] + offset;
      var rows := Slices(values, pointers);
      Slices(values[at := IndexedValue(values[at].index, value)], pointers)
        == rows[index := rows[index][offset := IndexedValue(rows[index][offset].index, value)]]
  {
    var at := pointers[index] + offset;
    var values' := values[at := IndexedValue(values[at].index, value)];
    var rows, rows' := Slices(values, pointers), Slices(values', pointers);
    SlicesAt(values, pointers);
    SlicesAt(values', pointers);
    var row: seq<IndexedValue<I, V>> := rows[index];
    var expected: seq<seq<IndexedValue<I, V>>> := rows[index := row[offset := IndexedValue(row[offset].index, value)]];
    forall i | 0 <= i < |rows|
      ensures rows'[i] == expected[i]
    {
      if i < index {
        assert pointers[i + 1] <= pointers[index];
      } else if i > index {
        assert pointers[index + 1] <= pointers[i];
      }
    }
  }

  // Per-column totals of rows whose entries are indexed by column.

  /** The sum of the values `row` holds at `column`. */
  function EntrySum(row: Row<real>, column: nat): real {
    if row == [] then 0.0
    else EntrySum(row[..|row| - 1], column) + if row[|row| - 1].index == column then row[|row| - 1].value else 0.0
  }

  /** The number of entries `row` holds at `column`. */
  function EntryCount(row: Row<real>, column: nat): nat {
    if row == [] then 0
    else EntryCount(row[..|row| - 1], column) + if row[|row| - 1].index == column then 1 else 0
  }

  /** One more entry of a row adds its value to its own column only. */
  lemma EntryStep(row: Row<real>, j: nat, column: nat)
    requires j < |row|
    ensures EntryCount(row[..j + 1], column) == EntryCount(row[..j], column) + if row[j].index == column then 1 else 0
    ensures EntrySum(row[..j + 1], column) == EntrySum(row[..j], column) + if row[j].index == column then row[j].value else 0.0
  {
    assert row[..j + 1][..j] == row[..j];
  }

  /** A row holds no value of a column exactly when it has no entry there; then the sum is zero. */
  lemma {:induction false} EntryCountZero(row: Row<real>, column: nat)
    ensures EntryCount(row, column) == 0 <==> forall j :: 0 <= j < |row| ==> row[j].index != column
    ensures EntryCount(row, column) == 0 ==> EntrySum(row, column) == 0.0
  {
    if row != [] {
      var init := row[..|row| - 1];
      EntryCountZero(init, column);
      assert forall j :: 0 <= j < |init| ==> init[j] == row[j];
    }
  }

  /** The sum of `column` over all of `rows`. */
  function ColumnSum(rows: seq<Row<real>>, column: nat): real {
    if rows == [] then 0.0 else ColumnSum(rows[..|rows| - 1], column) + EntrySum(rows[|rows| - 1], column)
  }

  /** The number of entries of `column` in all of `rows`. */
  function ColumnCount(rows: seq<Row<real>>, column: nat): nat {
    if rows == [] then 0 else ColumnCount(rows[..|rows| - 1], column) + EntryCount(rows[|rows| - 1], column)
  }

  /** Every entry of `rows` names a column below `columnCount`. */
  ghost predicate WithinColumns(rows: seq<Row<real>>, columnCount: nat) {
    forall r, j :: 0 <= r < |rows| && 0 <= j < |rows[r]| ==> rows[r][j].index < columnCount
  }

  /** A column has no entries in `rows` exactly when no row has an entry there; then its sum is zero. */
  lemma {:induction false} ColumnCountZero(rows: seq<Row<real>>, column: nat)
    ensures ColumnCount(rows, column) == 0 <==> forall r, j :: 0 <= r < |rows| && 0 <= j < |rows[r]| ==> rows[r][j].index != column
    ensures ColumnCount(rows, column) == 0 ==> ColumnSum(rows, column) == 0.0
  {
    if rows != [] {
      var n := |rows| - 1;
      ColumnCountZero(rows[..n], column);
      EntryCountZero(rows[n], column);
      assert forall r :: 0 <= r < n ==> rows[..n][r] == rows[r];
    }
  }

  /** One more row adds its entries to every column's totals. */
  lemma RowsStep(rows: seq<Row<real>>, r: nat, column: nat)
    requires r < |rows|
    ensures ColumnSum(rows[..r + 1], column) == ColumnSum(rows[..r], column) + EntrySum(rows[r], column)
    ensures ColumnCount(rows[..r + 1], column) == ColumnCount(rows[..r], column) + EntryCount(rows[r], column)
  {
    assert rows[..r + 1][..r] == rows[..r];
  }

  class CompressedStorage<I, V> {
    var values: seq<IndexedValue<I, V>>
    var pointers: seq<nat>
    /** How many times `Next` has been called on this storage. */
    ghost var appended: nat

    ghost predicate Valid()
      reads this
    {
      Ascending(pointers) && Bounded(pointers, |values|) && appended == |values|
    }

    /** The rows opened by one `Start` and closed by the next. */
    ghost function Rows(): seq<seq<IndexedValue<I, V>>>
      reads this
      requires Valid()
    {
      Slices(values, pointers)
    }

    constructor ()
      ensures Valid()
      ensures values == [] && pointers == [] && appended == 0
    {
      values, pointers := [], [];
      appended := 0;
    }

    /**
     * Opens a new row at the current end of the entries. The entries appended
     * since the previous `Start` become a row; without a previous `Start`
     * they never belong to any row.
     */
    method Start()
      requires Valid()
      modifies this
      ensures Valid()
      ensures pointers == old(pointers) + [|values|]
      ensures values == old(values) && appended == old(appended)
    {
      OffsetsSnoc(pointers, |values|, |values|);
      pointers := pointers + [|values|];
    }

    /** Appends an entry to the row opened last; no row holds it until the next `Start`. */
    method Next(index: I, value: V)
      requires Valid()
      modifies this
      ensures Valid()
      ensures values == old(values) + [IndexedValue(index, value)]
      ensures pointers == old(pointers) && appended == old(appended) + 1
    {
      values := values + [IndexedValue(index, value)];
      appended := appended + 1;
    }

    /** The number of entries, which is the number of `Next` calls so far. */
    function Len(): (n: nat)
      reads this
      requires Valid()
      ensures n == appended
    {
      |values|
    }

    /**
     * Row `index`: the entries between its offset and the next. The source
     * indexes `pointers[index + 1]`, so `index + 1` must be an offset.
     */
    function GetSlice(index: nat): (row: seq<IndexedValue<I, V>>)
      reads this
      requires Valid() && index + 1 < |pointers|
      ensures |row| == pointers[index + 1] - pointers[index]
    {
      values[pointers[index]..pointers[index + 1]]
    }

    /** The slice `GetSlice` returns is that row of the row view. */
    lemma RowIsSlice(index: nat)
      requires Valid() && index + 1 < |pointers|
      ensures GetSlice(index) == Rows()[index]
    {
      SlicesAt(values, pointers);
    }

    /**
     * The row count the trainers use: the offsets minus the one that closes
     * the last row.
     */
    function RowCount(): (n: nat)
      reads this
      requires Valid() && |pointers| >= 1
      ensures n == |Rows()|
    {
      |pointers| - 1
    }

    /**
     * Overwrites the value of entry `offset` of row `index`, as a write
     * through the mutable row view does: the index and every other entry stay.
     */
    method SetRowValue(index: nat, offset: nat, value: V)
      requires Valid() && index + 1 < |pointers|
      requires offset < pointers[index + 1] - pointers[index]
      modifies this
      ensures Valid()
      ensures pointers == old(pointers) && appended == old(appended)
      ensures values == old(values)[pointers[index] + offset := IndexedValue(old(values)[pointers[index] + offset].index, value)]
    {
      var at := pointers[index] + offset;
      values := values[at := IndexedValue(values[at].index, value)];
    }
  }

  /** The build of the source's `test_start`: two entries in one row, then the row closed. */
  method StartScenario() returns (pointers: seq<nat>, len: nat, rows: nat)
    ensures pointers == [0, 2] && len == 2 && rows == 1
  {
    var storage := new CompressedStorage<nat, real>();
    storage.Start();
    storage.Next(0, 1.0);
    storage.Next(2, 2.0);
    storage.Start();
    pointers, len, rows := storage.pointers, storage.Len(), storage.RowCount();
  }

  /** The build of the source's `test_next`: three entries are stored. */
  method NextScenario() returns (len: nat)
    ensures len == 3
  {
    var storage := new CompressedStorage<nat, real>();
    storage.Start();
    storage.Next(0, 1.0);
    storage.Next(2, 2.0);
    storage.Next(5, 3.0);
    storage.Start();
    len := |storage.values|;
  }

  /** The build of the source's `test_get_slice`: a first row of one entry... */
  method GetSliceFirstRow() returns (storage: CompressedStorage<nat, real>)
    ensures fresh(storage) && storage.Valid()
    ensures storage.pointers == [0, 1] && storage.values == [IndexedValue(0, 1.0)]
  {
    storage := new CompressedStorage<nat, real>();
    storage.Start();
    storage.Next(0, 1.0);
    storage.Start();
  }

  /** ... then the two entries of the second... */
  method GetSliceFirstRows() returns (storage: CompressedStorage<nat, real>)
    ensures fresh(storage) && storage.Valid()
    ensures storage.pointers == [0, 1] && storage.values == [IndexedValue(0, 1.0), IndexedValue(2, 2.0), IndexedValue(5, 3.0)]
  {
    storage := GetSliceFirstRow();
    storage.Next(2, 2.0);
    storage.Next(5, 3.0);
    assert storage.values == [IndexedValue(0, 1.0)] + [IndexedValue(2, 2.0)] + [IndexedValue(5, 3.0)];
  }

  /** ... then the second row closed and a third of one: three rows in all. */
  method GetSliceStorage() returns (storage: CompressedStorage<nat, real>)
    ensures fresh(storage) && storage.Valid()
    ensures storage.pointers == [0, 1, 3, 4]
    ensures storage.values == [IndexedValue(0, 1.0), IndexedValue(2, 2.0), IndexedValue(5, 3.0), IndexedValue(1, 7.0)]
  {
    storage := GetSliceFirstRows();
    storage.Start();
    storage.Next(1, 7.0);
    storage.Start();
  }

  /** The assertion of the source's `test_get_slice`: row 1 holds two entries, the first with index 2. */
  method GetSliceScenario() returns (slice: seq<IndexedValue<nat, real>>)
    ensures slice == [IndexedValue(2, 2.0), IndexedValue(5, 3.0)]
  {
    var storage := GetSliceStorage();
    slice := storage.GetSlice(1);
  }
}
