/** The optional value that Rust's `Option` is. */
module Options {
  datatype Option<+T> = None | Some(value: T)
}

/**
 * The `f64` numbers the trainers compute with, over the reals: a number, or
 * NaN. A division by zero gives NaN when the dividend is zero and an infinity
 * otherwise; both are represented by `NaN` here, the value the trainers treat
 * as "no data".
 */
module Numeric {
  datatype Float = Num(value: real) | NaN

  /** `x + y` for a finite `y`: NaN stays NaN. */
  function Plus(x: Float, y: real): (r: Float)
    ensures r.NaN? <==> x.NaN?
    ensures x.Num? ==> r.value - x.value == y
  {
    match x
    case Num(v) => Num(v + y)
    case NaN => NaN
  }

  /** `x / n as f64`: a count of zero leaves no defined quotient. */
  function DivideBy(x: Float, n: nat): (r: Float)
    ensures r.Num? <==> x.Num? && n > 0
    ensures r.Num? ==> r.value * (n as real) == x.value
  {
    if x.Num? && n > 0 then Num(x.value / (n as real)) else NaN
  }
}

/**
 * Row-major flattening of a `height` × `width` grid into one vector, the
 * layout both the K-Means counts and the Slope One tables use.
 */
module Grid {
  /**
   * The position of cell (i, j) in a row-major vector whose rows are `width`
   * cells wide: row `i` starts one row's width after row `i - 1`.
   */
  function Flat(i: nat, j: nat, width: nat): nat {
    if i == 0 then j else Flat(i - 1, j, width) + width
  }

  /** It is the position `i * width + j` the source computes. */
  lemma {:induction false} FlatIsProduct(i: nat, j: nat, width: nat)
    ensures Flat(i, j, width) == i * width + j
  {
    if i > 0 {
      FlatIsProduct(i - 1, j, width);
      assert (i - 1) * width + width == i * width;
    }
  }

  /** Cell (i, j) lies `j` cells after the start of row `i`. */
  lemma {:induction false} FlatShift(i: nat, j: nat, width: nat)
    ensures Flat(i, j, width) == Flat(i, 0, width) + j
  {
    if i > 0 {
      FlatShift(i - 1, j, width);
    }
  }

  /** Rows further down start at least one row's width later. */
  lemma {:induction false} RowsApart(a: nat, b: nat, width: nat)
    requires a < b
    ensures Flat(a, 0, width) + width <= Flat(b, 0, width)
    decreases b - a
  {
    if a + 1 < b {
      RowsApart(a, b - 1, width);
    }
  }

  /** Every cell of a grid `height` rows high lies before row `height`, which starts at `height * width`. */
  lemma FlatBounds(width: nat, height: nat)
    ensures Flat(height, 0, width) == height * width
    ensures forall i: nat, j: nat :: i < height && j < width ==> Flat(i, j, width) < Flat(height, 0, width)
  {
    FlatIsProduct(height, 0, width);
    forall i: nat, j: nat | i < height && j < width ensures Flat(i, j, width) < Flat(height, 0, width) {
      FlatShift(i, j, width);
      RowsApart(i, height, width);
    }
  }

  /** Every position before row `height` is the position of a cell of the grid. */
  lemma FlatCovers(q: nat, height: nat, width: nat)
    requires q < Flat(height, 0, width)
    ensures width > 0 && q / width < height && q % width < width && Flat(q / width, q % width, width) == q
  {
    FlatIsProduct(height, 0, width);
    assert width > 0;
    var i, j := q / width, q % width;
    assert q == i * width + j;
    FlatIsProduct(i, j, width);
    if i >= height {
      MultiplyMonotonic(height, i, width);
    }
  }

  lemma MultiplyMonotonic(a: nat, b: nat, width: nat)
    requires a <= b
    ensures a * width <= b * width
  {
  }

  /** Cell (i, j) of a square table `width` cells wide, stored row-major in `s`. */
  function TableCell<T>(s: seq<T>, i: nat, j: nat, width: nat): T
    requires i < width && j < width && |s| == Flat(width, 0, width)
  {
    FlatBounds(width, width);
    s[Flat(i, j, width)]
  }

  /** Distinct cells have distinct positions. */
  lemma {:induction false} FlatInjective(i: nat, j: nat, i': nat, j': nat, width: nat)
    requires j < width && j' < width && Flat(i, j, width) == Flat(i', j', width)
    ensures i == i' && j == j'
  {
    FlatShift(i, j, width);
    FlatShift(i', j', width);
    if i < i' {
      RowsApart(i, i', width);
    } else if i' < i {
      RowsApart(i', i, width);
    }
  }
}
