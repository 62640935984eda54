/**
 * The Pearson correlation of two sparse rows, as the item-based
 * collaborative filter computes it: the first row is turned into a map from
 * column to value, and the entries of the second row whose column is in that
 * map are accumulated into six running sums.
 */
module ItemCf {
  import opened Csr

  /** The six accumulators: the shared-column count and five sums. */
  datatype Sums = Sums(n: nat, sumA: real, sumB: real, squaredA: real, squaredB: real, product: real)

  const NoSums: Sums := Sums(0, 0.0, 0.0, 0.0, 0.0, 0.0)

  /** What one shared column, with value `x` in the first row and `y` in the second, adds. */
  function Term(x: real, y: real): Sums {
    Sums(1, x, y, x * x, y * y, x * y)
  }

  function Plus(s: Sums, t: Sums): Sums {
    Sums(s.n + t.n, s.sumA + t.sumA, s.sumB + t.sumB, s.squaredA + t.squaredA, s.squaredB + t.squaredB, s.product + t.product)
  }

  /** The sums with the roles of the two rows exchanged. */
  function Swap(s: Sums): Sums {
    Sums(s.n, s.sumB, s.sumA, s.squaredB, s.squaredA, s.product)
  }

  /** The columns a row has entries in. */
  ghost function Columns(a: Row<real>): set<nat> {
    set i | 0 <= i < |a| :: a[i].index
  }

  ghost predicate DistinctColumns(a: Row<real>) {
    forall i, j :: 0 <= i < j < |a| ==> a[i].index != a[j].index
  }

  /** `a_map`: each entry inserted in turn, so a later entry of a column overwrites an earlier one. */
  function ColumnMap(a: Row<real>): (m: map<nat, real>)
  {
    if a == [] then map[] else ColumnMap(a[..|a| - 1])[a[|a| - 1].index := a[|a| - 1].value]
  }

  /** The sums after the entries of `b`, in order, have been looked up in `m`. */
  function Accumulate(m: map<nat, real>, b: Row<real>): Sums {
    if b == [] then NoSums
    else
      var s := Accumulate(m, b[..|b| - 1]);
      var e := b[|b| - 1];
      if e.index in m then Plus(s, Term(m[e.index], e.value)) else s
  }

  /** The smallest denominator magnitude the coefficient is divided by. */
  const MIN_DENOMINATOR: real := 0.000000001

  function Abs(x: real): real {
    if x < 0.0 then -x else x
  }

  /**
   * The coefficient from the sums: 0.0 without a shared column or when the
   * denominator is too close to zero. `sqrt` is the square root, a parameter.
   */
  function Coefficient(s: Sums, sqrt: real -> real): real {
    if s.n == 0 then 0.0
    else
      var numerator := Spread(s.product, s.sumA, s.sumB, s.n);
      var denominator := sqrt(Times(Spread(s.squaredA, s.sumA, s.sumA, s.n), Spread(s.squaredB, s.sumB, s.sumB, s.n)));
      if Abs(denominator) < MIN_DENOMINATOR then 0.0 else numerator / denominator
  }

  /**
   * `x * y`, named so that the product of the two variances is one term the
   * symmetry proof can rewrite.
   */
  function Times(x: real, y: real): real {
    x * y
  }

  /** `sum_xy - sum_x * sum_y / n`: `n` times a covariance, or a variance when `x` and `y` are one variable. */
  function Spread(sumXY: real, sumX: real, sumY: real, n: nat): real
    requires n > 0
  {
    sumXY - sumX * sumY / n as real
  }

  /** `pearson`: the map of `a`, then one pass over `b`. */
  method Pearson(a: Row<real>, b: Row<real>, sqrt: real -> real) returns (r: real)
    ensures r == Coefficient(Accumulate(ColumnMap(a), b), sqrt)
  {
    var aMap: map<nat, real> := map[];
    for i := 0 to |a|
      invariant aMap == ColumnMap(a[..i])
    {
      assert a[..i + 1][..i] == a[..i];
      aMap := aMap[a[i].index := a[i].value];
    }
    assert a[..|a|] == a;
    var n: nat, sumA, sumB, squaredA, squaredB, product := 0, 0.0, 0.0, 0.0, 0.0, 0.0;
    for j := 0 to |b|
      invariant Sums(n, sumA, sumB, squaredA, squaredB, product) == Accumulate(aMap, b[..j])
    {
      assert b[..j + 1][..j] == b[..j];
      ghost var before := Sums(n, sumA, sumB, squaredA, squaredB, product);
      if b[j].index in aMap {
        var aValue := aMap[b[j].index];
        n := n + 1;
        sumA := sumA + aValue;
        sumB := sumB + b[j].value;
        squaredA := squaredA + aValue * aValue;
        squaredB := squaredB + b[j].value * b[j].value;
        product := product + aValue * b[j].value;
        assert Sums(n, sumA, sumB, squaredA, squaredB, product) == Plus(before, Term(aValue, b[j].value));
      }
    }
    assert b[..|b|] == b;
    r := Coefficient(Sums(n, sumA, sumB, squaredA, squaredB, product), sqrt);
  }

  // The map of the first row.

  /**
   * The map holds exactly the row's columns, and each column maps to the
   * value of its last entry.
   */
  lemma {:induction false} ColumnMapLastWins(a: Row<real>)
    ensures ColumnMap(a).Keys == Columns(a)
    ensures forall i :: 0 <= i < |a| && (forall j :: i < j < |a| ==> a[j].index != a[i].index) ==>
      ColumnMap(a)[a[i].index] == a[i].value
    decreases |a|
  {
    if a != [] {
      var init := a[..|a| - 1];
      ColumnMapLastWins(init);
      ColumnsSnoc(a);
      forall i | 0 <= i < |a| && (forall j :: i < j < |a| ==> a[j].index != a[i].index)
        ensures ColumnMap(a)[a[i].index] == a[i].value
      {
        if i < |a| - 1 {
          assert init[i] == a[i];
          assert forall j :: i < j < |init| ==> init[j].index != init[i].index by {
            forall j | i < j < |init| ensures init[j].index != init[i].index {
              assert init[j] == a[j];
            }
          }
        }
      }
    }
  }

  /** The columns of a row are those of all but its last entry, and the last entry's. */
  lemma ColumnsSnoc(a: Row<real>)
    requires a != []
    ensures Columns(a) == Columns(a[..|a| - 1]) + {a[|a| - 1].index}
  {
    var init := a[..|a| - 1];
    forall c | c in Columns(a) ensures c in Columns(init) + {a[|a| - 1].index} {
      var i :| 0 <= i < |a| && a[i].index == c;
      if i < |a| - 1 {
        assert init[i] == a[i];
      }
    }
    forall c | c in Columns(init) ensures c in Columns(a) {
      var i :| 0 <= i < |init| && init[i].index == c;
      assert a[i] == init[i];
    }
  }

  /** With distinct columns, each entry's value is the one its column maps to. */
  lemma ColumnMapDistinct(a: Row<real>)
    requires DistinctColumns(a)
    ensures ColumnMap(a).Keys == Columns(a)
    ensures forall i :: 0 <= i < |a| ==> ColumnMap(a)[a[i].index] == a[i].value
  {
    ColumnMapLastWins(a);
  }

  /** The order of a row with distinct columns does not matter to its map. */
  lemma MapIgnoresOrder(a: Row<real>, a': Row<real>)
    requires DistinctColumns(a) && DistinctColumns(a') && multiset(a) == multiset(a')
    ensures ColumnMap(a) == ColumnMap(a')
  {
    forall i | 0 <= i < |a| ensures a[i] in a' {
      assert a[i] in multiset(a');
    }
    forall i | 0 <= i < |a'| ensures a'[i] in a {
      assert a'[i] in multiset(a);
    }
    SubMap(a, a');
    SubMap(a', a);
  }

  /** A row with distinct columns whose entries all occur in another such row maps as that row does. */
  lemma SubMap(a: Row<real>, a': Row<real>)
    requires DistinctColumns(a) && DistinctColumns(a')
    requires forall i :: 0 <= i < |a| ==> a[i] in a'
    ensures ColumnMap(a).Keys <= ColumnMap(a').Keys
    ensures forall c :: c in ColumnMap(a) ==> ColumnMap(a)[c] == ColumnMap(a')[c]
  {
    ColumnMapDistinct(a);
    ColumnMapDistinct(a');
    forall c | c in Columns(a) ensures c in Columns(a') && ColumnMap(a)[c] == ColumnMap(a')[c] {
      var i :| 0 <= i < |a| && a[i].index == c;
      var i' :| 0 <= i' < |a'| && a'[i'] == a[i];
    }
  }

  /** Hence the coefficient does not depend on the order of a first row with distinct columns. */
  lemma PearsonIgnoresOrder(a: Row<real>, a': Row<real>, b: Row<real>, sqrt: real -> real)
    requires DistinctColumns(a) && DistinctColumns(a') && multiset(a) == multiset(a')
    ensures Coefficient(Accumulate(ColumnMap(a), b), sqrt) == Coefficient(Accumulate(ColumnMap(a'), b), sqrt)
  {
    MapIgnoresOrder(a, a');
  }

  // The sums as a sum over the shared columns.

  /** The sums over the columns `keys`, taking the first row's values from `ma` and the second's from `mb`. */
  ghost function SumOver(ma: map<nat, real>, mb: map<nat, real>, keys: set<nat>): Sums
    requires keys <= ma.Keys && keys <= mb.Keys
    decreases keys
  {
    if keys == {} then NoSums
    else
      var k :| k in keys;
      Plus(SumOver(ma, mb, keys - {k}), Term(ma[k], mb[k]))
  }

  /** Any column can be taken out of the sum first. */
  lemma {:induction false} SumOverRemove(ma: map<nat, real>, mb: map<nat, real>, keys: set<nat>, k: nat)
    requires keys <= ma.Keys && keys <= mb.Keys && k in keys
    ensures SumOver(ma, mb, keys) == Plus(SumOver(ma, mb, keys - {k}), Term(ma[k], mb[k]))
    decreases keys
  {
    var k' :| k' in keys && SumOver(ma, mb, keys) == Plus(SumOver(ma, mb, keys - {k'}), Term(ma[k'], mb[k']));
    if k' != k {
      SumOverRemove(ma, mb, keys - {k'}, k);
      SumOverRemove(ma, mb, keys - {k}, k');
      assert keys - {k'} - {k} == keys - {k} - {k'};
      PlusExchange(SumOver(ma, mb, keys - {k} - {k'}), Term(ma[k], mb[k]), Term(ma[k'], mb[k']));
    }
  }

  lemma PlusExchange(s: Sums, t: Sums, u: Sums)
    ensures Plus(Plus(s, t), u) == Plus(Plus(s, u), t)
  {
  }

  /** The sum only reads the maps at the columns summed over. */
  lemma {:induction false} SumOverAgree(ma: map<nat, real>, mb: map<nat, real>, mb': map<nat, real>, keys: set<nat>)
    requires keys <= ma.Keys && keys <= mb.Keys && keys <= mb'.Keys
    requires forall k :: k in keys ==> mb[k] == mb'[k]
    ensures SumOver(ma, mb, keys) == SumOver(ma, mb', keys)
    decreases keys
  {
    if keys != {} {
      var k :| k in keys;
      SumOverRemove(ma, mb, keys, k);
      SumOverRemove(ma, mb', keys, k);
      SumOverAgree(ma, mb, mb', keys - {k});
    }
  }

  /** `n` is the number of columns summed over. */
  lemma {:induction false} SumOverCount(ma: map<nat, real>, mb: map<nat, real>, keys: set<nat>)
    requires keys <= ma.Keys && keys <= mb.Keys
    ensures SumOver(ma, mb, keys).n == |keys|
    decreases keys
  {
    if keys != {} {
      var k :| k in keys;
      SumOverRemove(ma, mb, keys, k);
      SumOverCount(ma, mb, keys - {k});
    }
  }

  /** Exchanging the rows exchanges the sums. */
  lemma {:induction false} SumOverSwap(ma: map<nat, real>, mb: map<nat, real>, keys: set<nat>)
    requires keys <= ma.Keys && keys <= mb.Keys
    ensures SumOver(ma, mb, keys) == Swap(SumOver(mb, ma, keys))
    decreases keys
  {
    if keys != {} {
      var k :| k in keys;
      SumOverRemove(ma, mb, keys, k);
      SumOverRemove(mb, ma, keys, k);
      SumOverSwap(ma, mb, keys - {k});
    }
  }

  /**
   * For a second row with distinct columns, exactly its columns that are also
   * in the map contribute, each once.
   */
  lemma {:induction false} AccumulateShared(ma: map<nat, real>, b: Row<real>)
    requires DistinctColumns(b)
    ensures Columns(b) * ma.Keys <= ColumnMap(b).Keys
    ensures Accumulate(ma, b) == SumOver(ma, ColumnMap(b), Columns(b) * ma.Keys)
    decreases |b|
  {
    ColumnMapDistinct(b);
    if b != [] {
      var init, e := b[..|b| - 1], b[|b| - 1];
      assert DistinctColumns(init) by {
        forall i, j | 0 <= i < j < |init| ensures init[i].index != init[j].index {
          assert init[i] == b[i] && init[j] == b[j];
        }
      }
      AccumulateShared(ma, init);
      ColumnMapDistinct(init);
      ColumnsSnoc(b);
      assert e.index !in Columns(init) by {
        forall i | 0 <= i < |init| ensures init[i].index != e.index {
          assert init[i] == b[i];
        }
      }
      var shared := Columns(init) * ma.Keys;
      SumOverAgree(ma, ColumnMap(init), ColumnMap(b), shared);
      if e.index in ma {
        SumOverRemove(ma, ColumnMap(b), Columns(b) * ma.Keys, e.index);
        assert Columns(b) * ma.Keys - {e.index} == shared;
      } else {
        assert Columns(b) * ma.Keys == shared;
      }
    }
  }

  /** For rows with distinct columns, `n` counts the columns the rows share. */
  lemma SharedCount(a: Row<real>, b: Row<real>)
    requires DistinctColumns(b)
    ensures Accumulate(ColumnMap(a), b).n == |Columns(a) * Columns(b)|
  {
    ColumnMapLastWins(a);
    AccumulateShared(ColumnMap(a), b);
    SumOverCount(ColumnMap(a), ColumnMap(b), Columns(b) * Columns(a));
    assert Columns(b) * Columns(a) == Columns(a) * Columns(b);
  }

  /** Without a shared column, whatever the rows, nothing is counted and the coefficient is 0.0. */
  lemma {:induction false} NoSharedColumn(a: Row<real>, b: Row<real>, sqrt: real -> real)
    ensures Accumulate(ColumnMap(a), b).n == 0 <==> forall j :: 0 <= j < |b| ==> b[j].index !in Columns(a)
    ensures (forall j :: 0 <= j < |b| ==> b[j].index !in Columns(a)) ==> Coefficient(Accumulate(ColumnMap(a), b), sqrt) == 0.0
  {
    ColumnMapLastWins(a);
    CountsMatches(ColumnMap(a), b);
  }

  lemma {:induction false} CountsMatches(m: map<nat, real>, b: Row<real>)
    ensures Accumulate(m, b).n == 0 <==> forall j :: 0 <= j < |b| ==> b[j].index !in m
    decreases |b|
  {
    if b != [] {
      var init := b[..|b| - 1];
      CountsMatches(m, init);
      assert forall j :: 0 <= j < |init| ==> init[j] == b[j];
    }
  }

  /** The coefficient is symmetric: for rows with distinct columns, the order of the arguments does not matter. */
  lemma PearsonSymmetric(a: Row<real>, b: Row<real>, sqrt: real -> real)
    requires DistinctColumns(a) && DistinctColumns(b)
    ensures Accumulate(ColumnMap(a), b) == Swap(Accumulate(ColumnMap(b), a))
    ensures Coefficient(Accumulate(ColumnMap(a), b), sqrt) == Coefficient(Accumulate(ColumnMap(b), a), sqrt)
  {
    ColumnMapDistinct(a);
    ColumnMapDistinct(b);
    AccumulateShared(ColumnMap(a), b);
    AccumulateShared(ColumnMap(b), a);
    assert Columns(b) * Columns(a) == Columns(a) * Columns(b);
    SumOverSwap(ColumnMap(a), ColumnMap(b), Columns(a) * Columns(b));
    CoefficientSwap(Accumulate(ColumnMap(b), a), sqrt);
  }

  lemma CoefficientSwap(s: Sums, sqrt: real -> real)
    ensures Coefficient(Swap(s), sqrt) == Coefficient(s, sqrt)
  {
    if s.n != 0 {
      TimesCommutes(Spread(s.squaredA, s.sumA, s.sumA, s.n), Spread(s.squaredB, s.sumB, s.sumB, s.n));
      assert Spread(s.product, s.sumB, s.sumA, s.n) == Spread(s.product, s.sumA, s.sumB, s.n) by {
        assert s.sumB * s.sumA == s.sumA * s.sumB;
      }
    }
  }

  lemma TimesCommutes(x: real, y: real)
    ensures Times(x, y) == Times(y, x)
  {
  }

  // One shared column.

  lemma {:induction false} SingleTerm(m: map<nat, real>, b: Row<real>)
    ensures Accumulate(m, b).n == 0 ==> Accumulate(m, b) == NoSums
    ensures Accumulate(m, b).n == 1 ==> exists x, y :: Accumulate(m, b) == Term(x, y)
    decreases |b|
  {
    if b != [] {
      SingleTerm(m, b[..|b| - 1]);
    }
  }

  /**
   * A single shared column leaves both variances zero, so the coefficient is
   * 0.0 whenever the square root of zero is zero.
   */
  lemma SingleSharedColumn(a: Row<real>, b: Row<real>, sqrt: real -> real)
    requires Accumulate(ColumnMap(a), b).n == 1 && sqrt(0.0) == 0.0
    ensures Coefficient(Accumulate(ColumnMap(a), b), sqrt) == 0.0
  {
    SingleTerm(ColumnMap(a), b);
    var x, y :| Accumulate(ColumnMap(a), b) == Term(x, y);
    assert (x * x - x * x / 1.0) * (y * y - y * y / 1.0) == 0.0;
  }

  lemma SingleEntry(m: map<nat, real>, e: IndexedValue<nat, real>)
    ensures Accumulate(m, [e]).n == if e.index in m then 1 else 0
  {
    assert [e][..0] == [];
  }

  // A row with itself.

  /** The sum of a row's values. */
  function SumOf(a: Row<real>): real {
    if a == [] then 0.0 else SumOf(a[..|a| - 1]) + a[|a| - 1].value
  }

  /** The sum of the squares of a row's values. */
  function SquaresOf(a: Row<real>): real {
    if a == [] then 0.0 else SquaresOf(a[..|a| - 1]) + a[|a| - 1].value * a[|a| - 1].value
  }

  /** `|a|` times the variance of a row's values. */
  function RowSpread(a: Row<real>): real
    requires |a| > 0
  {
    Spread(SquaresOf(a), SumOf(a), SumOf(a), |a|)
  }

  /**
   * Looking up entries whose own values the map holds pairs each value with
   * itself: both value sums are the row's sum, and both squared sums and the
   * product sum are its sum of squares.
   */
  lemma {:induction false} SelfAccumulate(m: map<nat, real>, b: Row<real>)
    requires forall j :: 0 <= j < |b| ==> b[j].index in m && m[b[j].index] == b[j].value
    ensures Accumulate(m, b) == Sums(|b|, SumOf(b), SumOf(b), SquaresOf(b), SquaresOf(b), SquaresOf(b))
  {
    if b != [] {
      var init := b[..|b| - 1];
      assert forall j :: 0 <= j < |init| ==> init[j] == b[j];
      SelfAccumulate(m, init);
    }
  }

  /**
   * A row with distinct columns and nonzero variance has correlation 1.0 with
   * itself, for a `sqrt` that is the square root at the square of that
   * variance.
   */
  lemma SelfCorrelation(a: Row<real>, sqrt: real -> real)
    requires DistinctColumns(a) && |a| > 0 && RowSpread(a) >= MIN_DENOMINATOR
    requires sqrt(Times(RowSpread(a), RowSpread(a))) == RowSpread(a)
    ensures Coefficient(Accumulate(ColumnMap(a), a), sqrt) == 1.0
  {
    ColumnMapDistinct(a);
    SelfAccumulate(ColumnMap(a), a);
  }

  /** Row 6 (Toby) of the source's test matrix. */
  const Toby: Row<real> := [IndexedValue(1, 4.5), IndexedValue(3, 4.0), IndexedValue(4, 1.0)]

  /** Row 7 of the source's test matrix: one rating, of column 4. */
  const UnknownArtist: Row<real> := [IndexedValue(4, 4.5)]

  /** The source's last test case: rows 6 and 7 share only column 4, so the coefficient is 0.0. */
  lemma TobyAndUnknownArtist(sqrt: real -> real)
    requires sqrt(0.0) == 0.0
    ensures Coefficient(Accumulate(ColumnMap(Toby), UnknownArtist), sqrt) == 0.0
  {
    ColumnMapLastWins(Toby);
    assert Toby[2].index == 4;
    assert 4 in ColumnMap(Toby);
    SingleEntry(ColumnMap(Toby), IndexedValue(4, 4.5));
    SingleSharedColumn(Toby, UnknownArtist, sqrt);
  }
}
