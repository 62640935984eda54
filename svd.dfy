/**
 * The latent-factor (SVD) model: a global base rating, a base per row and
 * per column, and a feature vector per row and per column. Only its
 * construction exists; the `f32` numbers are reals here.
 */
module Svd {
  datatype Model = Model(
    base: real,
    rowBases: seq<real>,
    columnBases: seq<real>,
    rowFeatures: seq<seq<real>>,
    columnFeatures: seq<seq<real>>)

  /** `count` vectors of `featureCount` entries each. */
  ghost predicate Vectors(vectors: seq<seq<real>>, count: nat, featureCount: nat) {
    |vectors| == count && forall i :: 0 <= i < count ==> |vectors[i]| == featureCount
  }

  /** Every entry of every vector is zero. */
  ghost predicate AllZero(vectors: seq<seq<real>>) {
    forall i, f :: 0 <= i < |vectors| && 0 <= f < |vectors[i]| ==> vectors[i][f] == 0.0
  }

  /** The dimensions a model built for `rowCount` × `columnCount` with `featureCount` features has. */
  ghost predicate Shaped(model: Model, rowCount: nat, columnCount: nat, featureCount: nat) {
    |model.rowBases| == rowCount && |model.columnBases| == columnCount
    && Vectors(model.rowFeatures, rowCount, featureCount)
    && Vectors(model.columnFeatures, columnCount, featureCount)
  }

  /** Nothing learned yet: the base, every row and column base and every feature is zero. */
  ghost predicate Untrained(model: Model) {
    model.base == 0.0
    && (forall r :: 0 <= r < |model.rowBases| ==> model.rowBases[r] == 0.0)
    && (forall c :: 0 <= c < |model.columnBases| ==> model.columnBases[c] == 0.0)
    && AllZero(model.rowFeatures) && AllZero(model.columnFeatures)
  }

  /** `vec![0.0; count]`. */
  function Zeros(count: nat): (zeros: seq<real>)
    ensures |zeros| == count && forall i :: 0 <= i < count ==> zeros[i] == 0.0
  {
    seq(count, i => 0.0)
  }

  /** `new_feature_vectors`: the vectors of zeros collected over `0..count`, one per index. */
  function NewFeatureVectors(count: nat, featureCount: nat): (vectors: seq<seq<real>>)
    ensures Vectors(vectors, count, featureCount) && AllZero(vectors)
  {
    if count == 0 then [] else NewFeatureVectors(count - 1, featureCount) + [Zeros(featureCount)]
  }

  /** `new`: a model of the given dimensions with nothing learned. */
  function New(rowCount: nat, columnCount: nat, featureCount: nat): (model: Model)
    ensures Shaped(model, rowCount, columnCount, featureCount) && Untrained(model)
  {
    Model(0.0, Zeros(rowCount), Zeros(columnCount),
      NewFeatureVectors(rowCount, featureCount), NewFeatureVectors(columnCount, featureCount))
  }

  /** Models built for the same dimensions are the same model: `new` depends on nothing else. */
  lemma NewDetermined(m: Model, n: Model, rowCount: nat, columnCount: nat, featureCount: nat)
    requires Shaped(m, rowCount, columnCount, featureCount) && Untrained(m)
    requires Shaped(n, rowCount, columnCount, featureCount) && Untrained(n)
    ensures m == n
  {
    assert m.rowBases == n.rowBases;
    assert m.columnBases == n.columnBases;
    assert forall i :: 0 <= i < rowCount ==> m.rowFeatures[i] == n.rowFeatures[i];
    assert forall i :: 0 <= i < columnCount ==> m.columnFeatures[i] == n.columnFeatures[i];
  }
}
