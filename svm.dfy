/**
 * A linear decision rule: a weight vector and a bias, both zero after
 * construction, that class an input as positive when w.x + b >= 0. There is
 * no training.
 */
module SupportVectorMachine {

  /** A data frame, of which only the column count matters here. */
  datatype Dataset = Dataset(columns: nat)

  /** The dot product of two vectors of the same length. */
  function Dot(x: seq<real>, y: seq<real>): real
    requires |x| == |y|
  {
    if x == [] then 0.0 else x[0] * y[0] + Dot(x[1..], y[1..])
  }

  /** A vector whose coordinates are all zero. */
  predicate IsZero(w: seq<real>) {
    forall i :: 0 <= i < |w| ==> w[i] == 0.0
  }

  /** The dot product with a zero vector is zero. */
  lemma {:induction false} DotZero(x: seq<real>, w: seq<real>)
    requires |x| == |w| && IsZero(w)
    ensures Dot(x, w) == 0.0
    decreases |x|
  {
    if x != [] {
      DotZero(x[1..], w[1..]);
    }
  }

  class Svm {
    var trainDataset: Dataset
    var testDataset: Dataset
    var dimFeatureSpace: int
    var weights: seq<real>
    var bCoef: real

    /** The signed value w.x + b. */
    function Discriminant(x: seq<real>): real
      reads this
      requires |x| == |weights|
    {
      Dot(x, weights) + bCoef
    }

    /**
     * Keeps both datasets; the feature space has one dimension fewer than the
     * training set has columns, and weights and bias start at zero, so the
     * discriminant of every input of that dimension is zero.
     */
    constructor (train: Dataset, test: Dataset)
      requires train.columns >= 1
      ensures trainDataset == train && testDataset == test
      ensures dimFeatureSpace == train.columns - 1
      ensures |weights| == dimFeatureSpace && IsZero(weights)
      ensures bCoef == 0.0
      ensures forall x :: |x| == dimFeatureSpace ==> Discriminant(x) == 0.0
    {
      trainDataset := train;
      testDataset := test;
      dimFeatureSpace := train.columns - 1;
      weights := seq(train.columns - 1, _ => 0.0);
      bCoef := 0.0;
      new;
      forall x | |x| == dimFeatureSpace
        ensures Discriminant(x) == 0.0
      {
        DotZero(x, weights);
      }
    }

    /**
     * Classes an input as positive exactly when its discriminant is at least
     * zero, so a discriminant of zero is positive. Reads the model only.
     */
    method Predict(x: seq<real>) returns (positive: bool)
      requires |x| == |weights|
      ensures positive <==> Discriminant(x) >= 0.0
      ensures IsZero(weights) && bCoef == 0.0 ==> positive
    {
      if IsZero(weights) {
        DotZero(x, weights);
      }
      var discriminant := Dot(x, weights) + bCoef;
      if discriminant >= 0.0 {
        positive := true;
      } else {
        positive := false;
      }
    }
  }
}
