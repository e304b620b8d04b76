/** The Gaussian radial basis function approximator `GaussianRBF` of
    cpp-rbf/rbf.hpp: a fixed set of centroids and a width `gamma` define a
    feature map; `fit` solves for one weight per centroid and `predict`
    returns the weighted sum of the features of each input row.

    The C++ class mutates `weights` in place; here the model is an immutable
    value and `Fit` returns the updated model. The library exponential and
    Armadillo's `solve` are passed in as functions. */
module GaussianRbf {
  import opened Results
  import opened Linalg

  /** Stand-in for the library exponential: any function with positive
      results. Only positivity is relied on. */
  type ExpFn = f: real -> real | forall t :: f(t) > 0.0 witness (t: real) => 1.0

  /** Stand-in for Armadillo's `solve(phi, y)`: any function of the design
      matrix and the targets. */
  type Solver = (Mat, seq<real>) -> seq<real>

  /** The one shape fact relied on about the solver: its solution has one
      entry per column of the design matrix. */
  ghost predicate SolverShape(solve: Solver)
  {
    forall phi: Mat, y: seq<real> :: |solve(phi, y)| == phi.nCols
  }

  /** The public fields of the C++ class. The unused `domain` field is left
      out. */
  datatype GaussianRBF = GaussianRBF(
    dim: nat,
    centroids: Mat,
    nbasis: nat,
    gamma: real,
    weights: seq<real>)
  {
    /** The agreement between the fields that the constructor sets up and
        `fit` keeps. */
    predicate Valid()
    {
      dim == centroids.nCols
      && nbasis == |centroids.rows|
      && |weights| == nbasis
    }
  }

  const BasisWidthMessage: string := "x and centroids must have same dimensions!"
  const PredictWidthMessage: string := "X and centroids must have same number of columns!"

  /** The constructor `GaussianRBF(centroids, gamma, domain)`. The initial
      weights are `uniform(-1.0, 1.0, n)`, that is `-1 + 2 * randu(n)`; the
      random draws are the parameter `randu`. */
  function Create(centroids: Mat, gamma: real, randu: nat -> real): (m: GaussianRBF)
    ensures m.Valid()
    ensures m.dim == centroids.nCols && m.nbasis == |centroids.rows|
    ensures m.centroids == centroids && m.gamma == gamma
    ensures (forall i: nat :: i < |centroids.rows| ==> 0.0 <= randu(i) <= 1.0) ==>
              forall i :: 0 <= i < |m.weights| ==> -1.0 <= m.weights[i] <= 1.0
  {
    var n := |centroids.rows|;
    GaussianRBF(centroids.nCols, centroids, n, gamma,
                seq(n, i requires 0 <= i < n => -1.0 + 2.0 * randu(i)))
  }

  /** The Gaussian response of the centroid `c` to the input `x`:
      `exp(-gamma * ||x - c||^2)`. */
  function Response(gamma: real, exp: ExpFn, x: seq<real>, c: seq<real>): real
    requires |x| == |c|
  {
    exp(-1.0 * gamma * SqDist(x, c))
  }

  /** The responses of all centroids to `x`, before normalisation. */
  function RawBasis(m: GaussianRBF, exp: ExpFn, x: seq<real>): (phi: seq<real>)
    requires |x| == m.centroids.nCols
    ensures |phi| == |m.centroids.rows|
    ensures forall i :: 0 <= i < |phi| ==> phi[i] > 0.0
  {
    seq(|m.centroids.rows|, i requires 0 <= i < |m.centroids.rows| =>
      Response(m.gamma, exp, x, m.centroids.rows[i]))
  }

  /** The basis vector of an input of the right width: the raw responses
      divided by their sum. */
  function BasisOf(m: GaussianRBF, exp: ExpFn, x: seq<real>): (b: seq<real>)
    requires |x| == m.centroids.nCols
    ensures |b| == |m.centroids.rows|
    ensures forall i :: 0 <= i < |b| ==> 0.0 < b[i] <= 1.0
    ensures |b| > 0 ==> Sum(b) == 1.0 && Sum(RawBasis(m, exp, x)) > 0.0
    ensures forall i :: 0 <= i < |b| ==>
              b[i] == Response(m.gamma, exp, x, m.centroids.rows[i]) / Sum(RawBasis(m, exp, x))
  {
    Normalize(RawBasis(m, exp, x))
  }

  /** `basis(x)`: throws `invalid_argument` exactly when `x` has the wrong
      width; otherwise one entry per centroid, each in (0, 1], summing to 1,
      and each proportional to that centroid's Gaussian response. */
  function Basis(m: GaussianRBF, exp: ExpFn, x: seq<real>): (r: Result<seq<real>>)
    ensures r.Err? <==> |x| != m.centroids.nCols
    ensures r.Err? ==> r.error == InvalidArgument(BasisWidthMessage)
    ensures r.Ok? ==> |r.value| == |m.centroids.rows|
    ensures r.Ok? ==> forall i :: 0 <= i < |r.value| ==> 0.0 < r.value[i] <= 1.0
    ensures r.Ok? && |m.centroids.rows| > 0 ==> Sum(r.value) == 1.0 && Sum(RawBasis(m, exp, x)) > 0.0
    ensures r.Ok? ==> forall i :: 0 <= i < |r.value| ==>
              r.value[i] == Response(m.gamma, exp, x, m.centroids.rows[i]) / Sum(RawBasis(m, exp, x))
  {
    if |x| != m.centroids.nCols then Err(InvalidArgument(BasisWidthMessage))
    else Ok(BasisOf(m, exp, x))
  }

  /** `predict(X)`: throws `invalid_argument` exactly when `X` has the wrong
      number of columns (even when it has no rows); otherwise one prediction
      per row, in row order, each the dot product of the weights with the
      basis of that row. */
  function Predict(m: GaussianRBF, exp: ExpFn, X: Mat): (r: Result<seq<real>>)
    requires |m.weights| == |m.centroids.rows|
    ensures r.Err? <==> X.nCols != m.centroids.nCols
    ensures r.Err? ==> r.error == InvalidArgument(PredictWidthMessage)
    ensures r.Ok? ==> |r.value| == |X.rows|
    ensures r.Ok? ==> forall i :: 0 <= i < |X.rows| ==>
              Basis(m, exp, X.rows[i]).Ok?
              && r.value[i] == Dot(m.weights, Basis(m, exp, X.rows[i]).value)
  {
    if X.nCols != m.centroids.nCols then Err(InvalidArgument(PredictWidthMessage))
    else
      Ok(seq(|X.rows|, i requires 0 <= i < |X.rows| =>
        Dot(m.weights, BasisOf(m, exp, X.rows[i]))))
  }

  /** The design matrix `phi` built by `fit`: one row per input row, one
      column per centroid. */
  function DesignMatrix(m: GaussianRBF, exp: ExpFn, X: Mat): (phi: Mat)
    requires X.nCols == m.centroids.nCols || |X.rows| == 0
    ensures phi.nCols == |m.centroids.rows| && |phi.rows| == |X.rows|
    ensures forall i :: 0 <= i < |X.rows| ==> Basis(m, exp, X.rows[i]) == Ok(phi.rows[i])
  {
    Matrix(|m.centroids.rows|,
           seq(|X.rows|, i requires 0 <= i < |X.rows| => BasisOf(m, exp, X.rows[i])))
  }

  /** `fit(X, y)`: throws `invalid_argument` (from `basis` on the first row)
      exactly when `X` has rows of the wrong width; otherwise the weights are
      replaced wholesale by the solver's answer for the design matrix and
      nothing else changes. */
  function Fit(m: GaussianRBF, exp: ExpFn, X: Mat, y: seq<real>, solve: Solver): (r: Result<GaussianRBF>)
    requires SolverShape(solve)
    ensures r.Err? <==> |X.rows| > 0 && X.nCols != m.centroids.nCols
    ensures r.Err? ==> r.error == InvalidArgument(BasisWidthMessage)
    ensures r.Ok? ==> r.value.dim == m.dim && r.value.centroids == m.centroids
                      && r.value.nbasis == m.nbasis && r.value.gamma == m.gamma
    ensures r.Ok? ==> r.value.weights == solve(DesignMatrix(m, exp, X), y)
    ensures r.Ok? ==> |r.value.weights| == |m.centroids.rows|
    ensures r.Ok? && m.Valid() ==> r.value.Valid()
  {
    if |X.rows| > 0 && X.nCols != m.centroids.nCols then
      Err(InvalidArgument(BasisWidthMessage))
    else
      Ok(m.(weights := solve(DesignMatrix(m, exp, X), y)))
  }

  /** The basis of an input depends on the centroids and `gamma` only, never
      on the weights. */
  lemma {:induction false} BasisIgnoresWeights(m: GaussianRBF, w: seq<real>, exp: ExpFn, x: seq<real>)
    requires |x| == m.centroids.nCols
    ensures BasisOf(m.(weights := w), exp, x) == BasisOf(m, exp, x)
  {
    assert RawBasis(m.(weights := w), exp, x) == RawBasis(m, exp, x);
  }

  /** `fit` replaces the weights wholesale: the weights held before the call
      have no influence on anything `fit` produces. */
  lemma {:induction false} FitForgetsWeights(m: GaussianRBF, w: seq<real>, exp: ExpFn, X: Mat, y: seq<real>, solve: Solver)
    requires SolverShape(solve)
    ensures Fit(m.(weights := w), exp, X, y, solve) == Fit(m, exp, X, y, solve)
  {
    if |X.rows| == 0 || X.nCols == m.centroids.nCols {
      forall i | 0 <= i < |X.rows|
        ensures BasisOf(m.(weights := w), exp, X.rows[i]) == BasisOf(m, exp, X.rows[i])
      {
        BasisIgnoresWeights(m, w, exp, X.rows[i]);
      }
      assert DesignMatrix(m.(weights := w), exp, X) == DesignMatrix(m, exp, X);
    }
  }

  /** Fitting twice to the same data gives the same model as fitting once. */
  lemma FitIdempotent(m: GaussianRBF, exp: ExpFn, X: Mat, y: seq<real>, solve: Solver)
    requires SolverShape(solve)
    requires Fit(m, exp, X, y, solve).Ok?
    ensures Fit(Fit(m, exp, X, y, solve).value, exp, X, y, solve) == Fit(m, exp, X, y, solve)
  {
    var m' := Fit(m, exp, X, y, solve).value;
    assert m' == m.(weights := m'.weights);
    FitForgetsWeights(m, m'.weights, exp, X, y, solve);
  }

  /** After a successful fit, the predictions on the training inputs are the
      design matrix applied to the solved weights: row `i` of `phi` dotted
      with the new weights. */
  lemma FitThenPredictOnTrainingInputs(m: GaussianRBF, exp: ExpFn, X: Mat, y: seq<real>, solve: Solver)
    requires SolverShape(solve)
    requires X.nCols == m.centroids.nCols
    ensures Fit(m, exp, X, y, solve).Ok?
    ensures var m' := Fit(m, exp, X, y, solve).value;
            var phi := DesignMatrix(m, exp, X);
            |m'.weights| == |m.centroids.rows|
            && Predict(m', exp, X).Ok?
            && forall i :: 0 <= i < |X.rows| ==>
                 Predict(m', exp, X).value[i] == Dot(m'.weights, phi.rows[i])
  {
    var m' := Fit(m, exp, X, y, solve).value;
    forall i | 0 <= i < |X.rows|
      ensures BasisOf(m', exp, X.rows[i]) == BasisOf(m, exp, X.rows[i])
    {
      BasisIgnoresWeights(m, m'.weights, exp, X.rows[i]);
    }
  }

  /** `predict` works row by row: predicting on any rearrangement of the rows
      of `X` (a permutation, a selection, repeats) rearranges the predictions
      the same way. So row `k` of the output depends only on row `k` of the
      input, and the output keeps the input's row order. */
  lemma PredictFollowsRows(m: GaussianRBF, exp: ExpFn, X: Mat, order: seq<nat>)
    requires |m.weights| == |m.centroids.rows|
    requires forall k :: 0 <= k < |order| ==> order[k] < |X.rows|
    ensures var Y := Matrix(X.nCols, seq(|order|, k requires 0 <= k < |order| => X.rows[order[k]]));
            Rectangular(Y)
            && Predict(m, exp, Y).Ok? == Predict(m, exp, X).Ok?
            && (Predict(m, exp, X).Ok? ==>
                  |Predict(m, exp, Y).value| == |order|
                  && forall k :: 0 <= k < |order| ==>
                       Predict(m, exp, Y).value[k] == Predict(m, exp, X).value[order[k]])
  {
  }

  /** Because the basis entries are non-negative and sum to one, every
      prediction is a weighted average of the weights: it lies between the
      smallest and the largest weight. In particular, equal weights `c`
      predict `c` everywhere. */
  lemma PredictWithinWeightRange(m: GaussianRBF, exp: ExpFn, X: Mat, lo: real, hi: real)
    requires |m.weights| == |m.centroids.rows| > 0
    requires forall i :: 0 <= i < |m.weights| ==> lo <= m.weights[i] <= hi
    requires X.nCols == m.centroids.nCols
    ensures Predict(m, exp, X).Ok?
    ensures forall k :: 0 <= k < |X.rows| ==> lo <= Predict(m, exp, X).value[k] <= hi
  {
    forall k | 0 <= k < |X.rows|
      ensures lo <= Predict(m, exp, X).value[k] <= hi
    {
      var b := BasisOf(m, exp, X.rows[k]);
      assert Predict(m, exp, X).value[k] == Dot(m.weights, b);
      WeightedAverageBounds(m.weights, b, lo, hi);
    }
  }

  /** The worked example: centroids -1, 0 and 1 on the line, `gamma` 1, and
      an exponential with `exp(0) = 1`. The basis of 0 is
      `[e, 1, e] / (1 + 2e)` with `e = exp(-1)`. */
  lemma BasisOfOriginExample(exp: ExpFn, randu: nat -> real)
    requires exp(0.0) == 1.0
    ensures var m := Create(Matrix(1, [[-1.0], [0.0], [1.0]]), 1.0, randu);
            var e := exp(-1.0);
            Basis(m, exp, [0.0]) == Ok([e / (1.0 + 2.0 * e), 1.0 / (1.0 + 2.0 * e), e / (1.0 + 2.0 * e)])
  {
    var m := Create(Matrix(1, [[-1.0], [0.0], [1.0]]), 1.0, randu);
    var e := exp(-1.0);
    RawBasisOfOriginExample(exp, m);
    NormalizeThree(e, 1.0);
  }

  /** The raw responses in the worked example are `[exp(-1), 1, exp(-1)]`. */
  lemma RawBasisOfOriginExample(exp: ExpFn, m: GaussianRBF)
    requires exp(0.0) == 1.0
    requires m.centroids == Matrix(1, [[-1.0], [0.0], [1.0]]) && m.gamma == 1.0
    ensures RawBasis(m, exp, [0.0]) == [exp(-1.0), 1.0, exp(-1.0)]
  {
    assert SqDist([0.0], [-1.0]) == 1.0;
    assert SqDist([0.0], [0.0]) == 0.0;
    assert SqDist([0.0], [1.0]) == 1.0;
  }

  /** Normalising `[e, c, e]` divides each entry by `c + 2e`. */
  lemma NormalizeThree(e: real, c: real)
    requires e > 0.0 && c > 0.0
    ensures Normalize([e, c, e]) == [e / (c + 2.0 * e), c / (c + 2.0 * e), e / (c + 2.0 * e)]
  {
    var raw := [e, c, e];
    assert Sum(raw[2..]) == e;
    assert Sum(raw[1..]) == c + e;
    assert Sum(raw) == c + 2.0 * e;
  }
}
