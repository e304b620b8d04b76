# Gaussian RBF approximator — a Dafny model

This project models the core of cpp-rbf, a small C++/Armadillo library for
approximating a function by Gaussian radial basis functions. It also models
the grid helper `combinations` used by the examples.

- `GaussianRBF` holds a matrix of centroids (one per row), a width `gamma` and
  one weight per centroid.
- `basis(x)` gives the Gaussian response `exp(-gamma * ||x - c||^2)` of each
  centroid `c` to the input row `x`. It then divides the responses by their sum.
- `fit(X, y)` builds the design matrix whose rows are the bases of the rows
  of `X`. It replaces the weights by `solve(phi, y)`.
- `predict(X)` returns, for each row, the dot product of the weights with its
  basis. It is `const`. In the model the approximator is
  an immutable value that `Predict` only reads, so it cannot change any field.
- `combinations(x1, x2)` is meant to lay out every pair `(x1[i], x2[j])` as
  the rows of an n-by-2 matrix. As written it does so only when
  `|x1| == |x2|`, `|x1| <= 1` or an input is empty (see "## Findings").

The files are:

- `results.dfy` (module `Results`): the `Result`/`Error` datatype that stands
  for the C++ exceptions (`invalid_argument`, Armadillo's out-of-bounds error).
- `linalg.dfy` (module `Linalg`): the Armadillo operations used, over
  mathematical reals. These are rectangular matrices that keep their column
  count, sums, dot products, squared distances and division by the sum.
- `rbf.dfy` (module `GaussianRbf`): the class as an immutable value.
  - `Create` is the constructor.
  - `Basis`, `Predict` and `Fit` are the methods. `Fit` returns the refitted
    model instead of mutating it.
  - The exponential is a parameter `exp` of type `ExpFn`: any function with
    positive results.
  - Armadillo's `solve` is a parameter `solve`. The only thing assumed about
    it is that it returns one entry per column (`SolverShape`).
  - The random initial weights are a parameter `randu` holding the draws in
    [0, 1].
- `grid.dfy` (module `Grid`): `combinations` as written, with its bounds-checked
  writes, and as evidently intended.
  `plot3d` documents that its inputs come from `combinations` with axes of
  equal length (examples/utils.hpp:173-175). Under that assumption the code as
  written gives the intended grid. `Combinations` returns the grid together
  with the log of the writes it performed, in order. The C++ function returns
  only the grid; the log is there so that contracts can say which pair went to
  which row.

## Model

| member | source | states |
|---|---|---|
| `GaussianRbf.Create` | cpp-rbf/rbf.hpp:38-45 | The constructed model takes `dim` from the centroid column count and `nbasis` from the row count, and has one weight per centroid. With draws in [0, 1], every initial weight lies in [-1, 1]. |
| `GaussianRbf.Basis` | cpp-rbf/rbf.hpp:96-126 | Fails with `invalid_argument` ("x and centroids must have same dimensions!") exactly when the input width differs from the centroid width. Otherwise it gives one entry per centroid, each in (0, 1]. The entries sum to 1, and each is that centroid's Gaussian response divided by the total response. |
| `GaussianRbf.BasisIgnoresWeights` | cpp-rbf/rbf.hpp:113-123 | The basis depends only on the centroids and `gamma`, never on the weights. |
| `GaussianRbf.Predict` | cpp-rbf/rbf.hpp:71-94 | Fails with `invalid_argument` exactly when `X` has the wrong number of columns, including when `X` has no rows. Otherwise it gives one prediction per row of `X`, and prediction `i` is the weights dotted with the basis of row `i`. |
| `GaussianRbf.DesignMatrix` | cpp-rbf/rbf.hpp:52-64 | The design matrix has one row per input row and one column per centroid. Row `i` is exactly the (successful) basis of input row `i`. |
| `GaussianRbf.Fit` | cpp-rbf/rbf.hpp:47-70 | Fails with the `basis` error exactly when `X` has at least one row of the wrong width; an `X` with no rows never fails. On success the weights become the solver's answer for the design matrix and `y`. The centroids, `gamma`, `dim` and `nbasis` are unchanged, and the model's field agreement is preserved. |
| `GaussianRbf.FitForgetsWeights` | cpp-rbf/rbf.hpp:66-68 | The weights held before `fit` have no influence on its outcome. |
| `GaussianRbf.FitIdempotent` | cpp-rbf/rbf.hpp:47-70 | Fitting twice to the same data gives the same model as fitting once. |
| `GaussianRbf.FitThenPredictOnTrainingInputs` | cpp-rbf/rbf.hpp:47-94 | After fitting on `X` of the right width, `predict(X)` succeeds. Its prediction `i` is row `i` of the design matrix dotted with the solved weights, so the predictions on the training inputs are the design matrix applied to the weights. |
| `GaussianRbf.PredictFollowsRows` | cpp-rbf/rbf.hpp:76-91 | Predicting on any rearrangement of the rows of `X` (a permutation, a selection or repeats) rearranges the predictions the same way. Success does not depend on the rows. |
| `GaussianRbf.PredictWithinWeightRange` | cpp-rbf/rbf.hpp:83-90 | With at least one centroid, every prediction lies between the smallest and the largest weight. It is a weighted average of the weights, because the basis is non-negative and sums to 1. |
| `GaussianRbf.BasisOfOriginExample` | cpp-rbf/rbf.hpp:114-123 | Take centroids -1, 0 and 1, `gamma` 1 and `exp(0) = 1`. Then the basis of the input 0 is `[e, 1, e] / (1 + 2e)` with `e = exp(-1)`. |
| `Linalg.SqDist` | cpp-rbf/rbf.hpp:114-120 | The row sum of the squared differences `(x - c) % (x - c)` is never negative, and it is zero when `x` is the centroid. |
| `Linalg.Normalize` | cpp-rbf/rbf.hpp:123 | Dividing a positive vector by its sum keeps its length and gives entries in (0, 1]. The entries sum to 1 when the vector is non-empty, and each is the original entry over the original sum. |
| `Linalg.NormalizeIdempotent` | cpp-rbf/rbf.hpp:123 | Normalising an already normalised vector changes nothing. |
| `Linalg.WeightedAverageBounds` | cpp-rbf/rbf.hpp:89 | With non-negative weights `p` summing to 1 and values `w` in [lo, hi], the dot product `w . p` lies in [lo, hi]. |
| `Grid.Combinations` | examples/utils.hpp:103-116 | This is the code as written. It succeeds exactly when `|x1| <= 1`, `|x1| <= |x2|` or `x2` is empty; otherwise the bounds check fails at a row `>= |x1| * |x2|`. On success it has `|x1| * |x2|` rows. Its writes send pair `(i, j)` to row `i * |x1| + j` in loop order, and the rows are the result of replaying those writes. When `|x1| == |x2|` or `|x1| <= 1` the rows are the Cartesian grid. Empty inputs give an empty grid. |
| `Grid.CombinationsFixed` | examples/utils.hpp:103-116 | This is the code with the offset advanced by `|x2|`. It always has `|x1| * |x2|` rows, and they are exactly the Cartesian grid, in which row `i * |x2| + j` holds `(x1[i], x2[j])` (see `Grid.CartesianIndex`). |
| `Grid.CartesianIndex` | examples/utils.hpp:108-112 | In the reference grid (`x1` index outer, `x2` index inner), row `i * |x2| + j` exists and holds `(x1[i], x2[j])`. |
| `Grid.ReplayInOrder` | examples/utils.hpp:108-111 | When the `t`-th write goes to row `t`, the grid holds the written pairs in write order, followed by rows nobody wrote. |
| `Grid.RowMajorLogReplaysCartesian` | examples/utils.hpp:108-112 | Consider the nested loop's writes when the offset advances by `|x2|`. They stay in range, and replaying them gives exactly the Cartesian grid. |
| `Grid.WritesInBoundsIff` | examples/utils.hpp:105-113 | Every write of the code as written stays below `|x1| * |x2|` if and only if `|x1| <= 1`, `|x1| <= |x2|` or `x2` is empty. |
| `Grid.ScheduleWritesEachRowOnceIff` | examples/utils.hpp:107-113 | The code as written fills each row exactly once (in range, no row twice, no row missed) if and only if `|x1| == |x2|`, `|x1| <= 1` or `x2` is empty. |
| `Grid.OffsetBugRepeatsRow` | examples/utils.hpp:113 | With `|x1| = 2` and `|x2| = 3`, pairs `(0, 2)` and `(1, 0)` are both written to row 2. |
| `Grid.OffsetBugSkipsRow` | examples/utils.hpp:113 | With `|x1| = 2` and `|x2| = 3`, row 5 of the 6-row grid is never written. |
| `Grid.OffsetBugTall` | examples/utils.hpp:110-113 | With `|x1| = 3` and `|x2| = 2`, pair `(2, 0)` goes to row 6 of a 6-row grid, past the end. |

## Left out

- The exponential is any positive function. Floating-point rounding, underflow
  of `exp` to 0 and the resulting division by a zero sum are not modelled.
  Arithmetic is over mathematical reals.
- Armadillo's `solve` is a parameter, and only its result length is assumed.
  Its least-squares behaviour is not modelled. Neither are its failures: it
  throws when `y` has the wrong number of rows or no solution is found.
- `uniform(-1.0, 1.0, n)` draws random numbers. The draws are the parameter
  `randu`, and the model computes `-1 + 2 * randu(i)`.
- The `domain` field and the commented-out clamping of `x` to the domain in
  `basis` are not modelled. The field is never read by live code.
- The public fields can be changed by callers. `GaussianRbf.Predict` requires
  one weight per centroid, the agreement the constructor and `fit` keep, and
  does not model a mismatched weight vector.
- `combinations` allocates its rows uninitialised. A row the loop never writes
  is `Unwritten` rather than some unspecified value.
- Armadillo bounds-checks `grid(j + k, 0)` and throws out of range. This is the
  `IndexOutOfBounds` error. A build without bounds checks would write out of
  bounds instead, which is not modelled.
- `combinations`' doc comment promises `(x1.size() + x2.size())` rows. The code
  allocates `x1.size() * x2.size()` rows, and the model follows the code.
- The random test-data generators `uniform`, `create_test_data_2d` and
  `create_test_data_3d` in examples/utils.hpp are not modelled, because they
  depend on random number generation.
- The plotting helpers `plot_2d` and `plot3d` write a Python script and run
  it, and the `main` of `testrbf.cpp` is commented out. Both are I/O and not
  modelled.
- Optional normalisation and constant-term switches, and errors for shape
  mismatch, solver failure or a degenerate basis, do not exist in this version
  of the code. They are not modelled.
- Grid.Combinations: the C++ loop counters `i`, `j`, `k` and the row index
  `j + k` are 32-bit `int`s, but the model uses unbounded integers. Once
  `(|x1| - 1) * |x1| + |x2| - 1` exceeds 2^31 - 1 (for example
  `|x1| = |x2| = 46341`), `j + k` overflows. That is undefined behaviour in
  C++, and in practice it wraps to a negative index that the bounds check
  rejects. The contract instead promises success for such sizes.
  `Grid.CombinationsFixed` likewise assumes `(|x1| - 1) * |x2| + |x2| - 1`
  fits in an `int`.
- GaussianRbf.Fit: the row counter `int i` of the loop in `fit` is compared
  against `X.n_rows`. With more than 2^31 - 1 rows it overflows; the model does
  not bound the row count.
- GaussianRbf.Predict: the same holds for the `int i` row counter of `predict`.

## Findings

| source | as written | input that shows it | evidently intended | confidence | as-written member | corrected member |
|---|---|---|---|---|---|---|
| examples/utils.hpp:113 | `k += x1.size();` advances the row offset by the length of `x1`. | With `x1` of length 2 and `x2` of length 3, row 2 is written twice and row 5 never. With `x1` of length 3 and `x2` of length 2, the last write goes to row 6 of a 6-row matrix. | `k += x2.size();`, so that pair `(i, j)` lands in row `i * x2.size() + j` and every row is written once. | high; not executed | `Grid.Combinations` (with `Grid.OffsetBugRepeatsRow`, `Grid.OffsetBugSkipsRow`, `Grid.OffsetBugTall`, `Grid.ScheduleWritesEachRowOnceIff`) | `Grid.CombinationsFixed` |
