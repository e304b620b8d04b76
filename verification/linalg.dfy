/** The slice of Armadillo's dense linear algebra that the approximator uses:
    matrices with a fixed column count, sums, dot products, squared distances
    and division of a vector by its own sum. Numbers are mathematical reals;
    floating-point rounding is not modelled. */
module Linalg {

  /** A dense matrix stored row by row. The column count is kept separately so
      that a matrix with no rows still has a width, as Armadillo's `n_cols`. */
  datatype Matrix = Matrix(nCols: nat, rows: seq<seq<real>>)

  /** Every row has exactly `nCols` entries. */
  predicate Rectangular(m: Matrix)
  {
    forall i :: 0 <= i < |m.rows| ==> |m.rows[i]| == m.nCols
  }

  /** The well-formed matrices: the only kind Armadillo can hold. */
  type Mat = m: Matrix | Rectangular(m) witness Matrix(0, [])

  /** Sum of the entries (Armadillo's `sum` of a vector). */
  function Sum(s: seq<real>): real
  {
    if |s| == 0 then 0.0 else s[0] + Sum(s[1..])
  }

  /** Inner product of two vectors of equal length (`u.t() * v`). */
  function Dot(u: seq<real>, v: seq<real>): real
    requires |u| == |v|
  {
    if |u| == 0 then 0.0 else u[0] * v[0] + Dot(u[1..], v[1..])
  }

  /** The square of one coordinate difference. */
  function Square(e: real): real
  {
    e * e
  }

  /** Squared Euclidean distance, the row sum of `(x - c) % (x - c)`.
      It is never negative and is zero at the point itself. */
  function SqDist(x: seq<real>, c: seq<real>): (d: real)
    requires |x| == |c|
    ensures d >= 0.0
    ensures x == c ==> d == 0.0
  {
    if |x| == 0 then 0.0
    else
      SquareNonNegative(x[0] - c[0]);
      Square(x[0] - c[0]) + SqDist(x[1..], c[1..])
  }

  lemma SquareNonNegative(e: real)
    ensures Square(e) >= 0.0
  {
    if e < 0.0 {
      assert e * e == (-e) * (-e);
    }
  }

  /** A non-empty sum of positive entries is positive. */
  lemma {:induction false} SumPositive(s: seq<real>)
    requires forall i :: 0 <= i < |s| ==> s[i] > 0.0
    ensures |s| > 0 ==> Sum(s) > 0.0
  {
    if |s| > 0 {
      SumPositive(s[1..]);
    }
  }

  /** Each entry of a vector of non-negative entries is at most its sum. */
  lemma {:induction false} EntryAtMostSum(s: seq<real>, k: nat)
    requires forall i :: 0 <= i < |s| ==> s[i] >= 0.0
    requires k < |s|
    ensures s[k] <= Sum(s)
  {
    NonNegativeSum(s[1..]);
    if k > 0 {
      EntryAtMostSum(s[1..], k - 1);
    }
  }

  /** A sum of entries none of which is negative is itself not negative. */
  lemma {:induction false} NonNegativeSum(s: seq<real>)
    requires forall i :: 0 <= i < |s| ==> s[i] >= 0.0
    ensures Sum(s) >= 0.0
  {
    if |s| > 0 {
      NonNegativeSum(s[1..]);
    }
  }

  /** Every entry divided by `c`: Armadillo's `v / c`. */
  function DivideAll(s: seq<real>, c: real): (r: seq<real>)
    requires c != 0.0
    ensures |r| == |s|
    ensures forall i :: 0 <= i < |r| ==> r[i] * c == s[i]
  {
    seq(|s|, i requires 0 <= i < |s| => s[i] / c)
  }

  /** Dividing every entry by `c` divides the sum by `c`. */
  lemma {:induction false} SumDivideAll(s: seq<real>, c: real)
    requires c != 0.0
    ensures Sum(DivideAll(s, c)) * c == Sum(s)
  {
    if |s| > 0 {
      var r := DivideAll(s, c);
      assert r[1..] == DivideAll(s[1..], c);
      SumDivideAll(s[1..], c);
      assert Sum(r) == r[0] + Sum(r[1..]);
      assert Sum(r) * c == r[0] * c + Sum(r[1..]) * c;
    }
  }

  /** Division of a vector of positive entries by its own sum
      (`phi = phi / sum(phi)`). The result keeps every entry's share of the
      total: entries lie in (0, 1], sum to 1, and are the inputs scaled by one
      common positive factor. An empty vector stays empty. */
  function Normalize(s: seq<real>): (r: seq<real>)
    requires forall i :: 0 <= i < |s| ==> s[i] > 0.0
    ensures |r| == |s|
    ensures forall i :: 0 <= i < |r| ==> 0.0 < r[i] <= 1.0
    ensures |s| > 0 ==> Sum(s) > 0.0 && Sum(r) == 1.0
    ensures forall i :: 0 <= i < |r| ==> r[i] == s[i] / Sum(s)
  {
    if |s| == 0 then []
    else
      SumPositive(s);
      SharesOfTotal(s);
      DivideAll(s, Sum(s))
  }

  /** The shares `s[i] / Sum(s)` of a non-empty positive vector lie in (0, 1]
      and add up to 1. */
  lemma SharesOfTotal(s: seq<real>)
    requires forall i :: 0 <= i < |s| ==> s[i] > 0.0
    requires |s| > 0
    ensures Sum(s) > 0.0
    ensures forall i :: 0 <= i < |s| ==> 0.0 < DivideAll(s, Sum(s))[i] <= 1.0
    ensures Sum(DivideAll(s, Sum(s))) == 1.0
  {
    SumPositive(s);
    var total := Sum(s);
    var r := DivideAll(s, total);
    SharesInUnitInterval(s, total, r);
    SumDivideAll(s, total);
    UnitFactor(Sum(r), total);
  }

  lemma SharesInUnitInterval(s: seq<real>, total: real, r: seq<real>)
    requires forall i :: 0 <= i < |s| ==> s[i] > 0.0
    requires total == Sum(s) && total != 0.0
    requires |r| == |s| && forall i :: 0 <= i < |r| ==> r[i] * total == s[i]
    ensures forall i :: 0 <= i < |r| ==> 0.0 < r[i] <= 1.0
  {
    forall i | 0 <= i < |r|
      ensures 0.0 < r[i] <= 1.0
    {
      EntryAtMostSum(s, i);
      ShareInUnitInterval(s[i], total, r[i]);
    }
  }

  lemma UnitFactor(a: real, c: real)
    requires c != 0.0 && a * c == c
    ensures a == 1.0
  {
    assert (a - 1.0) * c == 0.0;
  }

  lemma ShareInUnitInterval(part: real, total: real, share: real)
    requires 0.0 < part <= total
    requires share * total == part
    ensures 0.0 < share <= 1.0
  {
  }

  /** Normalising an already normalised vector changes nothing. */
  lemma NormalizeIdempotent(s: seq<real>)
    requires forall i :: 0 <= i < |s| ==> s[i] > 0.0
    ensures Normalize(Normalize(s)) == Normalize(s)
  {
    var r := Normalize(s);
    var rr := Normalize(r);
    if |s| > 0 {
      forall i | 0 <= i < |r|
        ensures rr[i] == r[i]
      {
        assert rr[i] * 1.0 == r[i];
      }
    }
  }

  /** A vector of `n` copies of `c`. */
  function Constant(c: real, n: nat): (v: seq<real>)
    ensures |v| == n
  {
    seq(n, _ => c)
  }

  /** Weighting the constant `c` gives `c` times the total weight. */
  lemma {:induction false} DotConstant(c: real, p: seq<real>)
    ensures Dot(Constant(c, |p|), p) == c * Sum(p)
  {
    if |p| > 0 {
      var v := Constant(c, |p|);
      assert v[1..] == Constant(c, |p| - 1);
      DotConstant(c, p[1..]);
      Distribute(c, p[0], Sum(p[1..]), Sum(p));
    }
  }

  lemma Distribute(c: real, x: real, y: real, s: real)
    requires s == x + y
    ensures c * x + c * y == c * s
  {
  }

  /** With non-negative weights, a weighted sum grows with the values. */
  lemma {:induction false} DotMonotone(u: seq<real>, v: seq<real>, p: seq<real>)
    requires |u| == |v| == |p|
    requires forall i :: 0 <= i < |p| ==> p[i] >= 0.0
    requires forall i :: 0 <= i < |u| ==> u[i] <= v[i]
    ensures Dot(u, p) <= Dot(v, p)
  {
    if |u| > 0 {
      DotMonotone(u[1..], v[1..], p[1..]);
      ProductNonNegative(v[0] - u[0], p[0]);
      assert (v[0] - u[0]) * p[0] == v[0] * p[0] - u[0] * p[0];
    }
  }

  /** A weighted sum whose weights are non-negative lies between the smallest
      and largest value times the total weight. */
  lemma DotBounds(w: seq<real>, p: seq<real>, lo: real, hi: real)
    requires |w| == |p|
    requires forall i :: 0 <= i < |p| ==> p[i] >= 0.0
    requires forall i :: 0 <= i < |w| ==> lo <= w[i] <= hi
    ensures lo * Sum(p) <= Dot(w, p) <= hi * Sum(p)
  {
    DotMonotone(Constant(lo, |p|), w, p);
    DotMonotone(w, Constant(hi, |p|), p);
    DotConstant(lo, p);
    DotConstant(hi, p);
  }

  /** A weighted average: with non-negative weights summing to one, the
      weighted sum of values in [lo, hi] stays in [lo, hi]. */
  lemma WeightedAverageBounds(w: seq<real>, p: seq<real>, lo: real, hi: real)
    requires |w| == |p|
    requires forall i :: 0 <= i < |p| ==> p[i] >= 0.0
    requires Sum(p) == 1.0
    requires forall i :: 0 <= i < |w| ==> lo <= w[i] <= hi
    ensures lo <= Dot(w, p) <= hi
  {
    DotBounds(w, p, lo, hi);
    var t := Sum(p);
    assert lo * t == lo;
    assert hi * t == hi;
  }

  lemma ProductNonNegative(a: real, b: real)
    requires a >= 0.0 && b >= 0.0
    ensures a * b >= 0.0
  {
  }
}
