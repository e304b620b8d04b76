/** The grid builder `combinations(x1, x2)` of examples/utils.hpp, which is
    meant to lay out all pairs `(x1[i], x2[j])` as the rows of an n-by-2
    matrix, `x1` index outer and `x2` index inner. As written it does so only
    when `|x1| == |x2|`, `|x1| <= 1` or an input is empty.

    The code as written advances its row offset `k` by `|x1|` per outer
    iteration where the row-major layout needs `|x2|`. `Combinations` models
    that code, bounds-checked writes included; `CombinationsFixed` is the
    intended grid. A row of the grid is a `Cell`: the pair written there, or
    `Unwritten` for a row the loop never reaches (whatever the allocation
    left in it). */
module Grid {
  import opened Results

  datatype Cell = Unwritten | Pair(first: real, second: real)

  /** One row write `grid(row, 0) = first; grid(row, 1) = second`. */
  datatype Write = Write(row: nat, cell: Cell)

  /** The grid the loop leaves behind, with the writes it performed in order.
      The C++ function returns only the grid; the write log is kept so that
      contracts can say which row each pair went to. */
  datatype Written = Written(rows: seq<Cell>, log: seq<Write>)

  /** Row `i * width + j`: the row-major position of pair `(i, j)` when each
      outer step advances by `width` rows. */
  function Idx(width: nat, i: nat, j: nat): nat
  {
    i * width + j
  }

  /** The sizes for which every write of the code as written lands inside the
      `|x1| * |x2|` rows. */
  predicate WithinBounds(a: nat, b: nat)
  {
    a <= 1 || a <= b || b == 0
  }

  /** The pairs `(v, x2[j])` in order of `j`. */
  function RowOf(v: real, x2: seq<real>): seq<Cell>
  {
    seq(|x2|, j requires 0 <= j < |x2| => Pair(v, x2[j]))
  }

  /** The intended grid: all pairs, `x1` index outer, `x2` index inner;
      `|x1| * |x2|` rows. */
  function Cartesian(x1: seq<real>, x2: seq<real>): (g: seq<Cell>)
    ensures |g| == |x1| * |x2|
  {
    if |x1| == 0 then []
    else
      var rest := Cartesian(x1[1..], x2);
      assert |x1| * |x2| == |x2| + (|x1| - 1) * |x2|;
      RowOf(x1[0], x2) + rest
  }

  /** Row `i * |x2| + j` of the intended grid holds `(x1[i], x2[j])`. */
  lemma {:induction false} CartesianAt(x1: seq<real>, x2: seq<real>, i: nat, j: nat)
    requires i < |x1| && j < |x2|
    ensures Idx(|x2|, i, j) < |Cartesian(x1, x2)|
    ensures Cartesian(x1, x2)[Idx(|x2|, i, j)] == Pair(x1[i], x2[j])
    decreases i
  {
    IdxBelow(|x2|, |x1|, i, j);
    if i > 0 {
      CartesianAt(x1[1..], x2, i - 1, j);
      assert Idx(|x2|, i, j) == |x2| + Idx(|x2|, i - 1, j);
      assert x1[1..][i - 1] == x1[i];
    }
  }

  /** All rows of the intended grid at once. */
  lemma CartesianIndex(x1: seq<real>, x2: seq<real>)
    ensures forall i, j :: 0 <= i < |x1| && 0 <= j < |x2| ==>
              Idx(|x2|, i, j) < |Cartesian(x1, x2)|
              && Cartesian(x1, x2)[Idx(|x2|, i, j)] == Pair(x1[i], x2[j])
  {
    forall i, j | 0 <= i < |x1| && 0 <= j < |x2|
      ensures Idx(|x2|, i, j) < |Cartesian(x1, x2)|
              && Cartesian(x1, x2)[Idx(|x2|, i, j)] == Pair(x1[i], x2[j])
    {
      CartesianAt(x1, x2, i, j);
    }
  }

  /** Every write of `log` names a row below `n`. */
  predicate RowsBelow(n: nat, log: seq<Write>)
  {
    forall t :: 0 <= t < |log| ==> log[t].row < n
  }

  /** The `n` rows after performing the writes of `log` in order, starting
      from rows nobody has written. */
  function Replay(n: nat, log: seq<Write>): (g: seq<Cell>)
    requires RowsBelow(n, log)
    ensures |g| == n
  {
    if |log| == 0 then seq(n, _ => Unwritten)
    else Replay(n, log[..|log| - 1])[log[|log| - 1].row := log[|log| - 1].cell]
  }

  /** When the `t`-th write goes to row `t`, replaying the writes yields them
      in order, followed by rows nobody wrote. */
  lemma {:induction false} ReplayInOrder(n: nat, log: seq<Write>)
    requires |log| <= n
    requires forall t :: 0 <= t < |log| ==> log[t].row == t
    ensures RowsBelow(n, log)
    ensures forall p :: 0 <= p < n ==>
              Replay(n, log)[p] == if p < |log| then log[p].cell else Unwritten
  {
    if |log| > 0 {
      ReplayInOrder(n, log[..|log| - 1]);
    }
  }

  /** `log` performs the writes of the nested loop in order: the write
      numbered `i * |x2| + j` stores `(x1[i], x2[j])` in row
      `i * width + j`. */
  ghost predicate Schedule(x1: seq<real>, x2: seq<real>, log: seq<Write>, width: nat)
  {
    |log| == |x1| * |x2|
    && forall i, j :: 0 <= i < |x1| && 0 <= j < |x2| ==>
         Idx(|x2|, i, j) < |log|
         && log[Idx(|x2|, i, j)] == Write(Idx(width, i, j), Pair(x1[i], x2[j]))
  }

  /** The writes of the nested loop for all pairs before `(i, j)` in
      `x1`-outer, `x2`-inner order are in `log`. */
  ghost predicate LoggedBefore(x1: seq<real>, x2: seq<real>, log: seq<Write>, width: nat, i: nat, j: nat)
  {
    forall i', j' :: 0 <= i' < |x1| && 0 <= j' < |x2| && (i' < i || (i' == i && j' < j)) ==>
      Idx(|x2|, i', j') < |log|
      && log[Idx(|x2|, i', j')] == Write(Idx(width, i', j'), Pair(x1[i'], x2[j']))
  }

  /** A write log in row-major order whose `t`-th write goes to row `t`
      replays to the intended grid. */
  lemma RowMajorLogReplaysCartesian(x1: seq<real>, x2: seq<real>, log: seq<Write>)
    requires Schedule(x1, x2, log, |x2|)
    ensures RowsBelow(|x1| * |x2|, log)
    ensures Replay(|x1| * |x2|, log) == Cartesian(x1, x2)
  {
    var n := |x1| * |x2|;
    CartesianIndex(x1, x2);
    forall t | 0 <= t < |log|
      ensures log[t] == Write(t, Cartesian(x1, x2)[t])
    {
      Split(|x2|, |x1|, t);
    }
    ReplayInOrder(n, log);
  }

  /** `combinations(x1, x2)` as written: `n = |x1| * |x2|` rows; in outer
      iteration `i` the offset `k` is `i * |x1|` and the inner loop writes
      `(x1[i], x2[j])` to row `j + k`. Armadillo's bounds check throws on the
      first write at or past row `n`, which happens exactly when the sizes
      are not `WithinBounds`. The result is the intended grid when
      `|x1| == |x2|` (the case `plot3d` relies on) or `|x1| <= 1`. */
  method Combinations(x1: seq<real>, x2: seq<real>) returns (r: Result<Written>)
    ensures r.Ok? <==> WithinBounds(|x1|, |x2|)
    ensures r.Err? ==> r.error.IndexOutOfBounds? && r.error.index >= |x1| * |x2|
    ensures r.Ok? ==> |r.value.rows| == |x1| * |x2|
    ensures r.Ok? ==> Schedule(x1, x2, r.value.log, |x1|)
    ensures r.Ok? ==> RowsBelow(|x1| * |x2|, r.value.log)
                      && r.value.rows == Replay(|x1| * |x2|, r.value.log)
    ensures |x1| == |x2| || |x1| <= 1 ==> r.Ok? && r.value.rows == Cartesian(x1, x2)
    ensures |x1| == 0 || |x2| == 0 ==> r.Ok? && r.value.rows == [] && r.value.log == []
  {
    var a, b := |x1|, |x2|;
    var n := a * b;
    var grid := new Cell[n](_ => Unwritten);
    var log: seq<Write> := [];
    var k := 0;
    var i := 0;
    while i < a
      invariant 0 <= i <= a
      invariant k == i * a
      invariant |log| == i * b
      invariant RowsBelow(n, log)
      invariant LoggedBefore(x1, x2, log, a, i, 0)
      invariant grid[..] == Replay(n, log)
    {
      var j := 0;
      while j < b
        invariant 0 <= j <= b
        invariant |log| == i * b + j
        invariant RowsBelow(n, log)
        invariant LoggedBefore(x1, x2, log, a, i, j)
        invariant grid[..] == Replay(n, log)
      {
        AsWrittenInBounds(a, b, i, j);
        if j + k >= n {
          return Err(IndexOutOfBounds(j + k));
        }
        LogStep(x1, x2, log, a, i, j, n);
        ghost var before := grid[..];
        grid[j + k] := Pair(x1[i], x2[j]);
        assert grid[..] == before[j + k := Pair(x1[i], x2[j])];
        log := log + [Write(j + k, Pair(x1[i], x2[j]))];
        j := j + 1;
      }
      NextOuter(x1, x2, log, a, i);
      k := k + a;
      i := i + 1;
    }
    AsWrittenComplete(x1, x2, log);
    r := Ok(Written(grid[..], log));
  }

  /** One inner-loop write preserves the loop's bookkeeping. */
  lemma LogStep(x1: seq<real>, x2: seq<real>, log: seq<Write>, width: nat, i: nat, j: nat, n: nat)
    requires i < |x1| && j < |x2| && |log| == i * |x2| + j
    requires Idx(width, i, j) < n
    requires RowsBelow(n, log) && LoggedBefore(x1, x2, log, width, i, j)
    ensures var log' := log + [Write(Idx(width, i, j), Pair(x1[i], x2[j]))];
            RowsBelow(n, log')
            && LoggedBefore(x1, x2, log', width, i, j + 1)
            && Replay(n, log') == Replay(n, log)[Idx(width, i, j) := Pair(x1[i], x2[j])]
  {
    var log' := log + [Write(Idx(width, i, j), Pair(x1[i], x2[j]))];
    assert log'[..|log|] == log;
    assert Idx(|x2|, i, j) == |log|;
  }

  /** Finishing the inner loop completes row `i` of the outer loop. */
  lemma NextOuter(x1: seq<real>, x2: seq<real>, log: seq<Write>, width: nat, i: nat)
    requires |log| == i * |x2| + |x2|
    requires LoggedBefore(x1, x2, log, width, i, |x2|)
    ensures |log| == (i + 1) * |x2| && (i + 1) * width == i * width + width
    ensures LoggedBefore(x1, x2, log, width, i + 1, 0)
  {
  }

  /** What the loop of the code as written has achieved when it runs to the
      end: the sizes were in bounds, the log is the full schedule, and for
      square or single-row inputs the rows are the intended grid. */
  lemma AsWrittenComplete(x1: seq<real>, x2: seq<real>, log: seq<Write>)
    requires |log| == |x1| * |x2|
    requires RowsBelow(|x1| * |x2|, log)
    requires LoggedBefore(x1, x2, log, |x1|, |x1|, 0)
    ensures WithinBounds(|x1|, |x2|)
    ensures Schedule(x1, x2, log, |x1|)
    ensures |x1| == |x2| || |x1| <= 1 ==> Replay(|x1| * |x2|, log) == Cartesian(x1, x2)
  {
    var a, b := |x1|, |x2|;
    if a >= 1 && b >= 1 {
      assert log[Idx(b, a - 1, 0)].row == Idx(a, a - 1, 0);
      LastRowFitsIff(a, b);
    }
    if a == b || a <= 1 {
      forall i', j' | 0 <= i' < a && 0 <= j' < b
        ensures Idx(a, i', j') == Idx(b, i', j')
      {
      }
      RowMajorLogReplaysCartesian(x1, x2, log);
    }
  }

  /** `combinations` as evidently intended, advancing `k` by `|x2|`: every
      write is in range, each row is written once, and the result is the
      Cartesian grid in `x1`-outer, `x2`-inner order (`CartesianIndex` says
      which pair each row holds). */
  method CombinationsFixed(x1: seq<real>, x2: seq<real>) returns (rows: seq<Cell>)
    ensures |rows| == |x1| * |x2|
    ensures rows == Cartesian(x1, x2)
  {
    var a, b := |x1|, |x2|;
    var n := a * b;
    var grid := new Cell[n](_ => Unwritten);
    ghost var log: seq<Write> := [];
    var k := 0;
    var i := 0;
    while i < a
      invariant 0 <= i <= a
      invariant k == i * b
      invariant |log| == i * b
      invariant RowsBelow(n, log)
      invariant LoggedBefore(x1, x2, log, b, i, 0)
      invariant grid[..] == Replay(n, log)
    {
      var j := 0;
      while j < b
        invariant 0 <= j <= b
        invariant |log| == i * b + j
        invariant RowsBelow(n, log)
        invariant LoggedBefore(x1, x2, log, b, i, j)
        invariant grid[..] == Replay(n, log)
      {
        IdxBelow(b, a, i, j);
        LogStep(x1, x2, log, b, i, j, n);
        ghost var before := grid[..];
        grid[j + k] := Pair(x1[i], x2[j]);
        assert grid[..] == before[j + k := Pair(x1[i], x2[j])];
        log := log + [Write(j + k, Pair(x1[i], x2[j]))];
        j := j + 1;
      }
      NextOuter(x1, x2, log, b, i);
      k := k + b;
      i := i + 1;
    }
    RowMajorLogReplaysCartesian(x1, x2, log);
    rows := grid[..];
  }

  /** Every write of the code as written stays below `|x1| * |x2|` exactly
      when the sizes are `WithinBounds`: `|x1| <= 1`, `|x1| <= |x2|`, or
      `x2` empty. */
  lemma WritesInBoundsIff(a: nat, b: nat)
    ensures (forall i, j :: 0 <= i < a && 0 <= j < b ==> Idx(a, i, j) < a * b)
            <==> WithinBounds(a, b)
  {
    forall i, j | 0 <= i < a && 0 <= j < b
      ensures WithinBounds(a, b) ==> Idx(a, i, j) < a * b
    {
      AsWrittenInBounds(a, b, i, j);
    }
    if a >= 1 && b >= 1 {
      LastRowFitsIff(a, b);
    }
  }

  /** The writes of the code as written, pair `(i, j)` to row
      `i * |x1| + j`, hit every row of the grid exactly once: they stay in
      range, no two pairs share a row, and every row gets a pair. */
  ghost predicate WritesEachRowOnce(a: nat, b: nat)
  {
    WritesInRange(a, b) && WritesDistinct(a, b) && WritesCover(a, b)
  }

  ghost predicate WritesInRange(a: nat, b: nat)
  {
    forall i, j :: 0 <= i < a && 0 <= j < b ==> Idx(a, i, j) < a * b
  }

  ghost predicate WritesDistinct(a: nat, b: nat)
  {
    forall i, j, i', j' ::
      (0 <= i < a && 0 <= j < b && 0 <= i' < a && 0 <= j' < b
       && Idx(a, i, j) == Idx(a, i', j')) ==> i == i' && j == j'
  }

  ghost predicate WritesCover(a: nat, b: nat)
  {
    forall p :: 0 <= p < a * b ==> IsWritten(a, b, p)
  }

  /** Some pair `(i, j)` of the code as written goes to row `p`. */
  ghost predicate IsWritten(a: nat, b: nat, p: nat)
  {
    exists i, j :: 0 <= i < a && 0 <= j < b && Idx(a, i, j) == p
  }

  /** The code as written fills each of its rows exactly once if and only if
      `|x1| == |x2|`, `|x1| <= 1` or `x2` is empty. Otherwise it either writes
      past the end (`|x1| > |x2|`) or writes row `|x1|` twice, as pair
      `(0, |x1|)` and as pair `(1, 0)`, leaving the last rows unwritten
      (`|x1| < |x2|`). */
  lemma ScheduleWritesEachRowOnceIff(a: nat, b: nat)
    ensures WritesEachRowOnce(a, b) <==> (a == b || a <= 1 || b == 0)
  {
    if a == b || a <= 1 || b == 0 {
      SquareScheduleInRange(a, b);
      SquareScheduleDistinct(a, b);
      SquareScheduleCovers(a, b);
    } else if a > b {
      LastRowFitsIff(a, b);
      assert Idx(a, a - 1, 0) >= a * b;
      assert !WritesInRange(a, b);
    } else {
      assert Idx(a, 0, a) == Idx(a, 1, 0);
      assert !WritesDistinct(a, b);
    }
  }

  lemma SquareScheduleInRange(a: nat, b: nat)
    requires a == b || a <= 1 || b == 0
    ensures WritesInRange(a, b)
  {
    forall i, j | 0 <= i < a && 0 <= j < b
      ensures Idx(a, i, j) < a * b
    {
      AsWrittenInBounds(a, b, i, j);
    }
  }

  lemma SquareScheduleDistinct(a: nat, b: nat)
    requires a == b || a <= 1 || b == 0
    ensures WritesDistinct(a, b)
  {
    forall i, j, i', j' |
        0 <= i < a && 0 <= j < b && 0 <= i' < a && 0 <= j' < b
        && Idx(a, i, j) == Idx(a, i', j')
      ensures i == i' && j == j'
    {
      if a == 1 {
        assert i == 0 && i' == 0;
      } else {
        IdxUnique(a, i, j, i', j');
      }
    }
  }

  lemma SquareScheduleCovers(a: nat, b: nat)
    requires a == b || a <= 1 || b == 0
    ensures WritesCover(a, b)
  {
    forall p | 0 <= p < a * b
      ensures IsWritten(a, b, p)
    {
      if a == 1 {
        assert Idx(a, 0, p) == p;
      } else {
        Split(a, a, p);
        assert Idx(a, p / a, p % a) == p;
      }
    }
  }

  /** The smallest sizes that show the offset bug when `x2` is longer: with
      two values for `x1` and three for `x2`, row 2 is written twice, as
      pairs `(0, 2)` and `(1, 0)`... */
  lemma OffsetBugRepeatsRow()
    ensures Idx(2, 0, 2) == Idx(2, 1, 0) == 2
    ensures !WritesDistinct(2, 3)
  {
    assert Idx(2, 0, 2) == Idx(2, 1, 0);
  }

  /** ...and row 5 of the 6-row grid is never written. */
  lemma OffsetBugSkipsRow()
    ensures !IsWritten(2, 3, 5)
  {
    forall i, j | 0 <= i < 2 && 0 <= j < 3
      ensures Idx(2, i, j) != 5
    {
      assert i == 0 || i == 1;
    }
  }

  /** The smallest sizes that show the offset bug when `x1` is longer: with
      three values for `x1` and two for `x2`, pair `(2, 0)` is written to
      row 6 of a 6-row grid. */
  lemma OffsetBugTall()
    ensures Idx(3, 2, 0) == 6 == 3 * 2
    ensures !WritesInRange(3, 2) && !WithinBounds(3, 2)
  {
    assert Idx(3, 2, 0) == 6;
  }

  // Arithmetic facts about row indices.

  lemma MulLe(x: int, y: int, w: int)
    requires 0 <= x <= y && 0 <= w
    ensures x * w <= y * w
  {
  }

  /** Row-major positions of an `h`-by-`w` grid are below `h * w`. */
  lemma IdxBelow(w: nat, h: nat, i: nat, j: nat)
    requires i < h && j < w
    ensures Idx(w, i, j) < h * w
  {
    MulLe(i + 1, h, w);
  }

  /** When the sizes are `WithinBounds`, the write of pair `(i, j)` by the
      code as written lands inside the grid. */
  lemma AsWrittenInBounds(a: nat, b: nat, i: nat, j: nat)
    requires i < a && j < b
    ensures WithinBounds(a, b) ==> Idx(a, i, j) < a * b
  {
    if a <= b {
      MulLe(a, b, i);
      IdxBelow(b, a, i, j);
    }
  }

  /** For non-empty inputs, the last outer iteration's first write, row
      `(|x1| - 1) * |x1|`, fits exactly when the sizes are `WithinBounds`. */
  lemma LastRowFitsIff(a: nat, b: nat)
    requires a >= 1 && b >= 1
    ensures Idx(a, a - 1, 0) < a * b <==> WithinBounds(a, b)
  {
    if a <= b {
      MulLe(a - 1, b - 1, a);
    } else {
      MulLe(b, a - 1, a);
    }
  }

  /** Distinct pairs have distinct row-major positions. */
  lemma IdxUnique(w: nat, i: nat, j: nat, i': nat, j': nat)
    requires j < w && j' < w
    requires Idx(w, i, j) == Idx(w, i', j')
    ensures i == i' && j == j'
  {
    if i < i' {
      MulLe(i + 1, i', w);
    } else if i' < i {
      MulLe(i' + 1, i, w);
    }
  }

  /** Every position below `h * w` is the row-major position of a pair. */
  lemma Split(w: nat, h: nat, p: nat)
    requires p < h * w
    ensures w > 0 && p / w < h && p % w < w && Idx(w, p / w, p % w) == p
  {
    if h <= p / w {
      MulLe(h, p / w, w);
    }
  }
}
