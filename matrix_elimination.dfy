/** Gaussian elimination with partial pivoting on an augmented system
    [A | b] of n equations in n unknowns: the pivot search, the elimination
    below a pivot and the back-substitution of `SolveSystem`, each with the
    facts that let the solver prove that what it returns solves A x = b. */
module GaussElimination {
  import opened Results
  import opened MatrixGrid

  /** Row i of `a` followed by b[i]: the working copy the solver eliminates on. */
  function Augment(a: Grid, b: seq<real>): Grid
    requires |b| == |a|
  {
    seq(|a|, i requires 0 <= i < |a| => a[i] + [b[i]])
  }

  /** The vector A x, for an A whose rows have n cells. */
  function MatVec(a: Grid, x: seq<real>, n: nat): seq<real>
    requires IsShape(a, |a|, n) && |x| == n
  {
    seq(|a|, i requires 0 <= i < |a| => Dot(a[i], x, 0, n))
  }

  /** x satisfies every equation of the augmented system `aug` in n unknowns. */
  predicate Solves(aug: Grid, x: seq<real>, n: nat) {
    && |x| == n
    && IsShape(aug, |aug|, n + 1)
    && forall r :: 0 <= r < |aug| ==> Dot(aug[r], x, 0, n) == aug[r][n]
  }

  /** Every cell left of the diagonal in columns 0 .. i-1 is zero. */
  predicate ZeroBelow(aug: Grid, i: nat, n: nat)
    requires IsShape(aug, n, n + 1)
  {
    forall r, c :: 0 <= c < i && c < r < n ==> aug[r][c] == 0.0
  }

  function SwapRows(g: Grid, i: nat, j: nat): (s: Grid)
    requires i < |g| && j < |g|
    ensures |s| == |g| && s[i] == g[j] && s[j] == g[i]
    ensures forall r :: 0 <= r < |g| && r != i && r != j ==> s[r] == g[r]
  {
    g[i := g[j]][j := g[i]]
  }

  /** u - f v, cell by cell. */
  function Axpy(u: seq<real>, f: real, v: seq<real>): (w: seq<real>)
    requires |u| == |v|
    ensures |w| == |u|
  {
    seq(|u|, c requires 0 <= c < |u| => u[c] - f * v[c])
  }

  // ---------------------------------------------------------------------------
  // Facts about dot products

  /** A dot product reads only the cells in [lo, hi). */
  lemma {:induction false} DotAgree(u: seq<real>, u': seq<real>, v: seq<real>, v': seq<real>, lo: nat, hi: nat)
    requires hi <= |u| && hi <= |u'| && hi <= |v| && hi <= |v'|
    requires forall c :: lo <= c < hi ==> u[c] == u'[c] && v[c] == v'[c]
    ensures Dot(u, v, lo, hi) == Dot(u', v', lo, hi)
  {
    if hi > lo {
      DotAgree(u, u', v, v', lo, hi - 1);
    }
  }

  lemma {:induction false} DotSplit(u: seq<real>, v: seq<real>, lo: nat, mid: nat, hi: nat)
    requires lo <= mid <= hi <= |u| && hi <= |v|
    ensures Dot(u, v, lo, hi) == Dot(u, v, lo, mid) + Dot(u, v, mid, hi)
  {
    if hi > mid {
      DotSplit(u, v, lo, mid, hi - 1);
    }
  }

  lemma {:induction false} DotZeroRow(u: seq<real>, v: seq<real>, lo: nat, hi: nat)
    requires hi <= |u| && hi <= |v|
    requires forall c :: lo <= c < hi ==> u[c] == 0.0
    ensures Dot(u, v, lo, hi) == 0.0
  {
    if hi > lo {
      DotZeroRow(u, v, lo, hi - 1);
    }
  }

  /** Dot products are linear in their left argument. */
  lemma {:induction false} DotAxpy(u: seq<real>, f: real, v: seq<real>, x: seq<real>, hi: nat)
    requires |u| == |v| && hi <= |u| && hi <= |x|
    ensures Dot(Axpy(u, f, v), x, 0, hi) == Dot(u, x, 0, hi) - f * Dot(v, x, 0, hi)
  {
    if hi > 0 {
      DotAxpy(u, f, v, x, hi - 1);
      var w := Axpy(u, f, v);
      assert w[hi - 1] * x[hi - 1] == u[hi - 1] * x[hi - 1] - f * (v[hi - 1] * x[hi - 1]);
    }
  }

  /** Changing x at a column where u is zero does not change u . x. */
  lemma DotIgnoresZeroColumn(u: seq<real>, x: seq<real>, k: nat, e: real, lo: nat, hi: nat)
    requires hi <= |u| && hi <= |x| && k < |x| && (k < hi ==> u[k] == 0.0)
    ensures Dot(u, x[k := e], lo, hi) == Dot(u, x, lo, hi)
  {
    DotMasked(u, x, x[k := e], k, lo, hi);
  }

  lemma {:induction false} DotMasked(u: seq<real>, x: seq<real>, y: seq<real>, k: nat, lo: nat, hi: nat)
    requires hi <= |u| && hi <= |x| && hi <= |y|
    requires forall c :: lo <= c < hi && c != k ==> x[c] == y[c]
    requires k < hi ==> u[k] == 0.0
    ensures Dot(u, y, lo, hi) == Dot(u, x, lo, hi)
  {
    if hi > lo {
      DotMasked(u, x, y, k, lo, hi - 1);
    }
  }

  // ---------------------------------------------------------------------------
  // The solver's steps keep every solution of the current system a solution of the original

  /** [A | b] is solved by x exactly when A x = b. */
  lemma AugmentSolves(a: Grid, b: seq<real>, x: seq<real>, n: nat)
    requires IsShape(a, |a|, n) && |b| == |a| && |x| == n
    ensures Solves(Augment(a, b), x, n) <==> MatVec(a, x, n) == b
  {
    var aug := Augment(a, b);
    forall r | 0 <= r < |a| ensures Dot(aug[r], x, 0, n) == Dot(a[r], x, 0, n) && aug[r][n] == b[r] {
      DotAgree(aug[r], a[r], x, x, 0, n);
    }
    if MatVec(a, x, n) == b {
      forall r | 0 <= r < |a| ensures Dot(aug[r], x, 0, n) == aug[r][n] {
        assert MatVec(a, x, n)[r] == b[r];
      }
    }
  }

  lemma SwapKeepsSolutions(aug: Grid, i: nat, j: nat, x: seq<real>, n: nat)
    requires i < |aug| && j < |aug|
    requires Solves(SwapRows(aug, i, j), x, n)
    ensures Solves(aug, x, n)
  {
    var s := SwapRows(aug, i, j);
    forall r | 0 <= r < |aug| ensures |aug[r]| == n + 1 && Dot(aug[r], x, 0, n) == aug[r][n] {
      var r' := if r == i then j else if r == j then i else r;
      assert s[r'] == aug[r];
    }
  }

  lemma SwapKeepsZeroBelow(aug: Grid, i: nat, p: nat, n: nat)
    requires IsShape(aug, n, n + 1) && i <= p < n && ZeroBelow(aug, i, n)
    ensures IsShape(SwapRows(aug, i, p), n, n + 1) && ZeroBelow(SwapRows(aug, i, p), i, n)
  {
  }

  /** x - (x / d) d = 0: the pivot cancels the cell below it. */
  lemma CancelPivot(x: real, d: real)
    requires d != 0.0
    ensures x - (x / d) * d == 0.0
  {
  }

  /** Rows below the pivot row i become row r - (aug[r][i] / aug[i][i]) row i. */
  predicate EliminatedBelow(aug: Grid, res: Grid, i: nat, n: nat)
    requires IsShape(aug, n, n + 1) && i < n && aug[i][i] != 0.0
  {
    && IsShape(res, n, n + 1)
    && (forall r :: 0 <= r <= i ==> res[r] == aug[r])
    && (forall r :: i < r < n ==> res[r] == Axpy(aug[r], aug[r][i] / aug[i][i], aug[i]))
  }

  /** The pass of the solver's outer loop for pivot row i, as a value: every
      row below i loses aug[r][i] / aug[i][i] times row i. */
  function EliminateStep(aug: Grid, i: nat, n: nat): (res: Grid)
    requires IsShape(aug, n, n + 1) && i < n && aug[i][i] != 0.0
    ensures EliminatedBelow(aug, res, i, n)
  {
    seq(n, r requires 0 <= r < n => if r <= i then aug[r] else Axpy(aug[r], aug[r][i] / aug[i][i], aug[i]))
  }

  /** `EliminatedBelow` leaves no choice: it describes exactly `EliminateStep`. */
  lemma EliminatedBelowIsStep(aug: Grid, res: Grid, i: nat, n: nat)
    requires IsShape(aug, n, n + 1) && i < n && aug[i][i] != 0.0
    requires EliminatedBelow(aug, res, i, n)
    ensures res == EliminateStep(aug, i, n)
  {
    var step := EliminateStep(aug, i, n);
    assert forall r :: 0 <= r < n ==> res[r] == step[r];
  }

  /** The scan of `FindPivot` from row k on, where p is the best row among
      i .. k-1: a later row takes over only when its cell in column i is
      strictly larger in magnitude, so ties keep the earlier row. */
  function PivotFrom(aug: Grid, i: nat, n: nat, p: nat, k: nat): (q: nat)
    requires IsShape(aug, n, n + 1) && i <= p < k <= n
    ensures p <= q < n
    decreases n - k
  {
    if k == n then p
    else PivotFrom(aug, i, n, if Abs(aug[k][i]) > Abs(aug[p][i]) then k else p, k + 1)
  }

  /** The pivot row for column i. */
  function PivotRow(aug: Grid, i: nat, n: nat): (p: nat)
    requires IsShape(aug, n, n + 1) && i < n
    ensures i <= p < n
  {
    PivotFrom(aug, i, n, i, i + 1)
  }

  /** One column of elimination as the solver runs it: swap the pivot row
      into row i, give up (None) when the new pivot is below Epsilon in
      magnitude, otherwise clear the column below it. */
  function ColumnStep(aug: Grid, i: nat, n: nat): (r: Option<Grid>)
    requires IsShape(aug, n, n + 1) && i < n
    ensures r.Some? ==> IsShape(r.value, n, n + 1)
  {
    var s := SwapRows(aug, i, PivotRow(aug, i, n));
    if Abs(s[i][i]) < Epsilon then None
    else Some(EliminateStep(s, i, n))
  }

  /** Elimination with partial pivoting from column i on: one column after
      the other until a pivot is too small (None) or every column is done. */
  function EliminateFrom(aug: Grid, i: nat, n: nat): (r: Option<Grid>)
    requires IsShape(aug, n, n + 1) && i <= n
    ensures r.Some? ==> IsShape(r.value, n, n + 1)
    decreases n - i
  {
    if i == n then Some(aug)
    else
      match ColumnStep(aug, i, n)
      case None => None
      case Some(next) => EliminateFrom(next, i + 1, n)
  }

  /** Elimination can only succeed when some cell of the first column is at
      least Epsilon in magnitude: that cell's row is the first pivot. */
  lemma SucceedsOnlyWithFirstPivot(aug: Grid, n: nat)
    requires IsShape(aug, n, n + 1) && n >= 1
    requires EliminateFrom(aug, 0, n).Some?
    ensures exists k :: 0 <= k < n && Abs(aug[k][0]) >= Epsilon
  {
    var p := PivotRow(aug, 0, n);
    assert SwapRows(aug, 0, p)[0] == aug[p];
    assert ColumnStep(aug, 0, n).Some?;
  }

  lemma EliminationKeepsSolutions(aug: Grid, res: Grid, i: nat, n: nat, x: seq<real>)
    requires IsShape(aug, n, n + 1) && i < n && aug[i][i] != 0.0
    requires EliminatedBelow(aug, res, i, n)
    requires Solves(res, x, n)
    ensures Solves(aug, x, n)
  {
    forall r | 0 <= r < n ensures Dot(aug[r], x, 0, n) == aug[r][n] {
      if r > i {
        var f := aug[r][i] / aug[i][i];
        DotAxpy(aug[r], f, aug[i], x, n);
        assert res[i] == aug[i];
        assert res[r][n] == aug[r][n] - f * aug[i][n];
      }
    }
  }

  lemma EliminationZeroesColumn(aug: Grid, res: Grid, i: nat, n: nat)
    requires IsShape(aug, n, n + 1) && i < n && aug[i][i] != 0.0
    requires ZeroBelow(aug, i, n)
    requires EliminatedBelow(aug, res, i, n)
    ensures ZeroBelow(res, i + 1, n)
  {
    forall r, c | 0 <= c < i + 1 && c < r < n ensures res[r][c] == 0.0 {
      var f := aug[r][i] / aug[i][i];
      assert res[r][c] == aug[r][c] - f * aug[i][c];
      if c == i {
        CancelPivot(aug[r][i], aug[i][i]);
      }
    }
  }

  // ---------------------------------------------------------------------------
  // The three loops of the solver

  /** The pivot row for column i: the first row k >= i whose |aug[k][i]| is largest. */
  method FindPivot(aug: Grid, i: nat, n: nat) returns (p: nat)
    requires IsShape(aug, n, n + 1) && i < n
    ensures i <= p < n
    ensures forall k :: i <= k < n ==> Abs(aug[k][i]) <= Abs(aug[p][i])
    ensures forall k :: i <= k < p ==> Abs(aug[k][i]) < Abs(aug[p][i])
    ensures p == PivotRow(aug, i, n)
  {
    p := i;
    for k := i + 1 to n
      invariant i <= p < k
      invariant PivotFrom(aug, i, n, p, k) == PivotRow(aug, i, n)
      invariant forall k' :: i <= k' < k ==> Abs(aug[k'][i]) <= Abs(aug[p][i])
      invariant forall k' :: i <= k' < p ==> Abs(aug[k'][i]) < Abs(aug[p][i])
    {
      if Abs(aug[k][i]) > Abs(aug[p][i]) {
        p := k;
      }
    }
  }

  /** Subtracts a multiple of pivot row i from every row below it, columns i .. n. */
  method EliminateBelow(aug: Grid, i: nat, n: nat) returns (res: Grid)
    requires IsShape(aug, n, n + 1) && i < n && aug[i][i] != 0.0
    requires ZeroBelow(aug, i, n)
    ensures EliminatedBelow(aug, res, i, n)
  {
    res := aug;
    for k := i + 1 to n
      invariant IsShape(res, n, n + 1)
      invariant forall r :: 0 <= r < n && (r <= i || k <= r) ==> res[r] == aug[r]
      invariant forall r :: i < r < k ==> res[r] == Axpy(aug[r], aug[r][i] / aug[i][i], aug[i])
    {
      var factor := res[k][i] / res[i][i];
      ghost var before := res;
      for j := i to n + 1
        invariant IsShape(res, n, n + 1)
        invariant forall r :: 0 <= r < n && r != k ==> res[r] == before[r]
        invariant forall c :: 0 <= c < n + 1 ==>
          res[k][c] == if i <= c < j then aug[k][c] - factor * aug[i][c] else aug[k][c]
      {
        res := res[k := res[k][j := res[k][j] - factor * res[i][j]]];
      }
      forall c | 0 <= c < n + 1 ensures res[k][c] == Axpy(aug[k], factor, aug[i])[c] {
        if c < i {
          assert aug[k][c] == 0.0 && aug[i][c] == 0.0;
        }
      }
    }
  }

  /** One pass of the solver's outer loop, for column i: find the pivot row,
      swap it into row i, give up when the pivot is below Epsilon in
      magnitude, otherwise clear the column below it. */
  method PivotAndEliminate(aug: Grid, i: nat, n: nat) returns (res: Option<Grid>)
    requires IsShape(aug, n, n + 1) && i < n && ZeroBelow(aug, i, n)
    ensures res == ColumnStep(aug, i, n)
    ensures res.Some? ==> var next := res.value;
      && IsShape(next, n, n + 1) && ZeroBelow(next, i + 1, n)
      && next[i][i] != 0.0
      && (forall r :: 0 <= r < i ==> next[r] == aug[r])
      && (forall x :: Solves(next, x, n) ==> Solves(aug, x, n))
  {
    var maxRow := FindPivot(aug, i, n);
    var swapped := SwapRows(aug, i, maxRow);
    SwapKeepsZeroBelow(aug, i, maxRow, n);
    if Abs(swapped[i][i]) < Epsilon {
      return None;
    }
    var next := EliminateBelow(swapped, i, n);
    EliminationZeroesColumn(swapped, next, i, n);
    EliminatedBelowIsStep(swapped, next, i, n);
    forall x | Solves(next, x, n) ensures Solves(aug, x, n) {
      EliminationKeepsSolutions(swapped, next, i, n, x);
      SwapKeepsSolutions(aug, i, maxRow, x, n);
    }
    return Some(next);
  }

  /** The augmented matrix, built row by row. */
  method AugmentRows(a: Grid, b: seq<real>) returns (aug: Grid)
    requires |b| == |a|
    ensures aug == Augment(a, b)
  {
    aug := seq(|a|, _ => []);
    for i := 0 to |a|
      invariant |aug| == |a|
      invariant forall r :: 0 <= r < i ==> aug[r] == a[r] + [b[r]]
    {
      aug := aug[i := a[i] + [b[i]]];
    }
  }

  /** The solver's outer loop, column by column: it gives up exactly when
      `EliminateFrom` does, and otherwise leaves an upper-triangular system
      with a non-zero diagonal whose solutions solve the original one. */
  method EliminateAll(original: Grid, n: nat) returns (res: Option<Grid>)
    requires IsShape(original, n, n + 1)
    ensures res.None? <==> EliminateFrom(original, 0, n).None?
    ensures res.Some? ==> var aug := res.value;
      && IsShape(aug, n, n + 1) && ZeroBelow(aug, n, n)
      && (forall c :: 0 <= c < n ==> aug[c][c] != 0.0)
      && (forall x :: Solves(aug, x, n) ==> Solves(original, x, n))
  {
    var aug := original;
    for i := 0 to n
      invariant IsShape(aug, n, n + 1) && ZeroBelow(aug, i, n)
      invariant forall c :: 0 <= c < i ==> aug[c][c] != 0.0
      invariant forall x :: Solves(aug, x, n) ==> Solves(original, x, n)
      invariant EliminateFrom(aug, i, n) == EliminateFrom(original, 0, n)
    {
      var step := PivotAndEliminate(aug, i, n);
      if step.None? {
        return None;
      }
      aug := step.value;
    }
    return Some(aug);
  }

  /** Solves an upper-triangular system with a non-zero diagonal from the last row up. */
  method BackSubstitute(aug: Grid, n: nat) returns (x: seq<real>)
    requires IsShape(aug, n, n + 1) && ZeroBelow(aug, n, n)
    requires forall c :: 0 <= c < n ==> aug[c][c] != 0.0
    ensures Solves(aug, x, n)
  {
    x := seq(n, _ => 0.0);
    var i: int := n - 1;
    while i >= 0
      invariant -1 <= i < n && |x| == n
      invariant forall r :: i < r < n ==> Dot(aug[r], x, 0, n) == aug[r][n]
    {
      var sum := aug[i][n];
      for j := i + 1 to n
        invariant sum == aug[i][n] - Dot(aug[i], x, i + 1, j)
      {
        sum := sum - aug[i][j] * x[j];
      }
      var x' := x[i := sum / aug[i][i]];
      BackStep(aug, x, x', i, n, sum);
      x := x';
      i := i - 1;
    }
  }

  /** Setting x[i] = sum / aug[i][i] solves row i and keeps the rows below solved. */
  lemma BackStep(aug: Grid, x: seq<real>, x': seq<real>, i: nat, n: nat, sum: real)
    requires IsShape(aug, n, n + 1) && ZeroBelow(aug, n, n) && i < n && aug[i][i] != 0.0
    requires |x| == n && x' == x[i := sum / aug[i][i]]
    requires sum == aug[i][n] - Dot(aug[i], x, i + 1, n)
    requires forall r :: i < r < n ==> Dot(aug[r], x, 0, n) == aug[r][n]
    ensures forall r :: i <= r < n ==> Dot(aug[r], x', 0, n) == aug[r][n]
  {
    forall r | i < r < n ensures Dot(aug[r], x', 0, n) == aug[r][n] {
      DotIgnoresZeroColumn(aug[r], x, i, sum / aug[i][i], 0, n);
    }
    var row := aug[i];
    DotSplit(row, x', 0, i, n);
    DotZeroRow(row, x', 0, i);
    DotSplit(row, x', i, i + 1, n);
    assert Dot(row, x', i, i + 1) == row[i] * (sum / aug[i][i]);
    DotAgree(row, row, x', x, i + 1, n);
  }

  // ---------------------------------------------------------------------------
  // The concrete cases

  /** [[2, 1], [1, 3]] x = [5, 10] has exactly the solution [1, 3]. */
  lemma SolveExample(x: seq<real>)
    requires |x| == 2
    ensures IsShape([[2.0, 1.0], [1.0, 3.0]], 2, 2)
    ensures MatVec([[2.0, 1.0], [1.0, 3.0]], x, 2) == [5.0, 10.0] <==> x == [1.0, 3.0]
  {
    var a := [[2.0, 1.0], [1.0, 3.0]];
    var y := MatVec(a, x, 2);
    assert y[0] == 2.0 * x[0] + 1.0 * x[1];
    assert y[1] == 1.0 * x[0] + 3.0 * x[1];
    if y == [5.0, 10.0] {
      assert x[0] == 1.0 && x[1] == 3.0;
    }
  }

  /** [[1, 2], [2, 4]] x = [1, 3] has no solution, so no solver may return one. */
  lemma SingularExample(x: seq<real>)
    requires |x| == 2
    ensures IsShape([[1.0, 2.0], [2.0, 4.0]], 2, 2)
    ensures MatVec([[1.0, 2.0], [2.0, 4.0]], x, 2) != [1.0, 3.0]
  {
    var a := [[1.0, 2.0], [2.0, 4.0]];
    var y := MatVec(a, x, 2);
    assert y[0] == 1.0 * x[0] + 2.0 * x[1];
    assert y[1] == 2.0 * x[0] + 4.0 * x[1];
  }

  /** Eliminating [[2, 1] | 5, [1, 3] | 10] keeps row 0 as the first pivot,
      leaves 2.5 as the second and succeeds. */
  lemma EliminateExample()
    ensures IsShape([[2.0, 1.0], [1.0, 3.0]], 2, 2)
    ensures EliminateFrom(Augment([[2.0, 1.0], [1.0, 3.0]], [5.0, 10.0]), 0, 2)
      == Some([[2.0, 1.0, 5.0], [0.0, 2.5, 7.5]])
  {
    var aug := Augment([[2.0, 1.0], [1.0, 3.0]], [5.0, 10.0]);
    assert aug[0] == [2.0, 1.0] + [5.0] == [2.0, 1.0, 5.0];
    assert aug[1] == [1.0, 3.0] + [10.0] == [1.0, 3.0, 10.0];
    assert aug == [[2.0, 1.0, 5.0], [1.0, 3.0, 10.0]];
    assert PivotRow(aug, 0, 2) == 0;
    assert SwapRows(aug, 0, 0) == aug;
    var step := EliminateStep(aug, 0, 2);
    assert step[1] == Axpy(aug[1], 0.5, aug[0]);
    assert step[1][0] == 0.0 && step[1][1] == 2.5 && step[1][2] == 7.5;
    assert step[1] == [0.0, 2.5, 7.5];
    assert step == [[2.0, 1.0, 5.0], [0.0, 2.5, 7.5]];
    assert PivotRow(step, 1, 2) == 1;
    assert SwapRows(step, 1, 1) == step;
    assert EliminateStep(step, 1, 2) == step;
  }

  /** Eliminating [[1, 2] | 1, [2, 4] | 3] swaps row 1 up as the first pivot
      and then meets a zero second pivot, so it gives up. */
  lemma EliminateSingularExample()
    ensures IsShape([[1.0, 2.0], [2.0, 4.0]], 2, 2)
    ensures EliminateFrom(Augment([[1.0, 2.0], [2.0, 4.0]], [1.0, 3.0]), 0, 2) == None
  {
    var aug := Augment([[1.0, 2.0], [2.0, 4.0]], [1.0, 3.0]);
    assert aug[0] == [1.0, 2.0] + [1.0] == [1.0, 2.0, 1.0];
    assert aug[1] == [2.0, 4.0] + [3.0] == [2.0, 4.0, 3.0];
    assert aug == [[1.0, 2.0, 1.0], [2.0, 4.0, 3.0]];
    assert PivotRow(aug, 0, 2) == 1;
    var s := SwapRows(aug, 0, 1);
    assert s == [[2.0, 4.0, 3.0], [1.0, 2.0, 1.0]];
    var step := EliminateStep(s, 0, 2);
    assert step[1] == Axpy(s[1], 0.5, s[0]);
    assert step[1][0] == 0.0 && step[1][1] == 0.0 && step[1][2] == -0.5;
    assert step[1] == [0.0, 0.0, -0.5];
    assert step == [[2.0, 4.0, 3.0], [0.0, 0.0, -0.5]];
    assert PivotRow(step, 1, 2) == 1;
    assert SwapRows(step, 1, 1) == step;
  }
}
