/** The matrix engine: a dense rows x cols matrix of reals whose operations
    fill a freshly allocated result with nested loops (sum, difference,
    product, transpose, adjugate inverse), compute the cofactor determinant
    recursively, sort in place, and solve a square linear system by Gaussian
    elimination. Each operation is proved against the pure grid functions of
    `MatrixGrid` and `GaussElimination`. */
module Matrices {
  import opened Results
  import opened MatrixGrid
  import opened GaussElimination

  /** The three ways a matrix operation fails. */
  datatype MatrixError =
    | DimensionMismatch  // operand shapes or the right-hand side do not fit
    | NotSquare          // determinant, inverse or solve asked of a non-square matrix
    | Singular           // a determinant or pivot of magnitude below 1e-10

  class Matrix {
    const rows: nat
    const cols: nat
    var data: Grid

    ghost predicate Valid()
      reads this
    {
      IsShape(data, rows, cols)
    }

    /** NewMatrix: a rows x cols matrix of zeros. */
    constructor (rows: nat, cols: nat)
      ensures Valid() && this.rows == rows && this.cols == cols
      ensures data == Zeros(rows, cols)
    {
      this.rows := rows;
      this.cols := cols;
      data := Zeros(rows, cols);
    }

    method Add(other: Matrix) returns (r: Result<Matrix, MatrixError>)
      requires Valid() && other.Valid()
      ensures r.Err? <==> rows != other.rows || cols != other.cols
      ensures r.Err? ==> r.error == DimensionMismatch
      ensures r.Ok? ==> fresh(r.value) && r.value.Valid()
      ensures r.Ok? ==> r.value.rows == rows && r.value.cols == cols
      ensures r.Ok? ==> SameShape(data, other.data) && r.value.data == Plus(data, other.data)
    {
      if rows != other.rows || cols != other.cols {
        return Err(DimensionMismatch);
      }
      var result := new Matrix(rows, cols);
      for i := 0 to rows
        invariant result.Valid()
        invariant forall a, b :: 0 <= a < i && 0 <= b < cols ==>
          result.data[a][b] == data[a][b] + other.data[a][b]
      {
        for j := 0 to cols
          invariant result.Valid()
          invariant forall a, b :: 0 <= a < rows && 0 <= b < cols && (a < i || (a == i && b < j)) ==>
            result.data[a][b] == data[a][b] + other.data[a][b]
        {
          result.data := result.data[i := result.data[i][j := data[i][j] + other.data[i][j]]];
        }
      }
      assert forall a :: 0 <= a < rows ==> result.data[a] == Plus(data, other.data)[a];
      return Ok(result);
    }

    method Subtract(other: Matrix) returns (r: Result<Matrix, MatrixError>)
      requires Valid() && other.Valid()
      ensures r.Err? <==> rows != other.rows || cols != other.cols
      ensures r.Err? ==> r.error == DimensionMismatch
      ensures r.Ok? ==> fresh(r.value) && r.value.Valid()
      ensures r.Ok? ==> r.value.rows == rows && r.value.cols == cols
      ensures r.Ok? ==> SameShape(data, other.data) && r.value.data == Minus(data, other.data)
    {
      if rows != other.rows || cols != other.cols {
        return Err(DimensionMismatch);
      }
      var result := new Matrix(rows, cols);
      for i := 0 to rows
        invariant result.Valid()
        invariant forall a, b :: 0 <= a < i && 0 <= b < cols ==>
          result.data[a][b] == data[a][b] - other.data[a][b]
      {
        for j := 0 to cols
          invariant result.Valid()
          invariant forall a, b :: 0 <= a < rows && 0 <= b < cols && (a < i || (a == i && b < j)) ==>
            result.data[a][b] == data[a][b] - other.data[a][b]
        {
          result.data := result.data[i := result.data[i][j := data[i][j] - other.data[i][j]]];
        }
      }
      assert forall a :: 0 <= a < rows ==> result.data[a] == Minus(data, other.data)[a];
      return Ok(result);
    }

    /** The rows x other.cols product, each cell accumulated over k. */
    method Multiply(other: Matrix) returns (r: Result<Matrix, MatrixError>)
      requires Valid() && other.Valid()
      ensures r.Err? <==> cols != other.rows
      ensures r.Err? ==> r.error == DimensionMismatch
      ensures r.Ok? ==> fresh(r.value) && r.value.Valid()
      ensures r.Ok? ==> r.value.rows == rows && r.value.cols == other.cols
      ensures r.Ok? ==> IsShape(data, |data|, |other.data|) && r.value.data == Product(data, other.data, other.cols)
    {
      if cols != other.rows {
        return Err(DimensionMismatch);
      }
      var result := new Matrix(rows, other.cols);
      ghost var product := Product(data, other.data, other.cols);
      for i := 0 to rows
        invariant result.Valid()
        invariant forall a :: 0 <= a < i ==> result.data[a] == product[a]
        invariant forall a :: i <= a < rows ==> result.data[a] == Zeros(rows, other.cols)[a]
      {
        ghost var before := result.data;
        for j := 0 to other.cols
          invariant result.Valid()
          invariant forall a :: 0 <= a < rows && a != i ==> result.data[a] == before[a]
          invariant forall b :: 0 <= b < j ==> result.data[i][b] == product[i][b]
          invariant forall b :: j <= b < other.cols ==> result.data[i][b] == 0.0
        {
          AccumulateCell(other, result, i, j);
        }
        assert result.data[i] == product[i];
      }
      assert result.data == product;
      return Ok(result);
    }

    /** The innermost loop of Multiply: adds row i of this matrix times
        column j of `other` into the zero cell (i, j) of `result`. */
    method AccumulateCell(other: Matrix, result: Matrix, i: nat, j: nat)
      requires Valid() && other.Valid() && result.Valid() && cols == other.rows
      requires i < result.rows == rows && j < result.cols == other.cols
      requires result.data[i][j] == 0.0
      requires result != this && result != other
      modifies result
      ensures result.Valid()
      ensures result.data == old(result.data)[i := old(result.data)[i][j := Dot(data[i], Column(other.data, j), 0, cols)]]
    {
      ghost var before := result.data;
      ghost var column := Column(other.data, j);
      assert before[i][j := 0.0] == before[i];
      assert before[i := before[i]] == before;
      for k := 0 to cols
        invariant result.Valid()
        invariant result.data == before[i := before[i][j := Dot(data[i], column, 0, k)]]
      {
        ghost var next := Dot(data[i], column, 0, k + 1);
        assert column[k] == other.data[k][j];
        assert next == result.data[i][j] + data[i][k] * other.data[k][j];
        result.data := result.data[i := result.data[i][j := result.data[i][j] + data[i][k] * other.data[k][j]]];
        assert result.data[i] == before[i][j := next];
      }
    }

    method Transpose() returns (result: Matrix)
      requires Valid()
      ensures fresh(result) && result.Valid() && result.rows == cols && result.cols == rows
      ensures result.data == Transposed(data, cols)
    {
      result := new Matrix(cols, rows);
      for i := 0 to rows
        invariant result.Valid()
        invariant forall a, b :: 0 <= a < i && 0 <= b < cols ==> result.data[b][a] == data[a][b]
      {
        for j := 0 to cols
          invariant result.Valid()
          invariant forall a, b :: 0 <= a < rows && 0 <= b < cols && (a < i || (a == i && b < j)) ==>
            result.data[b][a] == data[a][b]
        {
          result.data := result.data[j := result.data[j][i := data[i][j]]];
        }
      }
      assert forall b :: 0 <= b < cols ==> result.data[b] == Transposed(data, cols)[b];
    }

    method Determinant() returns (r: Result<real, MatrixError>)
      requires Valid()
      ensures rows != cols ==> r == Err(NotSquare)
      ensures rows == cols ==> IsSquare(data) && r == Ok(Det(data))
    {
      if rows != cols {
        return Err(NotSquare);
      }
      var det := DeterminantRecursive(data);
      return Ok(det);
    }

    /** The first half of the inverse: the matrix of signed minor determinants,
        with the empty minor counting 1 (see `MinorDet`). */
    method CofactorMatrix() returns (cofactors: Matrix)
      requires Valid() && rows == cols
      ensures fresh(cofactors) && cofactors.Valid() && cofactors.rows == rows && cofactors.cols == cols
      ensures forall a, b :: 0 <= a < rows && 0 <= b < cols ==> cofactors.data[a][b] == Cofactor(data, a, b)
    {
      cofactors := new Matrix(rows, cols);
      for i := 0 to rows
        invariant cofactors.Valid()
        invariant forall a, b :: 0 <= a < i && 0 <= b < cols ==> cofactors.data[a][b] == Cofactor(data, a, b)
      {
        ghost var before := cofactors.data;
        for j := 0 to cols
          invariant cofactors.Valid()
          invariant forall a :: 0 <= a < rows && a != i ==> cofactors.data[a] == before[a]
          invariant forall b :: 0 <= b < j ==> cofactors.data[i][b] == Cofactor(data, i, b)
        {
          var minor := GetMinor(data, i, j);
          var minorDet := DeterminantRecursive(minor);
          if |minor| == 0 {
            minorDet := 1.0;
          }
          cofactors.data := cofactors.data[i := cofactors.data[i][j := Sign(i + j) * minorDet]];
        }
      }
    }

    /** The adjugate divided by the determinant. A determinant of magnitude
        below 1e-10 is refused. Corrected for 1 x 1 matrices: the empty minor
        of the only cell contributes 1 to its cofactor (see `MinorDet`). */
    method Inverse() returns (r: Result<Matrix, MatrixError>)
      requires Valid()
      ensures rows != cols ==> r == Err(NotSquare)
      ensures rows == cols ==> IsSquare(data) && (r == Err(Singular) <==> Abs(Det(data)) < Epsilon)
      ensures r.Ok? ==> rows == cols && Det(data) != 0.0
      ensures r.Ok? ==> fresh(r.value) && r.value.Valid() && r.value.rows == rows && r.value.cols == cols
      ensures r.Ok? ==> r.value.data == InverseGrid(data)
    {
      var d := Determinant();
      if d.Err? {
        return Err(d.error);
      }
      var det := d.value;
      if Abs(det) < Epsilon {
        return Err(Singular);
      }
      ghost var inverse := InverseGrid(data);
      var cofactors := CofactorMatrix();
      var adjugate := cofactors.Transpose();
      ghost var transposed := adjugate.data;
      assert forall a, b :: 0 <= a < rows && 0 <= b < cols ==> inverse[a][b] == transposed[a][b] / det;
      for i := 0 to rows
        invariant adjugate.Valid()
        invariant forall a :: 0 <= a < i ==> adjugate.data[a] == inverse[a]
        invariant forall a :: i <= a < rows ==> adjugate.data[a] == transposed[a]
      {
        ghost var before := adjugate.data;
        for j := 0 to cols
          invariant adjugate.Valid()
          invariant forall a :: 0 <= a < rows && a != i ==> adjugate.data[a] == before[a]
          invariant forall b :: 0 <= b < j ==> adjugate.data[i][b] == inverse[i][b]
          invariant forall b :: j <= b < cols ==> adjugate.data[i][b] == transposed[i][b]
        {
          adjugate.data := adjugate.data[i := adjugate.data[i][j := adjugate.data[i][j] / det]];
        }
        assert adjugate.data[i] == inverse[i];
      }
      assert adjugate.data == inverse;
      return Ok(adjugate);
    }

    /** Gaussian elimination with partial pivoting on [data | b], then back
        substitution. The matrix itself is left unchanged. */
    method SolveSystem(b: seq<real>) returns (r: Result<seq<real>, MatrixError>)
      requires Valid()
      ensures rows != cols ==> r == Err(NotSquare)
      ensures rows == cols && |b| != rows ==> r == Err(DimensionMismatch)
      ensures r.Err? && rows == cols && |b| == rows ==> r.error == Singular
      ensures rows == cols == |b| >= 1 && (forall k :: 0 <= k < rows ==> Abs(data[k][0]) < Epsilon) ==>
        r == Err(Singular)
      ensures rows == cols == |b| ==> (r.Err? <==> EliminateFrom(Augment(data, b), 0, rows).None?)
      ensures r.Ok? ==> rows == cols == |b| == |r.value| && MatVec(data, r.value, cols) == b
    {
      if rows != cols {
        return Err(NotSquare);
      }
      if |b| != rows {
        return Err(DimensionMismatch);
      }
      var n := rows;
      var original := AugmentRows(data, b);
      var eliminated := EliminateAll(original, n);
      if eliminated.None? {
        return Err(Singular);
      }
      var aug := eliminated.value;
      if n >= 1 {
        SucceedsOnlyWithFirstPivot(original, n);
        ghost var k :| 0 <= k < n && Abs(original[k][0]) >= Epsilon;
        assert original[k][0] == data[k][0];
      }
      var solution := BackSubstitute(aug, n);
      AugmentSolves(data, b, solution, n);
      return Ok(solution);
    }
  }

  /** getMinor: fills a preallocated (n-1) x (n-1) grid, shifting the indices
      past the deleted row and column down by one. */
  method GetMinor(g: Grid, row: nat, col: nat) returns (minor: Grid)
    requires IsSquare(g) && row < |g| && col < |g|
    ensures minor == Minor(g, row, col)
  {
    var n := |g| - 1;
    minor := Zeros(n, n);
    for i := 0 to |g|
      invariant IsShape(minor, n, n)
      invariant forall a, b :: 0 <= a < n && 0 <= b < n && Skip(a, row) < i ==>
        minor[a][b] == g[Skip(a, row)][Skip(b, col)]
    {
      if i != row {
        for j := 0 to |g[i]|
          invariant IsShape(minor, n, n)
          invariant forall a, b :: 0 <= a < n && 0 <= b < n && (Skip(a, row) < i || (Skip(a, row) == i && Skip(b, col) < j)) ==>
            minor[a][b] == g[Skip(a, row)][Skip(b, col)]
        {
          if j != col {
            var minorRow := i;
            if i > row {
              minorRow := minorRow - 1;
            }
            var minorCol := j;
            if j > col {
              minorCol := minorCol - 1;
            }
            minor := minor[minorRow := minor[minorRow][minorCol := g[i][j]]];
          }
        }
      }
    }
    forall a | 0 <= a < n ensures minor[a] == Minor(g, row, col)[a] {
      assert Skip(a, row) < |g|;
      forall b | 0 <= b < n ensures minor[a][b] == Minor(g, row, col)[a][b] {
        assert Skip(b, col) < |g|;
        assert minor[a][b] == g[Skip(a, row)][Skip(b, col)];
      }
    }
  }

  /** determinantRecursive: the cofactor expansion along the first row, with
      the sign flipping after each column. */
  method DeterminantRecursive(g: Grid) returns (det: real)
    requires IsSquare(g)
    ensures det == Det(g)
    decreases |g|
  {
    if |g| == 1 {
      return g[0][0];
    }
    det := 0.0;
    var sign := 1.0;
    for j := 0 to |g|
      invariant det == Expansion(g, j) && sign == Sign(j)
    {
      var minor := GetMinor(g, 0, j);
      var minorDet := DeterminantRecursive(minor);
      det := det + sign * g[0][j] * minorDet;
      sign := -sign;
    }
  }

  /** Swapping two entries of a sequence permutes it. */
  lemma SwapPermutes<T>(s: seq<T>, i: nat, j: nat)
    requires i < |s| && j < |s|
    ensures multiset(s[i := s[j]][j := s[i]]) == multiset(s)
  {
  }

  /** The exchange-sort step: put the smaller of s[i] and s[j] at i. */
  function ExchangeIfGreater<T>(s: seq<T>, i: nat, j: nat, greater: (T, T) -> bool): (t: seq<T>)
    requires i < |s| && j < |s|
    ensures |t| == |s| && multiset(t) == multiset(s)
  {
    SwapPermutes(s, i, j);
    if greater(s[i], s[j]) then s[i := s[j]][j := s[i]] else s
  }

  // ---------------------------------------------------------------------------
  // Sorting rows by their first cell

  /** Rows are ordered by first cell over their first `i` positions:
      each of those rows has a first cell no larger than any row after it. */
  predicate FirstCellsSortedUpTo(s: Grid, i: nat) {
    forall a, b :: 0 <= a < i && a < b < |s| && 0 < |s[a]| && 0 < |s[b]| ==> s[a][0] <= s[b][0]
  }

  predicate RowGreater(x: seq<real>, y: seq<real>) {
    0 < |x| && 0 < |y| && x[0] > y[0]
  }

  /** One step of the inner loop keeps the prefix sorted and grows the run of
      rows i+1 .. j whose first cell is at least that of row i. */
  lemma RowExchangeStep(s: Grid, i: nat, j: nat, cols: nat)
    requires IsShape(s, |s|, cols) && cols >= 1 && i < j < |s|
    requires FirstCellsSortedUpTo(s, i)
    requires forall b :: i < b < j ==> s[i][0] <= s[b][0]
    ensures IsShape(ExchangeIfGreater(s, i, j, RowGreater), |s|, cols)
    ensures FirstCellsSortedUpTo(ExchangeIfGreater(s, i, j, RowGreater), i)
    ensures forall b :: i < b <= j ==>
      ExchangeIfGreater(s, i, j, RowGreater)[i][0] <= ExchangeIfGreater(s, i, j, RowGreater)[b][0]
  {
  }

  /** Sorts the rows of a matrix by their first cell, in place. */
  class RowLexicographicSort {
    const matrix: Matrix

    constructor (m: Matrix)
      ensures matrix == m
    {
      matrix := m;
    }

    /** Exchange sort: every later row with a smaller first cell is swapped up.
        The source indexes the first cell of every row, so a matrix with two
        or more rows must have a column. */
    method Sort()
      requires matrix.Valid() && (matrix.rows >= 2 ==> matrix.cols >= 1)
      modifies matrix
      ensures matrix.Valid()
      ensures forall a, b :: 0 <= a < b < matrix.rows ==> matrix.data[a][0] <= matrix.data[b][0]
      ensures multiset(matrix.data) == multiset(old(matrix.data))
    {
      var m := matrix;
      ghost var start := m.data;
      var i := 0;
      while i + 1 < m.rows
        invariant m.Valid() && i <= m.rows
        invariant multiset(m.data) == multiset(start)
        invariant FirstCellsSortedUpTo(m.data, i)
      {
        for j := i + 1 to m.rows
          invariant m.Valid()
          invariant multiset(m.data) == multiset(start)
          invariant FirstCellsSortedUpTo(m.data, i)
          invariant forall b :: i < b < j ==> m.data[i][0] <= m.data[b][0]
        {
          RowExchangeStep(m.data, i, j, m.cols);
          ghost var next := ExchangeIfGreater(m.data, i, j, RowGreater);
          if m.data[i][0] > m.data[j][0] {
            m.data := m.data[i := m.data[j]][j := m.data[i]];
          }
          assert m.data == next;
        }
        i := i + 1;
      }
      assert m.rows >= 2 ==> FirstCellsSortedUpTo(m.data, m.rows - 1);
    }
  }

  // ---------------------------------------------------------------------------
  // Sorting the cells of every row

  /** The first `i` cells of a row are in place: each is no larger than any later cell. */
  predicate CellsSortedUpTo(row: seq<real>, i: nat) {
    forall a, b :: 0 <= a < i && a < b < |row| ==> row[a] <= row[b]
  }

  /** Exchange sort has fixed cells 0 .. i-1 and, for cell i, compared it with cells i+1 .. j-1. */
  predicate CellProgress(row: seq<real>, i: nat, j: nat)
    requires i < |row|
  {
    CellsSortedUpTo(row, i) && forall b :: i < b < j && b < |row| ==> row[i] <= row[b]
  }

  predicate CellGreater(x: real, y: real) {
    x > y
  }

  lemma CellExchangeStep(row: seq<real>, i: nat, j: nat)
    requires i < j < |row| && CellProgress(row, i, j)
    ensures CellProgress(ExchangeIfGreater(row, i, j, CellGreater), i, j + 1)
  {
  }

  /** Sorts the cells of every row of a matrix, each row on its own, in place. */
  class ColumnLexicographicSort {
    const matrix: Matrix

    constructor (m: Matrix)
      ensures matrix == m
    {
      matrix := m;
    }

    /** Exchange sort over column pairs (i, j), i < j, swapping the two cells
        of every row k where the earlier one is larger. */
    method Sort()
      requires matrix.Valid()
      modifies matrix
      ensures matrix.Valid()
      ensures forall k, a, b :: 0 <= k < matrix.rows && 0 <= a < b < matrix.cols ==>
        matrix.data[k][a] <= matrix.data[k][b]
      ensures forall k :: 0 <= k < matrix.rows ==> multiset(matrix.data[k]) == multiset(old(matrix.data)[k])
    {
      var m := matrix;
      ghost var start := m.data;
      var i := 0;
      while i + 1 < m.cols
        invariant m.Valid() && i <= m.cols
        invariant forall k :: 0 <= k < m.rows ==> multiset(m.data[k]) == multiset(start[k])
        invariant forall k :: 0 <= k < m.rows ==> CellsSortedUpTo(m.data[k], i)
      {
        for j := i + 1 to m.cols
          invariant m.Valid()
          invariant forall k :: 0 <= k < m.rows ==> multiset(m.data[k]) == multiset(start[k])
          invariant forall k :: 0 <= k < m.rows ==> CellProgress(m.data[k], i, j)
        {
          ExchangeInEveryRow(i, j);
        }
        assert forall k :: 0 <= k < m.rows ==> CellsSortedUpTo(m.data[k], i + 1);
        i := i + 1;
      }
      assert forall k :: 0 <= k < m.rows ==> m.cols >= 1 ==> CellsSortedUpTo(m.data[k], m.cols - 1);
    }

    /** The innermost loop: in every row, cells i and j change places when
        cell i is the larger. */
    method ExchangeInEveryRow(i: nat, j: nat)
      requires matrix.Valid() && i < j < matrix.cols
      requires forall k :: 0 <= k < matrix.rows ==> CellProgress(matrix.data[k], i, j)
      modifies matrix
      ensures matrix.Valid()
      ensures forall k :: 0 <= k < matrix.rows ==>
        matrix.data[k] == ExchangeIfGreater(old(matrix.data)[k], i, j, CellGreater)
      ensures forall k :: 0 <= k < matrix.rows ==> CellProgress(matrix.data[k], i, j + 1)
    {
      var m := matrix;
      ghost var before := m.data;
      for k := 0 to m.rows
        invariant m.Valid()
        invariant forall k' :: 0 <= k' < k ==> m.data[k'] == ExchangeIfGreater(before[k'], i, j, CellGreater)
        invariant forall k' :: k <= k' < m.rows ==> m.data[k'] == before[k']
      {
        if m.data[k][i] > m.data[k][j] {
          m.data := m.data[k := m.data[k][i := m.data[k][j]][j := m.data[k][i]]];
        }
      }
      forall k | 0 <= k < m.rows ensures CellProgress(m.data[k], i, j + 1) {
        CellExchangeStep(before[k], i, j);
      }
    }
  }
}
