/** Pure views of a dense matrix: a grid of real cells stored row by row,
    and the arithmetic the matrix engine is specified by (elementwise sums,
    products, transposition, minors, the cofactor determinant and the
    adjugate inverse). Cells are exact reals; the source uses float64. */
module MatrixGrid {

  type Grid = seq<seq<real>>

  /** 1e-10: a determinant or a pivot whose magnitude is below this counts as zero. */
  const Epsilon: real := 0.0000000001

  function Abs(x: real): real {
    if x < 0.0 then -x else x
  }

  /** `g` has `rows` rows of `cols` cells each. */
  predicate IsShape(g: Grid, rows: nat, cols: nat) {
    |g| == rows && forall i :: 0 <= i < rows ==> |g[i]| == cols
  }

  predicate IsSquare(g: Grid) {
    IsShape(g, |g|, |g|)
  }

  predicate SameShape(a: Grid, b: Grid) {
    |a| == |b| && forall i :: 0 <= i < |a| ==> |a[i]| == |b[i]|
  }

  /** The storage `NewMatrix(rows, cols)` allocates: every cell 0. */
  function Zeros(rows: nat, cols: nat): (g: Grid)
    ensures IsShape(g, rows, cols)
  {
    seq(rows, _ => seq(cols, _ => 0.0))
  }

  function Identity(n: nat): (g: Grid)
    ensures IsSquare(g) && |g| == n
  {
    seq(n, i => seq(n, j => if i == j then 1.0 else 0.0))
  }

  // ---------------------------------------------------------------------------
  // Elementwise arithmetic and transposition

  function Plus(a: Grid, b: Grid): Grid
    requires SameShape(a, b)
  {
    seq(|a|, i requires 0 <= i < |a| =>
      seq(|a[i]|, j requires 0 <= j < |a[i]| => a[i][j] + b[i][j]))
  }

  function Minus(a: Grid, b: Grid): Grid
    requires SameShape(a, b)
  {
    seq(|a|, i requires 0 <= i < |a| =>
      seq(|a[i]|, j requires 0 <= j < |a[i]| => a[i][j] - b[i][j]))
  }

  /** Subtracting what was added gives back the first operand, exactly (over reals). */
  lemma SubtractUndoesAdd(a: Grid, b: Grid)
    requires SameShape(a, b)
    ensures SameShape(Plus(a, b), b)
    ensures Minus(Plus(a, b), b) == a
  {
    var s := Plus(a, b);
    assert SameShape(s, b);
    var d := Minus(s, b);
    assert |d| == |a|;
    forall i | 0 <= i < |a| ensures d[i] == a[i] {
      assert |d[i]| == |a[i]|;
      forall j | 0 <= j < |a[i]| ensures d[i][j] == a[i][j] {
        assert d[i][j] == (a[i][j] + b[i][j]) - b[i][j];
      }
    }
  }

  /** The `cols` x `|g|` grid whose cell (j, i) is g[i][j]; `cols` is explicit so
      that a matrix with no rows still transposes to the right shape. */
  function Transposed(g: Grid, cols: nat): Grid
    requires IsShape(g, |g|, cols)
  {
    seq(cols, j requires 0 <= j < cols =>
      seq(|g|, i requires 0 <= i < |g| => g[i][j]))
  }

  lemma TransposeTwice(g: Grid, cols: nat)
    requires IsShape(g, |g|, cols)
    ensures IsShape(Transposed(g, cols), cols, |g|)
    ensures Transposed(Transposed(g, cols), |g|) == g
  {
    var t := Transposed(g, cols);
    assert IsShape(t, cols, |g|);
    var tt := Transposed(t, |g|);
    assert |tt| == |g|;
    forall i | 0 <= i < |g| ensures tt[i] == g[i] {
      assert |tt[i]| == cols;
      forall j | 0 <= j < cols ensures tt[i][j] == g[i][j] {
        assert tt[i][j] == t[j][i];
      }
    }
  }

  // ---------------------------------------------------------------------------
  // Products

  /** Sum of u[c] * v[c] for lo <= c < hi, accumulated from the left. */
  function Dot(u: seq<real>, v: seq<real>, lo: nat, hi: nat): real
    requires hi <= |u| && hi <= |v|
    decreases hi
  {
    if hi <= lo then 0.0 else Dot(u, v, lo, hi - 1) + u[hi - 1] * v[hi - 1]
  }

  function Column(g: Grid, j: nat): seq<real>
    requires forall i :: 0 <= i < |g| ==> j < |g[i]|
  {
    seq(|g|, i requires 0 <= i < |g| => g[i][j])
  }

  /** The `|a|` x `cols` product of `a` (whose rows have `|b|` cells) and `b`. */
  function Product(a: Grid, b: Grid, cols: nat): Grid
    requires IsShape(a, |a|, |b|) && IsShape(b, |b|, cols)
  {
    seq(|a|, i requires 0 <= i < |a| =>
      seq(cols, j requires 0 <= j < cols => Dot(a[i], Column(b, j), 0, |b|)))
  }

  /** A dot product against a unit row picks one cell. */
  lemma {:induction false} DotUnit(u: seq<real>, v: seq<real>, k: nat, hi: nat)
    requires hi <= |u| && hi <= |v|
    requires forall c :: 0 <= c < hi ==> u[c] == if c == k then 1.0 else 0.0
    ensures Dot(u, v, 0, hi) == if k < hi then v[k] else 0.0
  {
    if hi > 0 {
      DotUnit(u, v, k, hi - 1);
    }
  }

  /** The same, with the unit vector on the right. */
  lemma {:induction false} DotUnitRight(u: seq<real>, v: seq<real>, k: nat, hi: nat)
    requires hi <= |u| && hi <= |v|
    requires forall c :: 0 <= c < hi ==> v[c] == if c == k then 1.0 else 0.0
    ensures Dot(u, v, 0, hi) == if k < hi then u[k] else 0.0
  {
    if hi > 0 {
      DotUnitRight(u, v, k, hi - 1);
    }
  }

  /** The identity is neutral on both sides of the product. */
  lemma IdentityNeutral(a: Grid, rows: nat, cols: nat)
    requires IsShape(a, rows, cols)
    ensures Product(Identity(rows), a, cols) == a
    ensures Product(a, Identity(cols), cols) == a
  {
    var id := Identity(rows);
    var left := Product(id, a, cols);
    forall i | 0 <= i < rows ensures left[i] == a[i] {
      forall j | 0 <= j < cols ensures left[i][j] == a[i][j] {
        DotUnit(id[i], Column(a, j), i, rows);
      }
    }
    var idc := Identity(cols);
    var right := Product(a, idc, cols);
    forall i | 0 <= i < rows ensures right[i] == a[i] {
      forall j | 0 <= j < cols ensures right[i][j] == a[i][j] {
        DotUnitRight(a[i], Column(idc, j), j, cols);
      }
    }
  }

  // ---------------------------------------------------------------------------
  // Minors and the determinant

  function RemoveAt<T>(s: seq<T>, k: nat): (r: seq<T>)
    requires k < |s|
    ensures |r| == |s| - 1
  {
    s[..k] + s[k + 1..]
  }

  /** Index of the source row (column) that lands at index `k` once index `removed` is deleted. */
  function Skip(k: nat, removed: nat): nat {
    if k < removed then k else k + 1
  }

  /** The grid with row `row` and column `col` deleted, the other rows and columns in their order. */
  function Minor(g: Grid, row: nat, col: nat): (m: Grid)
    requires IsSquare(g) && row < |g| && col < |g|
    ensures IsSquare(m) && |m| == |g| - 1
    ensures forall i, j :: 0 <= i < |m| && 0 <= j < |m| ==>
      m[i][j] == g[Skip(i, row)][Skip(j, col)]
  {
    var kept := RemoveAt(g, row);
    seq(|kept|, i requires 0 <= i < |kept| => RemoveAt(kept[i], col))
  }

  /** A 1 x 1 grid is the display of its one cell. */
  lemma SingleCell(m: Grid)
    requires IsSquare(m) && |m| == 1
    ensures m == [[m[0][0]]]
  {
    assert m[0] == [m[0][0]];
  }

  /** +1 for even k, -1 for odd k: the value of (-1)^k. */
  function Sign(k: nat): real {
    if k % 2 == 0 then 1.0 else -1.0
  }

  /** Laplace expansion along row 0: a 1 x 1 grid is its cell; otherwise (also for
      the empty grid) the alternating sum over every column. */
  function Det(g: Grid): real
    requires IsSquare(g)
    decreases |g|, 1
  {
    if |g| == 1 then g[0][0] else Expansion(g, |g|)
  }

  /** Sum over j < k of Sign(j) * g[0][j] * Det(Minor(g, 0, j)). */
  function Expansion(g: Grid, k: nat): real
    requires IsSquare(g) && k <= |g|
    decreases |g|, 0, k
  {
    if k == 0 then 0.0
    else Expansion(g, k - 1) + Sign(k - 1) * g[0][k - 1] * Det(Minor(g, 0, k - 1))
  }

  /** For 2 x 2 grids the expansion is ad - bc. */
  lemma DetTwoByTwo(a: real, b: real, c: real, d: real)
    ensures IsSquare([[a, b], [c, d]])
    ensures Det([[a, b], [c, d]]) == a * d - b * c
  {
    var g := [[a, b], [c, d]];
    assert IsSquare(g);
    SingleCell(Minor(g, 0, 0));
    SingleCell(Minor(g, 0, 1));
    assert Expansion(g, 1) == a * d;
    assert Expansion(g, 2) == a * d - b * c;
  }

  /** The expansion along a row 0 that is all zeros vanishes. */
  lemma {:induction false} ExpansionZeroRow(g: Grid, k: nat)
    requires IsSquare(g) && 0 < |g| && k <= |g|
    requires forall j :: 0 <= j < |g| ==> g[0][j] == 0.0
    ensures Expansion(g, k) == 0.0
  {
    if k > 0 {
      ExpansionZeroRow(g, k - 1);
    }
  }

  lemma DetZeroRow(g: Grid)
    requires IsSquare(g) && 0 < |g|
    requires forall j :: 0 <= j < |g| ==> g[0][j] == 0.0
    ensures Det(g) == 0.0
  {
    ExpansionZeroRow(g, |g|);
  }

  lemma MinorOfIdentity(n: nat)
    requires 0 < n
    ensures Minor(Identity(n), 0, 0) == Identity(n - 1)
  {
    var m := Minor(Identity(n), 0, 0);
    var id := Identity(n - 1);
    forall i | 0 <= i < n - 1 ensures m[i] == id[i] {
      forall j | 0 <= j < n - 1 ensures m[i][j] == id[i][j] {
        assert m[i][j] == Identity(n)[i + 1][j + 1];
      }
    }
  }

  /** Only the first term of the identity's expansion survives. */
  lemma {:induction false} ExpansionOfIdentity(n: nat, k: nat)
    requires 1 <= k <= n
    ensures Expansion(Identity(n), k) == Det(Identity(n - 1))
  {
    var id := Identity(n);
    if k == 1 {
      MinorOfIdentity(n);
      assert Expansion(id, 1) == Expansion(id, 0) + Sign(0) * id[0][0] * Det(Minor(id, 0, 0));
    } else {
      ExpansionOfIdentity(n, k - 1);
      assert id[0][k - 1] == 0.0;
    }
  }

  lemma {:induction false} DetIdentity(n: nat)
    requires 1 <= n
    ensures Det(Identity(n)) == 1.0
  {
    if n > 1 {
      ExpansionOfIdentity(n, n);
      DetIdentity(n - 1);
    }
  }

  /** The concrete case [[1, 2], [3, 4]] has determinant -2. */
  lemma DetExample()
    ensures IsSquare([[1.0, 2.0], [3.0, 4.0]])
    ensures Det([[1.0, 2.0], [3.0, 4.0]]) == -2.0
  {
    DetTwoByTwo(1.0, 2.0, 3.0, 4.0);
  }

  // ---------------------------------------------------------------------------
  // The adjugate inverse

  /** Determinant of a minor inside a cofactor: the empty minor of a 1 x 1
      matrix counts as 1 (the corrected reading, see `MinorDetAsWritten`). */
  function MinorDet(m: Grid): real
    requires IsSquare(m)
  {
    if |m| == 0 then 1.0 else Det(m)
  }

  /** As the source computes it: the empty minor goes through the plain
      recursion and gives 0. */
  function MinorDetAsWritten(m: Grid): real
    requires IsSquare(m)
  {
    Det(m)
  }

  function Cofactor(g: Grid, i: nat, j: nat): real
    requires IsSquare(g) && i < |g| && j < |g|
  {
    Sign(i + j) * MinorDet(Minor(g, i, j))
  }

  /** Cell (i, j) is the cofactor of (j, i) over the determinant: the transposed
      cofactor grid (the adjugate) divided by Det(g). */
  function InverseGrid(g: Grid): Grid
    requires IsSquare(g) && Det(g) != 0.0
  {
    seq(|g|, i requires 0 <= i < |g| =>
      seq(|g|, j requires 0 <= j < |g| => Cofactor(g, j, i) / Det(g)))
  }

  function InverseGridAsWritten(g: Grid): Grid
    requires IsSquare(g) && Det(g) != 0.0
  {
    seq(|g|, i requires 0 <= i < |g| =>
      seq(|g|, j requires 0 <= j < |g| => Sign(j + i) * MinorDetAsWritten(Minor(g, j, i)) / Det(g)))
  }

  /** As written, a 1 x 1 matrix [[a]] with a != 0 "inverts" to [[0]], which is no inverse. */
  lemma InverseAsWrittenOneByOne(a: real)
    requires a != 0.0
    ensures IsSquare([[a]]) && Det([[a]]) == a
    ensures InverseGridAsWritten([[a]]) == [[0.0]]
    ensures Product([[a]], InverseGridAsWritten([[a]]), 1) != Identity(1)
  {
    var g := [[a]];
    assert IsSquare(g);
    assert Minor(g, 0, 0) == [];
    assert Expansion([], 0) == 0.0;
    var inv := InverseGridAsWritten(g);
    assert inv[0][0] == 0.0;
    SingleCell(inv);
    var p := Product(g, inv, 1);
    assert p[0][0] == Dot(g[0], Column(inv, 0), 0, 1);
    assert p[0][0] == 0.0;
    assert Identity(1)[0][0] == 1.0;
  }

  /** Corrected, a 1 x 1 matrix [[a]] inverts to [[1 / a]]. */
  lemma InverseOneByOne(a: real)
    requires a != 0.0
    ensures IsSquare([[a]]) && Det([[a]]) == a
    ensures InverseGrid([[a]]) == [[1.0 / a]]
    ensures Product([[a]], InverseGrid([[a]]), 1) == Identity(1)
    ensures Product(InverseGrid([[a]]), [[a]], 1) == Identity(1)
  {
    var g := [[a]];
    assert IsSquare(g);
    assert Minor(g, 0, 0) == [];
    var inv := InverseGrid(g);
    assert inv[0][0] == 1.0 / a;
    SingleCell(inv);
    var p := Product(g, inv, 1);
    assert p[0][0] == a * (1.0 / a) == 1.0;
    SingleCell(p);
    var q := Product(inv, g, 1);
    assert q[0][0] == (1.0 / a) * a == 1.0;
    SingleCell(q);
    SingleCell(Identity(1));
  }

  /** The 2 x 2 adjugate: [[d, -b], [-c, a]] over ad - bc. */
  lemma InverseCellsTwoByTwo(a: real, b: real, c: real, d: real)
    requires a * d - b * c != 0.0
    ensures IsSquare([[a, b], [c, d]]) && Det([[a, b], [c, d]]) == a * d - b * c
    ensures InverseGrid([[a, b], [c, d]]) ==
      [[d / (a * d - b * c), -b / (a * d - b * c)], [-c / (a * d - b * c), a / (a * d - b * c)]]
  {
    var g := [[a, b], [c, d]];
    DetTwoByTwo(a, b, c, d);
    var det := a * d - b * c;
    SingleCell(Minor(g, 0, 0));
    SingleCell(Minor(g, 0, 1));
    SingleCell(Minor(g, 1, 0));
    SingleCell(Minor(g, 1, 1));
    var inv := InverseGrid(g);
    assert inv[0][0] == d / det && inv[0][1] == -b / det;
    assert inv[1][0] == -c / det && inv[1][1] == a / det;
    assert inv[0] == [d / det, -b / det] && inv[1] == [-c / det, a / det];
  }

  /** For 2 x 2 matrices the adjugate inverse is a two-sided inverse. */
  lemma InverseTwoByTwo(a: real, b: real, c: real, d: real)
    requires a * d - b * c != 0.0
    ensures IsSquare([[a, b], [c, d]]) && Det([[a, b], [c, d]]) == a * d - b * c
    ensures Product([[a, b], [c, d]], InverseGrid([[a, b], [c, d]]), 2) == Identity(2)
    ensures Product(InverseGrid([[a, b], [c, d]]), [[a, b], [c, d]], 2) == Identity(2)
  {
    InverseCellsTwoByTwo(a, b, c, d);
    var det := a * d - b * c;
    var k := 1.0 / det;
    ScaledQuotients(a, b, c, d, det);
    assert d / det == d * k;
    assert -b / det == -b * k;
    assert -c / det == -c * k;
    assert a / det == a * k;
    var quotients := [[d / det, -b / det], [-c / det, a / det]];
    assert quotients[0] == [d * k, -b * k] && quotients[1] == [-c * k, a * k];
    assert InverseGrid([[a, b], [c, d]]) == [[d * k, -b * k], [-c * k, a * k]];
    AdjugateProducts(a, b, c, d, k);
  }

  lemma ScaledQuotients(a: real, b: real, c: real, d: real, det: real)
    requires det != 0.0
    ensures d / det == d * (1.0 / det) && -b / det == -b * (1.0 / det)
    ensures -c / det == -c * (1.0 / det) && a / det == a * (1.0 / det)
  {
  }

  /** [[a, b], [c, d]] times [[d, -b], [-c, a]] scaled by k, in both orders, when (ad - bc) k = 1. */
  lemma AdjugateProducts(a: real, b: real, c: real, d: real, k: real)
    requires (a * d - b * c) * k == 1.0
    ensures Product([[a, b], [c, d]], [[d * k, -b * k], [-c * k, a * k]], 2) == Identity(2)
    ensures Product([[d * k, -b * k], [-c * k, a * k]], [[a, b], [c, d]], 2) == Identity(2)
  {
    var g := [[a, b], [c, d]];
    var inv := [[d * k, -b * k], [-c * k, a * k]];
    ProductTwoByTwo(g, inv);
    ProductTwoByTwo(inv, g);
    var p := Product(g, inv, 2);
    assert p[0][0] == a * (d * k) + b * (-c * k) == (a * d - b * c) * k;
    assert p[0][1] == a * (-b * k) + b * (a * k) == 0.0;
    assert p[1][0] == c * (d * k) + d * (-c * k) == 0.0;
    assert p[1][1] == c * (-b * k) + d * (a * k) == (a * d - b * c) * k;
    assert p[0] == Identity(2)[0] && p[1] == Identity(2)[1];
    var q := Product(inv, g, 2);
    assert q[0][0] == (d * k) * a + (-b * k) * c == (a * d - b * c) * k;
    assert q[0][1] == (d * k) * b + (-b * k) * d == 0.0;
    assert q[1][0] == (-c * k) * a + (a * k) * c == 0.0;
    assert q[1][1] == (-c * k) * b + (a * k) * d == (a * d - b * c) * k;
    assert q[0] == Identity(2)[0] && q[1] == Identity(2)[1];
  }

  lemma ProductTwoByTwo(x: Grid, y: Grid)
    requires IsShape(x, 2, 2) && IsShape(y, 2, 2)
    ensures IsShape(Product(x, y, 2), 2, 2)
    ensures forall i, j :: 0 <= i < 2 && 0 <= j < 2 ==>
      Product(x, y, 2)[i][j] == x[i][0] * y[0][j] + x[i][1] * y[1][j]
  {
  }

  /** The concrete case: the inverse of [[1, 2], [3, 4]] is [[-2, 1], [1.5, -0.5]]. */
  lemma InverseExample()
    ensures IsSquare([[1.0, 2.0], [3.0, 4.0]]) && Det([[1.0, 2.0], [3.0, 4.0]]) == -2.0
    ensures InverseGrid([[1.0, 2.0], [3.0, 4.0]]) == [[-2.0, 1.0], [1.5, -0.5]]
  {
    InverseCellsTwoByTwo(1.0, 2.0, 3.0, 4.0);
  }
}
