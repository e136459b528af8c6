/** Pure specification of the values a `matrix::Matrix<int, R, C>` holds and of
    what its operations compute: an R x C grid is a sequence of R rows of C
    integers. The class in module Matrices is proved against these functions;
    the lemmas here state what the functions mean. */
module Grids {

  type Grid = seq<seq<int>>

  /** Every row of `g` has exactly `cols` cells. */
  predicate Rect(g: Grid, cols: nat) {
    forall r :: 0 <= r < |g| ==> |g[r]| == cols
  }

  /** `g` has the shape rows x cols. */
  predicate IsGrid(g: Grid, rows: nat, cols: nat) {
    |g| == rows && Rect(g, cols)
  }

  /** `g` is an n x n grid. */
  predicate IsSquare(g: Grid) {
    Rect(g, |g|)
  }

  /** `a` and `b` have the same number of rows, and matching rows the same length. */
  predicate SameShape(a: Grid, b: Grid) {
    |a| == |b| && forall r :: 0 <= r < |a| ==> |a[r]| == |b[r]|
  }

  /** `a` (R x C) can be multiplied by `b` (C x OC): `b` has at least one row,
      every row of `a` is as long as `b` has rows, and `b` is rectangular. */
  predicate Conformable(a: Grid, b: Grid) {
    |b| >= 1 && Rect(a, |b|) && Rect(b, |b[0]|)
  }

  /** The all-zero grid: what the default constructor and `clear` produce. */
  function Zero(rows: nat, cols: nat): (g: Grid)
    ensures IsGrid(g, rows, cols)
  {
    seq(rows, _ => seq(cols, _ => 0))
  }

  /** 1 on the cells with equal row and column index, 0 elsewhere, for any shape. */
  function Identity(rows: nat, cols: nat): (g: Grid)
    ensures IsGrid(g, rows, cols)
  {
    seq(rows, r => seq(cols, c => if r == c then 1 else 0))
  }

  /** Cellwise sum. */
  function Add(a: Grid, b: Grid): (g: Grid)
    requires SameShape(a, b)
    ensures SameShape(g, a)
  {
    seq(|a|, r requires 0 <= r < |a| =>
      seq(|a[r]|, c requires 0 <= c < |a[r]| => a[r][c] + b[r][c]))
  }

  /** Cellwise difference. */
  function Sub(a: Grid, b: Grid): (g: Grid)
    requires SameShape(a, b)
    ensures SameShape(g, a)
  {
    seq(|a|, r requires 0 <= r < |a| =>
      seq(|a[r]|, c requires 0 <= c < |a[r]| => a[r][c] - b[r][c]))
  }

  /** Every cell multiplied by the scalar `t`. */
  function Scale(a: Grid, t: int): (g: Grid)
    ensures SameShape(g, a)
  {
    seq(|a|, r requires 0 <= r < |a| =>
      seq(|a[r]|, c requires 0 <= c < |a[r]| => a[r][c] * t))
  }

  /** Scalar `*=` whose operand is a reference to cell (r0, c0) of the same
      grid: the cells are scaled in row-major order and each re-reads the
      operand, so the cells up to and including (r0, c0) are multiplied by its
      old value x and every later cell by the updated value x * x. */
  function ScaleByOwnCell(a: Grid, r0: nat, c0: nat): (g: Grid)
    requires r0 < |a| && c0 < |a[r0]|
    ensures SameShape(g, a)
  {
    var x := a[r0][c0];
    seq(|a|, r requires 0 <= r < |a| =>
      seq(|a[r]|, c requires 0 <= c < |a[r]| =>
        if r < r0 || (r == r0 && c <= c0) then a[r][c] * x else a[r][c] * (x * x)))
  }

  /** The sum of a[r][j] * b[j][c] over j < k, accumulated in increasing j. */
  function Dot(a: Grid, b: Grid, r: nat, c: nat, k: nat): (d: int)
    requires Conformable(a, b) && r < |a| && c < |b[0]| && k <= |b|
  {
    if k == 0 then 0 else Dot(a, b, r, c, k - 1) + a[r][k - 1] * b[k - 1][c]
  }

  /** The matrix product of an R x C grid and a C x OC grid: an R x OC grid. */
  function Product(a: Grid, b: Grid): (g: Grid)
    requires Conformable(a, b)
    ensures IsGrid(g, |a|, |b[0]|)
  {
    seq(|a|, r requires 0 <= r < |a| =>
      seq(|b[0]|, c requires 0 <= c < |b[0]| => Dot(a, b, r, c, |b|)))
  }

  /** The free `operator*` as written: it demands R == OC and sums only the
      first R products of each cell. Its reads stay in bounds only when R <= C. */
  function ProductAsWritten(a: Grid, b: Grid): (g: Grid)
    requires Conformable(a, b) && |a| == |b[0]| && |a| <= |b|
    ensures IsGrid(g, |a|, |a|)
  {
    seq(|a|, r requires 0 <= r < |a| =>
      seq(|a|, c requires 0 <= c < |a| => Dot(a, b, r, c, |a|)))
  }

  /** The (n-1) x (n-1) grid left after deleting row 0 and column `col`. */
  function Minor(m: Grid, col: nat): (v: Grid)
    requires IsSquare(m) && 1 <= |m| && col < |m|
    ensures |v| == |m| - 1 && IsSquare(v)
    ensures forall r, c :: 1 <= r < |m| && 0 <= c < |m| && c != col ==>
              v[r - 1][if c < col then c else c - 1] == m[r][c]
  {
    seq(|m| - 1, r requires 0 <= r < |m| - 1 =>
      seq(|m| - 1, c requires 0 <= c < |m| - 1 =>
        if c < col then m[r + 1][c] else m[r + 1][c + 1]))
  }

  /** (-1)^col, which the source computes as a double power. */
  function Sign(col: nat): (s: int)
    ensures s == 1 || s == -1
  {
    if col % 2 == 0 then 1 else -1
  }

  /** Determinant by Laplace expansion along row 0, with the source's direct
      1 x 1 and 2 x 2 cases. */
  function Det(m: Grid): (d: int)
    requires IsSquare(m) && |m| >= 1
    decreases |m|, 1, 0
  {
    if |m| == 1 then m[0][0]
    else if |m| == 2 then m[0][0] * m[1][1] - m[0][1] * m[1][0]
    else CofactorSum(m, |m|)
  }

  /** The first k terms of the expansion along row 0. */
  function CofactorSum(m: Grid, k: nat): (d: int)
    requires IsSquare(m) && |m| >= 2 && k <= |m|
    decreases |m|, 0, k
  {
    if k == 0 then 0
    else CofactorSum(m, k - 1) + Sign(k - 1) * m[0][k - 1] * Det(Minor(m, k - 1))
  }

  /** Cells above the main diagonal are zero. */
  predicate LowerTriangular(m: Grid)
    requires IsSquare(m)
  {
    forall r, c :: 0 <= r < c < |m| ==> m[r][c] == 0
  }

  /** The product of the diagonal cells from index i on. */
  function DiagonalFrom(m: Grid, i: nat): (p: int)
    requires IsSquare(m) && i <= |m|
    decreases |m| - i
  {
    if i == |m| then 1 else m[i][i] * DiagonalFrom(m, i + 1)
  }

  /** t to the power n. */
  function Pow(t: int, n: nat): (p: int) {
    if n == 0 then 1 else t * Pow(t, n - 1)
  }

  /** The integer sign is the power the source computes. */
  lemma {:induction false} SignIsPow(col: nat)
    ensures Sign(col) == Pow(-1, col)
  {
    if col > 0 {
      SignIsPow(col - 1);
    }
  }

  // ---------------------------------------------------------------------
  // Elementwise arithmetic

  /** Scaling by a cell of the same grid agrees with scaling by its value
      when the second factor changes nothing: the operand is the last cell,
      or its value is 0 or 1. */
  lemma ScaleByOwnCellAgrees(a: Grid, r0: nat, c0: nat)
    requires r0 < |a| && Rect(a, |a[0]|) && c0 < |a[0]|
    requires var x := a[r0][c0]; x == 0 || x == 1 || (r0 == |a| - 1 && c0 == |a[0]| - 1)
    ensures ScaleByOwnCell(a, r0, c0) == Scale(a, a[r0][c0])
  {
    var x := a[r0][c0];
    var g, h := ScaleByOwnCell(a, r0, c0), Scale(a, x);
    forall r | 0 <= r < |a| ensures g[r] == h[r] {
      forall c | 0 <= c < |a[r]| ensures g[r][c] == h[r][c] {
        if !(r < r0 || (r == r0 && c <= c0)) {
          assert x * x == x;
        }
      }
    }
  }

  /** The aliased scalar product on [[1, 2], [3, 4]] with the operand at
      (1, 0): the last cell is multiplied by 9, not by 3. */
  lemma ScaleByOwnCellExample()
    ensures ScaleByOwnCell([[1, 2], [3, 4]], 1, 0) == [[3, 6], [9, 36]]
    ensures ScaleByOwnCell([[1, 2], [3, 4]], 1, 0) != Scale([[1, 2], [3, 4]], 3)
  {
    var g := ScaleByOwnCell([[1, 2], [3, 4]], 1, 0);
    assert g[0] == [3, 6];
    assert g[1] == [9, 36];
    assert Scale([[1, 2], [3, 4]], 3)[1][1] == 12;
  }

  /** (A + B) - B == A. */
  lemma AddSubCancel(a: Grid, b: Grid)
    requires SameShape(a, b)
    ensures Sub(Add(a, b), b) == a
  {
    var s := Sub(Add(a, b), b);
    forall r | 0 <= r < |a| ensures s[r] == a[r] {
      assert |s[r]| == |a[r]|;
    }
  }

  /** A + B == B + A. */
  lemma AddCommutes(a: Grid, b: Grid)
    requires SameShape(a, b)
    ensures Add(a, b) == Add(b, a)
  {
    forall r | 0 <= r < |a| ensures Add(a, b)[r] == Add(b, a)[r] {
      assert |Add(a, b)[r]| == |Add(b, a)[r]|;
    }
  }

  /** A - A is the zero grid: the free operator- subtracts an operand from itself. */
  lemma SubSelfIsZero(a: Grid, rows: nat, cols: nat)
    requires IsGrid(a, rows, cols)
    ensures Sub(a, a) == Zero(rows, cols)
  {
    forall r | 0 <= r < rows ensures Sub(a, a)[r] == Zero(rows, cols)[r] {
      assert |Sub(a, a)[r]| == cols;
    }
  }

  // ---------------------------------------------------------------------
  // Matrix product

  lemma {:induction false} DotIdentityRight(a: Grid, rows: nat, cols: nat, r: nat, c: nat, k: nat)
    requires IsGrid(a, rows, cols) && cols >= 1
    requires r < rows && c < cols && k <= cols
    ensures Dot(a, Identity(cols, cols), r, c, k) == if c < k then a[r][c] else 0
  {
    if k > 0 {
      DotIdentityRight(a, rows, cols, r, c, k - 1);
    }
  }

  /** A * I == A for an R x C grid A and the C x C identity. */
  lemma ProductIdentityRight(a: Grid, rows: nat, cols: nat)
    requires IsGrid(a, rows, cols) && cols >= 1
    ensures Product(a, Identity(cols, cols)) == a
  {
    var p := Product(a, Identity(cols, cols));
    forall r | 0 <= r < rows ensures p[r] == a[r] {
      forall c | 0 <= c < cols ensures p[r][c] == a[r][c] {
        DotIdentityRight(a, rows, cols, r, c, cols);
      }
    }
  }

  lemma {:induction false} DotIdentityLeft(a: Grid, rows: nat, cols: nat, r: nat, c: nat, k: nat)
    requires IsGrid(a, rows, cols) && rows >= 1
    requires r < rows && c < cols && k <= rows
    ensures Dot(Identity(rows, rows), a, r, c, k) == if r < k then a[r][c] else 0
  {
    if k > 0 {
      DotIdentityLeft(a, rows, cols, r, c, k - 1);
    }
  }

  /** I * A == A for the R x R identity and an R x C grid A. */
  lemma ProductIdentityLeft(a: Grid, rows: nat, cols: nat)
    requires IsGrid(a, rows, cols) && rows >= 1
    ensures Product(Identity(rows, rows), a) == a
  {
    var p := Product(Identity(rows, rows), a);
    forall r | 0 <= r < rows ensures p[r] == a[r] {
      forall c | 0 <= c < cols ensures p[r][c] == a[r][c] {
        DotIdentityLeft(a, rows, cols, r, c, rows);
      }
    }
  }

  /** On square operands the as-written free product is the matrix product. */
  lemma ProductAsWrittenSquare(a: Grid, b: Grid)
    requires Conformable(a, b) && |a| == |b| == |b[0]|
    ensures ProductAsWritten(a, b) == Product(a, b)
  {
  }

  /** Every cell of `g` is 1. */
  predicate AllOnes(g: Grid) {
    forall r, c :: 0 <= r < |g| && 0 <= c < |g[r]| ==> g[r][c] == 1
  }

  lemma {:induction false} DotAllOnes(a: Grid, b: Grid, r: nat, c: nat, k: nat)
    requires Conformable(a, b) && r < |a| && c < |b[0]| && k <= |b|
    requires AllOnes(a) && AllOnes(b)
    ensures Dot(a, b, r, c, k) == k
  {
    if k > 0 {
      DotAllOnes(a, b, r, c, k - 1);
    }
  }

  /** When R < C the as-written free product drops the last C - R terms of
      every cell: on all-ones operands each cell is R instead of C. */
  lemma ProductAsWrittenDropsTerms(a: Grid, b: Grid)
    requires Conformable(a, b) && |a| == |b[0]| && 1 <= |a| < |b|
    requires AllOnes(a) && AllOnes(b)
    ensures ProductAsWritten(a, b)[0][0] == |a|
    ensures Product(a, b)[0][0] == |b|
    ensures ProductAsWritten(a, b) != Product(a, b)
  {
    DotAllOnes(a, b, 0, 0, |a|);
    DotAllOnes(a, b, 0, 0, |b|);
  }

  // ---------------------------------------------------------------------
  // Determinant

  /** The direct 2 x 2 formula is the Laplace expansion too, so for every
      n >= 2 the determinant is the cofactor sum along row 0. */
  lemma DetIsCofactorExpansion(m: Grid)
    requires IsSquare(m) && |m| >= 2
    ensures Det(m) == CofactorSum(m, |m|)
  {
    if |m| == 2 {
      var m0, m1 := Minor(m, 0), Minor(m, 1);
      assert m0[0][0] == m[1][1] && Det(m0) == m[1][1];
      assert m1[0][0] == m[1][0] && Det(m1) == m[1][0];
      assert Sign(0) == 1 && Sign(1) == -1;
      assert CofactorSum(m, 1) == m[0][0] * m[1][1];
      assert CofactorSum(m, 2) == CofactorSum(m, 1) + -1 * m[0][1] * m[1][0];
    }
  }

  /** When row 0 is zero beyond column 0, only the first cofactor survives. */
  lemma {:induction false} CofactorSumFirstColumn(m: Grid, k: nat)
    requires IsSquare(m) && |m| >= 2 && 1 <= k <= |m|
    requires forall c :: 1 <= c < |m| ==> m[0][c] == 0
    ensures CofactorSum(m, k) == m[0][0] * Det(Minor(m, 0))
  {
    if k > 1 {
      CofactorSumFirstColumn(m, k - 1);
      assert m[0][k - 1] == 0;
    }
  }

  lemma {:induction false} MinorDiagonal(m: Grid, i: nat)
    requires IsSquare(m) && |m| >= 1 && i <= |m| - 1
    ensures DiagonalFrom(Minor(m, 0), i) == DiagonalFrom(m, i + 1)
    decreases |m| - i
  {
    if i < |m| - 1 {
      MinorDiagonal(m, i + 1);
      assert Minor(m, 0)[i][i] == m[i + 1][i + 1];
    }
  }

  /** The determinant of a lower-triangular grid is the product of its diagonal. */
  lemma {:induction false} DetLowerTriangular(m: Grid)
    requires IsSquare(m) && |m| >= 1 && LowerTriangular(m)
    ensures Det(m) == DiagonalFrom(m, 0)
    decreases |m|
  {
    var n := |m|;
    if n == 1 {
      assert DiagonalFrom(m, 1) == 1;
    } else if n == 2 {
      assert m[0][1] == 0;
      assert DiagonalFrom(m, 2) == 1;
    } else {
      var v := Minor(m, 0);
      assert LowerTriangular(v) by {
        forall r, c | 0 <= r < c < |v| ensures v[r][c] == 0 {
          assert v[r][c] == m[r + 1][c + 1];
        }
      }
      CofactorSumFirstColumn(m, n);
      DetLowerTriangular(v);
      MinorDiagonal(m, 0);
    }
  }

  lemma {:induction false} IdentityDiagonal(n: nat, i: nat)
    requires i <= n
    ensures DiagonalFrom(Identity(n, n), i) == 1
    decreases n - i
  {
    if i < n {
      IdentityDiagonal(n, i + 1);
    }
  }

  /** The identity of every dimension has determinant 1. */
  lemma DetIdentity(n: nat)
    requires n >= 1
    ensures Det(Identity(n, n)) == 1
  {
    DetLowerTriangular(Identity(n, n));
    IdentityDiagonal(n, 0);
  }

  /** The zero grid of every dimension has determinant 0. */
  lemma DetZero(n: nat)
    requires n >= 1
    ensures Det(Zero(n, n)) == 0
  {
    DetLowerTriangular(Zero(n, n));
  }

  lemma MinorScale(m: Grid, t: int, col: nat)
    requires IsSquare(m) && |m| >= 1 && col < |m|
    ensures Minor(Scale(m, t), col) == Scale(Minor(m, col), t)
  {
    var x, y := Minor(Scale(m, t), col), Scale(Minor(m, col), t);
    forall r | 0 <= r < |m| - 1 ensures x[r] == y[r] {
      assert |x[r]| == |y[r]|;
    }
  }

  /** Scaling an n x n grid by t scales its determinant by t^n: the scalar
      `*=` and `det` commute this way. */
  lemma {:induction false} DetScale(m: Grid, t: int)
    requires IsSquare(m) && |m| >= 1
    ensures Det(Scale(m, t)) == Pow(t, |m|) * Det(m)
    decreases |m|, 1, 0
  {
    var s := Scale(m, t);
    if |m| == 1 {
      assert Pow(t, 1) == t;
    } else if |m| == 2 {
      var a, b, c, d := m[0][0], m[0][1], m[1][0], m[1][1];
      assert Det(s) == (a * t) * (d * t) - (b * t) * (c * t);
      assert Pow(t, 1) == t;
      assert Pow(t, 2) == t * t;
      calc {
        (a * t) * (d * t) - (b * t) * (c * t);
        (t * t) * (a * d) - (t * t) * (b * c);
        (t * t) * (a * d - b * c);
      }
    } else {
      CofactorSumScale(m, t, |m|);
    }
  }

  lemma ScaledCofactor(sg: int, x: int, t: int, p: int, d: int, prev: int)
    ensures (t * p) * prev + sg * (x * t) * (p * d) == (t * p) * (prev + sg * x * d)
  {
    calc {
      sg * (x * t) * (p * d);
      (sg * x) * (t * (p * d));
      (sg * x) * ((t * p) * d);
      (t * p) * (sg * x * d);
    }
  }

  /** One term of the expansion of the scaled grid is t^n times the term of the original. */
  lemma {:induction false} ScaledTerm(m: Grid, t: int, col: nat)
    requires IsSquare(m) && |m| >= 3 && col < |m|
    ensures Sign(col) * Scale(m, t)[0][col] * Det(Minor(Scale(m, t), col))
         == Pow(t, |m|) * (Sign(col) * m[0][col] * Det(Minor(m, col)))
    decreases |m|, 0, 0
  {
    var s := Scale(m, t);
    MinorScale(m, t, col);
    DetScale(Minor(m, col), t);
    var d, p, x, sg := Det(Minor(m, col)), Pow(t, |m| - 1), m[0][col], Sign(col);
    assert Det(Minor(s, col)) == p * d;
    assert s[0][col] == x * t;
    assert Pow(t, |m|) == t * p;
    ScaledCofactor(sg, x, t, p, d, 0);
  }

  lemma {:induction false} CofactorSumScale(m: Grid, t: int, k: nat)
    requires IsSquare(m) && |m| >= 3 && k <= |m|
    ensures CofactorSum(Scale(m, t), k) == Pow(t, |m|) * CofactorSum(m, k)
    decreases |m|, 0, k
  {
    var s := Scale(m, t);
    ScaleSquare(m, t);
    if k > 0 {
      CofactorSumScale(m, t, k - 1);
      ScaledTerm(m, t, k - 1);
      var q := Pow(t, |m|);
      var prev, term := CofactorSum(m, k - 1), Sign(k - 1) * m[0][k - 1] * Det(Minor(m, k - 1));
      var sprev, sterm := CofactorSum(s, k - 1), Sign(k - 1) * s[0][k - 1] * Det(Minor(s, k - 1));
      assert CofactorSum(s, k) == sprev + sterm;
      assert CofactorSum(m, k) == prev + term;
      Distribute(q, prev, term);
    }
  }

  lemma ScaleSquare(m: Grid, t: int)
    requires IsSquare(m)
    ensures IsSquare(Scale(m, t)) && |Scale(m, t)| == |m|
  {
  }

  lemma Distribute(q: int, x: int, y: int)
    ensures q * x + q * y == q * (x + y)
  {
  }

  /** The reference values of the 1 x 1 and 2 x 2 examples. */
  lemma DetSmallExamples()
    ensures Det([[5]]) == 5
    ensures Det([[1, 2], [3, 4]]) == -2
  {
  }

  /** The reference value of the 3 x 3 example. */
  lemma DetThreeByThreeExample()
    ensures Det([[6, 1, 1], [4, -2, 5], [2, 8, 7]]) == -306
  {
    var m := [[6, 1, 1], [4, -2, 5], [2, 8, 7]];
    assert Det(Minor(m, 0)) == -2 * 7 - 5 * 8;
    assert Det(Minor(m, 1)) == 4 * 7 - 5 * 2;
    assert Det(Minor(m, 2)) == 4 * 8 - (-2) * 2;
  }

  /** The reference values of the scalar and matrix product examples. */
  lemma ArithmeticExamples()
    ensures Scale([[1, 2], [3, 4]], 2) == [[2, 4], [6, 8]]
    ensures Product([[1, 2], [3, 4]], [[5, 6], [7, 8]]) == [[19, 22], [43, 50]]
  {
    var q := Scale([[1, 2], [3, 4]], 2);
    assert q[0] == [2, 4];
    assert q[1] == [6, 8];
    var p := Product([[1, 2], [3, 4]], [[5, 6], [7, 8]]);
    assert p[0] == [19, 22];
    assert p[1] == [43, 50];
  }
}
