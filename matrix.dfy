/** The class `matrix::Matrix<int, R, C>`: an R x C grid of integers stored in a
    two-dimensional array, filled by its constructors and updated in place by
    its compound operators, plus the free operators that return new matrices.
    Every operation is proved against the grid functions of module Grids. */
module Matrices {
  import opened Grids

  /** The contents of a two-dimensional array, row by row. */
  function CellsOf(a: array2<int>): (g: Grid)
    reads a
    ensures IsGrid(g, a.Length0, a.Length1)
    ensures forall r, c :: 0 <= r < a.Length0 && 0 <= c < a.Length1 ==> g[r][c] == a[r, c]
  {
    seq(a.Length0, r requires 0 <= r < a.Length0 reads a =>
      seq(a.Length1, c requires 0 <= c < a.Length1 reads a => a[r, c]))
  }

  /** An array whose cells agree with a grid of its shape holds that grid. */
  lemma SameCells(a: array2<int>, g: Grid)
    requires IsGrid(g, a.Length0, a.Length1)
    requires forall r, c :: 0 <= r < a.Length0 && 0 <= c < a.Length1 ==> a[r, c] == g[r][c]
    ensures CellsOf(a) == g
  {
    var h := CellsOf(a);
    forall r | 0 <= r < a.Length0 ensures h[r] == g[r] {
      assert |h[r]| == |g[r]|;
    }
  }

  // ---------------------------------------------------------------------
  // Row-major positions: cell (r, c) of a grid with `cols` columns is the
  // element at r * cols + c of a flat list.

  lemma {:induction false} MulMonotone(a: nat, b: nat, n: nat)
    requires a <= b
    ensures a * n <= b * n
    decreases b - a
  {
    if a < b {
      MulMonotone(a, b - 1, n);
      assert b * n == (b - 1) * n + n;
    }
  }

  lemma RowMajorInside(rows: nat, cols: nat, r: nat, c: nat)
    requires r < rows && c < cols
    ensures r * cols + c < rows * cols
  {
    MulMonotone(r + 1, rows, cols);
    assert (r + 1) * cols == r * cols + cols;
  }

  lemma RowMajorUnique(cols: nat, r: nat, c: nat, r': nat, c': nat)
    requires c < cols && c' < cols && r * cols + c == r' * cols + c'
    ensures r == r' && c == c'
  {
    if r < r' {
      assert (r + 1) * cols == r * cols + cols;
      MulMonotone(r + 1, r', cols);
    } else if r' < r {
      assert (r' + 1) * cols == r' * cols + cols;
      MulMonotone(r' + 1, r, cols);
    }
  }

  lemma RowMajorRow(rows: nat, cols: nat, row: nat, col: nat)
    requires row * cols + col < rows * cols
    ensures row < rows
  {
    if row >= rows {
      MulMonotone(rows, row, cols);
    }
  }

  /** The first `n` cells in row-major order hold the first `n` elements of
      `list`; every later cell still holds its value in `init`. */
  ghost predicate FilledUpTo(a: array2<int>, list: seq<int>, init: Grid, n: nat)
    requires IsGrid(init, a.Length0, a.Length1)
    reads a
  {
    forall r, c :: 0 <= r < a.Length0 && 0 <= c < a.Length1 ==>
      a[r, c] == if r * a.Length1 + c < n && r * a.Length1 + c < |list| then list[r * a.Length1 + c] else init[r][c]
  }

  /** The body of the list constructor: writes `list` into `a` row by row.
      When the list is longer than the array it stops after filling every
      cell and reports the truncation (the source prints a warning there);
      cells past the end of a short list are not written. */
  method FillRowMajor(a: array2<int>, list: seq<int>) returns (truncated: bool)
    modifies a
    ensures truncated <==> |list| > a.Length0 * a.Length1
    ensures forall r, c :: 0 <= r < a.Length0 && 0 <= c < a.Length1 ==>
              a[r, c] == if r * a.Length1 + c < |list| then list[r * a.Length1 + c] else old(a[r, c])
  {
    ghost var init := CellsOf(a);
    var R, C := a.Length0, a.Length1;
    var row, col, count := 0, 0, 0;
    var i := 0;
    while i < |list|
      invariant 0 <= i <= |list| && i <= R * C && count == i
      invariant row * C + col == i && 0 <= col <= C
      invariant i == 0 ==> row == 0 && col == 0
      invariant i > 0 ==> col >= 1
      invariant FilledUpTo(a, list, init, i)
    {
      var t := list[i];
      count := count + 1;
      if count > R * C {
        forall r, c | 0 <= r < R && 0 <= c < C
          ensures a[r, c] == if r * C + c < |list| then list[r * C + c] else old(a[r, c])
        {
          RowMajorInside(R, C, r, c);
        }
        return true;
      }
      if col >= C {
        assert (row + 1) * C == row * C + C;
        col := 0;
        row := row + 1;
      }
      RowMajorRow(R, C, row, col);
      label BeforeWrite:
      a[row, col] := t;
      forall r, c | 0 <= r < R && 0 <= c < C
        ensures a[r, c] == if r * C + c < i + 1 && r * C + c < |list| then list[r * C + c] else init[r][c]
      {
        if r != row || c != col {
          if r * C + c == i {
            RowMajorUnique(C, r, c, row, col);
          }
          assert a[r, c] == old@BeforeWrite(a[r, c]);
        }
      }
      col := col + 1;
      i := i + 1;
    }
    return false;
  }

  /** Cells of `t` before (r, c) in row-major order hold their entry of the
      product of `a` and `b`. */
  ghost predicate ProductBefore(t: array2<int>, a: Grid, b: Grid, r: nat, c: nat)
    requires Conformable(a, b) && |a| == t.Length0 && |b[0]| == t.Length1
    reads t
  {
    forall i, j :: 0 <= i < t.Length0 && 0 <= j < t.Length1 && (i < r || (i == r && j < c)) ==>
      t[i, j] == Dot(a, b, i, j, |b|)
  }

  /** Cells of `t` from (r, c) on in row-major order are zero. */
  ghost predicate ZeroFrom(t: array2<int>, r: nat, c: nat)
    reads t
  {
    forall i, j :: 0 <= i < t.Length0 && 0 <= j < t.Length1 && (i > r || (i == r && j >= c)) ==> t[i, j] == 0
  }

  /** Cells of `v` before (r, c) in row-major order hold the cell of `a` one
      row further down, skipping column `col` of `a`. */
  ghost predicate MinorBefore(v: array2<int>, a: array2<int>, col: nat, r: nat, c: nat)
    requires a.Length0 == v.Length0 + 1 && a.Length1 == v.Length1 + 1
    reads v, a
  {
    forall i, j :: 0 <= i < v.Length0 && 0 <= j < v.Length1 && (i < r || (i == r && j < c)) ==>
      v[i, j] == a[i + 1, if j < col then j else j + 1]
  }

  /** Once cell (r, c) holds its product entry, the filled prefix grows by one. */
  lemma ProductBeforeNext(t: array2<int>, a: Grid, b: Grid, r: nat, c: nat)
    requires Conformable(a, b) && |a| == t.Length0 && |b[0]| == t.Length1
    requires r < t.Length0 && c < t.Length1
    requires ProductBefore(t, a, b, r, c) && t[r, c] == Dot(a, b, r, c, |b|)
    ensures ProductBefore(t, a, b, r, c + 1)
  {
  }

  /** Once cell (r, c) of the minor is copied, the copied prefix grows by one. */
  lemma MinorBeforeNext(v: array2<int>, a: array2<int>, col: nat, r: nat, c: nat)
    requires a.Length0 == v.Length0 + 1 && a.Length1 == v.Length1 + 1
    requires r < v.Length0 && c < v.Length1
    requires MinorBefore(v, a, col, r, c) && v[r, c] == a[r + 1, if c < col then c else c + 1]
    ensures MinorBefore(v, a, col, r, c + 1)
  {
  }

  lemma ProductBeforeRow(t: array2<int>, a: Grid, b: Grid, r: nat)
    requires Conformable(a, b) && |a| == t.Length0 && |b[0]| == t.Length1
    requires ProductBefore(t, a, b, r, t.Length1)
    ensures ProductBefore(t, a, b, r + 1, 0)
  {
  }

  lemma ZeroFromRow(t: array2<int>, r: nat)
    requires ZeroFrom(t, r, t.Length1)
    ensures ZeroFrom(t, r + 1, 0)
  {
  }

  lemma MinorBeforeRow(v: array2<int>, a: array2<int>, col: nat, r: nat)
    requires a.Length0 == v.Length0 + 1 && a.Length1 == v.Length1 + 1
    requires MinorBefore(v, a, col, r, v.Length1)
    ensures MinorBefore(v, a, col, r + 1, 0)
  {
  }

  /** One row of the minor: row r of `a`, without column `col`, becomes row
      r - 1 of `v`; the cells left of `col` keep their column, the cells right
      of it move one column left. */
  method CopyMinorRow(v: array2<int>, a: array2<int>, col: nat, r: nat)
    requires a.Length0 == v.Length0 + 1 && a.Length1 == v.Length1 + 1 && v != a
    requires 1 <= r < a.Length0 && col < a.Length1
    requires MinorBefore(v, a, col, r - 1, 0)
    modifies v
    ensures MinorBefore(v, a, col, r, 0)
  {
    var c := 0;
    while c < col
      invariant 0 <= c <= col
      invariant MinorBefore(v, a, col, r - 1, c)
    {
      v[r - 1, c] := a[r, c];
      MinorBeforeNext(v, a, col, r - 1, c);
      c := c + 1;
    }
    c := col + 1;
    while c < a.Length1
      invariant col + 1 <= c <= a.Length1
      invariant MinorBefore(v, a, col, r - 1, c - 1)
    {
      v[r - 1, c - 1] := a[r, c];
      MinorBeforeNext(v, a, col, r - 1, c - 1);
      c := c + 1;
    }
    MinorBeforeRow(v, a, col, r - 1);
  }

  /** The innermost loop of both products: adds A[r, k] * B[k, c] to cell
      (r, c) of T for k = 0, 1, ..., n - 1; no other cell changes. */
  method AccumulateCell(A: array2<int>, B: array2<int>, T: array2<int>, r: nat, c: nat, n: nat,
                        ghost a: Grid, ghost b: Grid)
    requires a == CellsOf(A) && b == CellsOf(B) && Conformable(a, b)
    requires r < |a| && c < |b[0]| && n <= |b|
    requires T != A && T != B && r < T.Length0 && c < T.Length1
    modifies T
    ensures T[r, c] == old(T[r, c]) + Dot(a, b, r, c, n)
    ensures forall i, j :: 0 <= i < T.Length0 && 0 <= j < T.Length1 && (i != r || j != c) ==> T[i, j] == old(T[i, j])
  {
    var k := 0;
    while k < n
      invariant 0 <= k <= n
      invariant T[r, c] == old(T[r, c]) + Dot(a, b, r, c, k)
      invariant forall i, j :: 0 <= i < T.Length0 && 0 <= j < T.Length1 && (i != r || j != c) ==> T[i, j] == old(T[i, j])
    {
      T[r, c] := T[r, c] + A[r, k] * B[k, c];
      k := k + 1;
    }
  }

  class Matrix {
    const rows: nat
    const cols: nat
    var data: array2<int>

    /** At least one row and one column, and storage of exactly that shape. */
    ghost predicate Valid()
      reads this
    {
      rows >= 1 && cols >= 1 && data.Length0 == rows && data.Length1 == cols
    }

    /** The grid this matrix holds. */
    function Cells(): (g: Grid)
      reads this, data
      ensures IsGrid(g, data.Length0, data.Length1)
    {
      CellsOf(data)
    }

    /** Default construction: every cell zero. */
    constructor (rows: nat, cols: nat)
      requires rows >= 1 && cols >= 1
      ensures Valid() && fresh(data) && this.rows == rows && this.cols == cols
      ensures Cells() == Zero(rows, cols)
    {
      this.rows, this.cols := rows, cols;
      data := new int[rows, cols];
      new;
      var r := 0;
      while r < rows
        modifies data
        invariant 0 <= r <= rows
        invariant forall i, j :: 0 <= i < r && 0 <= j < cols ==> data[i, j] == 0
      {
        var c := 0;
        while c < cols
          modifies data
          invariant 0 <= c <= cols
          invariant forall i, j :: 0 <= i < rows && 0 <= j < cols && (i < r || (i == r && j < c)) ==> data[i, j] == 0
        {
          data[r, c] := 0;
          c := c + 1;
        }
        r := r + 1;
      }
      SameCells(data, Zero(rows, cols));
    }

    /** Construction from a flat list, row-major. Cells past the end of a
        short list are left as they are (the source never initialises them). */
    constructor FromList(rows: nat, cols: nat, list: seq<int>)
      requires rows >= 1 && cols >= 1
      ensures Valid() && fresh(data) && this.rows == rows && this.cols == cols
      ensures forall r, c :: 0 <= r < rows && 0 <= c < cols && r * cols + c < |list| ==>
                data[r, c] == list[r * cols + c]
    {
      this.rows, this.cols := rows, cols;
      data := new int[rows, cols];
      new;
      var truncated := FillRowMajor(data, list);
    }

    /** Construction by copying a two-dimensional array of the same shape. */
    constructor FromArray(src: array2<int>)
      requires src.Length0 >= 1 && src.Length1 >= 1
      ensures Valid() && fresh(data) && rows == src.Length0 && cols == src.Length1
      ensures Cells() == CellsOf(src)
    {
      rows, cols := src.Length0, src.Length1;
      data := new int[src.Length0, src.Length1];
      new;
      var r := 0;
      while r < rows
        modifies data
        invariant 0 <= r <= rows
        invariant forall i, j :: 0 <= i < r && 0 <= j < cols ==> data[i, j] == src[i, j]
      {
        var c := 0;
        while c < cols
          modifies data
          invariant 0 <= c <= cols
          invariant forall i, j :: 0 <= i < rows && 0 <= j < cols && (i < r || (i == r && j < c)) ==> data[i, j] == src[i, j]
        {
          data[r, c] := src[r, c];
          c := c + 1;
        }
        r := r + 1;
      }
      SameCells(data, CellsOf(src));
    }

    /** Read access to cell (r, c); the indices must be in range. */
    function Element(r: nat, c: nat): (x: int)
      requires Valid() && r < rows && c < cols
      reads this, data
      ensures x == Cells()[r][c]
    {
      data[r, c]
    }

    /** Write access through the mutable `element` reference: only cell (r, c) changes. */
    method SetElement(r: nat, c: nat, x: int)
      requires Valid() && r < rows && c < cols
      modifies data
      ensures Cells() == old(Cells())[r := old(Cells())[r][c := x]]
    {
      ghost var before := Cells();
      data[r, c] := x;
      SameCells(data, before[r := before[r][c := x]]);
    }

    function NumRows(): (n: nat)
      requires Valid()
      reads this, data
      ensures n >= 1 && n == |Cells()|
    {
      rows
    }

    function NumCols(): (n: nat)
      requires Valid()
      reads this, data
      ensures n >= 1 && forall r :: 0 <= r < |Cells()| ==> |Cells()[r]| == n
    {
      cols
    }

    /** Resets every cell to zero, row by row. */
    method Clear()
      requires Valid()
      modifies data
      ensures Cells() == Zero(rows, cols)
    {
      var r := 0;
      while r < rows
        invariant 0 <= r <= rows
        invariant forall i, j :: 0 <= i < r && 0 <= j < cols ==> data[i, j] == 0
      {
        var c := 0;
        while c < cols
          invariant 0 <= c <= cols
          invariant forall i, j :: 0 <= i < rows && 0 <= j < cols && (i < r || (i == r && j < c)) ==> data[i, j] == 0
        {
          data[r, c] := 0;
          c := c + 1;
        }
        r := r + 1;
      }
      SameCells(data, Zero(rows, cols));
    }

    /** `+=`: adds `other` cell by cell, except that a matrix added to itself
        is left unchanged. */
    method AddAssign(other: Matrix)
      requires Valid() && other.Valid() && other.rows == rows && other.cols == cols
      requires other != this ==> other.data != data
      modifies data
      ensures other == this ==> Cells() == old(Cells())
      ensures other != this ==> Cells() == Add(old(Cells()), old(other.Cells()))
    {
      if other != this {
        ghost var before, operand := Cells(), other.Cells();
        var r := 0;
        while r < rows
          invariant 0 <= r <= rows
          invariant forall i, j :: 0 <= i < rows && 0 <= j < cols ==>
                      data[i, j] == if i < r then before[i][j] + operand[i][j] else before[i][j]
        {
          var c := 0;
          while c < cols
            invariant 0 <= c <= cols
            invariant forall i, j :: 0 <= i < rows && 0 <= j < cols ==>
                        data[i, j] == if i < r || (i == r && j < c) then before[i][j] + operand[i][j] else before[i][j]
          {
            data[r, c] := data[r, c] + other.data[r, c];
            c := c + 1;
          }
          r := r + 1;
        }
        SameCells(data, Add(before, operand));
      }
    }

    /** `-=`: subtracts `other` cell by cell, except that a matrix subtracted
        from itself is left unchanged. */
    method SubAssign(other: Matrix)
      requires Valid() && other.Valid() && other.rows == rows && other.cols == cols
      requires other != this ==> other.data != data
      modifies data
      ensures other == this ==> Cells() == old(Cells())
      ensures other != this ==> Cells() == Sub(old(Cells()), old(other.Cells()))
    {
      if other != this {
        ghost var before, operand := Cells(), other.Cells();
        var r := 0;
        while r < rows
          invariant 0 <= r <= rows
          invariant forall i, j :: 0 <= i < rows && 0 <= j < cols ==>
                      data[i, j] == if i < r then before[i][j] - operand[i][j] else before[i][j]
        {
          var c := 0;
          while c < cols
            invariant 0 <= c <= cols
            invariant forall i, j :: 0 <= i < rows && 0 <= j < cols ==>
                        data[i, j] == if i < r || (i == r && j < c) then before[i][j] - operand[i][j] else before[i][j]
          {
            data[r, c] := data[r, c] - other.data[r, c];
            c := c + 1;
          }
          r := r + 1;
        }
        SameCells(data, Sub(before, operand));
      }
    }

    /** Scalar `*=`: every cell multiplied by t. */
    method ScaleAssign(t: int)
      requires Valid()
      modifies data
      ensures Cells() == Scale(old(Cells()), t)
    {
      ghost var before := Cells();
      var r := 0;
      while r < rows
        invariant 0 <= r <= rows
        invariant forall i, j :: 0 <= i < rows && 0 <= j < cols ==>
                    data[i, j] == if i < r then before[i][j] * t else before[i][j]
      {
        var c := 0;
        while c < cols
          invariant 0 <= c <= cols
          invariant forall i, j :: 0 <= i < rows && 0 <= j < cols ==>
                      data[i, j] == if i < r || (i == r && j < c) then before[i][j] * t else before[i][j]
        {
          data[r, c] := data[r, c] * t;
          c := c + 1;
        }
        r := r + 1;
      }
      SameCells(data, Scale(before, t));
    }

    /** Scalar `*=` called with `element(r0, c0)` of this same matrix: the
        operand is a reference, so every step re-reads cell (r0, c0), which
        has itself been scaled once the loop has passed it. */
    method ScaleAssignByElement(r0: nat, c0: nat)
      requires Valid() && r0 < rows && c0 < cols
      modifies data
      ensures Cells() == ScaleByOwnCell(old(Cells()), r0, c0)
    {
      ghost var before := Cells();
      ghost var x := before[r0][c0];
      ghost var target := ScaleByOwnCell(before, r0, c0);
      var r := 0;
      while r < rows
        invariant 0 <= r <= rows
        invariant forall i, j :: 0 <= i < rows && 0 <= j < cols ==>
                    data[i, j] == if i < r then target[i][j] else before[i][j]
      {
        var c := 0;
        while c < cols
          invariant 0 <= c <= cols
          invariant forall i, j :: 0 <= i < rows && 0 <= j < cols ==>
                      data[i, j] == if i < r || (i == r && j < c) then target[i][j] else before[i][j]
        {
          assert data[r0, c0] == if r < r0 || (r == r0 && c <= c0) then x else x * x;
          data[r, c] := data[r, c] * data[r0, c0];
          c := c + 1;
        }
        r := r + 1;
      }
      SameCells(data, target);
    }

    /** Square matrix `*=`: the product with `other` is accumulated in a
        zeroed temporary and then swapped in, so every term reads the original
        cells, also when `other` is this matrix. */
    method MulAssign(other: Matrix)
      requires Valid() && other.Valid() && rows == cols && other.rows == rows && other.cols == cols
      requires other != this ==> other.data != data
      modifies this
      ensures Valid() && fresh(data)
      ensures Cells() == Product(old(Cells()), old(other.Cells()))
    {
      ghost var a, b := Cells(), other.Cells();
      var m := new Matrix(rows, cols);
      var A, B, T := data, other.data, m.data;
      assert ZeroFrom(T, 0, 0) by {
        forall i, j | 0 <= i < rows && 0 <= j < cols ensures T[i, j] == 0 {
          assert T[i, j] == m.Cells()[i][j];
        }
      }
      var r := 0;
      while r < rows
        modifies T
        invariant 0 <= r <= rows
        invariant ProductBefore(T, a, b, r, 0) && ZeroFrom(T, r, 0)
      {
        var c := 0;
        while c < cols
          modifies T
          invariant 0 <= c <= cols
          invariant ProductBefore(T, a, b, r, c) && ZeroFrom(T, r, c)
        {
          AccumulateCell(A, B, T, r, c, rows, a, b);
          ProductBeforeNext(T, a, b, r, c);
          c := c + 1;
        }
        ProductBeforeRow(T, a, b, r);
        ZeroFromRow(T, r);
        r := r + 1;
      }
      SameCells(T, Product(a, b));
      data := T;
    }

    /** The minor for column `col`: a fresh (n-1) x (n-1) matrix filled from
        rows 1.. of this one, skipping column `col`. */
    method MinorOf(col: nat) returns (v: Matrix)
      requires Valid() && rows == cols && rows >= 2 && col < cols
      ensures fresh(v) && fresh(v.data) && v.Valid() && v.rows == rows - 1 && v.cols == cols - 1
      ensures v.Cells() == Minor(Cells(), col)
    {
      v := new Matrix(rows - 1, cols - 1);
      var V := v.data;
      var r := 1;
      while r < rows
        modifies V
        invariant 1 <= r <= rows
        invariant MinorBefore(V, data, col, r - 1, 0)
      {
        CopyMinorRow(V, data, col, r);
        r := r + 1;
      }
      ghost var g := Cells();
      forall i, j | 0 <= i < rows - 1 && 0 <= j < cols - 1 ensures V[i, j] == Minor(g, col)[i][j] {
        assert g[i + 1][if j < col then j else j + 1] == data[i + 1, if j < col then j else j + 1];
      }
      SameCells(V, Minor(g, col));
    }

    /** The determinant, by expansion along row 0: each minor's determinant
        is computed recursively; 1 x 1 and 2 x 2 matrices use the direct formulas. */
    method Det() returns (d: int)
      requires Valid() && rows == cols
      ensures d == Grids.Det(Cells())
      decreases rows
    {
      if rows == 1 {
        return data[0, 0];
      }
      if rows == 2 {
        return data[0, 0] * data[1, 1] - data[0, 1] * data[1, 0];
      }
      ghost var g := Cells();
      d := 0;
      var col := 0;
      while col < rows
        invariant 0 <= col <= rows
        invariant d == CofactorSum(g, col)
      {
        var coefficient := Sign(col) * data[0, col];
        var v := MinorOf(col);
        var sub := v.Det();
        d := d + coefficient * sub;
        col := col + 1;
      }
    }

    /** The matrix with 1 where the row index equals the column index and 0
        elsewhere, built over a zeroed matrix; any shape is accepted. */
    static method Identity(rows: nat, cols: nat) returns (m: Matrix)
      requires rows >= 1 && cols >= 1
      ensures fresh(m) && fresh(m.data) && m.Valid() && m.rows == rows && m.cols == cols
      ensures m.Cells() == Grids.Identity(rows, cols)
    {
      m := new Matrix(rows, cols);
      var r := 0;
      while r < rows
        modifies m.data
        invariant 0 <= r <= rows
        invariant fresh(m.data) && m.Valid() && m.rows == rows && m.cols == cols
        invariant forall i, j :: 0 <= i < r && 0 <= j < cols ==> m.data[i, j] == if i == j then 1 else 0
      {
        var c := 0;
        while c < cols
          modifies m.data
          invariant 0 <= c <= cols
          invariant forall i, j :: 0 <= i < rows && 0 <= j < cols && (i < r || (i == r && j < c)) ==>
                      m.data[i, j] == if i == j then 1 else 0
        {
          m.data[r, c] := if r == c then 1 else 0;
          c := c + 1;
        }
        r := r + 1;
      }
      SameCells(m.data, Grids.Identity(rows, cols));
    }
  }

  /** Free `+`: a copy of `lhs` with `rhs` added; neither operand changes.
      Unlike `+=`, adding a matrix to itself doubles it, since the copy is a
      distinct object. */
  method Plus(lhs: Matrix, rhs: Matrix) returns (m: Matrix)
    requires lhs.Valid() && rhs.Valid() && lhs.rows == rhs.rows && lhs.cols == rhs.cols
    ensures fresh(m) && fresh(m.data) && m.Valid() && m.rows == lhs.rows && m.cols == lhs.cols
    ensures m.Cells() == Add(lhs.Cells(), rhs.Cells())
  {
    m := new Matrix.FromArray(lhs.data);
    m.AddAssign(rhs);
  }

  /** Free `-`: a copy of `lhs` with `rhs` subtracted; neither operand changes. */
  method Minus(lhs: Matrix, rhs: Matrix) returns (m: Matrix)
    requires lhs.Valid() && rhs.Valid() && lhs.rows == rhs.rows && lhs.cols == rhs.cols
    ensures fresh(m) && fresh(m.data) && m.Valid() && m.rows == lhs.rows && m.cols == lhs.cols
    ensures m.Cells() == Sub(lhs.Cells(), rhs.Cells())
  {
    m := new Matrix.FromArray(lhs.data);
    m.SubAssign(rhs);
  }

  /** Free `*` of an R x C and a C x OC matrix, where the source also demands
      R == OC. Each cell sums over all C inner terms (the source's loop stops
      at R; see ProductAsWritten in module Grids). Neither operand changes. */
  method Times(m: Matrix, other: Matrix) returns (ret: Matrix)
    requires m.Valid() && other.Valid() && other.rows == m.cols && m.rows == other.cols
    ensures fresh(ret) && fresh(ret.data) && ret.Valid() && ret.rows == m.rows && ret.cols == other.cols
    ensures ret.Cells() == Product(m.Cells(), other.Cells())
  {
    ghost var a, b := m.Cells(), other.Cells();
    ret := new Matrix(m.rows, other.cols);
    var A, B, T := m.data, other.data, ret.data;
    var r := 0;
    while r < m.rows
      modifies T
      invariant 0 <= r <= m.rows
      invariant ProductBefore(T, a, b, r, 0)
    {
      var c := 0;
      while c < other.cols
        modifies T
        invariant 0 <= c <= other.cols
        invariant ProductBefore(T, a, b, r, c)
      {
        T[r, c] := 0;
        AccumulateCell(A, B, T, r, c, m.cols, a, b);
        ProductBeforeNext(T, a, b, r, c);
        c := c + 1;
      }
      ProductBeforeRow(T, a, b, r);
      r := r + 1;
    }
    SameCells(T, Product(a, b));
  }
}
