# Fixed-size integer matrices

A model of `matrix::Matrix<T, R, C>` from `src/matrix/include/main/matrix.h`
with `T = int`. The type holds an R x C grid of numbers, where R >= 1 and
C >= 1. It offers:

- three constructors: zero-fill, fill from a row-major list with truncation,
  and copy from a two-dimensional array;
- the element accessor and the shape queries;
- `clear`;
- the compound operators `+=`, `-=`, scalar `*=` and square-matrix `*=`;
- the `identity()` factory;
- the recursive determinant by cofactor expansion along row 0;
- the free operators `+`, `-` and `*`.

The project has two modules.

- `Grids` (grids.dfy) is the pure layer. A matrix value is a `Grid`, a
  sequence of rows. The module defines what each operation computes:
  `Zero`, `Identity`, `Add`, `Sub`, `Scale`, `Product`, `Minor`, `Det`. Its
  lemmas state what these mean: subtraction undoes addition, the identity is
  neutral for the product, and the determinant's expansion, value on
  triangular grids, identity, zero and scaling rule.
- `Matrices` (matrix.dfy) is the imperative layer. The class `Matrix` keeps
  its cells in an `array2<int>` field, and its methods update that field in
  place with the same nested loops as the source. Each method is proved
  against the `Grids` functions, through the abstraction `Cells()`.
  `Matrix.Det` runs the source's column loop. It builds each minor in a fresh
  `Matrix` and recurses on it.

Template parameters become the `const` fields `rows` and `cols`. The
`static_assert`s become preconditions: at least one row and one column, and
a square shape where the source demands one. A C++ object and its
`std::array` are modelled as a `Matrix` and its array. Distinct objects own
distinct arrays, so the compound operators require
`other != this ==> other.data != data`.

Two points of the source need a word:

- The list constructor never zero-initialises the storage. Cells past the
  end of a short list are therefore left unconstrained: not necessarily zero.
- `clear()` calls `row->fill(T())` on a `std::array` row, which is not a
  pointer (matrix.h:141). The template would not compile if instantiated.
  `Matrix.Clear` models the evident intent: every cell becomes zero.

## Model

| member | source | states |
|---|---|---|
| Matrices.Matrix.constructor | src/matrix/include/main/matrix.h:69-79 | the default constructor gives an R x C matrix with every cell zero |
| Matrices.FillRowMajor | src/matrix/include/main/matrix.h:84-104 | list element i lands in cell (i / C, i % C) for every i < min(n, R*C); no other cell is written; truncation is reported exactly when the list has more than R*C elements |
| Matrices.Matrix.FromList | src/matrix/include/main/matrix.h:81-105 | a list-constructed matrix has shape R x C, and cell (r, c) holds list element r*C + c whenever the list is that long |
| Matrices.Matrix.FromArray | src/matrix/include/main/matrix.h:107-117 | the array constructor copies every cell of the source array |
| Matrices.Matrix.Element | src/matrix/include/main/matrix.h:124-128 | for in-range indices, `element(r, c)` reads cell (r, c) of the grid |
| Matrices.Matrix.SetElement | src/matrix/include/main/matrix.h:130-134 | writing through the mutable `element` reference changes cell (r, c) to x and leaves every other cell unchanged |
| Matrices.Matrix.NumRows | src/matrix/include/main/matrix.h:145-150 | `num_rows` is R: at least 1, and the number of rows in the grid |
| Matrices.Matrix.NumCols | src/matrix/include/main/matrix.h:152-157 | `num_cols` is C: at least 1, and the length of every row |
| Matrices.Matrix.Clear | src/matrix/include/main/matrix.h:136-143 | after `clear` every cell is zero |
| Matrices.Matrix.Det | src/matrix/include/main/matrix.h:159-212 | the 1 x 1 and 2 x 2 cases return element(0,0) and a00*a11 - a01*a10; larger square matrices get the column loop with recursive minors, which returns the cofactor expansion along row 0 |
| Matrices.Matrix.MinorOf | src/matrix/include/main/matrix.h:194-206 | the fresh (n-1) x (n-1) matrix holds rows 1.. of the matrix without column `col`, shifted left past `col` |
| Matrices.CopyMinorRow | src/matrix/include/main/matrix.h:197-205 | the two inner loops copy row r of the matrix, minus column `col`, into row r-1 of the minor; earlier rows keep their copy |
| Matrices.Matrix.AddAssign | src/matrix/include/main/matrix.h:214-229 | `+=` with a distinct operand makes every cell old + other; `a += a` leaves `a` unchanged |
| Matrices.Matrix.SubAssign | src/matrix/include/main/matrix.h:231-246 | `-=` with a distinct operand makes every cell old - other; `a -= a` leaves `a` unchanged |
| Matrices.AccumulateCell | src/matrix/include/main/matrix.h:259-262 | the k-loop adds the first n terms a[r][k]*b[k][c] to cell (r, c) and changes no other cell |
| Matrices.Matrix.MulAssign | src/matrix/include/main/matrix.h:248-269 | square `*=` replaces the cells with the matrix product of the old cells and the old operand; this holds also for `a *= a`, because the sum is built in a zeroed temporary |
| Matrices.Matrix.ScaleAssign | src/matrix/include/main/matrix.h:271-283 | scalar `*=` with an operand that is not a cell of the same matrix multiplies every cell by t |
| Matrices.Matrix.ScaleAssignByElement | src/matrix/include/main/matrix.h:271-283 | scalar `*=` with `element(r0, c0)` of the same matrix as operand: the loop re-reads the reference, so the cells up to and including (r0, c0) in row-major order are multiplied by its old value x, and every later cell by x * x |
| Grids.ScaleByOwnCellAgrees | src/matrix/include/main/matrix.h:271-283 | the aliased scalar `*=` agrees with scaling by the operand's value when the operand is the last cell, or its value is 0 or 1 |
| Grids.ScaleByOwnCellExample | src/matrix/include/main/matrix.h:271-283 | on [[1,2],[3,4]] with operand element(1,0), the aliased scalar `*=` gives [[3,6],[9,36]], not [[3,6],[9,12]] |
| Matrices.Matrix.Identity | src/matrix/include/main/matrix.h:309-322 | `identity()` is 1 where row index equals column index and 0 elsewhere, for any shape, rectangular included |
| Matrices.Plus | src/matrix/include/main/matrix.h:325-331 | free `+` returns a fresh matrix holding the cellwise sum; it doubles `a` for `a + a`, unlike `+=` |
| Matrices.Minus | src/matrix/include/main/matrix.h:333-339 | free `-` returns a fresh matrix holding the cellwise difference |
| Matrices.Times | src/matrix/include/main/matrix.h:341-360 | free `*` of an R x C and a C x OC matrix (R == OC) returns the R x OC matrix product, summing all C inner terms |
| Grids.Minor | src/matrix/include/main/matrix.h:194-206 | minor cell (r-1, c) is m[r][c] for c < col, and minor cell (r-1, c-1) is m[r][c] for c > col; the minor is square with one row fewer |
| Grids.Sign | src/matrix/include/main/matrix.h:192 | the cofactor sign is always +1 or -1 |
| Grids.SignIsPow | src/matrix/include/main/matrix.h:192 | the cofactor sign equals (-1)^col, the power the source computes |
| Grids.DetIsCofactorExpansion | src/matrix/include/main/matrix.h:159-212 | for every n >= 2, including the 2 x 2 base case, the determinant is the alternating sum of a[0][col] * det(minor(col)) |
| Grids.CofactorSumFirstColumn | src/matrix/include/main/matrix.h:190-209 | when row 0 is zero beyond column 0, the expansion reduces to a[0][0] * det(minor(0)) |
| Grids.MinorDiagonal | src/matrix/include/main/matrix.h:194-206 | the diagonal of minor(0) is the diagonal of the matrix without its first entry |
| Grids.DetLowerTriangular | src/matrix/include/main/matrix.h:159-212 | the determinant of a lower-triangular matrix is the product of its diagonal |
| Grids.IdentityDiagonal | src/matrix/include/main/matrix.h:309-322 | the product of the diagonal entries of the square identity, from any index i on, is 1 |
| Grids.DetIdentity | src/matrix/include/main/matrix.h:159-212 | det(identity()) is 1 for every size |
| Grids.DetZero | src/matrix/include/main/matrix.h:69-79 | det of the default-constructed (all-zero) square matrix is 0 |
| Grids.MinorScale | src/matrix/include/main/matrix.h:194-206 | the minor of a scaled matrix is the scaled minor |
| Grids.DetScale | src/matrix/include/main/matrix.h:271-283 | after scalar `*= t` on an n x n matrix the determinant is t^n times the old determinant |
| Grids.ScaledTerm | src/matrix/include/main/matrix.h:192-208 | scaling the matrix by t scales each cofactor term of the expansion by t^n |
| Grids.CofactorSumScale | src/matrix/include/main/matrix.h:190-209 | scaling the matrix by t scales every partial cofactor sum by t^n |
| Grids.AddSubCancel | src/matrix/include/main/matrix.h:214-246 | `-=` undoes `+=`: (a + b) - b == a |
| Grids.AddCommutes | src/matrix/include/main/matrix.h:214-229 | the cellwise sum does not depend on operand order |
| Grids.SubSelfIsZero | src/matrix/include/main/matrix.h:231-246 | the true difference a - a is the zero matrix, which `a -= a` does not produce |
| Grids.DotIdentityRight | src/matrix/include/main/matrix.h:259-262 | against an identity column, the first k products of row r sum to a[r][c] when c < k and to 0 otherwise |
| Grids.ProductIdentityRight | src/matrix/include/main/matrix.h:248-269 | multiplying by identity() on the right leaves a matrix unchanged |
| Grids.DotIdentityLeft | src/matrix/include/main/matrix.h:259-262 | with an identity row on the left, the first k products sum to a[r][c] when r < k and to 0 otherwise |
| Grids.ProductIdentityLeft | src/matrix/include/main/matrix.h:341-360 | multiplying by identity() on the left leaves a matrix unchanged |
| Grids.ProductAsWrittenSquare | src/matrix/include/main/matrix.h:341-360 | when C == R, the free `*` as written computes the true matrix product |
| Grids.DotAllOnes | src/matrix/include/main/matrix.h:352-355 | with all-ones operands, the first k products of a cell sum to k |
| Grids.ProductAsWrittenDropsTerms | src/matrix/include/main/matrix.h:341-360 | with R < C, the free `*` as written drops inner terms: on all-ones operands cell (0,0) is R instead of C |
| Grids.DetSmallExamples | src/matrix/include/main/matrix.h:159-169 | det [[5]] is 5 and det [[1,2],[3,4]] is -2 |
| Grids.DetThreeByThreeExample | src/matrix/include/main/matrix.h:183-212 | det [[6,1,1],[4,-2,5],[2,8,7]] is -306 |
| Grids.ArithmeticExamples | src/matrix/include/main/matrix.h:271-360 | [[1,2],[3,4]] scaled by 2 is [[2,4],[6,8]]; [[1,2],[3,4]] times [[5,6],[7,8]] is [[19,22],[43,50]] |

## Left out

- `T` other than `int`: the `double` specialisations of `det`
  (matrix.h:171-181) and any floating instantiation use floating-point
  arithmetic, which is not modelled.
- Fixed-width integers: cells are unbounded integers, so the model has no
  overflow of `int`.
- Grids.Sign, Matrices.Matrix.Det: the source computes the coefficient
  `std::pow(-1.0, col) * element(0, col)` as a `double` (matrix.h:192). At
  matrix.h:208 it converts the running `int` total to `double`, adds the
  `double` product `coefficient * v.det()`, and truncates the sum back to
  `int`. The model uses exact integers throughout. It does not capture the
  rounding of intermediate values above 2^53 in magnitude, nor a sum outside
  the range of `int`.
- Matrices.Matrix.ScaleAssign: takes the scalar by value. The source's
  operand is a `const T&`; the call whose operand is a cell of the same
  matrix is modelled separately by `Matrices.Matrix.ScaleAssignByElement`.
- `print` and `operator<<` (matrix.h:285-307, 362-368) are stream output.
- The truncation warning on `std::cout` (matrix.h:91-93) is output. It is
  modelled only as the `truncated` result of `FillRowMajor`.
- Matrices.Matrix.FromList: cells past the end of a short list are not
  stated; the source never initialises them.
- The copy and move constructors and assignments (matrix.h:35-39), and the
  constructor from `std::array&&` (matrix.h:119-122), are plain value copies.
  The model does not include them.
- Matrices.Matrix.Element, Matrices.Matrix.SetElement: the `const_cast`
  between the two `element` overloads (matrix.h:133) is replaced by direct
  indexing. Out-of-range indices are excluded by precondition, although C++
  leaves them undefined rather than rejecting them.
- `std::array::swap` in square `*=` is modelled by installing the
  temporary's array as the matrix's storage. The old array is not reused.
- Matrices.Times: the model sums all C inner terms, which is the corrected
  behaviour. The as-written loop, which stops at R, is modelled by
  `Grids.ProductAsWritten` and is covered under Findings.
  `ProductAsWritten` is defined only for R <= C. For R > C the source reads
  past the end of each row, which is undefined behaviour.
- The integration framework of the repository (quadrature rules, integrator
  strategies and console drivers) is not part of this model.

## Findings

| source | as written | input that shows it | evidently intended | confidence | as-written member | corrected member |
|---|---|---|---|---|---|---|
| src/matrix/include/main/matrix.h:352 | the inner loop of free `operator*` runs `k < R`, so each cell sums only R of the C products | a 1 x 2 all-ones matrix times a 2 x 1 all-ones matrix gives [[1]]; the product is [[2]]. With R > C the loop reads past the end of each row | `k < C`, the full inner dimension | high, not executed | Grids.ProductAsWrittenDropsTerms | Matrices.Times |
