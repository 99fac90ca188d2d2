# Matrix: a verified model of a small complex-matrix engine

The modelled system is a single Java class, `com.matrix.Matrix`. It holds a
rectangular grid of complex numbers of `sizeM` rows and `sizeN` columns and
offers:

- construction (empty, by size, from a complex grid, from an integer grid);
- addition and subtraction;
- multiplication;
- transposition;
- the determinant, by recursive cofactor expansion along row 0;
- reading and writing single cells.

A size guard that fails raises `MatrixError`. Each of these operations is
modelled here on what the code does, including its guards, which are
modelled exactly as written.

The project has eight modules:

- `Complexes` (`complexes.dfy`) — complex numbers with exact real
  components, and the operations the engine uses. It also holds the ring
  laws that the sum, determinant and matrix-law proofs call on.
- `Outcomes` (`outcomes.dfy`) — `MatrixError` as three variants, one per
  message the engine raises: `WrongSize` for "The wrong size matrix",
  `IncompatibleSizes` for "Incompatible matrix sizes", `NotSquare` for
  "Matrix is not square". It also defines the `Result` type that stands for
  "returns or throws".
- `Grids` (`grids.dfy`) — the value-level meaning of every operation on
  `seq<seq<Complex>>`. Each guard is written as the code writes it.
- `Matrices` (`matrix.dfy`) — the class itself: `field` is an
  `array2<Complex>` and the sizes are fields. Every Java loop is an
  imperative loop with its invariants. Each method is proved against the
  function in `Grids` through the abstraction `Cells()`.
- `MatrixLaws` (`laws.dfy`) — properties relating several operations:
  - commutativity of `plus`;
  - subtraction after addition;
  - transposition is an involution;
  - the transpose of a product;
  - the 1 by 1 and 2 by 2 determinants and the determinant of the identity;
  - worked integer examples.
- `Sums` (`sums.dfy`) — finite sums of complex terms and the sign
  `(-1)^k`. It proves that a sum can be split, scaled, added termwise,
  and summed over a rectangle by rows or by columns.
- `DeterminantLaws` (`determinants.dfy`) — the determinant of the
  transpose. Expanding along column 0 gives the same value as the
  engine's expansion along row 0. From that, transposing a square matrix
  keeps its determinant.
- `MatrixFindings` (`findings.dfy`) — the two guards that disagree with
  their operation, and the corrected definitions with their laws.

## Model

| member | source | states |
|---|---|---|
| Matrices.Matrix.New | Matrix/src/com/matrix/Matrix.java:23-30 | Fails with the wrong-size error exactly when either size is below 1. Otherwise it gives a fresh matrix of those sizes whose cells are all zero; Java leaves those cells null. |
| Matrices.Matrix.Sized | Matrix/src/com/matrix/Matrix.java:23-30 | The size constructor past its guard: a fresh array of `sizeM` by `sizeN` zero cells. |
| Matrices.Matrix.Empty | Matrix/src/com/matrix/Matrix.java:14-16 | The no-argument constructor always fails with the wrong-size error, because it delegates to size 0 by 0. |
| Matrices.Matrix.FromComplexField | Matrix/src/com/matrix/Matrix.java:36-44 | Sizes are taken from the grid's shape. The call fails exactly when the rows have width 0. Otherwise the matrix shares the caller's array. |
| Matrices.Matrix.Adopt | Matrix/src/com/matrix/Matrix.java:36-44 | The grid constructor past its guard: the field is the caller's own array, and the sizes are its dimensions. |
| Matrices.Matrix.FromIntField | Matrix/src/com/matrix/Matrix.java:50-60 | Sizes are taken from the grid's shape. Cell `(i, j)` becomes `intField[i][j]` with imaginary part 0, in a fresh array. There is no guard, so the result is a valid matrix exactly when the rows are non-empty. |
| Matrices.Matrix.Plus | Matrix/src/com/matrix/Matrix.java:82-93 | Fails exactly when either size differs. Otherwise it gives a fresh valid matrix whose contents are `Grids.Plus` of the two operands; neither operand changes. |
| Matrices.Matrix.Minus | Matrix/src/com/matrix/Matrix.java:101-112 | Fails exactly when `sizeM` differs from the second operand's `sizeN`. Otherwise it gives a fresh valid matrix of the first operand's shape whose contents are `Grids.Minus`. |
| Matrices.Matrix.Multiply | Matrix/src/com/matrix/Matrix.java:120-135 | Fails exactly when `sizeM` differs from the second operand's `sizeN`. Otherwise it gives a fresh matrix whose contents are `Grids.Multiply`, i.e. the running sums of the triple loop. |
| Matrices.Matrix.Transpose | Matrix/src/com/matrix/Matrix.java:141-149 | A fresh valid matrix whose contents are the transpose of the receiver's. |
| Matrices.Matrix.FindDeterminant | Matrix/src/com/matrix/Matrix.java:156-189 | The result equals `Grids.Determinant` of the contents. A non-square matrix fails; 1 by 1 gives its cell; otherwise the loop accumulates the signed cofactor expansion along row 0. |
| Matrices.Matrix.Cofactor | Matrix/src/com/matrix/Matrix.java:164-183 | Iteration `i` of the expansion loop: the determinant of the minor of row 0 and column `i`, times `field[0][i]`. |
| Matrices.Matrix.MinorMatrix | Matrix/src/com/matrix/Matrix.java:165-178 | The minor-building loop yields exactly the grid with row 0 and column `i` deleted. Its shape is one smaller in each dimension. |
| Matrices.MinorCells | Matrix/src/com/matrix/Matrix.java:165-178 | The counter loop with `indexM`, `indexN` and `continue`. Minor column `indexN` receives source column `j`, skipping `i`, and `indexM` restarts at 0 for every column. |
| Matrices.AddCells | Matrix/src/com/matrix/Matrix.java:87-91 | The two loops of `plus`. The result is fresh and has the given shape, and each cell is the sum of the two operands' cells at the same index. |
| Matrices.SubCells | Matrix/src/com/matrix/Matrix.java:106-110 | The two loops of `minus`. The result is fresh and has the given shape, and each cell is the difference of the two operands' cells at the same index. |
| Matrices.TransposeCells | Matrix/src/com/matrix/Matrix.java:143-147 | The two loops of `transpose`. The result is fresh with the sizes swapped, and cell `(j, i)` is the source's cell `(i, j)`. |
| Matrices.ProductCells | Matrix/src/com/matrix/Matrix.java:124-133 | The triple loop. Each cell is the running sum over `k` below the second operand's row count. |
| Matrices.Matrix.GetElement | Matrix/src/com/matrix/Matrix.java:197-199 | Returns the cell at row `m`, column `n` for in-range indices. |
| Matrices.Matrix.SetElement | Matrix/src/com/matrix/Matrix.java:207-209 | The new contents are the old ones with only cell `(m, n)` replaced. The sizes are unchanged. |
| Matrices.Matrix.SetElementInt | Matrix/src/com/matrix/Matrix.java:217-219 | As `SetElement`, storing the integer with imaginary part 0. |
| Grids.Plus | Matrix/src/com/matrix/Matrix.java:82-93 | Errs exactly when the row counts or the column counts differ. Otherwise it has the common shape and cells `a[i][j] + b[i][j]`. |
| Grids.Minus | Matrix/src/com/matrix/Matrix.java:101-112 | Errs exactly when the row count of `a` differs from the column count of `b`. Otherwise it has the shape of `a` and cells `a[i][j] - b[i][j]`. |
| Grids.Multiply | Matrix/src/com/matrix/Matrix.java:120-135 | Errs exactly when the row count of `a` differs from the column count of `b`. Otherwise it has shape rows of `a` by columns of `b`, with cells summed over the rows of `b`. |
| Grids.Transpose | Matrix/src/com/matrix/Matrix.java:141-149 | Swaps the dimensions, and cell `(j, i)` of the result is cell `(i, j)` of the input. |
| Grids.Minor | Matrix/src/com/matrix/Matrix.java:165-178 | One size smaller each way. Every cell comes from the source with the deleted row and column skipped. |
| Grids.Determinant | Matrix/src/com/matrix/Matrix.java:156-189 | Errs exactly when the matrix is not square; otherwise gives the cofactor expansion. |
| MatrixLaws.PlusCommutes | Matrix/src/com/matrix/Matrix.java:82-93 | `a + b` and `b + a` agree, refusals included. |
| MatrixLaws.MinusAfterPlus | Matrix/src/com/matrix/Matrix.java:82-112 | For operands of one shape, `(a + b) - b` gives back `a` when `a` is square. Otherwise the guard of `minus` refuses. |
| MatrixLaws.TransposeInvolution | Matrix/src/com/matrix/Matrix.java:141-149 | Transposing twice gives back the matrix. |
| MatrixLaws.DotTranspose | Matrix/src/com/matrix/Matrix.java:127-130 | The running sum over transposed operands, with the factors swapped, equals the original sum. |
| MatrixLaws.MultiplyTranspose | Matrix/src/com/matrix/Matrix.java:120-149 | When the inner sizes agree, the transposes multiplied in swapped order give the transpose of the product, and the refusals agree. |
| MatrixLaws.ExampleDot | Matrix/src/com/matrix/Matrix.java:127-131 | One cell of the worked product is the integer dot product of its row and column. |
| MatrixLaws.MultiplyExample | Matrix/src/com/matrix/Matrix.java:120-135 | Every grid equal to `[[1,2,3],[4,5,6]]`, times every grid equal to `[[7,8],[9,10],[11,12]]`, is `[[58,64],[139,154]]`. |
| MatrixLaws.ExampleLeft | Matrix/src/com/matrix/Matrix.java:120-135 | The left operand of the worked product, written out, is the 2 by 3 grid that `MultiplyExample` describes. |
| MatrixLaws.ExampleRight | Matrix/src/com/matrix/Matrix.java:120-135 | The right operand of the worked product, written out, is the 3 by 2 grid that `MultiplyExample` describes. |
| MatrixLaws.DeterminantOfOne | Matrix/src/com/matrix/Matrix.java:160-161 | The determinant of a 1 by 1 matrix is its only cell. |
| MatrixLaws.DetTwoByTwo | Matrix/src/com/matrix/Matrix.java:162-185 | For 2 by 2 the expansion is `a00 * a11 - a01 * a10`. |
| MatrixLaws.DeterminantExample | Matrix/src/com/matrix/Matrix.java:156-189 | The determinant of `[[1,2],[3,4]]` is -2. |
| MatrixLaws.MinorOfIdentity | Matrix/src/com/matrix/Matrix.java:165-178 | Deleting row 0 and column 0 of an identity matrix leaves the next smaller identity. |
| MatrixLaws.ExpandIdentity | Matrix/src/com/matrix/Matrix.java:164-184 | In the expansion of an identity matrix, only column 0 contributes. |
| MatrixLaws.DetIdentity | Matrix/src/com/matrix/Matrix.java:156-189 | The identity matrix of every size has determinant 1. |
| DeterminantLaws.ExpandIsSum | Matrix/src/com/matrix/Matrix.java:163-184 | After `count` rounds of the expansion loop, the accumulator is the sum of the first `count` signed terms `(-1)^i * det(minor) * a[0][i]`. |
| DeterminantLaws.RowExpansion | Matrix/src/com/matrix/Matrix.java:156-189 | At every size of at least 2, the determinant is the full signed sum of the row-0 terms. |
| DeterminantLaws.MinorsCommute | Matrix/src/com/matrix/Matrix.java:165-178 | Deleting row 0 and column `p + 1` and then row `q` and column 0 gives the same grid as deleting row `q + 1` and column 0 and then row 0 and column `p`. |
| DeterminantLaws.ColumnExpansion | Matrix/src/com/matrix/Matrix.java:156-189 | At every size of at least 2, expanding along column 0 gives the same value as the engine's expansion along row 0. |
| DeterminantLaws.MinorOfTranspose | Matrix/src/com/matrix/Matrix.java:141-178 | The minor of the transpose at row 0 and column `i` is the transpose of the minor at row `i` and column 0. |
| DeterminantLaws.DetTranspose | Matrix/src/com/matrix/Matrix.java:141-189 | Every square matrix has the same determinant as its transpose. |
| DeterminantLaws.DeterminantTranspose | Matrix/src/com/matrix/Matrix.java:141-189 | `findDeterminant` of the transpose refuses exactly when `findDeterminant` of the matrix refuses, and otherwise gives the same value. |
| MatrixFindings.MinusRefusesSameShape | Matrix/src/com/matrix/Matrix.java:102-104 | The guard as written refuses two 2 by 3 matrices; the corrected subtraction accepts them. |
| MatrixFindings.MinusMatched | Matrix/src/com/matrix/Matrix.java:101-112 | Corrected subtraction: errs exactly when the shapes differ, with cells `a[i][j] - b[i][j]`. |
| MatrixFindings.MinusMatchedAfterPlus | Matrix/src/com/matrix/Matrix.java:82-112 | With the corrected guard, `(a + b) - b` gives back `a` at every shape. |
| MatrixFindings.MinusMatchedAgrees | Matrix/src/com/matrix/Matrix.java:101-112 | For same-shaped square operands, the written and the corrected subtraction agree. |
| MatrixFindings.MultiplyGuardMisplaced | Matrix/src/com/matrix/Matrix.java:121-128 | The guard as written refuses 2 by 3 times 3 by 4, whose product exists. It accepts 2 by 3 times 2 by 2, whose product does not exist. |
| MatrixFindings.Product | Matrix/src/com/matrix/Matrix.java:120-135 | Corrected product: errs exactly when the column count of `a` differs from the row count of `b`, and sums over that shared size. |
| MatrixFindings.ProductAgrees | Matrix/src/com/matrix/Matrix.java:120-135 | Where both guards pass, the product as written is the corrected product. |
| MatrixFindings.ProductTranspose | Matrix/src/com/matrix/Matrix.java:120-149 | At every shape, the product of the transposes in swapped order is the transpose of the product, and the refusals agree. |
| MatrixFindings.DotIdentity | Matrix/src/com/matrix/Matrix.java:127-130 | Summing a row against an identity column picks out the single matching entry. |
| MatrixFindings.ProductIdentity | Matrix/src/com/matrix/Matrix.java:120-135 | The identity is a right unit of the corrected product. |

## Left out

- `print` (Matrix.java:65-74) writes to standard output and is not modelled.
- `Complex.java` is not among the modelled source files. Module
  `Complexes` stands in for it: entries have exact real components, and
  `plus`, `minus` and `multiply` are the usual complex operations.
  Floating-point rounding is therefore not modelled.
- The message strings of `MatrixError` (Matrix.java:224-228) are reduced to
  three error variants, one per message.
- Exceptions the code does not raise on purpose, such as an index out of
  bounds or a null dereference, are excluded by preconditions:
  - the grid constructors require a non-empty outer array;
  - `getElement`/`setElement` require in-range indices;
  - `minus` requires the second operand to be large enough whenever its
    guard passes: a 2 by 3 minus a 3 by 2 passes the guard and then reads
    past the second operand's last column;
  - `multiply` requires the first operand to have at least as many columns
    as the second has rows whenever its guard passes.
- Matrices.Matrix.FromIntField: an `int[][]` whose rows are empty gives a
  1 by 0 (or m by 0) matrix, because this constructor has no size guard.
  Java then fails on such a matrix as follows:
  - `plus` of two of them passes the guard at line 83. It then throws
    "The wrong size matrix" from `new Matrix(new Complex[1][0])` at line
    86, through lines 37-40.
  - `minus` of a 1 by 0 matrix by a 1 by 1 matrix fails the same way at
    line 105.
  - `findDeterminant` throws "Matrix is not square" at lines 157-158.
  - `transpose` fails with an index error: line 142 builds
    `new Complex[0][1]`, whose `[0]` line 37 then reads.
  Every operation of the class requires `Valid()`, which demands at least
  one column, so none of these paths is modelled. The constructor's
  `ensures` says exactly when its result is valid.
- Matrices.Matrix.New: Java leaves the cells of `new Complex[m][n]` null,
  and a later `plus` on such a matrix would fail with a null dereference.
  The model fills them with zero.
- Matrices.Matrix.FromComplexField: a Java `Complex[][]` may be ragged;
  `array2` is rectangular by construction, so ragged grids are not
  modelled.
- Matrices.Matrix.Plus, Minus, Multiply, Transpose: Java fills the result
  through a matrix built from a fresh `Complex[][]`. The model fills a
  fresh array in a helper method and then wraps it. The order of writes
  is the same and nothing is shared with the operands.
- Java `int` overflow: sizes and indices are bounded by array lengths, so
  no wrap-around can occur in the modelled code.
- Running time (the expansion is exponential) is not modelled.

## Findings

| source | as written | input that shows it | evidently intended | confidence | as-written member | corrected member |
|---|---|---|---|---|---|---|
| Matrix/src/com/matrix/Matrix.java:102 | `minus` compares `sizeM` with the second operand's `sizeN` | two 2 by 3 matrices are refused; a 2 by 3 minus a 3 by 2 passes the guard | the guard of `plus`: both sizes equal | high, not executed | MatrixFindings.MinusRefusesSameShape | MatrixFindings.MinusMatchedAfterPlus |
| Matrix/src/com/matrix/Matrix.java:121 | `multiply` compares `sizeM` with the second operand's `sizeN` and sums over its `sizeM` | 2 by 3 times 3 by 4 is refused; 2 by 3 times 2 by 2 is accepted | refuse exactly when `sizeN` differs from the second operand's `sizeM` | high, not executed | MatrixFindings.MultiplyGuardMisplaced | MatrixFindings.ProductTranspose |

