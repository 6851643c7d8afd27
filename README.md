# S21Matrix in Dafny

A model of the `S21Matrix` class of the s21_matrix_oop library: a dense matrix of
doubles with `rows_` by `cols_` cells, zero-initialised storage, bounds-checked
element access, tolerance-based equality, in-place element-wise arithmetic, the
matrix product, transpose, the determinant by Gaussian elimination with partial
pivoting, the matrix of algebraic complements and the inverse.

The project has seven modules:

- `MatrixErrors` (matrix_errors.dfy): the `runtime_error`s the class throws, as an
  `Error` value, with `Result<T>` for operations that compute something and
  `Outcome` for operations that only change the matrix.
- `RealSums` (real_sums.dfy): sums of `seq<real>` and the facts about them that the
  matrix lemmas use (linearity, reordering double sums).
- `Grids` (grids.dfy): matrices as values (`seq<seq<real>>`): zero matrices,
  resizing, copying of the overlapping block, sum, difference, scaling, product,
  transpose, identity, row exchange and tolerance equality, with their algebra.
- `Determinants` (determinants.dfy): the determinant as cofactor expansion along the
  first row, with the facts Gaussian elimination relies on: a row exchange negates
  it, subtracting a multiple of another row keeps it, a zero column or row makes it
  0, and expansion along any row gives the same value.
- `Elimination` (elimination.dfy): the steps of the elimination loop of
  `Determinant` as value functions on the trailing block it still has to reduce,
  and the proof that each step keeps `det * det(block)` constant.
- `Complements` (complements.dfy): the complements matrix and the inverse as
  values, and the adjugate theorem `A * Inverse(A) == I` for `det A != 0`.
- `S21MatrixOop` (s21_matrix.dfy): the class. It keeps `rows`, `cols` and an
  `array2<real>` of cells, and a ghost field `Contents` that `Valid()` ties to the
  cells. Every method runs the loops of the original code on the array and is
  proved against the value-level definitions: `SumMatrix` leaves
  `Add(old(Contents), other.Contents)`, `Determinant` returns `Det(Contents)`,
  `InverseMatrix` returns `Inverse(Contents)`, and so on.

Doubles are modelled as `real`, so the algebra (`(A + B) - B == A`,
`A * Inverse(A) == I`) holds exactly. A `runtime_error` becomes a `Failure` or
`Fail` result, and then nothing changes. `Error_Rate` is the constant
`Grids.ErrorRate` (1e-6).

A moved-from matrix is 0-by-0. The original's sized constructor throws on such a
shape, so every operation that has to build a matrix whose shape comes from a 0-by-0
operand fails with InvalidDimension: `SetRows` and `SetCols` with a new count,
`MulMatrix`, `Times`, `TimesAssign` and `Transpose`. The determinant of a 0-by-0
matrix is 1 (the loop runs no turn), so `InverseMatrix` reports InvalidDimension for it.

## Model

| member | source | states |
|---|---|---|
| S21MatrixOop.S21Matrix.Valid | src/s21_matrix_oop.h:12-13 | a valid matrix has `rows` rows of `cols` cells, held in storage of that shape, and no rows exactly when no columns |
| S21MatrixOop.S21Matrix.constructor | src/s21_matrix_oop.cpp:63-67 | the default matrix is the 1-by-1 zero matrix |
| S21MatrixOop.S21Matrix.Sized | src/s21_matrix_oop.cpp:69-75 | for counts of at least 1, an r-by-c matrix of zeros in fresh storage |
| S21MatrixOop.S21Matrix.Create | src/s21_matrix_oop.cpp:69-75 | InvalidDimension when r < 1 or c < 1; otherwise a fresh r-by-c matrix of zeros |
| S21MatrixOop.S21Matrix.Copy | src/s21_matrix_oop.cpp:77-81 | the copy has other's shape and cells, in fresh storage |
| S21MatrixOop.S21Matrix.Move | src/s21_matrix_oop.cpp:83-88 | the new matrix takes other's shape, storage and cells; other is left as the empty 0-by-0 matrix with fresh storage of its own |
| S21MatrixOop.S21Matrix.CopyMatrix | src/s21_matrix_oop.cpp:5-18 | the overlapping top-left block of other's cells is copied, the rest and the shape are unchanged, also when other is this matrix |
| S21MatrixOop.S21Matrix.Reinitialize | src/s21_matrix_oop.cpp:281-284 | the matrix gets the new shape and fresh zero storage |
| S21MatrixOop.S21Matrix.SwapRows | src/s21_matrix_oop.cpp:37-41 | rows a and b are exchanged and nothing else changes |
| S21MatrixOop.S21Matrix.Assign | src/s21_matrix_oop.cpp:274-288 | the matrix takes other's shape and cells, reusing its storage when the shapes agree, also when other is this matrix |
| S21MatrixOop.S21Matrix.SetRows | src/s21_matrix_oop.cpp:98-107 | InvalidDimension with nothing changed when r is below 1, or when r is a new count for a 0-by-0 (moved-from) matrix, whose new shape cannot be built; otherwise r rows with the columns kept, the overlapping block kept and new cells 0; the storage is either kept or fresh |
| S21MatrixOop.S21Matrix.SetCols | src/s21_matrix_oop.cpp:108-117 | the same for the column count |
| S21MatrixOop.S21Matrix.GetRows | src/s21_matrix_oop.cpp:118 | the row count, which is the number of rows of the cells |
| S21MatrixOop.S21Matrix.GetCols | src/s21_matrix_oop.cpp:119 | the column count, which is the width of the cells |
| S21MatrixOop.S21Matrix.EqMatrix | src/s21_matrix_oop.cpp:132-145 | true exactly when the shapes agree and every pair of cells is at most ErrorRate apart |
| S21MatrixOop.S21Matrix.SumMatrix | src/s21_matrix_oop.cpp:159-169 | DimensionMismatch and no change on different shapes; otherwise every cell is the sum, the shape is kept and other is not changed |
| S21MatrixOop.S21Matrix.SubMatrix | src/s21_matrix_oop.cpp:147-157 | the same with the difference |
| S21MatrixOop.S21Matrix.MulNumber | src/s21_matrix_oop.cpp:171-177 | every cell is multiplied by num and the shape is kept |
| S21MatrixOop.S21Matrix.AddDotProduct | src/s21_matrix_oop.cpp:186-188 | adds the sum over k of this[i][k] * other[k][j] to buf[i][j] and changes no other cell |
| S21MatrixOop.S21Matrix.MultiplyInto | src/s21_matrix_oop.cpp:183-190 | a zero buffer ends up holding the product, cell by cell |
| S21MatrixOop.S21Matrix.MulMatrix | src/s21_matrix_oop.cpp:179-192 | DimensionMismatch unless cols equals other's rows; then InvalidDimension when the product would have no rows or no columns (a 0-by-0 operand); otherwise the matrix becomes the rows-by-other.cols product, and other is not changed |
| S21MatrixOop.S21Matrix.Transpose | src/s21_matrix_oop.cpp:194-202 | InvalidDimension for a 0-by-0 matrix; otherwise a fresh cols-by-rows matrix whose cell (j, i) is cell (i, j); this matrix is not changed |
| S21MatrixOop.S21Matrix.PivotRow | src/s21_matrix_oop.cpp:213-218 | the first row from i down whose cell in column i has the largest magnitude |
| S21MatrixOop.S21Matrix.EliminateColumn | src/s21_matrix_oop.cpp:227-232 | every row below a nonzero pivot loses Factor times the pivot row right of the pivot column |
| S21MatrixOop.S21Matrix.PivotUp | src/s21_matrix_oop.cpp:213-222 | the pivot is the first row from i down with the largest magnitude in column i; it is exchanged with row i when it is not row i, det is then negated, and det times the determinant of the remaining block is unchanged |
| S21MatrixOop.S21Matrix.EliminatePivot | src/s21_matrix_oop.cpp:225-232 | det becomes det times the pivot and the column below the pivot is eliminated, which keeps det times the determinant of the remaining block |
| S21MatrixOop.S21Matrix.Reduce | src/s21_matrix_oop.cpp:223-233 | a zero pivot gives det 0 and changes no cell (the remaining block's determinant is then 0 too); a nonzero pivot multiplies det by it and eliminates the column below it |
| S21MatrixOop.S21Matrix.EliminationStep | src/s21_matrix_oop.cpp:212-234 | one turn of the elimination loop: the pivot search, the exchange and the elimination, with the new cells and det stated; det times the determinant of the block still to do is unchanged |
| S21MatrixOop.S21Matrix.Triangulate | src/s21_matrix_oop.cpp:210-234 | the elimination loop on the working copy, one step per row: det starts at 1 and ends as the determinant of the matrix the loop started from |
| S21MatrixOop.S21Matrix.Determinant | src/s21_matrix_oop.cpp:204-237 | NotSquare on a non-square matrix; otherwise exactly the cofactor-expansion determinant; the matrix is not changed |
| S21MatrixOop.S21Matrix.MinorInto | src/s21_matrix_oop.cpp:44-57 | the buffer holds the cells outside row a and column b, in order |
| S21MatrixOop.S21Matrix.MinorMatrixDet | src/s21_matrix_oop.cpp:43-59 | InvalidDimension for a 1-by-1 matrix; otherwise the determinant of minor (a, b) |
| S21MatrixOop.S21Matrix.ComplementsInto | src/s21_matrix_oop.cpp:246-251 | from 2 rows, cell (i, j) is (-1)^(i+j) times the determinant of minor (i, j); InvalidDimension for a 1-by-1 matrix |
| S21MatrixOop.S21Matrix.CalcComplements | src/s21_matrix_oop.cpp:239-253 | NotSquare on a non-square matrix, InvalidDimension below 2 rows, otherwise a fresh matrix of the complements |
| S21MatrixOop.S21Matrix.InverseMatrix | src/s21_matrix_oop.cpp:255-268 | NotSquare, SingularMatrix when the determinant is 0, InvalidDimension below 2 rows (1 row, or a 0-by-0 matrix, whose determinant is 1); otherwise a fresh matrix holding Inverse(Contents) |
| S21MatrixOop.S21Matrix.Equals | src/s21_matrix_oop.cpp:272 | operator== is EqMatrix |
| S21MatrixOop.S21Matrix.Plus | src/s21_matrix_oop.cpp:290-294 | a fresh matrix holding the sum exactly when the shapes agree, and DimensionMismatch otherwise; the left operand is not changed |
| S21MatrixOop.S21Matrix.Minus | src/s21_matrix_oop.cpp:296-300 | the same with the difference |
| S21MatrixOop.S21Matrix.Times | src/s21_matrix_oop.cpp:302-306 | a fresh matrix holding the product, failing as MulMatrix does; the left operand is not changed |
| S21MatrixOop.S21Matrix.TimesScalar | src/s21_matrix_oop.cpp:310-314 | a fresh matrix with every cell multiplied by num |
| S21MatrixOop.ScalarTimes | src/s21_matrix_oop.cpp:308 | num * m is m * num |
| S21MatrixOop.S21Matrix.PlusAssign | src/s21_matrix_oop.cpp:316-319 | operator+= has SumMatrix's contract |
| S21MatrixOop.S21Matrix.MinusAssign | src/s21_matrix_oop.cpp:321-324 | operator-= has SubMatrix's contract |
| S21MatrixOop.S21Matrix.TimesAssignScalar | src/s21_matrix_oop.cpp:326-329 | operator*= by a number has MulNumber's contract |
| S21MatrixOop.S21Matrix.TimesAssign | src/s21_matrix_oop.cpp:331-334 | operator*= by a matrix has MulMatrix's contract: its outcome, shape and product, storage either kept or fresh, and other unchanged |
| S21MatrixOop.S21Matrix.At | src/s21_matrix_oop.cpp:336-341 | cell (r, c) when 0 <= r < rows and 0 <= c < cols, IndexOutOfRange for any other index |
| S21MatrixOop.S21Matrix.Put | src/s21_matrix_oop.cpp:336-341 | writing through the reference: cell (r, c) becomes v and no other cell changes, or IndexOutOfRange and nothing changes |
| Grids.ApproxEqualReflexive | src/s21_matrix_oop.cpp:132-145 | every matrix is equal to itself under EqMatrix's tolerance |
| Grids.ApproxEqualSymmetric | src/s21_matrix_oop.cpp:132-145 | tolerance equality is symmetric |
| Grids.ApproxEqualNotTransitive | src/s21_matrix_oop.h:4 | with the absolute tolerance 1e-6, 0 ~ 1e-6 and 1e-6 ~ 2e-6 but not 0 ~ 2e-6 |
| Grids.SubAddCancel | src/s21_matrix_oop.cpp:147-169 | (A + B) - B == A |
| Grids.AddCommutes | src/s21_matrix_oop.cpp:159-169 | A + B == B + A |
| Grids.ScaleDistributes | src/s21_matrix_oop.cpp:159-177 | (A + B) * k == A * k + B * k |
| Grids.MulIdentityRight | src/s21_matrix_oop.cpp:179-192 | A * I == A |
| Grids.MulIdentityLeft | src/s21_matrix_oop.cpp:179-192 | I * A == A |
| Grids.PartialDotStep | src/s21_matrix_oop.cpp:186-188 | one more pass of the k loop adds a[i][k] * b[k][j] to the running total |
| Grids.PartialDotFull | src/s21_matrix_oop.cpp:184-190 | the running total after all k is cell (i, j) of the product |
| Grids.TransposeInvolutive | src/s21_matrix_oop.cpp:194-202 | transposing twice gives back the matrix |
| Grids.ResizeSameShape | src/s21_matrix_oop.cpp:98-117 | resizing to the current shape changes nothing |
| Grids.ResizeRoundTrip | src/s21_matrix_oop.cpp:98-117 | growing and then shrinking back restores the matrix |
| Grids.ResizeExample | src/s21_matrix_oop.cpp:98-107 | [[1,2],[3,4]] grown to 3 rows keeps its two rows and gains a zero row |
| Grids.CopyOverlapOfZero | src/s21_matrix_oop.cpp:5-18 | copying a matrix into fresh zero storage of another shape is resizing it |
| Grids.CopyIntoZero | src/s21_matrix_oop.cpp:77-81 | copying into zero storage of the same shape reproduces the matrix |
| Grids.CopyOverlapSameShape | src/s21_matrix_oop.cpp:278-279 | CopyMatrix between matrices of one shape overwrites every cell |
| Determinants.DetSwap | src/s21_matrix_oop.cpp:37-41 | exchanging two distinct rows negates the determinant |
| Determinants.DetSubtractRow | src/s21_matrix_oop.cpp:227-232 | subtracting a multiple of another row keeps the determinant |
| Determinants.DetLinearRow | src/s21_matrix_oop.cpp:227-232 | the determinant is linear in each row |
| Determinants.DetZeroColumn | src/s21_matrix_oop.cpp:223-224 | a zero column makes the determinant 0 |
| Determinants.DetZeroRow | src/s21_matrix_oop.cpp:204-237 | a zero row makes the determinant 0 |
| Determinants.DetEqualRows | src/s21_matrix_oop.cpp:204-237 | two equal rows make the determinant 0 |
| Determinants.DetExpandRow | src/s21_matrix_oop.cpp:239-253 | expanding along any row by its complements gives the determinant |
| Determinants.DetIdentity | src/s21_matrix_oop.cpp:204-237 | the identity has determinant 1 |
| Determinants.DetSingle | src/s21_matrix_oop.cpp:204-237 | a 1-by-1 matrix's determinant is its cell |
| Determinants.DetExample | src/s21_matrix_oop.cpp:204-237 | det [[1,2],[3,4]] == -2 |
| Elimination.BlockWhole | src/s21_matrix_oop.cpp:210-212 | before the loop the block still to do is the whole copy |
| Elimination.DetBlockEmpty | src/s21_matrix_oop.cpp:234-236 | after the loop the block still to do is empty, with determinant 1 |
| Elimination.PivotToTop | src/s21_matrix_oop.cpp:219-221 | after the exchange the pivot row at i holds the column's largest magnitude |
| Elimination.DetBlockSwapped | src/s21_matrix_oop.cpp:219-222 | the exchange negates the determinant of the remaining block |
| Elimination.DetBlockMaxZeroPivot | src/s21_matrix_oop.cpp:223-224 | when the largest pivot candidate is 0 the remaining block has determinant 0 |
| Elimination.DetBlockEliminate | src/s21_matrix_oop.cpp:225-232 | the remaining block's determinant is the pivot times that of the next block after elimination |
| Elimination.EliminationProduct | src/s21_matrix_oop.cpp:226-232 | multiplying det by the pivot and eliminating keeps det times the determinant of the block still to do |
| Complements.CrossExpansion | src/s21_matrix_oop.cpp:239-253 | row i against the complements of row k sums to det when i == k and to 0 otherwise |
| Complements.InverseCell | src/s21_matrix_oop.cpp:255-268 | cell (j, k) of the inverse is complement (k, j) over the determinant |
| Complements.InverseExample | src/s21_matrix_oop.cpp:255-268 | the inverse of [[1,2],[3,4]] is [[-2,1],[1.5,-0.5]] |
| Complements.InverseRight | src/s21_matrix_oop.cpp:255-268 | A * Inverse(A) is the identity whenever det A != 0 |

## Left out

- `PrintMatrix` writes to the console; output is not modelled.
- `InitializeMatrix`, `deallocation` and the destructor manage memory by hand; the model holds an `array2<real>` that is allocated with `new` and never freed.
- IEEE-754 doubles: the model computes with exact reals, so rounding, overflow and the infinity of `1.0 / det` are not modelled; `abs` is `Grids.Abs` and `pow(-1.0, i + j)` is the parity sign `Determinants.Sign`.
- Dimensions are `nat` and requested counts `int`: the 32-bit width of `int` and allocation failure are not modelled.
- S21MatrixOop.S21Matrix.SwapRows: the original exchanges two row pointers; the model exchanges the cells of the two rows one by one, with the same resulting matrix.
- S21MatrixOop.S21Matrix.CalcComplements: the original builds but never throws its non-square error. For a matrix with more rows than columns it then reads outside the rows. For a matrix with more columns than rows, from 2 rows on, it returns a matrix of that shape: the complements of the leading square block, and 0 in the columns beyond it. For one row and several columns, `MinorMatrixDet` throws its dimension error. The model reports NotSquare in all these cases.
- S21MatrixOop.S21Matrix.InverseMatrix: the original builds but never throws its zero-determinant error. For a singular matrix of 2 or more rows it goes on to divide by 0; for a singular 1-by-1 matrix its call of `CalcComplements` then throws the dimension error of `MinorMatrixDet`, whose 0-by-0 minor cannot be built. The model reports SingularMatrix in both cases, before the dimension check.
- S21MatrixOop.S21Matrix.CalcComplements: the unused locals `buf` (a copy of the matrix) and `minor` (a default matrix) are not built.
- S21MatrixOop.ScalarTimes: the header declares the friend `operator*(const double, const S21Matrix&)`, while src/s21_matrix_oop.cpp:308 defines `operator*(const double, S21Matrix&)`, a different overload; the model follows the definition, and the declared friend, which has no definition, is not modelled.
- S21MatrixOop.S21Matrix.Assign: the self-comparison at the start of `operator=` has no effect and is left out.
- S21MatrixOop.S21Matrix.At and S21MatrixOop.S21Matrix.Put: `operator()` returns a writable `double&`; the model splits it into a read and a write, each with the same bounds check.
- S21MatrixOop.S21Matrix.SumMatrix, S21MatrixOop.S21Matrix.SubMatrix and S21MatrixOop.S21Matrix.MulMatrix: other's cells are stated unchanged for other != this, and other stays valid when it does not share this matrix's storage array; two distinct matrices sharing one storage array, which the original never creates, are not excluded by `Valid()`.
- The inner loops of `MulMatrix`, `MinorMatrixDet` and `CalcComplements`, and `Determinant`'s loop and each turn of it, are separate methods (`MultiplyInto`, `AddDotProduct`, `MinorInto`, `ComplementsInto`, `Triangulate`, `EliminationStep` and its parts); the loops and their order are those of the original.
