# 2D Matrix Calculator: a verified model of its matrix algebra

The calculator lets a user enter one or two matrices cell by cell in a web page.
It then adds, subtracts, multiplies, transposes, takes the determinant or inverts
them. This project models the algebra inside those page handlers, over exact
`real` arithmetic. It leaves out the page itself.

- `matrix.dfy` (module `Matrices`): a matrix is a `seq<seq<real>>`. `IsMatrix`
  says it is well formed: at least one row, at least one column, and all rows
  the same length. The module also holds the four failures the handlers report
  with `alert` (`InvalidDimensions`, `DimensionMismatch`, `NotSquare`,
  `Singular`), a `Result` type that carries either a value or one of them, and
  the identity matrix.
- `input.dfy` (module `MatrixInput`): the dimension check made before the input
  grid is built, and the construction of a matrix from its cells. A cell that
  does not read as a number counts as 0.
- `elementwise.dfy` (module `Elementwise`): addition and subtraction.
- `multiply.dfy` (module `Multiplication`): the product. It is a method that
  fills a zero-initialised grid with a triple loop, proved equal to the
  specification function `MatMul`.
- `transpose.dfy` (module `Transposition`): the transpose.
- `determinant.dfy` (module `Determinants`): cofactor expansion along the first
  row. It has shortcuts for the 1-by-1 and 2-by-2 cases.
- `inverse.dfy` (module `Inversion`): Gauss-Jordan elimination on `[A | I]`,
  with no row exchanges. The method `Invert` works in place on an `array2<real>`.
  It is proved equal to the specification function `Inverse`. That function
  runs the elimination one pivot step at a time (`EliminateFrom`, `Step`), and
  the lemmas state what each step does.

## Model

| member | source | states |
|---|---|---|
| `MatrixInput.CheckDimensions` | script.js:3-9 | the dimensions are accepted exactly when both counts read as numbers and both are positive; otherwise the result is `InvalidDimensions` |
| `MatrixInput.CellValue` | script.js:39 | by definition, a reading that is a number is kept and a text that is not a number becomes 0, as the fallback to 0 after `parseFloat` does |
| `MatrixInput.ParseMatrix` | script.js:31-46 | the result has exactly `rows` rows of `cols` cells; cell (i, j) is the parsed number, or 0 when the text is not a number; with positive dimensions the result is a well-formed matrix |
| `Elementwise.Add` | script.js:70-75 | refused with `DimensionMismatch` exactly when the row counts or the column counts differ; otherwise the result has A's shape and cell (i, j) is A[i][j] + B[i][j] |
| `Elementwise.Subtract` | script.js:84-89 | refused with `DimensionMismatch` exactly when the row counts or the column counts differ; otherwise the result has A's shape and cell (i, j) is A[i][j] - B[i][j] |
| `Elementwise.AddThenSubtract` | script.js:70-89 | over exact reals, adding B to A and then subtracting B gives back A |
| `Elementwise.AddCommutes` | script.js:75 | A + B and B + A succeed or fail together, and when they succeed they are equal |
| `Elementwise.SubtractSelf` | script.js:89 | A - A succeeds and every cell of it is 0 |
| `Elementwise.MismatchedRowsRefused` | script.js:70-73 | a 1-by-2 and a 2-by-2 operand are refused by both addition and subtraction |
| `Multiplication.RowCol` | script.js:107-109 | by definition, the first n terms of row u times column j of b, added from k = 0 upwards onto a starting 0, as the k-loop accumulates into a zero-filled cell; `RowColUnit`, `UnitRowCol`, `RowColScaled` and `RowColDiff` state its properties |
| `Multiplication.MatMul` | script.js:103 | the product of an R-by-N and an N-by-C matrix is a well-formed R-by-C matrix |
| `Multiplication.Multiply` | script.js:98-111 | refused with `DimensionMismatch` exactly when A's column count differs from B's row count; otherwise the grid filled by the triple loop is `MatMul(A, B)`, whose cell (i, j) is the sum of A[i][k] * B[k][j] from k = 0, starting at 0 |
| `Multiplication.RowColUnit` | script.js:107-109 | a row times a column of the identity, summed over the first n terms, is the row's j-th entry when j < n and 0 otherwise |
| `Multiplication.UnitRowCol` | script.js:107-109 | row i of the identity times column j of B, summed over the first n terms, is B[i][j] when i < n and 0 otherwise |
| `Multiplication.MulIdentityRight` | script.js:103-111 | A times the identity is A |
| `Multiplication.MulIdentityLeft` | script.js:103-111 | the identity times B is B |
| `Multiplication.TwoByTwoProduct` | script.js:103-111 | [[1,2],[3,4]] times [[5,6],[7,8]] is [[19,22],[43,50]] |
| `Transposition.Transpose` | script.js:119 | the transpose of an R-by-C matrix is a well-formed C-by-R matrix whose cell (j, i) is cell (i, j) of the input |
| `Transposition.TransposeTwice` | script.js:119 | transposing twice gives back the original matrix |
| `Transposition.TransposeIdentity` | script.js:119 | the identity is its own transpose |
| `Determinants.Minor` | script.js:137 | deleting row 0 and column c of an n-by-n matrix leaves an (n-1)-by-(n-1) matrix, so the recursion gets smaller; its cell (i, j) is the input's cell (i+1, j) left of column c and (i+1, j+1) from column c on |
| `Determinants.Det` | script.js:132-140 | the inner recursive determinant of a square matrix; from size 2 on its value is the first-row cofactor expansion, so the 2-by-2 shortcut at script.js:134 gives what the general rule would; each recursive call is on a minor one row smaller, so the recursion ends |
| `Determinants.Expansion` | script.js:136-139 | by definition, the `reduce` over the first row: the terms m[0][c] * det(minor c) * (-1)^c added for c = 0 .. n-1 onto a starting 0; `ExpansionFirstTermOnly` and `ExpansionOfZeroTerms` state its properties |
| `Determinants.Determinant` | script.js:127-142 | refused with `NotSquare` exactly when the row count differs from the column count; a 1-by-1 matrix gives its cell; a 2-by-2 matrix gives m00*m11 - m01*m10; a larger one gives the first-row cofactor sum of m[0][c] * det(minor) * (-1)^c |
| `Determinants.TwoByTwoExample` | script.js:134 | the determinant of [[1,2],[3,4]] is -2 |
| `Determinants.NonSquareRefused` | script.js:127-130 | a 2-by-3 matrix is refused with `NotSquare` |
| `Determinants.ExpansionFirstTermOnly` | script.js:136-139 | when the first row is 0 from column 1 on, the expansion is m[0][0] times the determinant of the first minor |
| `Determinants.ExpansionOfZeroTerms` | script.js:136-139 | when every term has a zero cell or a zero minor, the expansion is 0 |
| `Determinants.MinorOfIdentity` | script.js:137 | the first minor of the n-by-n identity is the (n-1)-by-(n-1) identity |
| `Determinants.DetIdentity` | script.js:132-140 | the determinant of the n-by-n identity is 1 for every n >= 1 |
| `Determinants.DetZeroRow` | script.js:132-140 | a square matrix with a row of zeros has determinant 0, wherever that row is |
| `Inversion.Augment` | script.js:155-156 | the working matrix is n-by-2n, with A on the left and the n-by-n identity on the right |
| `Inversion.DivideRow` | script.js:165 | dividing row i by a non-zero pivot makes the pivot cell 1 and leaves the other rows alone |
| `Inversion.ClearColumn` | script.js:167-172 | the result is again an n-by-2n working matrix with row i unchanged; every other row k becomes row k less m[k][i] times row i, the factor taken before row k changes |
| `Inversion.Step` | script.js:158-172 | one pass of the pivot loop, `DivideRow` then `ClearColumn`, keeps the n-by-2n shape; `StepClearsPivotColumn`, `StepReduces` and `StepTracks` state what it achieves |
| `Inversion.EliminateFrom` | script.js:158-173 | the pivot loop from pivot i on: every failure is `Singular` and a success keeps the n-by-2n shape; by definition it stops with `Singular` at the first zero pivot and runs no step after it |
| `Inversion.RightHalf` | script.js:175 | the extracted result is a well-formed n-by-n matrix whose cell (i, j) is cell (i, n+j) of the working matrix |
| `Inversion.Inverse` | script.js:150-175 | `NotSquare` exactly when the input is not square; every other failure is `Singular`; a success is a well-formed n-by-n matrix |
| `Inversion.Invert` | script.js:150-175 | the in-place elimination on the working grid returns exactly `Inverse(A)`: `NotSquare`, `Singular` at the first zero pivot, or the right half of the reduced grid |
| `Inversion.DivideRowInPlace` | script.js:165 | the loop over row i of the grid leaves exactly `DivideRow` of the grid it started from |
| `Inversion.ClearColumnInPlace` | script.js:167-172 | the loop over the other rows leaves exactly `ClearColumn` of the grid it started from |
| `Inversion.SubtractRowInPlace` | script.js:169-170 | row k becomes row k less factor times row i, with the factor read from column i before the row changes; every other row is unchanged |
| `Inversion.StepClearsPivotColumn` | script.js:158-172 | after the step at pivot i, row i has 1 in column i and every other row has 0 there |
| `Inversion.StepReduces` | script.js:158-173 | a step at pivot i keeps the identity columns already built before i and adds column i |
| `Inversion.EliminateFromReduces` | script.js:158-173 | when the elimination succeeds, the left half of the working matrix is the identity |
| `Inversion.RowColScaled` | script.js:165 | dividing a row by p divides its product with any column by p |
| `Inversion.RowColDiff` | script.js:170 | subtracting f times row w from row v does the same to their products with any column |
| `Inversion.InverseIsLeftInverse` | script.js:150-175 | whenever inversion succeeds, the result times A is the identity matrix |
| `Inversion.ZeroCornerIsSingular` | script.js:159-163 | with no row exchange, any square matrix with 0 in its top-left cell is refused as `Singular` |
| `Inversion.SwapMatrixRefused` | script.js:159-163 | [[0,1],[1,0]] is refused as `Singular`, although it is invertible |
| `Inversion.OneByOne` | script.js:155-175 | [[x]] is refused as `Singular` when x = 0 and inverts to [[1/x]] otherwise |
| `Inversion.IdentityInvertsToItself` | script.js:155-175 | the n-by-n identity inverts to itself for every n >= 1 |

## Left out

- Building the input grid, reading fields by id, and drawing the result table
  (script.js:11-27, script.js:49-63). These are page plumbing, not algebra.
- `alert`: each call becomes the matching `MatrixError` in a `Result`.
- `parseInt` and `parseFloat` are library calls. The model takes only their
  outcome, as an `Option`: `None` stands for NaN.
- Floating point: every value is an exact `real`. Rounding and the tolerance
  that a floating-point A·A⁻¹ would need are not modelled. So
  `AddThenSubtract` and the inversion results hold exactly here, not only
  approximately.
- Empty and zero-column input. `parseMatrix` (script.js:31-46) returns `[]`
  when the row field does not read as a positive number. It returns r empty
  rows when the row field reads as r > 0 and the column field does not read
  as a positive number. No input grid is needed for that. The handlers then
  behave as follows:
  - Add and subtract (script.js:70, script.js:84): operands with different row
    counts raise the dimension alert, including an empty operand against a
    non-empty one. Two empty operands throw a TypeError on `matrixA[0]`. Two
    grids of r empty rows pass the check and give r empty rows.
  - Multiply (script.js:98-103): an empty A throws a TypeError on
    `matrixA[0]`. A column count of A that differs from the row count of B
    raises the dimension alert, including an empty B against an A with
    columns. An A of empty rows with an empty B passes the check and then
    throws on `matrixB[0]` (script.js:103). An A with c columns times c empty
    rows gives empty rows.
  - Transpose (script.js:119): an empty matrix throws a TypeError; a grid of
    empty rows gives `[]`.
  - Determinant and inverse (script.js:127, script.js:150): an empty matrix
    throws a TypeError; r empty rows are refused as not square, because r is
    not 0.
  Every operation of the model requires `IsMatrix`, which excludes both kinds
  of input, so none of these outcomes is modelled.
- Inversion.InverseIsLeftInverse: proves only that the result times A is the
  identity, not that A times the result is the identity. For square real
  matrices the second fact follows from the first. Proving that step needs
  rank or determinant theory that this model does not develop.
- The working grid of inversion and the result grid of multiplication are
  modelled as `array2<real>`. The source builds them as arrays of row arrays,
  each freshly allocated and never aliased, so nothing observable depends on
  the difference. The inner row loops of the inversion are separate helper
  methods in the model (`DivideRowInPlace`, `ClearColumnInPlace`,
  `SubtractRowInPlace`); in the source they are written inline.
