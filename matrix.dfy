/** The shared vocabulary of the matrix engine: dense real matrices, their
    shapes, the identity matrix and the four failures an operation can report. */
module Matrices {

  /** A matrix is a sequence of rows; IsMatrix says when it is well formed. */
  type Matrix = seq<seq<real>>

  /** Non-empty and rectangular: at least one row, at least one column, and
      every row as long as the first. */
  predicate IsMatrix(m: Matrix) {
    |m| > 0 && |m[0]| > 0 && forall i :: 0 <= i < |m| ==> |m[i]| == |m[0]|
  }

  function Rows(m: Matrix): nat {
    |m|
  }

  function Cols(m: Matrix): nat
    requires |m| > 0
  {
    |m[0]|
  }

  /** m has exactly r rows of exactly c cells each. */
  predicate HasShape(m: Matrix, r: nat, c: nat) {
    |m| == r && forall i :: 0 <= i < |m| ==> |m[i]| == c
  }

  predicate IsSquare(m: Matrix)
    requires IsMatrix(m)
  {
    Rows(m) == Cols(m)
  }

  /** The failures the engine reports instead of a result. */
  datatype MatrixError =
    | InvalidDimensions   // a requested row or column count is missing or not positive
    | DimensionMismatch   // operand shapes do not fit the operation
    | NotSquare           // determinant or inverse of a non-square matrix
    | Singular            // a zero pivot during Gauss-Jordan elimination

  datatype Result<T> = Ok(value: T) | Err(error: MatrixError)

  /** The n-by-n identity matrix. */
  function Identity(n: nat): (id: Matrix)
    ensures HasShape(id, n, n)
    ensures forall i, j :: 0 <= i < n && 0 <= j < n ==> id[i][j] == if i == j then 1.0 else 0.0
  {
    seq(n, i => seq(n, j => if i == j then 1.0 else 0.0))
  }

  /** The rows of a two-dimensional array as a matrix value. */
  function ToMatrix(g: array2<real>): (m: Matrix)
    reads g
    ensures HasShape(m, g.Length0, g.Length1)
    ensures forall i, j :: 0 <= i < g.Length0 && 0 <= j < g.Length1 ==> m[i][j] == g[i, j]
  {
    seq(g.Length0, i requires 0 <= i < g.Length0 reads g =>
      seq(g.Length1, j requires 0 <= j < g.Length1 reads g => g[i, j]))
  }
}
