/** The matrix product, accumulated cell by cell in a zero-filled result grid. */
module Multiplication {
  import opened Matrices

  /** u[0] * b[0][j] + ... + u[n-1] * b[n-1][j], summed from k = 0 upwards
      starting at 0: the first n terms of row u times column j of b. */
  function RowCol(u: seq<real>, b: Matrix, j: nat, n: nat): real
    requires n <= |u| && n <= |b|
    requires forall k :: 0 <= k < n ==> j < |b[k]|
    decreases n
  {
    if n == 0 then 0.0 else RowCol(u, b, j, n - 1) + u[n - 1] * b[n - 1][j]
  }

  /** The product of an R-by-N and an N-by-C matrix: R-by-C, cell (i, j) the
      sum over k of a[i][k] * b[k][j]. */
  function MatMul(a: Matrix, b: Matrix): (p: Matrix)
    requires IsMatrix(a) && IsMatrix(b) && Cols(a) == Rows(b)
    ensures IsMatrix(p) && HasShape(p, Rows(a), Cols(b))
  {
    seq(|a|, i requires 0 <= i < |a| => seq(|b[0]|, j requires 0 <= j < |b[0]| => RowCol(a[i], b, j, |b|)))
  }

  /** Multiplies A by B, refused with DimensionMismatch unless A has as many
      columns as B has rows. */
  method Multiply(a: Matrix, b: Matrix) returns (r: Result<Matrix>)
    requires IsMatrix(a) && IsMatrix(b)
    ensures r.Ok? <==> Cols(a) == Rows(b)
    ensures r.Err? ==> r.error == DimensionMismatch
    ensures r.Ok? ==> r.value == MatMul(a, b)
  {
    if Cols(a) != Rows(b) {
      return Err(DimensionMismatch);
    }
    var rows, inner, cols := |a|, |b|, |b[0]|;
    var acc := new real[rows, cols]((_, _) => 0.0);
    for i := 0 to rows
      invariant forall r, c :: 0 <= r < i && 0 <= c < cols ==> acc[r, c] == RowCol(a[r], b, c, inner)
      invariant forall r, c :: i <= r < rows && 0 <= c < cols ==> acc[r, c] == 0.0
    {
      for j := 0 to cols
        invariant forall r, c :: 0 <= r < i && 0 <= c < cols ==> acc[r, c] == RowCol(a[r], b, c, inner)
        invariant forall c :: 0 <= c < j ==> acc[i, c] == RowCol(a[i], b, c, inner)
        invariant forall r, c :: i <= r < rows && 0 <= c < cols && (r > i || c >= j) ==> acc[r, c] == 0.0
      {
        for k := 0 to inner
          invariant forall r, c :: 0 <= r < i && 0 <= c < cols ==> acc[r, c] == RowCol(a[r], b, c, inner)
          invariant forall c :: 0 <= c < j ==> acc[i, c] == RowCol(a[i], b, c, inner)
          invariant acc[i, j] == RowCol(a[i], b, j, k)
          invariant forall r, c :: i <= r < rows && 0 <= c < cols && (r > i || c > j) ==> acc[r, c] == 0.0
        {
          acc[i, j] := acc[i, j] + a[i][k] * b[k][j];
        }
      }
    }
    var m := ToMatrix(acc);
    forall i | 0 <= i < rows
      ensures m[i] == MatMul(a, b)[i]
    {
    }
    return Ok(m);
  }

  /** Against a column of the identity matrix, a row sum picks out one entry:
      the first n terms give u[j] when j < n, and 0 otherwise. */
  lemma {:induction false} RowColUnit(u: seq<real>, size: nat, j: nat, n: nat)
    requires n <= |u| && n <= size && j < size
    ensures RowCol(u, Identity(size), j, n) == if j < n then u[j] else 0.0
  {
    if n > 0 {
      RowColUnit(u, size, j, n - 1);
    }
  }

  /** Multiplying by the identity on the right gives back A. */
  lemma MulIdentityRight(a: Matrix)
    requires IsMatrix(a)
    ensures IsMatrix(Identity(Cols(a)))
    ensures MatMul(a, Identity(Cols(a))) == a
  {
    var n := Cols(a);
    var p := MatMul(a, Identity(n));
    forall i | 0 <= i < |a|
      ensures p[i] == a[i]
    {
      forall j | 0 <= j < n
        ensures p[i][j] == a[i][j]
      {
        RowColUnit(a[i], n, j, n);
      }
    }
  }

  /** Multiplying by the identity on the left gives back B. */
  lemma MulIdentityLeft(b: Matrix)
    requires IsMatrix(b)
    ensures IsMatrix(Identity(Rows(b)))
    ensures MatMul(Identity(Rows(b)), b) == b
  {
    var n := Rows(b);
    var p := MatMul(Identity(n), b);
    forall i | 0 <= i < n
      ensures p[i] == b[i]
    {
      forall j | 0 <= j < Cols(b)
        ensures p[i][j] == b[i][j]
      {
        UnitRowCol(b, i, j, n);
      }
    }
  }

  /** A row of the identity matrix against column j of b picks out b[i][j]
      once the sum has reached term i, and is 0 before. */
  lemma {:induction false} UnitRowCol(b: Matrix, i: nat, j: nat, n: nat)
    requires IsMatrix(b) && i < Rows(b) && j < Cols(b) && n <= Rows(b)
    ensures RowCol(Identity(Rows(b))[i], b, j, n) == if i < n then b[i][j] else 0.0
  {
    if n > 0 {
      UnitRowCol(b, i, j, n - 1);
    }
  }

  /** The product of the two 2-by-2 matrices [[1,2],[3,4]] and [[5,6],[7,8]]. */
  lemma TwoByTwoProduct()
    ensures MatMul([[1.0, 2.0], [3.0, 4.0]], [[5.0, 6.0], [7.0, 8.0]]) == [[19.0, 22.0], [43.0, 50.0]]
  {
    var a, b := [[1.0, 2.0], [3.0, 4.0]], [[5.0, 6.0], [7.0, 8.0]];
    var p := MatMul(a, b);
    assert RowCol(a[0], b, 0, 1) == 5.0 && RowCol(a[0], b, 1, 1) == 6.0;
    assert RowCol(a[1], b, 0, 1) == 15.0 && RowCol(a[1], b, 1, 1) == 18.0;
    assert p[0] == [19.0, 22.0] && p[1] == [43.0, 50.0];
  }
}
