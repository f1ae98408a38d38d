/** The determinant by cofactor expansion along the first row. */
module Determinants {
  import opened Matrices

  /** The sign of the cofactor at column c of the first row. */
  function Sign(c: nat): real {
    if c % 2 == 0 then 1.0 else -1.0
  }

  /** The minor of the first row at column c: row 0 and column c deleted. */
  function Minor(m: Matrix, c: nat): (s: Matrix)
    requires IsMatrix(m) && IsSquare(m) && |m| > 1 && c < |m|
    ensures IsMatrix(s) && IsSquare(s) && |s| == |m| - 1
    ensures forall i, j :: 0 <= i < |m| - 1 && 0 <= j < |m| - 1 ==>
      s[i][j] == m[i + 1][if j < c then j else j + 1]
  {
    seq(|m| - 1, i requires 0 <= i < |m| - 1 => m[i + 1][..c] + m[i + 1][c + 1..])
  }

  /** The determinant of a square matrix: the single cell for 1-by-1, the
      cross product for 2-by-2, the first-row cofactor expansion otherwise.
      The 2-by-2 shortcut agrees with the expansion, so from size 2 on the
      result is the cofactor expansion along the first row. */
  function Det(m: Matrix): (d: real)
    requires IsMatrix(m) && IsSquare(m)
    ensures |m| > 1 ==> d == Expansion(m, |m|)
    decreases |m|, |m| + 1
  {
    if |m| == 1 then m[0][0]
    else if |m| == 2 then
      assert Det(Minor(m, 0)) == m[1][1] && Det(Minor(m, 1)) == m[1][0];
      assert Expansion(m, 1) == m[0][0] * m[1][1];
      m[0][0] * m[1][1] - m[0][1] * m[1][0]
    else Expansion(m, |m|)
  }

  /** The first n terms m[0][c] * Det(Minor(m, c)) * Sign(c) of the cofactor
      expansion, added from c = 0 upwards starting at 0. */
  function Expansion(m: Matrix, n: nat): real
    requires IsMatrix(m) && IsSquare(m) && |m| > 1 && n <= |m|
    decreases |m|, n
  {
    if n == 0 then 0.0
    else Expansion(m, n - 1) + m[0][n - 1] * Det(Minor(m, n - 1)) * Sign(n - 1)
  }

  /** The determinant operation: refused with NotSquare unless the matrix has
      as many rows as columns. */
  function Determinant(m: Matrix): (r: Result<real>)
    requires IsMatrix(m)
    ensures r.Ok? <==> IsSquare(m)
    ensures r.Err? ==> r.error == NotSquare
    ensures r.Ok? && |m| == 1 ==> r.value == m[0][0]
    ensures r.Ok? && |m| == 2 ==> r.value == m[0][0] * m[1][1] - m[0][1] * m[1][0]
    ensures r.Ok? && |m| > 2 ==> r.value == Expansion(m, |m|)
  {
    if !IsSquare(m) then Err(NotSquare) else Ok(Det(m))
  }

  /** det [[1, 2], [3, 4]] = 1*4 - 2*3 = -2. */
  lemma TwoByTwoExample()
    ensures Determinant([[1.0, 2.0], [3.0, 4.0]]) == Ok(-2.0)
  {
  }

  /** A rectangular matrix has no determinant. */
  lemma NonSquareRefused()
    ensures Determinant([[1.0, 2.0, 3.0], [4.0, 5.0, 6.0]]) == Err(NotSquare)
  {
  }

  /** When every first-row cell from column 1 on is 0, only the first term of
      the expansion is left. */
  lemma {:induction false} ExpansionFirstTermOnly(m: Matrix, n: nat)
    requires IsMatrix(m) && IsSquare(m) && |m| > 1 && 0 < n <= |m|
    requires forall c :: 1 <= c < |m| ==> m[0][c] == 0.0
    ensures Expansion(m, n) == m[0][0] * Det(Minor(m, 0))
  {
    if n > 1 {
      ExpansionFirstTermOnly(m, n - 1);
      var t := Det(Minor(m, n - 1));
      assert m[0][n - 1] == 0.0;
      assert Expansion(m, n) == Expansion(m, n - 1) + 0.0 * t * Sign(n - 1);
    } else {
      assert Expansion(m, 1) == 0.0 + m[0][0] * Det(Minor(m, 0)) * Sign(0);
    }
  }

  /** When every term has a zero cell or a zero minor, the expansion is 0. */
  lemma {:induction false} ExpansionOfZeroTerms(m: Matrix, n: nat)
    requires IsMatrix(m) && IsSquare(m) && |m| > 1 && n <= |m|
    requires forall c :: 0 <= c < n ==> m[0][c] == 0.0 || Det(Minor(m, c)) == 0.0
    ensures Expansion(m, n) == 0.0
  {
    if n > 0 {
      ExpansionOfZeroTerms(m, n - 1);
    }
  }

  /** Deleting the first row and column of the identity leaves the identity. */
  lemma MinorOfIdentity(n: nat)
    requires n > 1
    ensures IsMatrix(Identity(n)) && IsSquare(Identity(n)) && Minor(Identity(n), 0) == Identity(n - 1)
  {
    var s := Minor(Identity(n), 0);
    forall i | 0 <= i < n - 1
      ensures s[i] == Identity(n - 1)[i]
    {
    }
  }

  /** The determinant of the n-by-n identity is 1. */
  lemma {:induction false} DetIdentity(n: nat)
    requires n > 0
    ensures IsMatrix(Identity(n)) && IsSquare(Identity(n)) && Det(Identity(n)) == 1.0
  {
    var id := Identity(n);
    assert IsMatrix(id) && IsSquare(id);
    if n == 2 {
      assert id[0][0] == 1.0 && id[1][1] == 1.0 && id[0][1] == 0.0 && id[1][0] == 0.0;
    } else if n > 2 {
      MinorOfIdentity(n);
      DetIdentity(n - 1);
      ExpansionFirstTermOnly(id, n);
      assert Det(id) == id[0][0] * Det(Minor(id, 0));
    }
  }

  /** A matrix with a row of zeros has determinant 0. */
  lemma {:induction false} DetZeroRow(m: Matrix, r: nat)
    requires IsMatrix(m) && IsSquare(m) && r < |m|
    requires forall j :: 0 <= j < |m| ==> m[r][j] == 0.0
    ensures Det(m) == 0.0
    decreases |m|
  {
    if |m| > 2 {
      if r == 0 {
        ExpansionOfZeroTerms(m, |m|);
      } else {
        forall c | 0 <= c < |m|
          ensures Det(Minor(m, c)) == 0.0
        {
          DetZeroRow(Minor(m, c), r - 1);
        }
        ExpansionOfZeroTerms(m, |m|);
      }
    }
  }
}
