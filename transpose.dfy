/** Swapping the rows and the columns of a matrix. */
module Transposition {
  import opened Matrices

  /** The C-by-R matrix whose cell (j, i) is cell (i, j) of the R-by-C input;
      every well-formed matrix has one. */
  function Transpose(a: Matrix): (t: Matrix)
    requires IsMatrix(a)
    ensures IsMatrix(t) && HasShape(t, Cols(a), Rows(a))
    ensures forall i, j :: 0 <= i < Rows(a) && 0 <= j < Cols(a) ==> t[j][i] == a[i][j]
  {
    seq(|a[0]|, c requires 0 <= c < |a[0]| => seq(|a|, r requires 0 <= r < |a| => a[r][c]))
  }

  /** Transposing twice gives back the original matrix. */
  lemma TransposeTwice(a: Matrix)
    requires IsMatrix(a)
    ensures Transpose(Transpose(a)) == a
  {
    var t := Transpose(Transpose(a));
    assert |t| == |a|;
    forall i | 0 <= i < |a|
      ensures t[i] == a[i]
    {
      assert |t[i]| == |a[i]|;
    }
  }

  /** The identity matrix is its own transpose. */
  lemma TransposeIdentity(n: nat)
    requires n > 0
    ensures IsMatrix(Identity(n)) && Transpose(Identity(n)) == Identity(n)
  {
    var t := Transpose(Identity(n));
    forall i | 0 <= i < n
      ensures t[i] == Identity(n)[i]
    {
    }
  }
}
