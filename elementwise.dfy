/** Cell-by-cell addition and subtraction of two matrices of the same shape. */
module Elementwise {
  import opened Matrices

  predicate SameShape(a: Matrix, b: Matrix)
    requires IsMatrix(a) && IsMatrix(b)
  {
    Rows(a) == Rows(b) && Cols(a) == Cols(b)
  }

  /** A + B, refused with DimensionMismatch when the row counts or the column
      counts differ. */
  function Add(a: Matrix, b: Matrix): (r: Result<Matrix>)
    requires IsMatrix(a) && IsMatrix(b)
    ensures r.Ok? <==> SameShape(a, b)
    ensures r.Err? ==> r.error == DimensionMismatch
    ensures r.Ok? ==> IsMatrix(r.value) && HasShape(r.value, Rows(a), Cols(a))
    ensures r.Ok? ==> forall i, j :: 0 <= i < Rows(a) && 0 <= j < Cols(a) ==> r.value[i][j] == a[i][j] + b[i][j]
  {
    if Rows(a) != Rows(b) || Cols(a) != Cols(b) then
      Err(DimensionMismatch)
    else
      Ok(seq(|a|, i requires 0 <= i < |a| => seq(|a[i]|, j requires 0 <= j < |a[i]| => a[i][j] + b[i][j])))
  }

  /** A - B, refused with DimensionMismatch when the row counts or the column
      counts differ. */
  function Subtract(a: Matrix, b: Matrix): (r: Result<Matrix>)
    requires IsMatrix(a) && IsMatrix(b)
    ensures r.Ok? <==> SameShape(a, b)
    ensures r.Err? ==> r.error == DimensionMismatch
    ensures r.Ok? ==> IsMatrix(r.value) && HasShape(r.value, Rows(a), Cols(a))
    ensures r.Ok? ==> forall i, j :: 0 <= i < Rows(a) && 0 <= j < Cols(a) ==> r.value[i][j] == a[i][j] - b[i][j]
  {
    if Rows(a) != Rows(b) || Cols(a) != Cols(b) then
      Err(DimensionMismatch)
    else
      Ok(seq(|a|, i requires 0 <= i < |a| => seq(|a[i]|, j requires 0 <= j < |a[i]| => a[i][j] - b[i][j])))
  }

  /** Over exact reals, adding B and then subtracting it gives back A. */
  lemma AddThenSubtract(a: Matrix, b: Matrix)
    requires IsMatrix(a) && IsMatrix(b) && SameShape(a, b)
    ensures Add(a, b).Ok?
    ensures Subtract(Add(a, b).value, b) == Ok(a)
  {
    var s := Add(a, b).value;
    var d := Subtract(s, b).value;
    assert |d| == |a|;
    forall i | 0 <= i < |a|
      ensures d[i] == a[i]
    {
      assert |d[i]| == |a[i]|;
      forall j | 0 <= j < |a[i]|
        ensures d[i][j] == a[i][j]
      {
        assert d[i][j] == s[i][j] - b[i][j] == (a[i][j] + b[i][j]) - b[i][j];
      }
    }
    assert d == a;
  }

  /** Addition does not depend on the order of its operands. */
  lemma AddCommutes(a: Matrix, b: Matrix)
    requires IsMatrix(a) && IsMatrix(b)
    ensures Add(a, b).Ok? == Add(b, a).Ok?
    ensures Add(a, b).Ok? ==> Add(a, b).value == Add(b, a).value
  {
    if SameShape(a, b) {
      var s, t := Add(a, b).value, Add(b, a).value;
      forall i | 0 <= i < |a|
        ensures s[i] == t[i]
      {
      }
    }
  }

  /** Subtracting a matrix from itself gives the zero matrix of its shape. */
  lemma SubtractSelf(a: Matrix)
    requires IsMatrix(a)
    ensures Subtract(a, a).Ok?
    ensures forall i, j :: 0 <= i < Rows(a) && 0 <= j < Cols(a) ==> Subtract(a, a).value[i][j] == 0.0
  {
  }

  /** The shape mismatch of two concrete operands: a 1-by-2 and a 2-by-2. */
  lemma MismatchedRowsRefused()
    ensures Add([[1.0, 2.0]], [[1.0, 2.0], [3.0, 4.0]]) == Err(DimensionMismatch)
    ensures Subtract([[1.0, 2.0]], [[1.0, 2.0], [3.0, 4.0]]) == Err(DimensionMismatch)
  {
  }
}
