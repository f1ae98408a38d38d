/** Inversion by Gauss-Jordan elimination on the working matrix [A | I],
    without row exchanges: a zero pivot ends the elimination as Singular. */
module Inversion {
  import opened Matrices
  import opened Multiplication

  /** A working matrix for an n-by-n input: n rows of 2n cells. */
  predicate IsWorking(m: Matrix, n: nat) {
    n > 0 && HasShape(m, n, 2 * n)
  }

  /** [A | I]: A on the left and the identity of the same size on the right. */
  function Augment(a: Matrix): (w: Matrix)
    requires IsMatrix(a) && IsSquare(a)
    ensures IsWorking(w, Rows(a))
    ensures forall i, j :: 0 <= i < Rows(a) && 0 <= j < Rows(a) ==> w[i][j] == a[i][j]
    ensures forall i :: 0 <= i < Rows(a) ==> w[i][Rows(a)..] == Identity(Rows(a))[i]
  {
    var n := |a|;
    seq(n, i requires 0 <= i < n => a[i] + seq(n, j => if i == j then 1.0 else 0.0))
  }

  /** Row v divided cell by cell by p. */
  function RowDivide(v: seq<real>, p: real): seq<real>
    requires p != 0.0
  {
    seq(|v|, k requires 0 <= k < |v| => v[k] / p)
  }

  /** Row v less f times row w, cell by cell. */
  function RowMinus(v: seq<real>, w: seq<real>, f: real): seq<real>
    requires |v| == |w|
  {
    seq(|v|, k requires 0 <= k < |v| => v[k] - f * w[k])
  }

  /** Row i divided by its pivot m[i][i]; the other rows as they were. */
  function DivideRow(m: Matrix, n: nat, i: nat): (d: Matrix)
    requires IsWorking(m, n) && i < n && m[i][i] != 0.0
    ensures IsWorking(d, n)
    ensures d[i][i] == 1.0
    ensures forall k :: 0 <= k < n && k != i ==> d[k] == m[k]
  {
    m[i := RowDivide(m[i], m[i][i])]
  }

  /** Every row k other than i less m[k][i] times row i; row i as it was. */
  function ClearColumn(m: Matrix, n: nat, i: nat): (e: Matrix)
    requires IsWorking(m, n) && i < n
    ensures IsWorking(e, n) && e[i] == m[i]
  {
    seq(n, k requires 0 <= k < n => if k == i then m[i] else RowMinus(m[k], m[i], m[k][i]))
  }

  /** One elimination step at pivot i: divide row i by its pivot, then
      subtract multiples of it from every other row. */
  function Step(m: Matrix, n: nat, i: nat): (s: Matrix)
    requires IsWorking(m, n) && i < n && m[i][i] != 0.0
    ensures IsWorking(s, n)
  {
    ClearColumn(DivideRow(m, n, i), n, i)
  }

  /** The elimination from pivot i on: Singular at the first zero pivot,
      otherwise the working matrix after the last step. */
  function EliminateFrom(m: Matrix, n: nat, i: nat): (r: Result<Matrix>)
    requires IsWorking(m, n) && i <= n
    ensures r.Ok? ==> IsWorking(r.value, n)
    ensures r.Err? ==> r.error == Singular
    decreases n - i
  {
    if i == n then Ok(m)
    else if m[i][i] == 0.0 then Err(Singular)
    else EliminateFrom(Step(m, n, i), n, i + 1)
  }

  /** Columns n .. 2n-1 of the working matrix. */
  function RightHalf(m: Matrix, n: nat): (h: Matrix)
    requires IsWorking(m, n)
    ensures IsMatrix(h) && HasShape(h, n, n)
    ensures forall i, j :: 0 <= i < n && 0 <= j < n ==> h[i][j] == m[i][n + j]
  {
    seq(n, i requires 0 <= i < n => m[i][n..])
  }

  /** The inverse as the elimination computes it: NotSquare for a
      rectangular matrix, Singular at a zero pivot, otherwise the right half
      of the fully eliminated working matrix. */
  function Inverse(a: Matrix): (r: Result<Matrix>)
    requires IsMatrix(a)
    ensures r.Err? && r.error == NotSquare <==> !IsSquare(a)
    ensures r.Err? ==> r.error == NotSquare || r.error == Singular
    ensures r.Ok? ==> IsMatrix(r.value) && HasShape(r.value, Rows(a), Rows(a))
  {
    if Rows(a) != Cols(a) then Err(NotSquare)
    else
      match EliminateFrom(Augment(a), Rows(a), 0)
      case Ok(w) => Ok(RightHalf(w, Rows(a)))
      case Err(e) => Err(e)
  }

  /** Inverts a square matrix in place on a freshly built working grid. */
  method Invert(a: Matrix) returns (r: Result<Matrix>)
    requires IsMatrix(a)
    ensures r == Inverse(a)
  {
    if Rows(a) != Cols(a) {
      return Err(NotSquare);
    }
    var size := |a|;
    var aug := new real[size, 2 * size]((i, j) requires 0 <= i < size && 0 <= j < 2 * size =>
      if j < size then a[i][j] else if i == j - size then 1.0 else 0.0);
    assert ToMatrix(aug) == Augment(a) by {
      var g, w := ToMatrix(aug), Augment(a);
      forall i | 0 <= i < size
        ensures g[i] == w[i]
      {
        forall j | 0 <= j < 2 * size
          ensures g[i][j] == w[i][j]
        {
          if j >= size {
            assert w[i][size..][j - size] == w[i][j];
          }
        }
      }
    }
    for i := 0 to size
      invariant EliminateFrom(ToMatrix(aug), size, i) == EliminateFrom(Augment(a), size, 0)
    {
      var pivot := aug[i, i];
      if pivot == 0.0 {
        return Err(Singular);
      }
      DivideRowInPlace(aug, size, i);
      ClearColumnInPlace(aug, size, i);
    }
    return Ok(RightHalf(ToMatrix(aug), size));
  }

  /** Divides row i of the working grid by its pivot, cell by cell from the left. */
  method DivideRowInPlace(aug: array2<real>, size: nat, i: nat)
    requires aug.Length0 == size && aug.Length1 == 2 * size && i < size && aug[i, i] != 0.0
    modifies aug
    ensures ToMatrix(aug) == DivideRow(old(ToMatrix(aug)), size, i)
  {
    ghost var before := ToMatrix(aug);
    var pivot := aug[i, i];
    for j := 0 to 2 * size
      invariant forall r, c :: 0 <= r < size && 0 <= c < 2 * size ==>
        aug[r, c] == if r == i && c < j then before[r][c] / pivot else before[r][c]
    {
      aug[i, j] := aug[i, j] / pivot;
    }
    assert ToMatrix(aug) == DivideRow(before, size, i) by {
      var g, d := ToMatrix(aug), DivideRow(before, size, i);
      forall r | 0 <= r < size
        ensures g[r] == d[r]
      {
      }
    }
  }

  /** Subtracts factor times row i from every other row k, where factor is
      the cell of row k in column i read before the row is changed. */
  method ClearColumnInPlace(aug: array2<real>, size: nat, i: nat)
    requires aug.Length0 == size && aug.Length1 == 2 * size && i < size
    modifies aug
    ensures ToMatrix(aug) == ClearColumn(old(ToMatrix(aug)), size, i)
  {
    ghost var before := ToMatrix(aug);
    for k := 0 to size
      invariant forall r, c :: 0 <= r < k && r != i && 0 <= c < 2 * size ==>
        aug[r, c] == before[r][c] - before[r][i] * before[i][c]
      invariant forall r, c :: (k <= r < size || r == i) && 0 <= c < 2 * size ==> aug[r, c] == before[r][c]
    {
      if k != i {
        SubtractRowInPlace(aug, size, k, i);
      }
    }
    ClearedGrid(ToMatrix(aug), before, size, i);
  }

  /** Row k less factor times row i, where factor is the cell of row k in
      column i, read before the row changes; every other row as it was. */
  method SubtractRowInPlace(aug: array2<real>, size: nat, k: nat, i: nat)
    requires aug.Length0 == size && aug.Length1 == 2 * size && k < size && i < size && k != i
    modifies aug
    ensures forall c :: 0 <= c < 2 * size ==> aug[k, c] == old(aug[k, c]) - old(aug[k, i]) * old(aug[i, c])
    ensures forall r, c :: 0 <= r < size && r != k && 0 <= c < 2 * size ==> aug[r, c] == old(aug[r, c])
  {
    var factor := aug[k, i];
    for j := 0 to 2 * size
      invariant forall c :: 0 <= c < j ==> aug[k, c] == old(aug[k, c]) - factor * old(aug[i, c])
      invariant forall c :: j <= c < 2 * size ==> aug[k, c] == old(aug[k, c])
      invariant forall r, c :: 0 <= r < size && r != k && 0 <= c < 2 * size ==> aug[r, c] == old(aug[r, c])
    {
      aug[k, j] := aug[k, j] - factor * aug[i, j];
    }
  }

  /** A grid whose every row k other than i is row k less m[k][i] times row
      i, and whose row i is unchanged, is ClearColumn(m, n, i). */
  lemma ClearedGrid(g: Matrix, m: Matrix, n: nat, i: nat)
    requires IsWorking(m, n) && i < n && HasShape(g, n, 2 * n)
    requires forall r, c :: 0 <= r < n && 0 <= c < 2 * n ==>
      g[r][c] == if r != i then m[r][c] - m[r][i] * m[i][c] else m[r][c]
    ensures g == ClearColumn(m, n, i)
  {
    var e := ClearColumn(m, n, i);
    forall r | 0 <= r < n
      ensures g[r] == e[r]
    {
      assert |g[r]| == |e[r]| == 2 * n;
      forall c | 0 <= c < 2 * n
        ensures g[r][c] == e[r][c]
      {
      }
    }
  }

  /** Columns 0 .. i-1 of the left half already hold the identity's columns. */
  predicate Reduced(m: Matrix, n: nat, i: nat)
    requires IsWorking(m, n) && i <= n
  {
    forall k, c :: 0 <= k < n && 0 <= c < i ==> m[k][c] == if k == c then 1.0 else 0.0
  }

  /** After a step at pivot i, row i has 1 in column i and every other row
      has 0 there. */
  lemma StepClearsPivotColumn(m: Matrix, n: nat, i: nat)
    requires IsWorking(m, n) && i < n && m[i][i] != 0.0
    ensures Step(m, n, i)[i][i] == 1.0
    ensures forall k :: 0 <= k < n && k != i ==> Step(m, n, i)[k][i] == 0.0
  {
    var d := DivideRow(m, n, i);
    var s := ClearColumn(d, n, i);
    forall k | 0 <= k < n && k != i
      ensures s[k][i] == 0.0
    {
      assert s[k] == RowMinus(d[k], d[i], d[k][i]);
      assert d[i][i] == 1.0;
      assert s[k][i] == d[k][i] - d[k][i] * 1.0;
    }
  }

  /** A step at pivot i keeps the identity columns before i and adds column i. */
  lemma StepReduces(m: Matrix, n: nat, i: nat)
    requires IsWorking(m, n) && i < n && m[i][i] != 0.0
    requires Reduced(m, n, i)
    ensures Reduced(Step(m, n, i), n, i + 1)
  {
    StepClearsPivotColumn(m, n, i);
    var d := DivideRow(m, n, i);
    var s := ClearColumn(d, n, i);
    forall c | 0 <= c < i
      ensures d[i][c] == 0.0
    {
      assert d[i][c] == m[i][c] / m[i][i];
    }
    forall k, c | 0 <= k < n && 0 <= c < i
      ensures s[k][c] == if k == c then 1.0 else 0.0
    {
      if k != i {
        assert s[k] == RowMinus(d[k], d[i], d[k][i]);
        assert s[k][c] == d[k][c] - d[k][i] * d[i][c];
      }
    }
  }

  /** A successful elimination leaves the identity in the left half. */
  lemma {:induction false} EliminateFromReduces(m: Matrix, n: nat, i: nat)
    requires IsWorking(m, n) && i <= n && Reduced(m, n, i)
    requires EliminateFrom(m, n, i).Ok?
    ensures Reduced(EliminateFrom(m, n, i).value, n, n)
    decreases n - i
  {
    if i < n {
      StepReduces(m, n, i);
      EliminateFromReduces(Step(m, n, i), n, i + 1);
    }
  }

  /** Dividing a row by p divides its product with a column by p. */
  lemma {:induction false} RowColScaled(v: seq<real>, p: real, b: Matrix, j: nat, n: nat)
    requires n <= |v| && n <= |b| && forall k :: 0 <= k < n ==> j < |b[k]|
    requires p != 0.0
    ensures RowCol(RowDivide(v, p), b, j, n) == RowCol(v, b, j, n) / p
  {
    if n > 0 {
      RowColScaled(v, p, b, j, n - 1);
      var x := b[n - 1][j];
      assert RowDivide(v, p)[n - 1] * x == (v[n - 1] * x) / p;
    }
  }

  /** Subtracting f times row w from row v does the same to their products
      with a column. */
  lemma {:induction false} RowColDiff(v: seq<real>, w: seq<real>, f: real, b: Matrix, j: nat, n: nat)
    requires |v| == |w| && n <= |v| && n <= |b| && forall k :: 0 <= k < n ==> j < |b[k]|
    ensures RowCol(RowMinus(v, w, f), b, j, n) == RowCol(v, b, j, n) - f * RowCol(w, b, j, n)
  {
    if n > 0 {
      RowColDiff(v, w, f, b, j, n - 1);
      var x := b[n - 1][j];
      assert RowMinus(v, w, f)[n - 1] * x == v[n - 1] * x - f * (w[n - 1] * x);
    }
  }

  /** The right half of a divided row is the divided right half. */
  lemma RowDivideDrop(v: seq<real>, p: real, n: nat)
    requires p != 0.0 && n <= |v|
    ensures RowDivide(v, p)[n..] == RowDivide(v[n..], p)
  {
  }

  /** The right half of a row difference is the difference of right halves. */
  lemma RowMinusDrop(v: seq<real>, w: seq<real>, f: real, n: nat)
    requires |v| == |w| && n <= |v|
    ensures RowMinus(v, w, f)[n..] == RowMinus(v[n..], w[n..], f)
  {
    var x, y := RowMinus(v, w, f)[n..], RowMinus(v[n..], w[n..], f);
    assert |x| == |y|;
    forall k | 0 <= k < |x|
      ensures x[k] == y[k]
    {
      assert x[k] == RowMinus(v, w, f)[n + k];
    }
  }

  /** The right half records the row operations done so far: row r of the
      right half times A is row r of the left half. */
  predicate Tracks(m: Matrix, a: Matrix, n: nat)
    requires IsWorking(m, n) && IsMatrix(a) && HasShape(a, n, n)
  {
    forall r, j {:trigger RowCol(m[r][n..], a, j, n)} ::
      0 <= r < n && 0 <= j < n ==> RowCol(m[r][n..], a, j, n) == m[r][j]
  }

  lemma AugmentTracks(a: Matrix)
    requires IsMatrix(a) && IsSquare(a)
    ensures Tracks(Augment(a), a, Rows(a))
  {
    var n := Rows(a);
    forall r, j | 0 <= r < n && 0 <= j < n
      ensures RowCol(Augment(a)[r][n..], a, j, n) == Augment(a)[r][j]
    {
      UnitRowCol(a, r, j, n);
    }
  }

  /** Dividing row i keeps the right half tracking the left half. */
  lemma DivideRowTracks(m: Matrix, a: Matrix, n: nat, i: nat)
    requires IsWorking(m, n) && i < n && m[i][i] != 0.0
    requires IsMatrix(a) && HasShape(a, n, n) && Tracks(m, a, n)
    ensures Tracks(DivideRow(m, n, i), a, n)
  {
    var d, p := DivideRow(m, n, i), m[i][i];
    RowDivideDrop(m[i], p, n);
    forall j | 0 <= j < n
      ensures RowCol(d[i][n..], a, j, n) == d[i][j]
    {
      RowColScaled(m[i][n..], p, a, j, n);
    }
  }

  /** If the right halves of rows v and w track their left halves at
      column j, so does the right half of v less f times w. */
  lemma RowMinusTracks(v: seq<real>, w: seq<real>, f: real, a: Matrix, n: nat, j: nat)
    requires |v| == 2 * n && |w| == 2 * n && j < n
    requires IsMatrix(a) && HasShape(a, n, n)
    requires RowCol(v[n..], a, j, n) == v[j] && RowCol(w[n..], a, j, n) == w[j]
    ensures RowCol(RowMinus(v, w, f)[n..], a, j, n) == RowMinus(v, w, f)[j]
  {
    RowMinusDrop(v, w, f, n);
    RowColDiff(v[n..], w[n..], f, a, j, n);
  }

  /** Clearing column i keeps the right half tracking the left half. */
  lemma ClearColumnTracks(m: Matrix, a: Matrix, n: nat, i: nat)
    requires IsWorking(m, n) && i < n
    requires IsMatrix(a) && HasShape(a, n, n) && Tracks(m, a, n)
    ensures Tracks(ClearColumn(m, n, i), a, n)
  {
    var e := ClearColumn(m, n, i);
    forall r, j | 0 <= r < n && 0 <= j < n
      ensures RowCol(e[r][n..], a, j, n) == e[r][j]
    {
      if r != i {
        RowMinusTracks(m[r], m[i], m[r][i], a, n, j);
      }
    }
  }

  /** An elimination step applies the same row operations to both halves. */
  lemma StepTracks(m: Matrix, a: Matrix, n: nat, i: nat)
    requires IsWorking(m, n) && i < n && m[i][i] != 0.0
    requires IsMatrix(a) && HasShape(a, n, n) && Tracks(m, a, n)
    ensures Tracks(Step(m, n, i), a, n)
  {
    DivideRowTracks(m, a, n, i);
    ClearColumnTracks(DivideRow(m, n, i), a, n, i);
  }

  lemma {:induction false} EliminateFromTracks(m: Matrix, a: Matrix, n: nat, i: nat)
    requires IsWorking(m, n) && i <= n
    requires IsMatrix(a) && HasShape(a, n, n) && Tracks(m, a, n)
    requires EliminateFrom(m, n, i).Ok?
    ensures Tracks(EliminateFrom(m, n, i).value, a, n)
    decreases n - i
  {
    if i < n {
      StepTracks(m, a, n, i);
      EliminateFromTracks(Step(m, n, i), a, n, i + 1);
    }
  }

  /** Whenever the elimination succeeds, its result times A is the identity. */
  lemma InverseIsLeftInverse(a: Matrix)
    requires IsMatrix(a) && Inverse(a).Ok?
    ensures Cols(Inverse(a).value) == Rows(a)
    ensures MatMul(Inverse(a).value, a) == Identity(Rows(a))
  {
    var n := Rows(a);
    var m := Augment(a);
    var w := EliminateFrom(m, n, 0).value;
    AugmentTracks(a);
    EliminateFromTracks(m, a, n, 0);
    EliminateFromReduces(m, n, 0);
    var b := RightHalf(w, n);
    var p := MatMul(b, a);
    forall r | 0 <= r < n
      ensures p[r] == Identity(n)[r]
    {
      forall j | 0 <= j < n
        ensures p[r][j] == Identity(n)[r][j]
      {
        assert b[r] == w[r][n..];
      }
    }
  }

  /** Without row exchanges, a zero in the top-left cell is a zero first pivot. */
  lemma ZeroCornerIsSingular(a: Matrix)
    requires IsMatrix(a) && IsSquare(a) && a[0][0] == 0.0
    ensures Inverse(a) == Err(Singular)
  {
  }

  /** [[0, 1], [1, 0]] is invertible, but its first pivot is 0. */
  lemma SwapMatrixRefused()
    ensures Inverse([[0.0, 1.0], [1.0, 0.0]]) == Err(Singular)
  {
    ZeroCornerIsSingular([[0.0, 1.0], [1.0, 0.0]]);
  }

  /** A 1-by-1 matrix [[x]] inverts to [[1/x]] exactly when x is not 0. */
  lemma OneByOne(x: real)
    ensures x == 0.0 ==> Inverse([[x]]) == Err(Singular)
    ensures x != 0.0 ==> Inverse([[x]]) == Ok([[1.0 / x]])
  {
    if x != 0.0 {
      var m := Augment([[x]]);
      assert m[0][1..] == Identity(1)[0] == [1.0];
      assert m[0] == [x, 1.0] by {
        assert |m[0]| == 2 && m[0][0] == x && m[0][1] == m[0][1..][0];
      }
      var s := Step(m, 1, 0);
      assert s[0] == DivideRow(m, 1, 0)[0];
      assert s[0][0] == 1.0 && s[0][1] == 1.0 / x && |s[0]| == 2;
      assert s[0] == [1.0, 1.0 / x];
      assert s == [[1.0, 1.0 / x]];
      assert RightHalf(s, 1) == [[1.0 / x]];
    }
  }

  /** Each step on [I | I] leaves it unchanged: the pivots are 1 and every
      other cell of the pivot column is already 0. */
  lemma StepFixesIdentity(n: nat, i: nat)
    requires 0 < n && i < n
    ensures IsMatrix(Identity(n)) && IsWorking(Augment(Identity(n)), n)
    ensures Augment(Identity(n))[i][i] == 1.0
    ensures Step(Augment(Identity(n)), n, i) == Augment(Identity(n))
  {
    var m := Augment(Identity(n));
    var s := Step(m, n, i);
    forall k | 0 <= k < n
      ensures s[k] == m[k]
    {
      forall j | 0 <= j < 2 * n
        ensures s[k][j] == m[k][j]
      {
        if j >= n {
          assert m[k][j] == m[k][n..][j - n];
        }
      }
    }
  }

  lemma {:induction false} EliminateFromIdentity(n: nat, i: nat)
    requires 0 < n && i <= n
    ensures IsMatrix(Identity(n)) && IsWorking(Augment(Identity(n)), n)
    ensures EliminateFrom(Augment(Identity(n)), n, i) == Ok(Augment(Identity(n)))
    decreases n - i
  {
    if i < n {
      StepFixesIdentity(n, i);
      EliminateFromIdentity(n, i + 1);
    }
  }

  /** The identity matrix inverts to itself. */
  lemma IdentityInvertsToItself(n: nat)
    requires n > 0
    ensures IsMatrix(Identity(n)) && Inverse(Identity(n)) == Ok(Identity(n))
  {
    EliminateFromIdentity(n, 0);
    var h := RightHalf(Augment(Identity(n)), n);
    forall i | 0 <= i < n
      ensures h[i] == Identity(n)[i]
    {
    }
    assert h == Identity(n);
  }
}
