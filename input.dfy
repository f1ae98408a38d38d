/** The boundary between text fields and the engine: the check on the
    requested dimensions and the rule that an unreadable cell counts as 0. */
module MatrixInput {
  import opened Matrices

  /** The outcome of reading a number from text: None when it is not a number. */
  datatype Option<T> = None | Some(value: T)

  /** The dimension check made before an input grid is built (script.js:6):
      a count that is not a number, zero or negative is refused. */
  function CheckDimensions(rows: Option<int>, cols: Option<int>): (r: Result<(nat, nat)>)
    ensures r.Ok? <==> rows.Some? && cols.Some? && rows.value > 0 && cols.value > 0
    ensures r.Ok? ==> r.value.0 == rows.value && r.value.1 == cols.value
    ensures r.Err? ==> r.error == InvalidDimensions
  {
    if rows.None? || cols.None? || rows.value <= 0 || cols.value <= 0 then
      Err(InvalidDimensions)
    else
      Ok((rows.value, cols.value))
  }

  /** A cell whose text does not read as a number (or reads as 0) becomes 0. */
  function CellValue(cell: Option<real>): real {
    match cell
    case Some(v) => v
    case None => 0.0
  }

  /** Builds the rows-by-cols matrix row by row from the cell readings;
      cell(i, j) is what the number parser made of the text at row i, column j. */
  method ParseMatrix(rows: nat, cols: nat, cell: (nat, nat) -> Option<real>) returns (m: Matrix)
    ensures HasShape(m, rows, cols)
    ensures forall i, j :: 0 <= i < rows && 0 <= j < cols ==> m[i][j] == CellValue(cell(i, j))
    ensures rows > 0 && cols > 0 ==> IsMatrix(m)
  {
    m := [];
    for i := 0 to rows
      invariant HasShape(m, i, cols)
      invariant forall r, c :: 0 <= r < i && 0 <= c < cols ==> m[r][c] == CellValue(cell(r, c))
    {
      var row := [];
      for j := 0 to cols
        invariant |row| == j
        invariant forall c :: 0 <= c < j ==> row[c] == CellValue(cell(i, c))
      {
        row := row + [CellValue(cell(i, j))];
      }
      m := m + [row];
    }
  }
}
