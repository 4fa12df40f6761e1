/**
 * Human-readable cell labels (helpers/get_location.py): column index 0..8
 * becomes a letter 'A'..'I', row index 0..8 becomes the digit of the
 * one-based row number, and a cell is labelled by its letter followed by
 * its number ("A1" is the top-left cell).
 */
module Location {
  import opened Wrappers

  const ColumnError := "Column index must be between 0 and 8 inclusive."
  const RowError := "Row index must be between 0 and 8 inclusive."

  /** get_column_letter: 'A' plus the index, or a ValueError outside 0..8. */
  function ColumnLetter(col: int): (r: Result<char>)
    ensures r.Ok? <==> 0 <= col <= 8
    ensures r.Ok? ==> 'A' <= r.value <= 'I'
    ensures r.Err? ==> r.error == ValueError(ColumnError)
  {
    if !(0 <= col <= 8) then Err(ValueError(ColumnError))
    else Ok(('A' as int + col) as char)
  }

  /** get_row_number: the decimal text of row + 1, or a ValueError outside 0..8. */
  function RowNumber(row: int): (r: Result<string>)
    ensures r.Ok? <==> 0 <= row <= 8
    ensures r.Ok? ==> |r.value| == 1 && '1' <= r.value[0] <= '9'
    ensures r.Err? ==> r.error == ValueError(RowError)
  {
    if !(0 <= row <= 8) then Err(ValueError(RowError))
    else Ok([('1' as int + row) as char])
  }

  /** get_cell_location: the column is converted first, so its error wins. */
  function CellLocation(row: int, col: int): (r: Result<string>)
    ensures r.Ok? <==> 0 <= row <= 8 && 0 <= col <= 8
    ensures r.Ok? ==> |r.value| == 2
    ensures !(0 <= col <= 8) ==> r == Err(ValueError(ColumnError))
    ensures 0 <= col <= 8 && !(0 <= row <= 8) ==> r == Err(ValueError(RowError))
  {
    match ColumnLetter(col)
    case Err(e) => Err(e)
    case Ok(letter) =>
      match RowNumber(row)
      case Err(e) => Err(e)
      case Ok(number) => Ok([letter] + number)
  }

  /**
   * Reads a label back: a letter 'A'..'I' followed by a digit '1'..'9'.
   * The source has no such decoder; this one exists only as the partner
   * against which the labels are proved to be a one-to-one encoding.
   */
  function ParseLocation(s: string): (r: Option<(int, int)>)
    ensures r.Some? ==> 0 <= r.value.0 <= 8 && 0 <= r.value.1 <= 8
  {
    if |s| == 2 && 'A' <= s[0] <= 'I' && '1' <= s[1] <= '9' then
      Some((s[1] as int - '1' as int, s[0] as int - 'A' as int))
    else None
  }

  /** Every label produced for a cell on the board reads back to that cell. */
  lemma LocationRoundTrip(row: int, col: int)
    requires 0 <= row <= 8 && 0 <= col <= 8
    ensures CellLocation(row, col).Ok?
    ensures ParseLocation(CellLocation(row, col).value) == Some((row, col))
  {
  }

  /** Only labels of board cells read back, and they read back to their own cell. */
  lemma ParseThenLabel(s: string)
    requires ParseLocation(s).Some?
    ensures CellLocation(ParseLocation(s).value.0, ParseLocation(s).value.1) == Ok(s)
  {
    var p := ParseLocation(s).value;
    assert [s[0]] + [s[1]] == s;
  }

  /** Distinct cells have distinct labels. */
  lemma LocationInjective(r1: int, c1: int, r2: int, c2: int)
    requires 0 <= r1 <= 8 && 0 <= c1 <= 8 && 0 <= r2 <= 8 && 0 <= c2 <= 8
    requires CellLocation(r1, c1) == CellLocation(r2, c2)
    ensures r1 == r2 && c1 == c2
  {
    LocationRoundTrip(r1, c1);
    LocationRoundTrip(r2, c2);
  }
}
