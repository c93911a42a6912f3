/**
 * The text form of a field: `toString`, which draws the box, and
 * `loadFromString`, which reads the digits back out of such a box, with
 * the constructor `Sudoku(String)` built on it. The functions these
 * methods are proved against are in module `Texts`.
 */
module FieldText {
  import opened Wrappers
  import opened Positions
  import opened Boards
  import opened Scans
  import opened Decimal
  import opened Texts
  import opened Fields
  import opened Games

  /** The cells of one row as `toString` shows them, the highlighted cell between asterisks. */
  method RowText(f: SudokuField, row: int, highlightRow: int, highlightColumn: int) returns (cells: string)
    requires f.Shaped() && f.DigitsMatch() && AtMostNine(f.model.field) && InRange(row)
    ensures cells == CellsText(f.model.field, row, |f.model.field[row]|, highlightRow, highlightColumn)
  {
    ghost var g := f.model.field;
    cells := "";
    var column := 0;
    while column < MAX
      invariant 0 <= column <= 9
      invariant cells == CellsText(g, row, column, highlightRow, highlightColumn)
    {
      var value := " ";
      if f.field[row, column] > EMPTY {
        value := NatToString(f.field[row, column]);
      }
      GlyphText(g[row][column]);
      var cell := " " + value + " ";
      if row == highlightRow && column == highlightColumn {
        cell := "*" + value + "*";
      }
      AppendCell(g, row, column, highlightRow, highlightColumn, cell);
      cells := cells + cell;
      if (column + 1) % 3 == 0 {
        cells := cells + " | ";
      }
      column := column + 1;
    }
  }

  /** The box of the field as `toString` draws it: a border after every third row. */
  method BoxText(f: SudokuField, highlightRow: int, highlightColumn: int) returns (s: string)
    requires f.Shaped() && f.DigitsMatch() && AtMostNine(f.model.field)
    ensures s == Render(f.model.field, highlightRow, highlightColumn)
  {
    ghost var g := f.model.field;
    s := BORDER + [NEWLINE];
    assert BoxLines(g, LinesAbove(0), highlightRow, highlightColumn) == [BORDER];
    var row := 0;
    while row < MAX
      invariant 0 <= row <= 9
      invariant s == Terminated(BoxLines(g, LinesAbove(row), highlightRow, highlightColumn))
    {
      ghost var above := s;
      var cells := RowText(f, row, highlightRow, highlightColumn);
      s := s + ("| " + cells);
      s := s + [NEWLINE];
      RenderRow(g, row, highlightRow, highlightColumn, above);
      if (row + 1) % 3 == 0 {
        s := s + BORDER + [NEWLINE];
      }
      row := row + 1;
    }
    assert LinesAbove(row) == 13;
  }

  /**
   * `toString(highlightRow, highlightColumn, showInfoText)`: the box of the
   * field, optionally followed by the counts of empty cells and of
   * candidates. Reading it back gives the same digits.
   */
  method ToString(f: SudokuField, highlightRow: int, highlightColumn: int, showInfoText: bool) returns (s: string)
    requires f.Valid()
    ensures s == Render(f.model.field, highlightRow, highlightColumn) +
      (if showInfoText then InfoLine(CountEmpty(f.model.field), TotalOptions(f.model)) + [NEWLINE] else "")
    ensures Parse(s) == Success(f.model.field)
  {
    ghost var g := f.model.field;
    s := BoxText(f, highlightRow, highlightColumn);
    ghost var box := s;
    if showInfoText {
      var remaining := f.NumRemainingEmptyCells();
      var options := f.NumRemainingOptionsTotal();
      s := s + ("Remaining: " + NatToString(remaining) + ", Options: " + NatToString(options));
      s := s + [NEWLINE];
    }
    ParseRender(g, highlightRow, highlightColumn, s[|box|..]);
    assert s == box + s[|box|..];
  }

  /**
   * `loadFromString`: the text split into lines, the glyph of each cell
   * read at its place in the box, and a new field built from the digits.
   * A missing line or character and a glyph that is neither a space nor a
   * digit are errors.
   */
  method LoadFromString(text: string) returns (r: Result<SudokuField>)
    ensures r.Failure? <==> Parse(text).Failure?
    ensures r.Failure? ==> r.error == Parse(text).error
    ensures r.Success? ==> r.value.Valid() && Settled(r.value.model) && r.value.model.field == Parse(text).value
    ensures r.Success? ==> fresh(r.value) && fresh(r.value.field) && fresh(r.value.options) && fresh(r.value.remainingOptions)
  {
    var grid := new int[9, 9];
    var lines := Split(text);
    var row := 0;
    while row < MAX
      invariant 0 <= row <= 9
      invariant ParseCells(lines, 9 * row).Success?
      invariant forall x, y | 0 <= x < row && 0 <= y < 9 :: ParseCell(lines, x, y) == Success(grid[x, y])
    {
      var error := LoadRow(lines, grid, row);
      if error.Some? {
        return Failure(error.value);
      }
      row := row + 1;
    }
    var f := new SudokuField.FromGrid(grid);
    ParseGrid(lines, f.model.field);
    return Success(f);
  }

  /** The constructor `Sudoku(String)`: a puzzle holding the field `loadFromString` reads. */
  method SudokuFromString(text: string) returns (r: Result<Sudoku>)
    ensures r.Failure? <==> Parse(text).Failure?
    ensures r.Failure? ==> r.error == Parse(text).error
    ensures r.Success? ==> r.value.field.Valid() && Settled(r.value.field.model) && r.value.field.model.field == Parse(text).value
    ensures r.Success? ==> fresh(r.value) && fresh(r.value.field)
  {
    var loaded := LoadFromString(text);
    if loaded.Failure? {
      return Failure(loaded.error);
    }
    var sudoku := new Sudoku.Holding(loaded.value);
    return Success(sudoku);
  }

  /** One pass of the outer loop of `loadFromString`: the cells of `row`, or the first error among them. */
  method LoadRow(lines: seq<string>, grid: array2<int>, row: int) returns (error: Option<Exception>)
    requires grid.Length0 == 9 && grid.Length1 == 9 && InRange(row)
    requires ParseCells(lines, 9 * row).Success?
    requires forall x, y | 0 <= x < row && 0 <= y < 9 :: ParseCell(lines, x, y) == Success(grid[x, y])
    modifies grid
    ensures error.Some? ==> ParseCells(lines, CELLS) == Failure(error.value)
    ensures error.None? ==> ParseCells(lines, 9 * row + 9).Success?
    ensures error.None? ==> forall x, y | 0 <= x <= row && 0 <= y < 9 :: ParseCell(lines, x, y) == Success(grid[x, y])
  {
    var column := 0;
    while column < MAX
      invariant 0 <= column <= 9
      invariant forall x, y | 0 <= x < row && 0 <= y < 9 :: ParseCell(lines, x, y) == Success(grid[x, y])
      invariant forall y | 0 <= y < column :: ParseCell(lines, row, y) == Success(grid[row, y])
    {
      var cell := ReadCell(lines, row, column);
      if cell.Failure? {
        ParseRowFails(lines, row, column);
        return Some(cell.error);
      }
      grid[row, column] := cell.value;
      column := column + 1;
    }
    ParseRowPrefix(lines, row, 9);
    return None;
  }

  /**
   * The body of the inner loop of `loadFromString`: the glyph of cell
   * `(row, column)` read from its line, a space for an empty cell and
   * otherwise a number for `Integer.parseInt`.
   */
  method ReadCell(lines: seq<string>, row: int, column: int) returns (r: Result<int>)
    requires InRange(row) && InRange(column)
    ensures r == ParseCell(lines, row, column)
  {
    var rowIndex := 1 + row + row / 3;
    var columnIndex := 3 + column * 3 + column / 3 * 3;
    if rowIndex >= |lines| || columnIndex >= |lines[rowIndex]| {
      return Failure(MalformedText);
    }
    var c := lines[rowIndex][columnIndex];
    if c == ' ' {
      return Success(EMPTY);
    }
    var d := ParseDecimal([c]);
    ParseGlyphIsParseInt(c);
    if d.Failure? {
      return Failure(d.error);
    }
    return Success(d.value);
  }
}
