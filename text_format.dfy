/**
 * The text form of a field: a box of 13 lines, a border above each band of
 * three rows and below the last one, each row as `| ` followed by three
 * characters per cell and ` | ` after every third cell. A digit is shown
 * as itself, an empty cell as a space; one cell may be highlighted as
 * `*d*`. Lines end with a line separator, taken to be "\n".
 */
module Texts {
  import opened Wrappers
  import opened Decimal
  import opened Positions
  import opened Boards

  const NEWLINE: char := '\n'

  const BORDER: string := "+-----------+-----------+-----------+"

  /** The character shown for a cell: its digit, or a space when it is empty. */
  function Glyph(v: int): (c: char)
    requires v <= 9
    ensures c != NEWLINE
  {
    if v > EMPTY then DigitChar(v) else ' '
  }

  /** One cell: the glyph between spaces, or between stars when highlighted. */
  function CellText(v: int, highlight: bool): (s: string)
    requires v <= 9
    ensures |s| == 3 && s[1] == Glyph(v) && NEWLINE !in s
  {
    if highlight then ['*', Glyph(v), '*'] else [' ', Glyph(v), ' ']
  }

  /** The first `k` cells of row `row`, with ` | ` after every third. */
  function CellsText(g: Grid, row: int, k: int, highlightRow: int, highlightColumn: int): (s: string)
    requires InRange(row) && 0 <= k <= 9 && AtMostNine(g)
    ensures |s| == 3 * k + 3 * (k / 3) && NEWLINE !in s
    decreases k
  {
    if k == 0 then ""
    else
      assert k / 3 == (k - 1) / 3 + (if k % 3 == 0 then 1 else 0);
      CellsText(g, row, k - 1, highlightRow, highlightColumn)
      + CellText(g[row][k - 1], row == highlightRow && k - 1 == highlightColumn)
      + (if k % 3 == 0 then " | " else "")
  }

  /** The line of row `row`. */
  function RowLine(g: Grid, row: int, highlightRow: int, highlightColumn: int): (s: string)
    requires InRange(row) && AtMostNine(g)
    ensures |s| == 38 && NEWLINE !in s
  {
    // the length rather than the literal 9 keeps the solver from unrolling the recursion
    "| " + CellsText(g, row, |g[row]|, highlightRow, highlightColumn)
  }

  /** Line `i` of the box: a border every fourth line, rows in between. */
  function BoxLine(g: Grid, i: int, highlightRow: int, highlightColumn: int): (s: string)
    requires 0 <= i < 13 && AtMostNine(g)
    ensures NEWLINE !in s
  {
    if i % 4 == 0 then BORDER else RowLine(g, i - 1 - i / 4, highlightRow, highlightColumn)
  }

  /** The first `n` lines of the box. */
  function BoxLines(g: Grid, n: int, highlightRow: int, highlightColumn: int): (lines: seq<string>)
    requires 0 <= n <= 13 && AtMostNine(g)
    ensures |lines| == n && forall i | 0 <= i < n :: lines[i] == BoxLine(g, i, highlightRow, highlightColumn)
  {
    seq(n, i requires 0 <= i < n => BoxLine(g, i, highlightRow, highlightColumn))
  }

  /** Lines, each followed by the separator. */
  function Terminated(lines: seq<string>): string
  {
    if |lines| == 0 then "" else lines[0] + [NEWLINE] + Terminated(lines[1..])
  }

  /** `toString(highlightRow, highlightColumn, false)`: the whole box. */
  function Render(g: Grid, highlightRow: int, highlightColumn: int): string
    requires AtMostNine(g)
  {
    Terminated(BoxLines(g, 13, highlightRow, highlightColumn))
  }

  /** The line `toString` adds below the box when asked for its counts. */
  function InfoLine(remaining: nat, options: nat): (s: string)
    ensures NEWLINE !in s
  {
    "Remaining: " + NatToString(remaining) + ", Options: " + NatToString(options)
  }

  /** `String.split` on the separator: the pieces between separators, empty ones included. */
  function Split(s: string): (lines: seq<string>)
    ensures |lines| >= 1
    decreases |s|
  {
    if |s| == 0 then [""]
    else
      var rest := Split(s[1..]);
      if s[0] == NEWLINE then [""] + rest else [[s[0]] + rest[0]] + rest[1..]
  }

  /** How many lines of the box come before row `row`, or all 13 for `row` = 9. */
  function LinesAbove(row: int): (n: int)
    requires 0 <= row <= 9
    ensures 1 <= n <= 13
  {
    1 + row + row / 3
  }

  /** The position in its line of the glyph of cell `column`. */
  function ColumnIndex(column: int): (j: int)
    requires InRange(column)
    ensures 3 <= j <= 35
  {
    3 + column * 3 + column / 3 * 3
  }

  /**
   * `Integer.parseInt` of the one-character text `c`, where a space
   * stands for an empty cell.
   */
  function ParseGlyph(c: char): (r: Result<int>)
    ensures r.Success? ==> 0 <= r.value <= 9
  {
    if c == ' ' then Success(EMPTY)
    else if IsDigitChar(c) then Success(c as int - '0' as int)
    else Failure(NumberFormat([c]))
  }

  /**
   * One cell of `loadFromString`: the glyph at the place of the cell in
   * the box, read by `ParseGlyph`; a missing line or character is an error
   * of its own.
   */
  function ParseCell(lines: seq<string>, row: int, column: int): (r: Result<int>)
    requires InRange(row) && InRange(column)
    ensures r.Success? ==> 0 <= r.value <= 9
  {
    var i, j := LinesAbove(row), ColumnIndex(column);
    if i >= |lines| || j >= |lines[i]| then Failure(MalformedText)
    else ParseGlyph(lines[i][j])
  }

  /** The first `k` cells in row-major order, or the first error among them. */
  function ParseCells(lines: seq<string>, k: int): (r: Result<seq<int>>)
    requires 0 <= k <= CELLS
    ensures r.Success? ==> |r.value| == k && forall i | 0 <= i < k :: 0 <= r.value[i] <= 9
  {
    if k == 0 then Success([])
    else match ParseCells(lines, k - 1)
      case Failure(e) => Failure(e)
      case Success(cells) =>
        match ParseCell(lines, (k - 1) / 9, (k - 1) % 9)
          case Failure(e) => Failure(e)
          case Success(v) => Success(cells + [v])
  }

  /** The grid of 81 cells listed in row-major order. */
  function ToGrid(cells: seq<int>): (g: Grid)
    requires |cells| == CELLS
    ensures forall r, c | 0 <= r < 9 && 0 <= c < 9 :: g[r][c] == cells[9 * r + c]
  {
    seq(9, r requires 0 <= r < 9 => seq(9, c requires 0 <= c < 9 => cells[9 * r + c]))
  }

  /** `loadFromString` up to the construction of the field: the digits the text shows. */
  function Parse(text: string): (r: Result<Grid>)
    ensures r.Success? ==> Digits(r.value)
  {
    match ParseCells(Split(text), CELLS)
      case Failure(e) => Failure(e)
      case Success(cells) => Success(ToGrid(cells))
  }

  // Lemmas

  /** Cell `9 * row + column` in row-major order is cell `(row, column)`. */
  lemma RowMajor(row: int, column: int)
    requires InRange(row) && InRange(column)
    ensures (9 * row + column) / 9 == row && (9 * row + column) % 9 == column
  {
  }

  /** Cell `(row, column)` parsed, so the cells up to it parse as well. */
  lemma ParseCellsStep(lines: seq<string>, row: int, column: int)
    requires InRange(row) && InRange(column) && ParseCells(lines, 9 * row + column).Success?
    requires ParseCell(lines, row, column).Success?
    ensures ParseCells(lines, 9 * row + column + 1).Success?
  {
    RowMajor(row, column);
  }

  /** The rows above parsed and so did the first `column` cells of `row`: the cells up to there parse. */
  lemma {:induction false} ParseRowPrefix(lines: seq<string>, row: int, column: int)
    requires InRange(row) && 0 <= column <= 9 && ParseCells(lines, 9 * row).Success?
    requires forall y | 0 <= y < column :: ParseCell(lines, row, y).Success?
    ensures ParseCells(lines, 9 * row + column).Success?
    decreases column
  {
    if column > 0 {
      ParseRowPrefix(lines, row, column - 1);
      ParseCellsStep(lines, row, column - 1);
    }
  }

  /** The first cell of `row` that does not parse decides the error of the whole text. */
  lemma ParseRowFails(lines: seq<string>, row: int, column: int)
    requires InRange(row) && InRange(column) && ParseCells(lines, 9 * row).Success?
    requires forall y | 0 <= y < column :: ParseCell(lines, row, y).Success?
    requires ParseCell(lines, row, column).Failure?
    ensures ParseCells(lines, CELLS) == Failure(ParseCell(lines, row, column).error)
  {
    ParseRowPrefix(lines, row, column);
    RowMajor(row, column);
    ParseCellsFail(lines, 9 * row + column);
  }

  /** Each of the first `k` cells parsed is what `ParseCell` reads for it. */
  lemma {:induction false} ParsedCells(lines: seq<string>, k: int)
    requires 0 <= k <= CELLS && ParseCells(lines, k).Success?
    ensures forall i | 0 <= i < k :: ParseCell(lines, i / 9, i % 9) == Success(ParseCells(lines, k).value[i])
  {
    if k > 0 {
      ParsedCells(lines, k - 1);
    }
  }

  /** A grid that holds what `ParseCell` reads in every cell is the grid the text parses to. */
  lemma ParseGrid(lines: seq<string>, g: Grid)
    requires ParseCells(lines, CELLS).Success?
    requires forall x, y | 0 <= x < 9 && 0 <= y < 9 :: ParseCell(lines, x, y) == Success(g[x][y])
    ensures ToGrid(ParseCells(lines, CELLS).value) == g
  {
    var cells := ParseCells(lines, CELLS).value;
    ParsedCells(lines, CELLS);
    forall x, y | 0 <= x < 9 && 0 <= y < 9 ensures g[x][y] == cells[9 * x + y] {
      RowMajor(x, y);
      assert ParseCell(lines, (9 * x + y) / 9, (9 * x + y) % 9) == Success(cells[9 * x + y]);
    }
    ToGridCells(cells, g);
  }

  /** Cell `(row, column)` did not parse, so neither does the text. */
  lemma ParseCellsFail(lines: seq<string>, k: int)
    requires 0 <= k < CELLS && ParseCells(lines, k).Success? && ParseCell(lines, k / 9, k % 9).Failure?
    ensures ParseCells(lines, CELLS) == Failure(ParseCell(lines, k / 9, k % 9).error)
  {
    assert ParseCells(lines, k + 1) == Failure(ParseCell(lines, k / 9, k % 9).error);
    ParseFailureStays(lines, k + 1);
  }

  /** Once a cell fails to parse, the whole text fails with that error. */
  lemma {:induction false} ParseFailureStays(lines: seq<string>, k: int)
    requires 0 <= k <= CELLS && ParseCells(lines, k).Failure?
    ensures ParseCells(lines, CELLS) == ParseCells(lines, k)
    decreases CELLS - k
  {
    if k < CELLS {
      assert ParseCells(lines, k + 1) == ParseCells(lines, k);
      ParseFailureStays(lines, k + 1);
    }
  }

  /** One more line, with its separator, at the end. */
  lemma {:induction false} TerminatedAppend(lines: seq<string>, line: string)
    ensures Terminated(lines + [line]) == Terminated(lines) + line + [NEWLINE]
    decreases |lines|
  {
    if |lines| > 0 {
      TerminatedAppend(lines[1..], line);
      assert (lines + [line])[1..] == lines[1..] + [line];
    } else {
      assert [line][1..] == [];
    }
  }

  /** The first `n + 1` lines are the first `n` and line `n`. */
  lemma BoxLinesStep(g: Grid, n: int, highlightRow: int, highlightColumn: int)
    requires AtMostNine(g) && 0 <= n < 13
    ensures BoxLines(g, n + 1, highlightRow, highlightColumn) ==
      BoxLines(g, n, highlightRow, highlightColumn) + [BoxLine(g, n, highlightRow, highlightColumn)]
  {
    var a := BoxLines(g, n + 1, highlightRow, highlightColumn);
    var b := BoxLines(g, n, highlightRow, highlightColumn) + [BoxLine(g, n, highlightRow, highlightColumn)];
    forall i | 0 <= i <= n ensures a[i] == b[i] {
    }
  }

  /** After the last row of a band comes a border line; otherwise the next row. */
  lemma BandEnd(row: int)
    requires InRange(row)
    ensures (row + 1) % 3 == 0 ==> LinesAbove(row + 1) == LinesAbove(row) + 2 && (LinesAbove(row) + 1) % 4 == 0
    ensures (row + 1) % 3 != 0 ==> LinesAbove(row + 1) == LinesAbove(row) + 1
  {
  }

  /** The line that shows row `row` is a row line of the box, not a border. */
  lemma RowLineIndex(row: int)
    requires InRange(row)
    ensures var i := LinesAbove(row); 1 <= i <= 11 && i % 4 != 0 && i - 1 - i / 4 == row
  {
  }

  /** Outside the space of an empty cell, `ParseGlyph` is `Integer.parseInt` of the glyph. */
  lemma ParseGlyphIsParseInt(c: char)
    requires c != ' '
    ensures ParseGlyph(c) == match ParseDecimal([c])
      case Success(d) => Success(d)
      case Failure(e) => Failure(e)
  {
  }

  /** The line of row `row` continues the box. */
  lemma RenderRowLine(g: Grid, row: int, highlightRow: int, highlightColumn: int)
    requires AtMostNine(g) && InRange(row)
    ensures Terminated(BoxLines(g, LinesAbove(row), highlightRow, highlightColumn))
      + RowLine(g, row, highlightRow, highlightColumn) + [NEWLINE]
      == Terminated(BoxLines(g, LinesAbove(row) + 1, highlightRow, highlightColumn))
  {
    var n := LinesAbove(row);
    assert BoxLine(g, n, highlightRow, highlightColumn) == RowLine(g, row, highlightRow, highlightColumn) by {
      RowLineIndex(row);
    }
    BoxLinesStep(g, n, highlightRow, highlightColumn);
    TerminatedAppend(BoxLines(g, n, highlightRow, highlightColumn), RowLine(g, row, highlightRow, highlightColumn));
  }

  /** The text of one cell, as `toString` composes it, continues the cells of its row. */
  lemma AppendCell(g: Grid, row: int, column: int, highlightRow: int, highlightColumn: int, cell: string)
    requires AtMostNine(g) && InRange(row) && InRange(column)
    requires cell == CellText(g[row][column], row == highlightRow && column == highlightColumn)
    ensures (column + 1) % 3 == 0 ==>
      CellsText(g, row, column + 1, highlightRow, highlightColumn) == CellsText(g, row, column, highlightRow, highlightColumn) + cell + " | "
    ensures (column + 1) % 3 != 0 ==>
      CellsText(g, row, column + 1, highlightRow, highlightColumn) == CellsText(g, row, column, highlightRow, highlightColumn) + cell
  {
  }

  /** What `toString` shows for a cell holding `v`. */
  lemma GlyphText(v: int)
    requires v <= 9
    ensures (if v > EMPTY then NatToString(v) else " ") == [Glyph(v)]
  {
  }

  /** After the last row of a band, the border continues the box. */
  lemma RenderBorder(g: Grid, row: int, highlightRow: int, highlightColumn: int)
    requires AtMostNine(g) && InRange(row) && (row + 1) % 3 == 0
    ensures Terminated(BoxLines(g, LinesAbove(row) + 1, highlightRow, highlightColumn)) + BORDER + [NEWLINE]
      == Terminated(BoxLines(g, LinesAbove(row + 1), highlightRow, highlightColumn))
  {
    var n := LinesAbove(row) + 1;
    BandEnd(row);
    assert BoxLine(g, n, highlightRow, highlightColumn) == BORDER;
    BoxLinesStep(g, n, highlightRow, highlightColumn);
    TerminatedAppend(BoxLines(g, n, highlightRow, highlightColumn), BORDER);
  }

  /** One row of the box, and the border after the last row of a band, continue the box. */
  lemma RenderRow(g: Grid, row: int, highlightRow: int, highlightColumn: int, above: string)
    requires AtMostNine(g) && InRange(row)
    requires above == Terminated(BoxLines(g, LinesAbove(row), highlightRow, highlightColumn))
    ensures (row + 1) % 3 == 0 ==>
      above + ("| " + CellsText(g, row, |g[row]|, highlightRow, highlightColumn)) + [NEWLINE] + BORDER + [NEWLINE]
      == Terminated(BoxLines(g, LinesAbove(row + 1), highlightRow, highlightColumn))
    ensures (row + 1) % 3 != 0 ==>
      above + ("| " + CellsText(g, row, |g[row]|, highlightRow, highlightColumn)) + [NEWLINE]
      == Terminated(BoxLines(g, LinesAbove(row + 1), highlightRow, highlightColumn))
  {
    RenderRowLine(g, row, highlightRow, highlightColumn);
    BandEnd(row);
    if (row + 1) % 3 == 0 {
      RenderBorder(g, row, highlightRow, highlightColumn);
    }
  }

  /** A line and its separator in front of a text split off as the first piece. */
  lemma {:induction false} SplitFirstLine(line: string, rest: string)
    requires NEWLINE !in line
    ensures Split(line + [NEWLINE] + rest) == [line] + Split(rest)
    decreases |line|
  {
    if |line| == 0 {
      assert (line + [NEWLINE] + rest)[1..] == rest;
    } else {
      SplitFirstLine(line[1..], rest);
      assert (line + [NEWLINE] + rest)[1..] == line[1..] + [NEWLINE] + rest;
      assert [line[0]] + line[1..] == line;
    }
  }

  /** Terminated lines followed by any text split into those lines, then the pieces of the text. */
  lemma {:induction false} SplitTerminated(lines: seq<string>, more: string)
    requires forall i | 0 <= i < |lines| :: NEWLINE !in lines[i]
    ensures Split(Terminated(lines) + more) == lines + Split(more)
    decreases |lines|
  {
    if |lines| > 0 {
      SplitTerminated(lines[1..], more);
      SplitFirstLine(lines[0], Terminated(lines[1..]) + more);
      assert Terminated(lines) + more == lines[0] + [NEWLINE] + (Terminated(lines[1..]) + more);
      assert [lines[0]] + lines[1..] == lines;
    } else {
      assert Terminated(lines) + more == more;
    }
  }

  /** The glyph of cell `c` sits at position `1 + 3c + 3(c / 3)` of the cells of its row. */
  lemma {:induction false} CellsTextAt(g: Grid, row: int, k: int, c: int, highlightRow: int, highlightColumn: int)
    requires InRange(row) && 0 <= c < k <= 9 && AtMostNine(g)
    ensures CellsText(g, row, k, highlightRow, highlightColumn)[1 + 3 * c + 3 * (c / 3)] == Glyph(g[row][c])
    decreases k
  {
    if c < k - 1 {
      CellsTextAt(g, row, k - 1, c, highlightRow, highlightColumn);
    }
  }

  /** In the line of a row, the glyph of each cell sits at its column index. */
  lemma RowLineAt(g: Grid, row: int, column: int, highlightRow: int, highlightColumn: int)
    requires AtMostNine(g) && InRange(row) && InRange(column)
    ensures RowLine(g, row, highlightRow, highlightColumn)[ColumnIndex(column)] == Glyph(g[row][column])
  {
    CellsTextAt(g, row, |g[row]|, column, highlightRow, highlightColumn);
  }

  /** `loadFromString` reads, at the place of each cell, the glyph `toString` wrote there. */
  lemma ParseCellRender(g: Grid, row: int, column: int, highlightRow: int, highlightColumn: int, info: seq<string>)
    requires Digits(g) && InRange(row) && InRange(column)
    ensures ParseCell(BoxLines(g, 13, highlightRow, highlightColumn) + info, row, column) == Success(g[row][column])
  {
    var lines := BoxLines(g, 13, highlightRow, highlightColumn) + info;
    var i := LinesAbove(row);
    RowLineIndex(row);
    assert lines[i] == BoxLine(g, i, highlightRow, highlightColumn) == RowLine(g, row, highlightRow, highlightColumn);
    RowLineAt(g, row, column, highlightRow, highlightColumn);
    if g[row][column] > EMPTY {
      ParseNatToString(g[row][column]);
    }
  }

  /** When every cell parses to the digit of `g`, every prefix of the cells parses to those digits. */
  lemma {:induction false} ParseCellsAll(lines: seq<string>, g: Grid, k: int)
    requires 0 <= k <= CELLS
    requires forall row, column | InRange(row) && InRange(column) :: ParseCell(lines, row, column) == Success(g[row][column])
    ensures var r := ParseCells(lines, k);
      r.Success? && |r.value| == k && forall i | 0 <= i < k :: r.value[i] == g[i / 9][i % 9]
  {
    if k > 0 {
      ParseCellsAll(lines, g, k - 1);
      assert ParseCell(lines, (k - 1) / 9, (k - 1) % 9) == Success(g[(k - 1) / 9][(k - 1) % 9]);
    }
  }

  /**
   * The text round trip: reading back what `toString` renders gives the
   * same digits, whatever cell is highlighted and whatever lines follow
   * the box.
   */
  lemma ParseRender(g: Grid, highlightRow: int, highlightColumn: int, more: string)
    requires Digits(g)
    ensures Parse(Render(g, highlightRow, highlightColumn) + more) == Success(g)
  {
    var lines := BoxLines(g, 13, highlightRow, highlightColumn) + Split(more);
    SplitTerminated(BoxLines(g, 13, highlightRow, highlightColumn), more);
    forall row, column | InRange(row) && InRange(column) ensures ParseCell(lines, row, column) == Success(g[row][column]) {
      ParseCellRender(g, row, column, highlightRow, highlightColumn, Split(more));
    }
    ParseCellsAll(lines, g, CELLS);
    ToGridRowMajor(ParseCells(lines, CELLS).value, g);
  }

  /** A grid whose cells are `cells` in row-major order is `ToGrid(cells)`. */
  lemma ToGridCells(cells: seq<int>, g: Grid)
    requires |cells| == CELLS && forall x, y | 0 <= x < 9 && 0 <= y < 9 :: g[x][y] == cells[9 * x + y]
    ensures ToGrid(cells) == g
  {
    forall r | 0 <= r < 9 ensures ToGrid(cells)[r] == g[r] {
    }
  }

  /** The cells of `g` listed in row-major order make `g` again. */
  lemma ToGridRowMajor(cells: seq<int>, g: Grid)
    requires |cells| == CELLS && forall i | 0 <= i < CELLS :: cells[i] == g[i / 9][i % 9]
    ensures ToGrid(cells) == g
  {
    forall r | 0 <= r < 9 ensures ToGrid(cells)[r] == g[r] {
      forall c | 0 <= c < 9 ensures ToGrid(cells)[r][c] == g[r][c] {
        var i := 9 * r + c;
        assert i / 9 == r && i % 9 == c;
        assert cells[i] == g[r][c];
      }
    }
  }
}
