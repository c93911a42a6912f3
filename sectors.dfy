/**
 * The nine 3x3 sectors, numbered 1..9 row-major, and the numbering 0..8 of
 * the cells inside one sector.
 */
module Sectors {
  import opened Wrappers
  import opened Positions

  /** Both cells lie in the same 3x3 block. */
  predicate SameBlock(row1: int, column1: int, row2: int, column2: int)
  {
    row1 / 3 == row2 / 3 && column1 / 3 == column2 / 3
  }

  /** The sector (1..9) of a cell; out-of-range indices are rejected, the row first. */
  function GetSector(row: int, column: int): (r: Result<int>)
    ensures r.Success? <==> InRange(row) && InRange(column)
    ensures r.Success? ==> 1 <= r.value <= 9
    ensures !InRange(row) ==> r == Failure(IndexOutOfBounds("row has to be between 0 and 8"))
  {
    if row < 0 || row > 8 then Failure(IndexOutOfBounds("row has to be between 0 and 8"))
    else if column < 0 || column > 8 then Failure(IndexOutOfBounds("column has to be between 0 and 8"))
    else Success((row / 3) * 3 + column / 3 + 1)
  }

  /** The row of the cell numbered `pos` inside `sector`. */
  function GetRowBySectorPos(sector: int, pos: int): (r: Result<int>)
    ensures r.Success? <==> 1 <= sector <= 9 && 0 <= pos <= 8
    ensures r.Success? ==> InRange(r.value) && r.value / 3 == (sector - 1) / 3
    ensures !(1 <= sector <= 9) ==> r == Failure(IndexOutOfBounds("sector has to be between 1 and 9"))
  {
    if sector < 1 || sector > 9 then Failure(IndexOutOfBounds("sector has to be between 1 and 9"))
    else if pos < 0 || pos > 8 then Failure(IndexOutOfBounds("pos has to be between 0 and 8"))
    else Success(pos / 3 + ((sector - 1) / 3) * 3)
  }

  /**
   * The column of the cell numbered `pos` inside `sector`; the chains of
   * comparisons amount to taking both numbers modulo 3.
   */
  function GetColumnBySectorPos(sector: int, pos: int): (r: Result<int>)
    ensures r.Success? <==> 1 <= sector <= 9 && 0 <= pos <= 8
    ensures r.Success? ==> r.value == pos % 3 + ((sector - 1) % 3) * 3
    ensures !(1 <= sector <= 9) ==> r == Failure(IndexOutOfBounds("sector has to be between 1 and 9"))
  {
    if sector < 1 || sector > 9 then Failure(IndexOutOfBounds("sector has to be between 1 and 9"))
    else if pos < 0 || pos > 8 then Failure(IndexOutOfBounds("pos has to be between 0 and 8"))
    else
      var s := if sector > 6 then sector - 7 else if sector > 3 then sector - 4 else sector - 1;
      var p := if pos > 5 then pos - 6 else if pos > 2 then pos - 3 else pos;
      Success(p + s * 3)
  }

  /** Two cells have the same sector number exactly when they share a 3x3 block. */
  lemma SectorIsBlock(row1: int, column1: int, row2: int, column2: int)
    requires InRange(row1) && InRange(column1) && InRange(row2) && InRange(column2)
    ensures GetSector(row1, column1).value == GetSector(row2, column2).value
        <==> SameBlock(row1, column1, row2, column2)
  {
  }

  /**
   * The cell numbered `pos` inside `sector` lies in that sector, and its
   * number inside the sector is `pos` again.
   */
  lemma SectorPosRoundTrip(sector: int, pos: int)
    requires 1 <= sector <= 9 && 0 <= pos <= 8
    ensures var row, column := GetRowBySectorPos(sector, pos).value, GetColumnBySectorPos(sector, pos).value;
      GetSector(row, column) == Success(sector) && (row % 3) * 3 + column % 3 == pos
  {
  }

  /** Every cell is the cell numbered `(row % 3) * 3 + column % 3` of its own sector. */
  lemma SectorPosCovers(row: int, column: int)
    requires InRange(row) && InRange(column)
    ensures var sector, pos := GetSector(row, column).value, (row % 3) * 3 + column % 3;
      GetRowBySectorPos(sector, pos) == Success(row) && GetColumnBySectorPos(sector, pos) == Success(column)
  {
    Digits3(row / 3, column / 3);
    Digits3(row % 3, column % 3);
  }

  /** A number below 9 written with the two base-3 digits `a` and `b`. */
  lemma Digits3(a: int, b: int)
    requires 0 <= a < 3 && 0 <= b < 3
    ensures (3 * a + b) / 3 == a && (3 * a + b) % 3 == b
  {
  }
}
