/** A cell coordinate of the 9x9 grid, immutable once built. */
module Positions {
  import opened Wrappers
  import opened Decimal

  /** Row and column, each an index 0..8 (stored as bytes by the program). */
  datatype SudokuPosition = SudokuPosition(row: int, column: int)

  predicate InRange(i: int) { 0 <= i <= 8 }

  /** The positions the constructor can produce: both indices in range. */
  type Position = p: SudokuPosition | InRange(p.row) && InRange(p.column)
    witness SudokuPosition(0, 0)

  /** The top-left cell. */
  const START: Position := SudokuPosition(0, 0)

  /** Row-major number of a cell, 0 for the top-left and 80 for the bottom-right. */
  function Index(p: Position): (i: int)
    ensures 0 <= i < 81
  {
    9 * p.row + p.column
  }

  /** The cell with a given row-major number. */
  function AtIndex(i: int): (p: Position)
    requires 0 <= i < 81
    ensures Index(p) == i
  {
    SudokuPosition(i / 9, i % 9)
  }

  /** The checking constructor: the row is checked first, then the column. */
  function NewPosition(row: int, column: int): (r: Result<Position>)
    ensures r.Success? <==> InRange(row) && InRange(column)
    ensures r.Success? ==> r.value.row == row && r.value.column == column
    ensures !InRange(row) ==> r == Failure(IndexOutOfBounds("row has to be between 0 and 8"))
  {
    if row < 0 || row > 8 then Failure(IndexOutOfBounds("row has to be between 0 and 8"))
    else if column < 0 || column > 8 then Failure(IndexOutOfBounds("column has to be between 0 and 8"))
    else Success(SudokuPosition(row, column))
  }

  /** `clone` rebuilds the position through the checking constructor. */
  function Clone(p: Position): (q: Position)
    ensures q == p
  {
    NewPosition(p.row, p.column).value
  }

  /** `equals` against a possibly missing position: true exactly for the same cell. */
  function Equals(p: Position, other: Option<Position>): (b: bool)
    ensures b <==> other == Some(p)
  {
    other.Some? && other.value.row == p.row && other.value.column == p.column
  }

  /**
   * The cell after `pos` in row-major order: `START` after a missing
   * position, nothing after the bottom-right cell.
   */
  function NextPosition(pos: Option<Position>): (r: Option<Position>)
    ensures pos.None? ==> r == Some(START)
    ensures pos.Some? ==> (r.Some? <==> Index(pos.value) < 80)
    ensures pos.Some? && r.Some? ==> Index(r.value) == Index(pos.value) + 1
  {
    if pos.None? then Some(START)
    else if pos.value.column < 8 then Some(SudokuPosition(pos.value.row, pos.value.column + 1))
    else if pos.value.row < 8 then Some(SudokuPosition(pos.value.row + 1, 0))
    else None
  }

  /** Text such as "row 3 column 7", with indices counted from one. */
  function ToString(p: Position): (s: string)
    ensures |s| == 14
  {
    "row " + NatToString(p.row + 1) + " column " + NatToString(p.column + 1)
  }

  /** Distinct cells are described by distinct texts. */
  lemma ToStringInjective(p: Position, q: Position)
    requires ToString(p) == ToString(q)
    ensures p == q
  {
    var s, t := ToString(p), ToString(q);
    assert s[4..5] == NatToString(p.row + 1) && t[4..5] == NatToString(q.row + 1);
    assert s[13..] == NatToString(p.column + 1) && t[13..] == NatToString(q.column + 1);
    NatToStringInjective(p.row + 1, q.row + 1);
    NatToStringInjective(p.column + 1, q.column + 1);
  }

  /** The row-major number identifies the cell. */
  lemma IndexInjective(p: Position, q: Position)
    requires Index(p) == Index(q)
    ensures p == q
  {
    assert p.row == Index(p) / 9 && q.row == Index(q) / 9;
  }

  /** Starting from `START`, k successor steps reach the cell numbered k. */
  lemma {:induction false} NextPositionWalk(k: int)
    requires 0 <= k < 81
    ensures Walk(k) == Some(AtIndex(k))
  {
    if k > 0 {
      NextPositionWalk(k - 1);
      var next := NextPosition(Some(AtIndex(k - 1)));
      IndexInjective(next.value, AtIndex(k));
    }
  }

  /** k steps of `NextPosition` starting before the first cell. */
  function Walk(k: nat): Option<Position>
  {
    if k == 0 then Some(START) else NextPosition(Walk(k - 1))
  }
}
