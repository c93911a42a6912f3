/**
 * The game: one field, the backtracking solver and the generator of new
 * puzzles. Both search the same way: place a candidate on a copy-protected
 * field, recurse, and on failure restore the copy and drop the candidate.
 */
module Games {
  import opened Wrappers
  import opened Positions
  import opened Boards
  import opened Scans
  import opened Fields
  import opened Randoms

  /** Predefined cells of a puzzle, by difficulty. */
  const PREDEFINED_EASY := 38
  const PREDEFINED_EXTREME := 20
  const PREDEFINED_HARD := 28
  const PREDEFINED_MEDIUM := 30
  const PREDEFINED_VERY_EASY := 48
  const PREDEFINED_VERY_HARD := 26

  /** The largest number of predefined cells `generate` accepts. */
  const MAX_PREDEFINED := 60

  /**
   * What `generate` delivers: `puzzle` has exactly `predefinedCells` digits
   * (none for a negative count), each taken from the full field `solution`,
   * its candidates are exactly the digits its peers allow, and `solution`
   * extends the `original` field and solves it whenever that had no clash.
   */
  ghost predicate Generated(puzzle: Board, solution: Grid, original: Grid, predefinedCells: int)
  {
    Settled(puzzle) &&
    CELLS - CountEmpty(puzzle.field) == (if predefinedCells < 0 then 0 else predefinedCells) &&
    Digits(solution) && Full(solution) && Extends(solution, original) && Extends(solution, puzzle.field) &&
    (NoClash(original) ==> Solves(solution, original))
  }

  /** A puzzle generated from the empty field has a solution: the full field it was cut from. */
  lemma GeneratedSolvable(puzzle: Board, solution: Grid, predefinedCells: int)
    requires Generated(puzzle, solution, EmptyGrid(), predefinedCells)
    ensures Solves(solution, puzzle.field) && HasSolution(puzzle.field)
  {
    assert NoClash(EmptyGrid());
    assert Solves(solution, EmptyGrid());
    assert Solves(solution, puzzle.field);
  }

  /** What is generated after a candidate was placed is generated for the field before it, too. */
  lemma GeneratedAfterPlace(puzzle: Board, solution: Grid, b: Board, row: int, column: int, value: int, predefinedCells: int)
    requires Invariant(b) && InRange(row) && InRange(column) && b.field[row][column] == EMPTY
    requires value in CellOptions(b, row, column)
    requires Generated(puzzle, solution, Place(b, row, column, value).field, predefinedCells)
    ensures Generated(puzzle, solution, b.field, predefinedCells)
  {
    PlaceExtends(b, row, column, value);
    if NoClash(b.field) {
      PlaceCandidateNoClash(b, row, column, value);
    }
  }

  class Sudoku {
    var field: SudokuField

    /** An empty puzzle. */
    constructor ()
      ensures field.Valid() && Settled(field.model) && field.model.field == EmptyGrid()
      ensures fresh(field) && fresh(field.field) && fresh(field.options) && fresh(field.remainingOptions)
    {
      field := new SudokuField();
    }

    /** A puzzle loaded from a grid of digits, 0 for an empty cell. */
    constructor FromGrid(predefinedField: array2<int>)
      requires predefinedField.Length0 == 9 && predefinedField.Length1 == 9
      requires forall x, y | 0 <= x < 9 && 0 <= y < 9 :: 0 <= predefinedField[x, y] <= 9
      ensures field.Valid() && Settled(field.model)
      ensures forall x, y | 0 <= x < 9 && 0 <= y < 9 :: field.model.field[x][y] == predefinedField[x, y]
      ensures fresh(field) && fresh(field.field) && fresh(field.options) && fresh(field.remainingOptions)
    {
      field := new SudokuField.FromGrid(predefinedField);
    }

    /** A puzzle holding `loaded`: the assignment `Sudoku(String)` makes once the text is read. */
    constructor Holding(loaded: SudokuField)
      ensures field == loaded
    {
      field := loaded;
    }

    /**
     * The constructor `Sudoku(int)`: an empty puzzle on which `generate`
     * runs. Too many predefined cells are refused; a puzzle always comes
     * out otherwise, since the empty field has a solution, so the
     * "Cannot generate a valid field" exception is never thrown.
     */
    static method WithPredefinedCells(predefinedCells: int) returns (r: Result<Sudoku>)
      ensures r.Failure? <==> predefinedCells > MAX_PREDEFINED
      ensures r.Failure? ==> r.error == InvalidParameter("predefinedCells must not be greater than 60")
      ensures r.Success? ==> fresh(r.value) && r.value.field.Valid() && Settled(r.value.field.model)
      ensures r.Success? ==>
        CELLS - CountEmpty(r.value.field.model.field) == (if predefinedCells < 0 then 0 else predefinedCells)
      ensures r.Success? ==> HasSolution(r.value.field.model.field)
    {
      var sudoku := new Sudoku();
      SettledComplete(sudoku.field.model);
      assert sudoku.field.model.field[0][0] == EMPTY;
      ghost var solution;
      var generated;
      generated, solution := sudoku.Generate(predefinedCells);
      if generated.Failure? {
        return Failure(generated.error);
      }
      if generated.value.None? {
        EmptyGridSolvable();
        assert false;
        return Failure(CannotGenerate("Cannot generate a valid field"));
      }
      GeneratedSolvable(sudoku.field.model, solution, predefinedCells);
      return Success(sudoku);
    }

    /** `numCellsFilled`: how many cells hold a digit. */
    method NumCellsFilled() returns (n: int)
      requires field.Valid()
      ensures n == CELLS - CountEmpty(field.model.field) && 0 <= n <= CELLS
    {
      n := field.NumCellsFilled();
    }

    /**
     * `solve`: fills the field by backtracking. Each round takes the empty
     * cell with the fewest candidates and tries its smallest candidate.
     * The answer is false only when the puzzle has no solution, and then
     * the digits are as before; only candidates are gone.
     */
    method Solve() returns (solved: bool)
      requires field.Valid() && Complete(field.model)
      modifies this, field, field.field, field.options, field.remainingOptions
      ensures field.Valid()
      ensures solved ==> Full(field.model.field) && Extends(field.model.field, old(field.model.field))
      ensures solved && NoClash(old(field.model.field)) ==> Solves(field.model.field, old(field.model.field))
      ensures !solved ==> field.model.field == old(field.model.field) && !HasSolution(old(field.model.field))
      decreases field.model.remainingEmptyCells, 2
    {
      var remaining := field.NumRemainingEmptyCells();
      while remaining > 0
        invariant field.Valid() && Complete(field.model)
        invariant field.model.field == old(field.model.field) && remaining == field.model.remainingEmptyCells
        invariant field == old(field) || (fresh(field) && fresh(field.field) && fresh(field.options) && fresh(field.remainingOptions))
        decreases TotalOptions(field.model)
      {
        ghost var before := field.model;
        var best := field.GetBestEmptyPosition();
        BestSucceeds(before, best);
        if best.value.None? {
          ghost var p := BestNoneStuck(before);
          StuckUnsolvable(before, p.row, p.column);
          return false;
        }
        var pos := best.value.value;
        BestIsEmpty(before, best);
        var newValue := field.GetNextOption(pos.row, pos.column);
        if newValue == EMPTY {
          StuckUnsolvable(before, pos.row, pos.column);
          return false;
        }
        var done := TryOption(pos.row, pos.column, newValue);
        if done {
          return true;
        }
        TotalOptionsRemove(before, pos.row, pos.column, newValue);
        remaining := field.NumRemainingEmptyCells();
      }
      return true;
    }

    /**
     * The body of the loop of `solve` once a cell and a candidate are
     * chosen: keep a copy, place the candidate and solve the rest; when
     * that fails, go back to the copy and drop the candidate there, so it
     * is never tried again on this cell.
     */
    method TryOption(row: int, column: int, value: int) returns (solved: bool)
      requires field.Valid() && Complete(field.model) && InRange(row) && InRange(column)
      requires field.model.field[row][column] == EMPTY && value in CellOptions(field.model, row, column)
      modifies this, field, field.field, field.options, field.remainingOptions
      ensures field.Valid()
      ensures solved ==> Full(field.model.field) && Extends(field.model.field, old(field.model.field))
      ensures solved && NoClash(old(field.model.field)) ==> Solves(field.model.field, old(field.model.field))
      ensures !solved ==> field.model == Boards.RemoveOption(old(field.model), row, column, value)
      ensures !solved ==> Complete(field.model)
      ensures !solved ==> fresh(field) && fresh(field.field) && fresh(field.options) && fresh(field.remainingOptions)
      decreases field.model.remainingEmptyCells, 1
    {
      var backupField := new SudokuField.Copy(field);
      solved := PlaceAndSolve(row, column, value);
      if !solved {
        Restore(backupField, row, column, value);
      }
    }

    /**
     * Goes back to the copy taken before `value` was placed and drops
     * `value` from the candidates of the cell, since no solution has it.
     */
    method Restore(backupField: SudokuField, row: int, column: int, value: int)
      requires backupField.Valid() && Complete(backupField.model) && InRange(row) && InRange(column)
      requires backupField.model.field[row][column] == EMPTY && 1 <= value <= 9
      requires !HasSolution(Place(backupField.model, row, column, value).field)
      modifies this, backupField, backupField.options, backupField.remainingOptions
      ensures field == backupField && field.Valid() && Complete(field.model)
      ensures field.model == Boards.RemoveOption(old(backupField.model), row, column, value)
    {
      field := backupField;
      field.RemoveOption(row, column, value);
      RefutedKeepsComplete(old(backupField.model), row, column, value);
    }

    /** Places `value` at `(row, column)` and solves the rest of the field. */
    method PlaceAndSolve(row: int, column: int, value: int) returns (solved: bool)
      requires field.Valid() && Complete(field.model) && InRange(row) && InRange(column)
      requires field.model.field[row][column] == EMPTY && value in CellOptions(field.model, row, column)
      modifies this, field, field.field, field.options, field.remainingOptions
      ensures field.Valid()
      ensures solved ==> Full(field.model.field) && Extends(field.model.field, old(field.model.field))
      ensures solved && NoClash(old(field.model.field)) ==> Solves(field.model.field, old(field.model.field))
      ensures !solved ==> !HasSolution(Place(old(field.model), row, column, value).field)
      decreases field.model.remainingEmptyCells, 0
    {
      ghost var before := field.model;
      field.SetValue(row, column, value);
      PlaceField(before, row, column, value);
      PlaceKeepsComplete(before, row, column, value);
      PlaceExtends(before, row, column, value);
      if NoClash(before.field) {
        PlaceCandidateNoClash(before, row, column, value);
      }
      solved := Solve();
      if solved {
        ExtendsTransitive(field.model.field, Place(before, row, column, value).field, before.field);
      }
    }

    /**
     * The end of `generate`: a new empty field receives, at randomly drawn
     * empty cells, the digits of the full field until `predefinedCells` of
     * its cells hold a digit (none for a negative count).
     */
    method Prepare(predefinedCells: int) returns (preparedField: SudokuField)
      requires field.Valid() && Full(field.model.field) && predefinedCells <= MAX_PREDEFINED
      ensures fresh(preparedField) && fresh(preparedField.field) && fresh(preparedField.options) && fresh(preparedField.remainingOptions)
      ensures preparedField.Valid() && Settled(preparedField.model)
      ensures CELLS - CountEmpty(preparedField.model.field) == if predefinedCells < 0 then 0 else predefinedCells
      ensures Extends(field.model.field, preparedField.model.field)
    {
      preparedField := new SudokuField();
      var filled := preparedField.NumCellsFilled();
      while filled < predefinedCells
        invariant fresh(preparedField) && fresh(preparedField.field) && fresh(preparedField.options) && fresh(preparedField.remainingOptions)
        invariant preparedField.Valid() && Settled(preparedField.model)
        invariant filled == CELLS - CountEmpty(preparedField.model.field)
        invariant 0 <= filled <= if predefinedCells < 0 then 0 else predefinedCells
        invariant Extends(field.model.field, preparedField.model.field)
        decreases predefinedCells - filled
      {
        CopyRandomCell(preparedField);
        filled := preparedField.NumCellsFilled();
      }
    }

    /**
     * One round of the loop at the end of `generate`: a randomly drawn
     * empty cell of `preparedField` receives the digit of the full field.
     */
    method CopyRandomCell(preparedField: SudokuField)
      requires field.Valid() && Full(field.model.field) && preparedField != field
      requires preparedField.Valid() && Settled(preparedField.model) && preparedField.model.remainingEmptyCells != 0
      requires Extends(field.model.field, preparedField.model.field)
      modifies preparedField, preparedField.field, preparedField.options, preparedField.remainingOptions
      ensures preparedField.Valid() && Settled(preparedField.model)
      ensures Extends(field.model.field, preparedField.model.field)
      ensures preparedField.model.remainingEmptyCells == old(preparedField.model.remainingEmptyCells) - 1
    {
      ghost var before := preparedField.model;
      SomeEmptyCell(before);
      var draws := DrawPositions();
      var pos := preparedField.GetRandomEmptyPosition(draws);
      if pos.None? {
        assert false;
        return;
      }
      var row, column := pos.value.row, pos.value.column;
      var value := field.GetValue(row, column);
      preparedField.SetValue(row, column, value);
      PlaceField(before, row, column, value);
      PlaceKeepsSettled(before, row, column, value);
      PlaceFromExtends(field.model.field, before, row, column);
    }

    /**
     * `generate`: rejects more than 60 predefined cells; otherwise fills
     * the field by random backtracking and cuts a puzzle from it. Nothing
     * is returned only when the field has no solution; then its digits are
     * as before.
     */
    method Generate(predefinedCells: int) returns (r: Result<Option<SudokuField>>, ghost solution: Grid)
      requires field.Valid() && Complete(field.model)
      modifies this, field, field.field, field.options, field.remainingOptions
      ensures r.Failure? <==> predefinedCells > MAX_PREDEFINED
      ensures r.Failure? ==> r.error == InvalidParameter("predefinedCells must not be greater than 60") && field == old(field)
      ensures field.Valid()
      ensures r == Success(None) ==> field.model.field == old(field.model.field) && !HasSolution(old(field.model.field))
      ensures r.Success? && r.value.Some? ==>
        fresh(r.value.value) && fresh(r.value.value.field) && fresh(r.value.value.options) && fresh(r.value.value.remainingOptions)
      ensures r.Success? && r.value.Some? ==>
        r.value.value.Valid() && Generated(r.value.value.model, solution, old(field.model.field), predefinedCells)
      ensures r.Success? && r.value.Some? && !Full(old(field.model.field)) ==> field == r.value.value
    {
      if predefinedCells > MAX_PREDEFINED {
        return Failure(InvalidParameter("predefinedCells must not be greater than 60")), field.model.field;
      }
      var result;
      result, solution := Fill(predefinedCells);
      r := Success(result);
    }

    /**
     * The search of `generate`: the first empty cell in row-major order is
     * filled by `FillCell`; a full field is cut into the puzzle.
     */
    method Fill(predefinedCells: int) returns (result: Option<SudokuField>, ghost solution: Grid)
      requires field.Valid() && Complete(field.model) && predefinedCells <= MAX_PREDEFINED
      modifies this, field, field.field, field.options, field.remainingOptions
      ensures field.Valid()
      ensures result.None? ==> field.model.field == old(field.model.field) && !HasSolution(old(field.model.field))
      ensures result.Some? ==>
        fresh(result.value) && fresh(result.value.field) && fresh(result.value.options) && fresh(result.value.remainingOptions)
      ensures result.Some? ==> result.value.Valid() && Generated(result.value.model, solution, old(field.model.field), predefinedCells)
      ensures result.Some? && !Full(old(field.model.field)) ==> field == result.value
      decreases field.model.remainingEmptyCells, 3
    {
      ghost var start := field.model.field;
      var row := 0;
      var column := 0;
      label scan: while row < MAX
        invariant 0 <= row <= 9
        invariant forall x, y | 0 <= x < row && 0 <= y < 9 :: start[x][y] != EMPTY
        modifies {}
      {
        column := 0;
        while column < MAX
          invariant 0 <= column <= 9
          invariant forall x, y | 0 <= x < row && 0 <= y < 9 :: start[x][y] != EMPTY
          invariant forall y | 0 <= y < column :: start[row][y] != EMPTY
          modifies {}
        {
          var v := field.GetValue(row, column);
          if v == EMPTY {
            break scan;
          }
          column := column + 1;
        }
        row := row + 1;
      }
      if row < MAX {
        // the inner loop of `generate` on the first empty cell; it always returns
        result, solution := FillCell(predefinedCells, row, column);
        return;
      }
      var preparedField := Prepare(predefinedCells);
      return Some(preparedField), start;
    }

    /**
     * The inner loop of `generate` on the empty cell `(row, column)`:
     * random candidates are tried until one leads to a full field; with no
     * candidate left the field has no solution.
     */
    method FillCell(predefinedCells: int, row: int, column: int) returns (result: Option<SudokuField>, ghost solution: Grid)
      requires field.Valid() && Complete(field.model) && predefinedCells <= MAX_PREDEFINED
      requires InRange(row) && InRange(column) && field.model.field[row][column] == EMPTY
      modifies this, field, field.field, field.options, field.remainingOptions
      ensures field.Valid()
      ensures result.None? ==> field.model.field == old(field.model.field) && !HasSolution(old(field.model.field))
      ensures result.Some? ==>
        fresh(result.value) && fresh(result.value.field) && fresh(result.value.options) && fresh(result.value.remainingOptions)
      ensures result.Some? ==> field == result.value && Generated(field.model, solution, old(field.model.field), predefinedCells)
      decreases field.model.remainingEmptyCells, 2
    {
      ghost var start := field.model.field;
      var v := field.GetValue(row, column);
      while v == EMPTY
        invariant field.Valid() && Complete(field.model) && field.model.field == start && v == start[row][column]
        invariant field == old(field) || (fresh(field) && fresh(field.field) && fresh(field.options) && fresh(field.remainingOptions))
        decreases TotalOptions(field.model)
      {
        ghost var before := field.model;
        var count := field.NumRemainingOptions(row, column);
        var n := 0;
        if count > 0 {
          n := NextInt(count);
        }
        var value := field.GetRandomOption(row, column, n);
        if value == EMPTY {
          StuckUnsolvable(before, row, column);
          return None, start;
        }
        result, solution := TryGenerate(predefinedCells, row, column, value);
        if result.Some? {
          return;
        }
        TotalOptionsRemove(before, row, column, value);
        v := field.GetValue(row, column);
      }
      assert false;
    }

    /**
     * One candidate of the search of `generate`: keep a copy, place the
     * candidate and generate from there; when that fails, go back to the
     * copy and drop the candidate there.
     */
    method TryGenerate(predefinedCells: int, row: int, column: int, value: int)
      returns (result: Option<SudokuField>, ghost solution: Grid)
      requires field.Valid() && Complete(field.model) && InRange(row) && InRange(column) && predefinedCells <= MAX_PREDEFINED
      requires field.model.field[row][column] == EMPTY && value in CellOptions(field.model, row, column)
      modifies this, field, field.field, field.options, field.remainingOptions
      ensures field.Valid()
      ensures result.Some? ==>
        fresh(result.value) && fresh(result.value.field) && fresh(result.value.options) && fresh(result.value.remainingOptions)
      ensures result.Some? ==> field == result.value && Generated(field.model, solution, old(field.model.field), predefinedCells)
      ensures result.None? ==> field.model == Boards.RemoveOption(old(field.model), row, column, value)
      ensures result.None? ==> Complete(field.model)
      ensures result.None? ==> fresh(field) && fresh(field.field) && fresh(field.options) && fresh(field.remainingOptions)
      decreases field.model.remainingEmptyCells, 1
    {
      var backupField := new SudokuField.Copy(field);
      result, solution := PlaceAndGenerate(predefinedCells, row, column, value);
      if result.None? {
        Restore(backupField, row, column, value);
      }
    }

    /** Places `value` at `(row, column)` and generates from the field that results. */
    method PlaceAndGenerate(predefinedCells: int, row: int, column: int, value: int)
      returns (result: Option<SudokuField>, ghost solution: Grid)
      requires field.Valid() && Complete(field.model) && InRange(row) && InRange(column) && predefinedCells <= MAX_PREDEFINED
      requires field.model.field[row][column] == EMPTY && value in CellOptions(field.model, row, column)
      modifies this, field, field.field, field.options, field.remainingOptions
      ensures result.Some? ==>
        fresh(result.value) && fresh(result.value.field) && fresh(result.value.options) && fresh(result.value.remainingOptions)
      ensures result.Some? ==>
        field == result.value && field.Valid() && Generated(field.model, solution, old(field.model.field), predefinedCells)
      ensures result.None? ==> !HasSolution(Place(old(field.model), row, column, value).field)
      decreases field.model.remainingEmptyCells, 0
    {
      ghost var before := field.model;
      field.SetValue(row, column, value);
      PlaceField(before, row, column, value);
      PlaceKeepsComplete(before, row, column, value);
      result, solution := Fill(predefinedCells);
      if result.Some? {
        GeneratedAfterPlace(result.value.model, solution, before, row, column, value, predefinedCells);
        Adopt(result.value);
      }
    }

    /** The assignment `field = generate(...)` when a field came back. */
    method Adopt(generated: SudokuField)
      requires generated.Valid()
      modifies this
      ensures field == generated && field.Valid()
    {
      field := generated;
    }
  }
}
