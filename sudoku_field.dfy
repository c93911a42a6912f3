/**
 * The mutable Sudoku field: the digits, the candidate bits of every cell,
 * the cached candidate count of every cell and the cached number of empty
 * cells, kept in arrays and updated in place. The ghost `model` is the same
 * state as a `Board` value; every method is specified by what it does to
 * that value.
 */
module Fields {
  import opened Wrappers
  import opened Positions
  import opened Sectors
  import opened Boards
  import opened Scans

  class SudokuField {
    /** `field[r, c]` is the digit of a cell, 0 when empty. */
    const field: array2<int>
    /** `options[r, c, d]` is set while digit `d + 1` is a candidate of cell `(r, c)`. */
    const options: array3<bool>
    /** `remainingOptions[r, c]` caches the number of set bits of `options[r, c, _]`. */
    const remainingOptions: array2<int>
    /** Cached number of empty cells. */
    var remainingEmptyCells: int

    /** The state the arrays represent. */
    ghost var model: Board

    ghost predicate Shaped()
      reads this
    {
      field.Length0 == 9 && field.Length1 == 9 &&
      remainingOptions.Length0 == 9 && remainingOptions.Length1 == 9 &&
      options.Length0 == 9 && options.Length1 == 9 && options.Length2 == 9 &&
      field != remainingOptions
    }

    /** `field` holds the digits of `model`. */
    ghost predicate DigitsMatch()
      reads this, field
      requires Shaped()
    {
      forall x, y | 0 <= x < 9 && 0 <= y < 9 :: field[x, y] == model.field[x][y]
    }

    /** `remainingOptions` holds the size of every cell's candidate set. */
    ghost predicate CountsMatch()
      reads this, remainingOptions
      requires Shaped()
    {
      forall x, y | 0 <= x < 9 && 0 <= y < 9 :: remainingOptions[x, y] == |CellOptions(model, x, y)|
    }

    /** `options` holds one bit per candidate. */
    ghost predicate BitsMatch()
      reads this, options
      requires Shaped()
    {
      forall x, y, d | 0 <= x < 9 && 0 <= y < 9 && 0 <= d < 9 :: options[x, y, d] == ((x, y, d + 1) in model.options)
    }

    /**
     * The arrays hold `model`: the digits, one bit per candidate, the size
     * of each cell's candidate set and the number of empty cells.
     */
    ghost predicate Abstracts()
      reads this, field, options, remainingOptions
    {
      Shaped() && remainingEmptyCells == model.remainingEmptyCells &&
      DigitsMatch() && CountsMatch() && BitsMatch() && OptionsInRange(model)
    }

    /** The arrays hold a state that satisfies the field invariant. */
    ghost predicate Valid()
      reads this, field, options, remainingOptions
    {
      Abstracts() && Invariant(model)
    }

    /** A new, empty field: no digits, every digit a candidate of every cell. */
    constructor ()
      ensures Valid() && Settled(model) && model == EmptyBoard()
      ensures fresh(field) && fresh(options) && fresh(remainingOptions)
    {
      field := new int[9, 9];
      remainingOptions := new int[9, 9];
      options := new bool[9, 9, 9];
      new;
      FillEmpty();
    }

    /**
     * A field loaded from a predefined grid: `setValue` on every cell in
     * row-major order. The digits need not be consistent; whatever they
     * are, the candidates end up as the digits no peer holds.
     */
    constructor FromGrid(predefinedField: array2<int>)
      requires predefinedField.Length0 == 9 && predefinedField.Length1 == 9
      requires forall x, y | 0 <= x < 9 && 0 <= y < 9 :: predefinedField[x, y] <= 9
      ensures Abstracts()
      ensures forall x, y | 0 <= x < 9 && 0 <= y < 9 :: model.field[x][y] == predefinedField[x, y]
      ensures (forall x, y | 0 <= x < 9 && 0 <= y < 9 :: 0 <= predefinedField[x, y]) ==> Valid() && Settled(model)
      ensures fresh(field) && fresh(options) && fresh(remainingOptions)
    {
      field := new int[9, 9];
      remainingOptions := new int[9, 9];
      options := new bool[9, 9, 9];
      new;
      FillEmpty();
      ghost var digits := forall x, y | 0 <= x < 9 && 0 <= y < 9 :: 0 <= predefinedField[x, y];
      var row := 0;
      while row < MAX
        invariant 0 <= row <= 9 && Abstracts()
        invariant fresh(field) && fresh(options) && fresh(remainingOptions)
        invariant predefinedField != field && predefinedField != remainingOptions && predefinedField.Length0 == 9 && predefinedField.Length1 == 9
        invariant forall x, y | 0 <= x < 9 && 0 <= y < 9 :: model.field[x][y] == if x < row then predefinedField[x, y] else EMPTY
        invariant digits ==> Valid() && Settled(model)
      {
        LoadRow(predefinedField, row);
        row := row + 1;
      }
    }

    /** One pass of the outer loop of the constructor `FromGrid`: `setValue` on each cell of `row`. */
    method LoadRow(predefinedField: array2<int>, row: int)
      requires Abstracts() && InRange(row) && predefinedField != field && predefinedField != remainingOptions
      requires predefinedField.Length0 == 9 && predefinedField.Length1 == 9
      requires forall x, y | 0 <= x < 9 && 0 <= y < 9 :: predefinedField[x, y] <= 9
      requires forall x, y | 0 <= x < 9 && 0 <= y < 9 :: model.field[x][y] == if x < row then predefinedField[x, y] else EMPTY
      requires (forall x, y | 0 <= x < 9 && 0 <= y < 9 :: 0 <= predefinedField[x, y]) ==> Valid() && Settled(model)
      modifies this, field, options, remainingOptions
      ensures Abstracts()
      ensures forall x, y | 0 <= x < 9 && 0 <= y < 9 :: model.field[x][y] == if x <= row then predefinedField[x, y] else EMPTY
      ensures (forall x, y | 0 <= x < 9 && 0 <= y < 9 :: 0 <= predefinedField[x, y]) ==> Valid() && Settled(model)
    {
      ghost var digits := forall x, y | 0 <= x < 9 && 0 <= y < 9 :: 0 <= predefinedField[x, y];
      var column := 0;
      while column < MAX
        invariant 0 <= column <= 9 && Abstracts()
        invariant forall x, y | 0 <= x < 9 && 0 <= y < 9 ::
          model.field[x][y] == if x < row || (x == row && y < column) then predefinedField[x, y] else EMPTY
        invariant digits ==> Valid() && Settled(model)
      {
        ghost var before := model;
        var value := predefinedField[row, column];
        SetValue(row, column, value);
        PlaceField(before, row, column, value);
        if digits {
          PlaceKeepsSettled(before, row, column, value);
        }
        column := column + 1;
      }
    }

    /** A deep copy: new arrays holding the same state. */
    constructor Copy(fromField: SudokuField)
      requires fromField.Abstracts()
      ensures Abstracts() && model == fromField.model
      ensures fresh(field) && fresh(options) && fresh(remainingOptions)
    {
      field := new int[9, 9];
      remainingOptions := new int[9, 9];
      options := new bool[9, 9, 9];
      remainingEmptyCells := fromField.remainingEmptyCells;
      model := fromField.model;
      new;
      var row := 0;
      while row < MAX
        invariant 0 <= row <= 9 && Shaped()
        invariant remainingEmptyCells == model.remainingEmptyCells && model == fromField.model
        invariant forall x, y | 0 <= x < row && 0 <= y < 9 ::
          field[x, y] == fromField.field[x, y] && remainingOptions[x, y] == fromField.remainingOptions[x, y]
        invariant forall x, y, d | 0 <= x < row && 0 <= y < 9 && 0 <= d < 9 :: options[x, y, d] == fromField.options[x, y, d]
      {
        forall c | 0 <= c < 9 {
          field[row, c] := fromField.field[row, c];
        }
        forall c | 0 <= c < 9 {
          remainingOptions[row, c] := fromField.remainingOptions[row, c];
        }
        forall c, d | 0 <= c < 9 && 0 <= d < 9 {
          options[row, c, d] := fromField.options[row, c, d];
        }
        row := row + 1;
      }
    }

    /** The body of the constructor without arguments: every array filled as for an empty field. */
    method FillEmpty()
      requires Shaped()
      modifies this, field, options, remainingOptions
      ensures Valid() && Settled(model) && model == EmptyBoard()
    {
      remainingEmptyCells := CELLS;
      var row := 0;
      while row < MAX
        invariant 0 <= row <= 9 && Shaped() && remainingEmptyCells == CELLS
        invariant forall x, y | 0 <= x < row && 0 <= y < 9 :: field[x, y] == EMPTY && remainingOptions[x, y] == MAX
        invariant forall x, y, d | 0 <= x < row && 0 <= y < 9 && 0 <= d < 9 :: options[x, y, d]
      {
        forall c | 0 <= c < 9 {
          field[row, c] := EMPTY;
        }
        forall c | 0 <= c < 9 {
          remainingOptions[row, c] := MAX;
        }
        forall c, d | 0 <= c < 9 && 0 <= d < 9 {
          options[row, c, d] := true;
        }
        row := row + 1;
      }
      model := EmptyBoard();
      EmptyArraysHoldEmptyBoard();
    }

    /** Arrays filled as for an empty field hold the empty board. */
    lemma EmptyArraysHoldEmptyBoard()
      requires Shaped() && model == EmptyBoard() && remainingEmptyCells == CELLS
      requires forall x, y | 0 <= x < 9 && 0 <= y < 9 :: field[x, y] == EMPTY && remainingOptions[x, y] == MAX
      requires forall x, y, d | 0 <= x < 9 && 0 <= y < 9 && 0 <= d < 9 :: options[x, y, d]
      ensures Valid() && Settled(model)
    {
      EmptyCountsMatch();
      EmptyBitsMatch();
      EmptyBoardInvariant();
      EmptyBoardSettled();
    }

    lemma EmptyCountsMatch()
      requires Shaped() && model == EmptyBoard()
      requires forall x, y | 0 <= x < 9 && 0 <= y < 9 :: remainingOptions[x, y] == MAX
      ensures CountsMatch()
    {
      forall x, y | 0 <= x < 9 && 0 <= y < 9 ensures remainingOptions[x, y] == |CellOptions(model, x, y)| {
        EmptyCellOptions(x, y);
      }
    }

    lemma EmptyBitsMatch()
      requires Shaped() && model == EmptyBoard()
      requires forall x, y, d | 0 <= x < 9 && 0 <= y < 9 && 0 <= d < 9 :: options[x, y, d]
      ensures BitsMatch()
    {
      forall x, y, d | 0 <= x < 9 && 0 <= y < 9 && 0 <= d < 9 ensures options[x, y, d] == ((x, y, d + 1) in model.options) {
        AllOptionsAt(x, y, d + 1);
      }
    }

    /**
     * Drops `value` as a candidate of one cell; the cached count drops
     * only when the bit was set.
     */
    method RemoveOption(row: int, column: int, value: int)
      requires Abstracts() && InRange(row) && InRange(column) && 1 <= value <= 9
      modifies this, options, remainingOptions
      ensures Abstracts() && model == Boards.RemoveOption(old(model), row, column, value)
      ensures old(Valid()) ==> Valid()
    {
      ghost var before := model;
      if options[row, column, value - 1] {
        options[row, column, value - 1] := false;
        remainingOptions[row, column] := remainingOptions[row, column] - 1;
      }
      model := Boards.RemoveOption(model, row, column, value);
      forall x, y | 0 <= x < 9 && 0 <= y < 9 ensures remainingOptions[x, y] == |CellOptions(model, x, y)| {
        CellOptionsAfterRemove(before, row, column, value, x, y);
      }
      if Invariant(before) {
        RemoveOptionKeepsInvariant(before, row, column, value);
      }
    }

    /**
     * Stores `value` in a cell. A digit also counts one empty cell less,
     * clears the candidates of that cell, and drops `value` as a candidate
     * of every cell of the same column, row and sector.
     */
    method SetValue(row: int, column: int, value: int)
      requires Abstracts() && InRange(row) && InRange(column) && value <= 9
      modifies this, field, options, remainingOptions
      ensures Abstracts() && model == Place(old(model), row, column, value)
      ensures old(Valid()) && old(model).field[row][column] == EMPTY && 0 <= value ==> Valid()
    {
      ghost var before := model;
      if value > EMPTY {
        StoreDigit(row, column, value);
        ClearPeers(row, column, value);
      } else {
        field[row, column] := value;
        model := model.(field := model.field[row := model.field[row][column := value]]);
      }
      if Invariant(before) && before.field[row][column] == EMPTY && 0 <= value {
        PlaceKeepsInvariant(before, row, column, value);
      }
    }

    /**
     * The loop of `setValue`: round `i` drops `value` from cell `i` of the
     * column, of the row and of the sector of `(row, column)`.
     */
    method ClearPeers(row: int, column: int, value: int)
      requires Abstracts() && InRange(row) && InRange(column) && 1 <= value <= 9
      modifies this, options, remainingOptions
      ensures Abstracts() && model == ClearUnits(old(model), row, column, value, |old(model).field|)
    {
      var sector := GetSector(row, column).value;
      ghost var cleared := model;
      var i := 0;
      while i < MAX
        invariant 0 <= i <= 9
        invariant Abstracts()
        invariant model == ClearUnits(cleared, row, column, value, i)
      {
        // each step clears the bit and lowers the count only if the bit is set
        RemoveOption(i, column, value);
        RemoveOption(row, i, value);
        SectorCellIsBlockCell(row, column, i);
        var currentRow := GetRowBySectorPos(sector, i).value;
        var currentColumn := GetColumnBySectorPos(sector, i).value;
        RemoveOption(currentRow, currentColumn, value);
        i := i + 1;
      }
    }

    /**
     * The first part of `setValue` for a digit: the digit is stored, one
     * empty cell less is counted and the cell loses all its candidates.
     */
    method StoreDigit(row: int, column: int, value: int)
      requires Abstracts() && InRange(row) && InRange(column) && 1 <= value <= 9
      modifies this, field, options, remainingOptions
      ensures Abstracts() && model == Filled(old(model), row, column, value)
    {
      ghost var before := model;
      field[row, column] := value;
      remainingEmptyCells := remainingEmptyCells - 1;
      remainingOptions[row, column] := 0;
      forall d | 0 <= d < 9 {
        options[row, column, d] := false;
      }
      model := Filled(model, row, column, value);
      assert CountsMatch() by {
        forall x, y | 0 <= x < 9 && 0 <= y < 9 ensures remainingOptions[x, y] == |CellOptions(model, x, y)| {
          CellOptionsAfterFill(before, row, column, value, x, y);
        }
      }
    }
  

    /** The digit of a cell, 0 when empty. */
    method GetValue(row: int, column: int) returns (v: int)
      requires Abstracts() && InRange(row) && InRange(column)
      ensures v == model.field[row][column]
      ensures Invariant(model) ==> 0 <= v <= 9
    {
      v := field[row, column];
    }

    /** `isEmpty`: the cached count says no cell holds a digit. */
    method IsEmpty() returns (b: bool)
      requires Abstracts()
      ensures Invariant(model) ==> (b <==> forall r, c | 0 <= r < 9 && 0 <= c < 9 :: model.field[r][c] == EMPTY)
    {
      b := remainingEmptyCells == CELLS;
      CountEmptyBounds(model.field);
    }

    /** `isOption`: whether `value` is still a candidate of the cell. */
    method IsOption(row: int, column: int, value: int) returns (b: bool)
      requires Abstracts() && InRange(row) && InRange(column) && 1 <= value <= 9
      ensures b <==> value in CellOptions(model, row, column)
    {
      b := options[row, column, value - 1];
    }

    /** `numCellsFilled`: how many cells hold a digit. */
    method NumCellsFilled() returns (n: int)
      requires Abstracts()
      ensures Invariant(model) ==> n == CELLS - CountEmpty(model.field) && 0 <= n <= CELLS
      ensures Invariant(model) ==> (n == 0 <==> forall r, c | 0 <= r < 9 && 0 <= c < 9 :: model.field[r][c] == EMPTY)
      ensures Invariant(model) ==> (n == CELLS <==> Full(model.field))
    {
      n := CELLS - remainingEmptyCells;
      CountEmptyBounds(model.field);
    }

    /** `numRemainingEmptyCells`: the number of empty cells. */
    method NumRemainingEmptyCells() returns (n: int)
      requires Abstracts()
      ensures Invariant(model) ==> n == CountEmpty(model.field) && 0 <= n <= CELLS
      ensures Invariant(model) ==> (n == 0 <==> Full(model.field))
    {
      n := remainingEmptyCells;
      CountEmptyBounds(model.field);
    }

    /** `numRemainingOptions`: how many candidates a cell has left. */
    method NumRemainingOptions(row: int, column: int) returns (n: int)
      requires Abstracts() && InRange(row) && InRange(column)
      ensures n == |CellOptions(model, row, column)| && 0 <= n <= 9
    {
      n := remainingOptions[row, column];
      CellOptionsAtMostNine(model, row, column);
    }

    /** `getNextOption`: the smallest candidate of a cell, 0 when it has none. */
    method GetNextOption(row: int, column: int) returns (v: int)
      requires Abstracts() && InRange(row) && InRange(column)
      ensures v == EMPTY <==> CellOptions(model, row, column) == {}
      ensures v != EMPTY ==> v in CellOptions(model, row, column) && forall w | w in CellOptions(model, row, column) :: v <= w
    {
      var value := 0;
      while value < MAX
        invariant 0 <= value <= 9
        invariant forall w | w in CellOptions(model, row, column) :: w > value
      {
        if options[row, column, value] {
          assert value + 1 in CellOptions(model, row, column);
          return value + 1;
        }
        value := value + 1;
      }
      return EMPTY;
    }

    /**
     * `getRandomOption` with the random draw `n` as a parameter: the
     * candidate with exactly `n` smaller candidates, 0 when the cell has
     * none. The program draws `n` below the candidate count.
     */
    method GetRandomOption(row: int, column: int, n: int) returns (v: int)
      requires Abstracts() && InRange(row) && InRange(column)
      requires CellOptions(model, row, column) != {} ==> 0 <= n < |CellOptions(model, row, column)|
      ensures v == EMPTY <==> CellOptions(model, row, column) == {}
      ensures v != EMPTY ==> v in CellOptions(model, row, column) && |Below(CellOptions(model, row, column), v)| == n
    {
      ghost var candidates := CellOptions(model, row, column);
      var max := remainingOptions[row, column];
      if max == 0 {
        return EMPTY;
      }
      var k := n;
      var value := 0;
      assert Below(candidates, 1) == {};
      while value < MAX
        invariant 0 <= value <= 9
        invariant k == n - |Below(candidates, value + 1)| && 0 <= k
      {
        BelowStep(candidates, value + 1);
        if options[row, column, value] {
          if k == 0 {
            assert value + 1 in candidates;
            return value + 1;
          } else {
            k := k - 1;
          }
        }
        value := value + 1;
      }
      BelowTenAll(candidates);
      assert false;
      return EMPTY;
    }
    /**
     * `getBestEmptyPosition`: the row-major scan stops at the first empty
     * cell with at most one candidate, giving nothing for none and the cell
     * for one; otherwise it gives the first empty cell with the fewest
     * candidates. Without an empty cell the list stays empty and reading
     * its head fails.
     */
    method GetBestEmptyPosition() returns (r: Result<Option<Position>>)
      requires Abstracts()
      ensures BestOutcome(model, r)
    {
      var positions: seq<Position> := [];
      var minOptions := MAX + 1;
      var row := 0;
      while row < MAX
        invariant 0 <= row <= 9
        invariant ScanState(model, 9 * row, positions, minOptions)
      {
        var stop;
        stop, positions, minOptions := ScanRow(row, positions, minOptions);
        if stop.Some? {
          return Success(stop.value);
        }
        row := row + 1;
      }
      ScanDone(model, positions, minOptions);
      if |positions| == 0 {
        return Failure(IndexOutOfBounds("Index: 0, Size: 0"));
      }
      return Success(Some(positions[0]));
    }

    /**
     * One pass of the outer loop of `getBestEmptyPosition`: the cells of
     * `row`, left to right. `stop` holds what the method returns when a
     * cell with at most one candidate ends the search.
     */
    method ScanRow(row: int, positions: seq<Position>, minOptions: int)
      returns (stop: Option<Option<Position>>, positions': seq<Position>, minOptions': int)
      requires Shaped() && DigitsMatch() && CountsMatch() && InRange(row) && ScanState(model, 9 * row, positions, minOptions)
      ensures stop.Some? ==> BestOutcome(model, Success(stop.value))
      ensures stop.None? ==> ScanState(model, 9 * row + 9, positions', minOptions')
    {
      positions', minOptions' := positions, minOptions;
      var column := 0;
      while column < MAX
        invariant 0 <= column <= 9
        invariant ScanState(model, 9 * row + column, positions', minOptions')
      {
        var p: Position := SudokuPosition(row, column);
        if field[row, column] == EMPTY {
          var optionCount := remainingOptions[row, column];
          if optionCount == 0 {
            ScanStopsEmpty(model, 9 * row + column, positions', minOptions', p);
            return Some(None), positions', minOptions';
          } else if optionCount == 1 {
            ScanStopsSingle(model, 9 * row + column, positions', minOptions', p);
            return Some(Some(p)), positions', minOptions';
          } else if optionCount < minOptions' {
            ScanAdd(model, 9 * row + column, positions', minOptions', p);
            minOptions' := optionCount;
            positions' := [p] + positions';
          } else {
            ScanSkip(model, 9 * row + column, positions', minOptions', p);
          }
        } else {
          ScanSkip(model, 9 * row + column, positions', minOptions', p);
        }
        column := column + 1;
      }
      stop := None;
    }
    /**
     * `getNextEmptyPosition`: nothing when the cached count is zero;
     * otherwise the first empty cell of the cyclic row-major search that
     * starts right after `pos` (at the first cell when `pos` is missing)
     * and stops after 81 steps.
     */
    method GetNextEmptyPosition(pos: Option<Position>) returns (r: Option<Position>)
      requires Abstracts()
      ensures model.remainingEmptyCells == 0 ==> r.None?
      ensures r.Some? ==> FirstEmptyAfter(model, Start(pos), r.value)
      ensures r.None? && model.remainingEmptyCells != 0 ==> forall q: Position :: !EmptyCell(model, q)
    {
      if remainingEmptyCells == 0 {
        return None;
      }
      if pos.None? {
        if field[START.row, START.column] == EMPTY {
          return Some(START);
        }
      }
      ghost var s := Start(pos);
      var next := pos;
      var i := 0;
      while i < CELLS
        invariant 0 <= i <= 81
        invariant i == 0 ==> next == pos
        invariant i > 0 ==> next.Some? && Steps(s, next.value) == i - 1
        invariant forall q: Position | Steps(s, q) < i :: !EmptyCell(model, q)
      {
        AdvanceVisits(pos, i, next);
        next := NextPosition(next);
        if next.None? {
          next := Some(START);
        }
        var p: Position := next.value;
        if field[p.row, p.column] == EMPTY {
          SearchFound(model, s, i, p);
          return next;
        }
        SearchStep(model, s, i, p);
        i := i + 1;
      }
      return None;
    }

    /**
     * `getRandomEmptyPosition` with its random cells as the parameter
     * `draws`: nothing when the cached count is zero; otherwise the first
     * of up to seven drawn cells that is empty, and after six failed
     * redraws the first empty cell in row-major order.
     */
    method GetRandomEmptyPosition(draws: seq<Position>) returns (r: Option<Position>)
      requires Abstracts() && |draws| == 7
      ensures model.remainingEmptyCells == 0 ==> r.None?
      ensures r.Some? ==> EmptyCell(model, r.value)
      ensures model.remainingEmptyCells != 0 ==>
        forall k | 0 <= k < 7 && EmptyCell(model, draws[k]) && (forall j | 0 <= j < k :: !EmptyCell(model, draws[j])) ::
          r == Some(draws[k])
      ensures model.remainingEmptyCells != 0 && (forall k | 0 <= k < 7 :: !EmptyCell(model, draws[k])) ==>
        r.Some? ==> FirstEmptyAfter(model, -1, r.value)
      ensures r.None? && model.remainingEmptyCells != 0 ==> forall q: Position :: !EmptyCell(model, q)
    {
      if remainingEmptyCells == 0 {
        return None;
      }
      var row, column := draws[0].row, draws[0].column;
      var tries := 0;
      while field[row, column] != EMPTY
        invariant 0 <= tries <= 6 && row == draws[tries].row && column == draws[tries].column
        invariant forall j | 0 <= j < tries :: !EmptyCell(model, draws[j])
        decreases 6 - tries
      {
        if tries > 5 {
          r := GetNextEmptyPosition(None);
          return;
        }
        row, column := draws[tries + 1].row, draws[tries + 1].column;
        tries := tries + 1;
      }
      return Some(SudokuPosition(row, column));
    }

    /** `numRemainingOptionsTotal`: the candidates of all cells, counted. */
    method NumRemainingOptionsTotal() returns (n: int)
      requires Abstracts()
      ensures n == TotalOptions(model)
    {
      n := 0;
      var row := 0;
      while row < MAX
        invariant 0 <= row <= 9 && n == GridTotal(model, row)
      {
        var column := 0;
        while column < MAX
          invariant 0 <= column <= 9 && n == GridTotal(model, row) + RowTotal(model, row, column)
        {
          n := n + remainingOptions[row, column];
          column := column + 1;
        }
        row := row + 1;
      }
    }

    /** `getField`: a new array holding the digits. */
    method GetField() returns (g: array2<int>)
      requires Abstracts()
      ensures fresh(g) && g.Length0 == 9 && g.Length1 == 9
      ensures forall x, y | 0 <= x < 9 && 0 <= y < 9 :: g[x, y] == model.field[x][y]
    {
      g := new int[9, 9];
      var row := 0;
      while row < MAX
        invariant 0 <= row <= 9
        invariant forall x, y | 0 <= x < row && 0 <= y < 9 :: g[x, y] == model.field[x][y]
      {
        forall c | 0 <= c < 9 {
          g[row, c] := field[row, c];
        }
        row := row + 1;
      }
    }

    /**
     * `isValid(checkIfFinished)`: no row and no column holds a positive
     * digit twice and, when `checkIfFinished` is set, no cell is empty.
     */
    method IsValid(checkIfFinished: bool) returns (b: bool)
      requires Abstracts() && AtMostNine(model.field)
      ensures b <==> RowsColumnsDistinct(model.field) && (checkIfFinished ==> AllPositive(model.field))
    {
      var columnValues := new bool[9, 9]((_, _) => false);
      var row := 0;
      while row < MAX
        invariant 0 <= row <= 9 && columnValues.Length0 == 9 && columnValues.Length1 == 9
        invariant forall r | 0 <= r < row :: RowDistinct(model.field, r, 9)
        invariant ColumnsDistinct(model.field, row)
        invariant checkIfFinished ==> forall r, c | 0 <= r < row && 0 <= c < 9 :: model.field[r][c] > EMPTY
        invariant forall c, d | 0 <= c < 9 && 0 <= d < 9 :: columnValues[c, d] == ColumnHas(model.field, c, row, d + 1)
      {
        var ok := CheckRow(row, checkIfFinished, columnValues);
        if !ok {
          return false;
        }
        row := row + 1;
      }
      return true;
    }

    /**
     * One pass of the outer loop of `isValid`: the cells of `row`, left to
     * right, against the digits seen so far in the row and in each column.
     */
    method CheckRow(row: int, checkIfFinished: bool, columnValues: array2<bool>) returns (ok: bool)
      requires Shaped() && DigitsMatch() && AtMostNine(model.field) && InRange(row)
      requires columnValues.Length0 == 9 && columnValues.Length1 == 9
      requires ColumnsDistinct(model.field, row)
      requires forall c, d | 0 <= c < 9 && 0 <= d < 9 :: columnValues[c, d] == ColumnHas(model.field, c, row, d + 1)
      modifies columnValues
      ensures ok ==> RowDistinct(model.field, row, 9) && ColumnsDistinct(model.field, row + 1)
      ensures ok && checkIfFinished ==> forall c | 0 <= c < 9 :: model.field[row][c] > EMPTY
      ensures ok ==> forall c, d | 0 <= c < 9 && 0 <= d < 9 :: columnValues[c, d] == ColumnHas(model.field, c, row + 1, d + 1)
      ensures !ok ==> !(RowsColumnsDistinct(model.field) && (checkIfFinished ==> AllPositive(model.field)))
    {
      var rowValues := new bool[9](_ => false);
      ColumnsScannedBounds(model.field, row);
      var column := 0;
      while column < MAX
        invariant 0 <= column <= 9
        invariant CellsChecked(row, column, checkIfFinished, rowValues, columnValues)
      {
        ok := CheckCell(row, column, checkIfFinished, rowValues, columnValues);
        if !ok {
          return;
        }
        column := column + 1;
      }
      ok := true;
    }

    /**
     * What the scan of `isValid` has established once the rows above `row`
     * and the first `column` cells of `row` are checked: no repeats so
     * far, no empty cell when `checkIfFinished` is set, and the flags hold
     * the digits seen in the row and in each column.
     */
    ghost predicate CellsChecked(row: int, column: int, checkIfFinished: bool, rowValues: array<bool>, columnValues: array2<bool>)
      reads this, rowValues, columnValues
      requires InRange(row) && 0 <= column <= 9
    {
      rowValues.Length == 9 && columnValues.Length0 == 9 && columnValues.Length1 == 9 &&
      RowDistinct(model.field, row, column) && ColumnsScanned(model.field, row, column) &&
      (checkIfFinished ==> forall c | 0 <= c < column :: model.field[row][c] > EMPTY) &&
      (forall d | 0 <= d < 9 :: rowValues[d] == RowHas(model.field, row, column, d + 1)) &&
      (forall c, d | 0 <= c < 9 && 0 <= d < 9 :: columnValues[c, d] == ColumnSeen(model.field, row, column, c, d + 1))
    }

    /** The body of the inner loop of `isValid`: one cell. */
    method CheckCell(row: int, column: int, checkIfFinished: bool, rowValues: array<bool>, columnValues: array2<bool>)
      returns (ok: bool)
      requires Shaped() && DigitsMatch() && AtMostNine(model.field) && InRange(row) && InRange(column)
      requires CellsChecked(row, column, checkIfFinished, rowValues, columnValues)
      modifies rowValues, columnValues
      ensures ok ==> CellsChecked(row, column + 1, checkIfFinished, rowValues, columnValues)
      ensures !ok ==> !(RowsColumnsDistinct(model.field) && (checkIfFinished ==> AllPositive(model.field)))
    {
      ghost var g := model.field;
      var value := field[row, column];
      RowHasStep(g, row, column, column + 1);
      ColumnSeenStep(g, row, column);
      if value > EMPTY {
        if rowValues[value - 1] {
          RowRepeatFails(g, row, column, value);
          return false;
        }
        rowValues[value - 1] := true;
        if columnValues[column, value - 1] {
          ColumnRepeatFails(g, row, column, value);
          return false;
        }
        columnValues[column, value - 1] := true;
      } else if checkIfFinished {
        return false;
      }
      assert forall d | 0 <= d < 9 :: rowValues[d] == RowHas(g, row, column + 1, d + 1);
      assert forall c, d | 0 <= c < 9 && 0 <= d < 9 :: columnValues[c, d] == ColumnSeen(g, row, column + 1, c, d + 1);
      RowDistinctStep(g, row, column);
      ColumnsScannedStep(g, row, column);
      return true;
    }

    /** `isFinished`: `isValid(true)`. */
    method IsFinished() returns (b: bool)
      requires Abstracts() && AtMostNine(model.field)
      ensures b <==> RowsColumnsDistinct(model.field) && AllPositive(model.field)
    {
      b := IsValid(true);
    }
  }
}
