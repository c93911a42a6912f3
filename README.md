# Sudoku solver and generator in Dafny

This project models the core of a Java Sudoku program: the field with incremental
constraint propagation (`SudokuField`), the backtracking solver and puzzle generator
(`Sudoku`) and the immutable cell position (`SudokuPosition`).

A field keeps four pieces of state:

- the 9×9 digit grid (0 means empty);
- a 9×9×9 bit array of candidate digits;
- a cached per-cell candidate count;
- the cached number of empty cells.

`setValue` places a digit and strikes it from every row, column and sector peer.
`removeOption` strikes one candidate. The solver and the generator place a candidate,
recurse, and on failure go back to a deep copy and strike the candidate they tried.

## Layout

- `wrappers.dfy` (`Wrappers`): `Option` and `Result`. The Java exceptions become the `Exception` values.
- `decimal.dfy` (`Decimal`): `String.valueOf` and `Integer.parseInt` on digit strings.
- `sudoku_position.dfy` (`Positions`): the position value, its range checks and the row-major successor.
- `sectors.dfy` (`Sectors`): the static sector arithmetic.
- `board.dfy` (`Boards`): the field as a value `Board`.
  - `Place` and `RemoveOption` are the two updates.
  - `Invariant` is what the class keeps true between operations.
  - `Settled` says the candidates are exactly the digits the placed ones allow.
  - `Complete` says no solution is lost.
  - `NoClash`, `Full`, `Extends`, `Solves` and `HasSolution` say what a solution is.
- `scans.dfy` (`Scans`): the specifications of the read-only scans:
  - the best empty cell;
  - the next empty cell;
  - the n-th candidate;
  - the total candidate count;
  - the row and column check of `isValid`.
- `sudoku_field.dfy` (`Fields`): class `SudokuField`.
  - It holds the `array2`/`array3` state of the Java class and a ghost `model: Board`.
  - Every method is proved against what it does to `model`.
- `text_format.dfy` (`Texts`): the box-drawing text as functions (`Render`, `Parse`) and their round trip.
- `field_text.dfy` (`FieldText`): `toString`, `loadFromString` and `Sudoku(String)` as loops, proved against `Texts`.
- `random.dfy` (`Randoms`): the random draws, as arbitrary values in range.
- `sudoku.dfy` (`Games`): class `Sudoku` with `solve` and `generate`, and the difficulty constants.

## Model

| member | source | states |
|---|---|---|
| Positions.NewPosition | src/main/java/sudoku/SudokuPosition.java:19-27 | succeeds iff row and column are both in 0..8, keeps exactly the arguments, and fails with the row message when the row is out of range |
| Positions.Clone | src/main/java/sudoku/SudokuPosition.java:31-33 | the copy equals the original |
| Positions.Equals | src/main/java/sudoku/SudokuPosition.java:35-37 | true iff the other position is present and has the same row and column |
| Positions.NextPosition | src/main/java/sudoku/SudokuField.java:96-111 | a missing position gives START; otherwise the successor exists iff the cell is not (8,8), and it is the next cell in row-major order |
| Positions.NextPositionWalk | src/main/java/sudoku/SudokuField.java:96-111 | k steps of the successor from nothing reach the k-th cell in row-major order, so the walk visits all 81 cells once |
| Positions.ToString | src/main/java/sudoku/SudokuPosition.java:52-54 | the text "row R column C" with 1-based digits is always 14 characters long |
| Positions.ToStringInjective | src/main/java/sudoku/SudokuPosition.java:52-54 | two positions with the same text are the same position |
| Sectors.GetSector | src/main/java/sudoku/SudokuField.java:135-143 | succeeds iff row and column are in 0..8, then lies in 1..9; fails with the row message when the row is out of range |
| Sectors.GetRowBySectorPos | src/main/java/sudoku/SudokuField.java:119-128 | succeeds iff sector is in 1..9 and pos in 0..8, failing with the sector message for a bad sector; the row lies in the sector's band of rows |
| Sectors.GetColumnBySectorPos | src/main/java/sudoku/SudokuField.java:65-87 | succeeds iff sector is in 1..9 and pos in 0..8, failing with the sector message for a bad sector; the column is pos % 3 plus three times the sector's column of blocks |
| Sectors.SectorIsBlock | src/main/java/sudoku/SudokuField.java:135-143 | two cells have the same sector iff they lie in the same 3×3 block |
| Sectors.SectorPosRoundTrip | src/main/java/sudoku/SudokuField.java:65-143 | the cell (sector, pos) names lies in that sector, and pos is its index inside the block |
| Sectors.SectorPosCovers | src/main/java/sudoku/SudokuField.java:65-143 | every cell is named by its own sector and its index inside the block, so the nine pos values cover the whole block |
| Decimal.NatToString | src/main/java/sudoku/SudokuField.java:729 | the decimal text is non-empty, all digits, without a leading zero, one character exactly for values below 10 |
| Decimal.ParseDecimal | src/main/java/sudoku/SudokuField.java:161 | succeeds iff the text is non-empty and all ASCII digits |
| Decimal.ParseNatToString | src/main/java/sudoku/SudokuField.java:161 | parsing the decimal text of n gives n back |
| Decimal.NatToStringInjective | src/main/java/sudoku/SudokuField.java:729 | different numbers have different texts |
| Boards.RemoveOption | src/main/java/sudoku/SudokuField.java:615-620 | only the one candidate is removed; the digits and the empty count are unchanged |
| Boards.RemoveOptionIdempotent | src/main/java/sudoku/SudokuField.java:615-620 | removing the same candidate twice is the same as removing it once |
| Boards.RemoveOptionKeepsInvariant | src/main/java/sudoku/SudokuField.java:615-620 | removing a candidate keeps the field invariant |
| Boards.CellOptionsAfterRemove | src/main/java/sudoku/SudokuField.java:615-620 | the cell loses exactly that candidate; every other cell keeps its candidates |
| Boards.ClearUnits | src/main/java/sudoku/SudokuField.java:658-678 | the sweep over the peers keeps the digits and the empty count and only removes candidates |
| Boards.ClearUnitsAt | src/main/java/sudoku/SudokuField.java:658-678 | after i rounds, a candidate survives iff it was there and is not the placed digit in a cell swept so far |
| Boards.SweptAll | src/main/java/sudoku/SudokuField.java:658-678 | the nine rounds of row, column and sector sweeps reach exactly the peers of the cell |
| Boards.SweptHas | src/main/java/sudoku/SudokuField.java:658-678 | the cells reached in a round stay reached after later rounds |
| Boards.SweptFrom | src/main/java/sudoku/SudokuField.java:658-678 | a swept cell was reached in some earlier round |
| Boards.BlockCell | src/main/java/sudoku/SudokuField.java:672-673 | round k of the sector sweep reaches the block cell whose index inside the block is k |
| Boards.SectorCellIsBlockCell | src/main/java/sudoku/SudokuField.java:672-673 | the sector lookups inside `setValue` give the block cell of round i |
| Boards.CellOptionsAfterFill | src/main/java/sudoku/SudokuField.java:647-655 | storing a digit empties that cell's candidates and leaves all other cells' candidates unchanged |
| Boards.FillCountsDown | src/main/java/sudoku/SudokuField.java:651 | filling an empty cell with a digit lowers the number of empty cells by one |
| Boards.PlaceField | src/main/java/sudoku/SudokuField.java:646-680 | the digit is stored; a positive digit lowers the empty count by one; 0 changes nothing else; candidates only shrink |
| Boards.PlaceAt | src/main/java/sudoku/SudokuField.java:646-680 | after placing a digit, a candidate survives iff it is not in the placed cell and does not name the placed digit in a peer |
| Boards.PlaceKeepsInvariant | src/main/java/sudoku/SudokuField.java:646-680 | placing 0..9 into an empty cell keeps the field invariant |
| Boards.PlaceOptionsOnEmpty | src/main/java/sudoku/SudokuField.java:646-680 | after a placement every candidate is a digit in range in a cell that is still empty |
| Boards.PlaceClearsPeers | src/main/java/sudoku/SudokuField.java:646-680 | after a placement no candidate repeats the digit of a peer, the placed one included |
| Boards.PlaceKeepsSettled | src/main/java/sudoku/SudokuField.java:215-224 | placing into an empty cell keeps the candidates exactly the allowed digits, even when the digit clashes |
| Boards.AllowedAfterPlace | src/main/java/sudoku/SudokuField.java:215-224 | after a placement a digit is allowed in a cell iff it was allowed before, the cell is not the placed one, and it is not the placed digit in a peer |
| Boards.SettledComplete | src/main/java/sudoku/SudokuField.java:215-224 | a field whose candidates are exactly the allowed digits loses no solution |
| Boards.EmptyBoardInvariant | src/main/java/sudoku/SudokuField.java:194-208 | the new empty field satisfies the invariant and has no clash |
| Boards.EmptyBoardSettled | src/main/java/sudoku/SudokuField.java:194-208 | on the new empty field every digit is a candidate of every cell |
| Boards.EmptyCellOptions | src/main/java/sudoku/SudokuField.java:194-208 | each cell of the new empty field has all nine candidates |
| Boards.EmptyGrid | src/main/java/sudoku/SudokuField.java:194-208 | the new grid holds 0 in every cell |
| Boards.EmptyBoard | src/main/java/sudoku/SudokuField.java:194-208 | the new field holds 0 in every cell |
| Boards.CountEmptyBounds | src/main/java/sudoku/SudokuField.java:526-537 | the empty count is at most 81; it is 0 iff every cell is filled and 81 iff every cell is empty |
| Boards.CellOptionsAtMostNine | src/main/java/sudoku/SudokuField.java:548-550 | a cell has at most nine candidates |
| Boards.PlaceCandidateNoClash | src/main/java/sudoku/Sudoku.java:194-196 | placing one of a cell's candidates into a clash-free field leaves it clash-free |
| Boards.PlaceKeepsComplete | src/main/java/sudoku/Sudoku.java:194-196 | placing a digit loses no solution of the new field |
| Boards.RefutedKeepsComplete | src/main/java/sudoku/Sudoku.java:204-209 | once the placement has no solution, removing that candidate loses no solution |
| Boards.SolvableHasCandidates | src/main/java/sudoku/Sudoku.java:184-192 | on a solvable field every empty cell still has a candidate |
| Boards.StuckUnsolvable | src/main/java/sudoku/Sudoku.java:178-192 | an empty cell without candidates means the field has no solution |
| Boards.PlaceExtends | src/main/java/sudoku/Sudoku.java:196 | placing into an empty cell keeps every digit already placed |
| Boards.PlaceFromExtends | src/main/java/sudoku/Sudoku.java:130 | copying a cell from a grid that extends the field keeps it extended by that grid |
| Boards.ExtendsTransitive | src/main/java/sudoku/Sudoku.java:204-205 | a grid that keeps the digits of one that keeps the field's digits keeps them too |
| Boards.FullSolvesItself | src/main/java/sudoku/Sudoku.java:175-222 | a full clash-free field is its own solution |
| Boards.PatternDistinct | src/main/java/sudoku/Sudoku.java:69-73 | the shifted pattern grid puts different digits in any two distinct peers |
| Boards.EmptyGridSolvable | src/main/java/sudoku/Sudoku.java:69-73 | the empty field has a solution, so generation from an empty field cannot fail |
| Scans.FirstDecisiveUnique | src/main/java/sudoku/SudokuField.java:251-273 | there is at most one first cell with at most one candidate |
| Scans.FirstFewestUnique | src/main/java/sudoku/SudokuField.java:251-273 | there is at most one first cell with the fewest candidates |
| Scans.FirstFewestHasChoices | src/main/java/sudoku/SudokuField.java:251-273 | when no cell ends the scan early, the chosen cell has at least two candidates |
| Scans.ScanSkip | src/main/java/sudoku/SudokuField.java:257-266 | a filled cell, or one with no fewer candidates than the best so far, leaves the scan state as it was |
| Scans.ScanAdd | src/main/java/sudoku/SudokuField.java:264-266 | a cell with strictly fewer candidates becomes the new head of the list |
| Scans.ScanStopsEmpty | src/main/java/sudoku/SudokuField.java:260-261 | an empty cell without candidates, met first, ends the scan with null |
| Scans.ScanStopsSingle | src/main/java/sudoku/SudokuField.java:262-263 | an empty cell with one candidate, met first, ends the scan with that cell |
| Scans.ScanDone | src/main/java/sudoku/SudokuField.java:272 | after all 81 cells an empty list fails with the index error and otherwise its head is the answer |
| Scans.BestIsEmpty | src/main/java/sudoku/SudokuField.java:251-273 | a cell the scan returns is empty |
| Scans.BestNoneStuck | src/main/java/sudoku/SudokuField.java:251-273 | a null result means some empty cell has no candidates |
| Scans.BestSucceeds | src/main/java/sudoku/SudokuField.java:251-273 | with the invariant and an empty cell left, the scan does not fail |
| Scans.SomeEmptyCell | src/main/java/sudoku/SudokuField.java:535-537 | a positive empty count means some cell is empty |
| Scans.Start | src/main/java/sudoku/SudokuField.java:302-307 | the search starts from a cell number in -1..80 |
| Scans.Steps | src/main/java/sudoku/SudokuField.java:309-321 | every cell lies fewer than 81 steps after the start of the wrapping search |
| Scans.StepsInjective | src/main/java/sudoku/SudokuField.java:309-321 | the wrapping search meets each cell at exactly one step |
| Scans.AdvanceVisits | src/main/java/sudoku/SudokuField.java:311-315 | the successor, wrapped to START after (8,8), is the cell at the next step |
| Scans.SearchStep | src/main/java/sudoku/SudokuField.java:317-320 | a filled cell extends the part of the search known to hold no empty cell |
| Scans.SearchFound | src/main/java/sudoku/SudokuField.java:317-318 | the empty cell the search stops at is the first one after the start |
| Scans.TotalOptionsRemove | src/main/java/sudoku/SudokuField.java:567-578 | removing a candidate that is there lowers the total candidate count by one, otherwise not at all |
| Scans.RowTotalRemove | src/main/java/sudoku/SudokuField.java:567-578 | the same for the sum over part of a row |
| Scans.GridTotalRemove | src/main/java/sudoku/SudokuField.java:567-578 | the same for the sum over the first rows |
| Scans.RankUnique | src/main/java/sudoku/SudokuField.java:387-411 | two candidates with the same number of smaller candidates are equal |
| Scans.RankGrows | src/main/java/sudoku/SudokuField.java:387-411 | a larger candidate has more smaller candidates |
| Scans.RankExists | src/main/java/sudoku/SudokuField.java:387-411 | for every n below the count there is a candidate with exactly n smaller ones |
| Scans.RowDistinctStep | src/main/java/sudoku/SudokuField.java:501-506 | a digit not yet seen in the row extends the row check by one cell |
| Scans.ColumnDistinctStep | src/main/java/sudoku/SudokuField.java:508-512 | a digit not yet seen in the column extends the column check by one cell |
| Scans.ColumnsScannedStep | src/main/java/sudoku/SudokuField.java:508-512 | after a cell passes, the columns are checked one cell further |
| Scans.ColumnsScannedBounds | src/main/java/sudoku/SudokuField.java:494-516 | at the start of a row the column state covers the rows above, and at its end it covers that row too |
| Scans.ColumnSeenStep | src/main/java/sudoku/SudokuField.java:508-512 | the column flags after a cell are the flags before it plus that cell's digit |
| Scans.RowHasStep | src/main/java/sudoku/SudokuField.java:501-506 | a row holds a digit among its first k+1 cells iff it holds it among the first k or in cell k |
| Scans.ColumnHasStep | src/main/java/sudoku/SudokuField.java:508-512 | a column holds a digit among its first k+1 cells iff it holds it among the first k or in cell k |
| Scans.RowRepeatFails | src/main/java/sudoku/SudokuField.java:501-502 | a digit seen earlier in the row makes the field invalid |
| Scans.ColumnRepeatFails | src/main/java/sudoku/SudokuField.java:508-509 | a digit seen earlier in the column makes the field invalid |
| Scans.NoClashRowsColumnsDistinct | src/main/java/sudoku/SudokuField.java:493-519 | a field without clashes passes the row and column check |
| Scans.SectorsNotChecked | src/main/java/sudoku/SudokuField.java:493-519 | some grid passes the row and column check and still repeats a digit inside a sector |
| Fields.SudokuField.constructor | src/main/java/sudoku/SudokuField.java:194-208 | the new field is empty, every digit is a candidate of every cell, the counts are 9 and the empty count is 81 |
| Fields.SudokuField.FillEmpty | src/main/java/sudoku/SudokuField.java:194-208 | the loops fill the arrays with the empty field |
| Fields.SudokuField.EmptyArraysHoldEmptyBoard | src/main/java/sudoku/SudokuField.java:194-208 | the filled arrays hold the empty field, which is valid and settled |
| Fields.SudokuField.EmptyCountsMatch | src/main/java/sudoku/SudokuField.java:202 | the counts of 9 are the sizes of the empty field's candidate sets |
| Fields.SudokuField.EmptyBitsMatch | src/main/java/sudoku/SudokuField.java:205 | the all-true bits are the empty field's candidates |
| Fields.SudokuField.FromGrid | src/main/java/sudoku/SudokuField.java:215-224 | the field holds exactly the given digits, clashes included; with no negative digit it is valid and its candidates are exactly the allowed digits |
| Fields.SudokuField.LoadRow | src/main/java/sudoku/SudokuField.java:219-222 | one row of the given digits is placed and the rows below stay empty |
| Fields.SudokuField.Copy | src/main/java/sudoku/SudokuField.java:231-245 | the copy holds the same state in fresh arrays, so later changes to either do not reach the other |
| Fields.SudokuField.RemoveOption | src/main/java/sudoku/SudokuField.java:615-620 | the new state is the old one without that candidate, and validity is kept |
| Fields.SudokuField.SetValue | src/main/java/sudoku/SudokuField.java:646-680 | the new state is the old one with the digit placed, and validity is kept when an empty cell gets 0..9 |
| Fields.SudokuField.StoreDigit | src/main/java/sudoku/SudokuField.java:647-655 | the digit is stored, the empty count drops and the cell's candidates are cleared |
| Fields.SudokuField.ClearPeers | src/main/java/sudoku/SudokuField.java:657-678 | the loop strikes the digit from all row, column and sector peers, each count dropping only when its bit was set |
| Fields.SudokuField.GetValue | src/main/java/sudoku/SudokuField.java:429-431 | the digit of the cell, in 0..9 on a valid field |
| Fields.SudokuField.IsEmpty | src/main/java/sudoku/SudokuField.java:448-450 | true iff every cell is empty, on a valid field |
| Fields.SudokuField.IsOption | src/main/java/sudoku/SudokuField.java:472-474 | true iff the digit is a candidate of the cell |
| Fields.SudokuField.NumCellsFilled | src/main/java/sudoku/SudokuField.java:526-528 | the number of filled cells: 0 iff all are empty, 81 iff the field is full |
| Fields.SudokuField.NumRemainingEmptyCells | src/main/java/sudoku/SudokuField.java:535-537 | the number of empty cells: 0 iff the field is full |
| Fields.SudokuField.NumRemainingOptions | src/main/java/sudoku/SudokuField.java:548-550 | the size of the cell's candidate set, at most 9 |
| Fields.SudokuField.NumRemainingOptionsTotal | src/main/java/sudoku/SudokuField.java:567-578 | the sum of the candidate counts of all cells |
| Fields.SudokuField.GetNextOption | src/main/java/sudoku/SudokuField.java:333-341 | 0 iff the cell has no candidate, otherwise its smallest candidate |
| Fields.SudokuField.GetRandomOption | src/main/java/sudoku/SudokuField.java:387-411 | 0 iff the cell has no candidate, otherwise the candidate with exactly n smaller candidates |
| Fields.SudokuField.GetBestEmptyPosition | src/main/java/sudoku/SudokuField.java:251-273 | fails iff no cell is empty; null iff the first cell with at most one candidate has none; otherwise that cell, or the first empty cell with the fewest candidates |
| Fields.SudokuField.ScanRow | src/main/java/sudoku/SudokuField.java:255-270 | one row of the scan either ends it with the right answer or carries the scan state to the next row |
| Fields.SudokuField.GetNextEmptyPosition | src/main/java/sudoku/SudokuField.java:297-324 | null when the empty count is 0, and otherwise only when no cell is empty; a result is the first empty cell in row-major order after the start, wrapping after (8,8) |
| Fields.SudokuField.GetRandomEmptyPosition | src/main/java/sudoku/SudokuField.java:358-378 | null when the empty count is 0 and otherwise only when no cell is empty; a result is empty, is the first empty cell among the seven draws, or else the first empty cell from (0,0) |
| Fields.SudokuField.GetField | src/main/java/sudoku/SudokuField.java:280-288 | a fresh 9×9 array with the digits of the field |
| Fields.SudokuField.IsValid | src/main/java/sudoku/SudokuField.java:493-519 | true iff no row and no column repeats a positive digit and, when asked, every cell is filled |
| Fields.SudokuField.CheckRow | src/main/java/sudoku/SudokuField.java:495-516 | one row passes and carries the column flags on, or the field is invalid |
| Fields.SudokuField.CheckCell | src/main/java/sudoku/SudokuField.java:498-514 | one cell passes and updates the row and column flags, or the field is invalid |
| Fields.SudokuField.IsFinished | src/main/java/sudoku/SudokuField.java:457-459 | true iff no row and no column repeats a digit and every cell is filled |
| Texts.Glyph | src/main/java/sudoku/SudokuField.java:727-730 | the character shown for a cell is never a line break |
| Texts.CellText | src/main/java/sudoku/SudokuField.java:732-736 | a cell is three characters with its glyph in the middle |
| Texts.CellsText | src/main/java/sudoku/SudokuField.java:726-740 | the first k cells of a row take 3k characters plus 3 per finished block |
| Texts.RowLine | src/main/java/sudoku/SudokuField.java:725-741 | a row line is 38 characters and has no line break |
| Texts.BoxLines | src/main/java/sudoku/SudokuField.java:722-745 | the first n lines of the box drawing are the border and row lines in order |
| Texts.InfoLine | src/main/java/sudoku/SudokuField.java:748 | the info line has no line break |
| Texts.Split | src/main/java/sudoku/SudokuField.java:152 | splitting gives at least one line |
| Texts.SplitFirstLine | src/main/java/sudoku/SudokuField.java:152 | a line followed by a line break splits off as the first line |
| Texts.SplitTerminated | src/main/java/sudoku/SudokuField.java:152 | splitting line-terminated lines gives those lines back |
| Texts.LinesAbove | src/main/java/sudoku/SudokuField.java:154 | the text line of a row lies within the 13 lines of the box |
| Texts.RowLineIndex | src/main/java/sudoku/SudokuField.java:154 | the line of a row is a row line, not a border, and belongs to that row |
| Texts.ColumnIndex | src/main/java/sudoku/SudokuField.java:157 | the character of a column lies within the row line |
| Texts.ParseGlyph | src/main/java/sudoku/SudokuField.java:160-164 | a read cell is in 0..9 |
| Texts.ParseGlyphIsParseInt | src/main/java/sudoku/SudokuField.java:160-164 | a character other than a space is read the way `Integer.parseInt` reads it |
| Texts.ParseCell | src/main/java/sudoku/SudokuField.java:158-164 | a read cell is in 0..9 |
| Texts.ParseCells | src/main/java/sudoku/SudokuField.java:153-166 | reading the first k cells gives k values in 0..9 |
| Texts.ParsedCells | src/main/java/sudoku/SudokuField.java:153-166 | every value read is the value of its own cell |
| Texts.ParseCellsStep | src/main/java/sudoku/SudokuField.java:155-164 | one more readable cell extends the cells read |
| Texts.ParseRowPrefix | src/main/java/sudoku/SudokuField.java:155-164 | readable cells of a row extend the cells read by that row prefix |
| Texts.ParseRowFails | src/main/java/sudoku/SudokuField.java:155-164 | the first unreadable cell gives the error of the whole parse |
| Texts.ParseCellsFail | src/main/java/sudoku/SudokuField.java:153-166 | the first unreadable cell in row-major order decides the error |
| Texts.ParseFailureStays | src/main/java/sudoku/SudokuField.java:153-166 | once a cell cannot be read, the parse fails with that error |
| Texts.ParseGrid | src/main/java/sudoku/SudokuField.java:150-169 | when each cell reads as a grid's digit, the parse gives that grid |
| Texts.ParseCellsAll | src/main/java/sudoku/SudokuField.java:153-166 | when each cell reads as a grid's digit, reading k cells gives the grid's first k digits |
| Texts.ToGrid | src/main/java/sudoku/SudokuField.java:150-169 | the 81 values fill the grid in row-major order |
| Texts.ToGridCells | src/main/java/sudoku/SudokuField.java:150-169 | a grid with those row-major values is the grid built |
| Texts.ToGridRowMajor | src/main/java/sudoku/SudokuField.java:150-169 | the same, with cells numbered 0..80 |
| Texts.Parse | src/main/java/sudoku/SudokuField.java:150-169 | a parsed grid holds only 0..9 |
| Texts.ParseCellRender | src/main/java/sudoku/SudokuField.java:720-753 | each cell of the rendered text reads back as the cell's digit, whatever follows the box |
| Texts.ParseRender | src/main/java/sudoku/SudokuField.java:150-169 | loading the rendering of a grid, with any text after it, gives the grid back |
| Texts.TerminatedAppend | src/main/java/sudoku/SudokuField.java:741 | appending a line and a line break extends the text line by line |
| Texts.BoxLinesStep | src/main/java/sudoku/SudokuField.java:724-746 | the box lines grow one line at a time |
| Texts.BandEnd | src/main/java/sudoku/SudokuField.java:742-745 | a border follows every third row |
| Texts.RenderRowLine | src/main/java/sudoku/SudokuField.java:725-741 | appending a row line extends the box text by that line |
| Texts.RenderBorder | src/main/java/sudoku/SudokuField.java:742-745 | appending a border after every third row extends the box text by that line |
| Texts.RenderRow | src/main/java/sudoku/SudokuField.java:725-745 | one pass of the row loop appends exactly the text of that row |
| Texts.AppendCell | src/main/java/sudoku/SudokuField.java:732-739 | one pass of the column loop appends exactly the cell, plus a block separator after every third cell |
| Texts.GlyphText | src/main/java/sudoku/SudokuField.java:727-730 | the value text of a cell is its one-character glyph |
| Texts.CellsTextAt | src/main/java/sudoku/SudokuField.java:726-740 | the glyph of cell c sits at a fixed offset in the row text |
| Texts.RowLineAt | src/main/java/sudoku/SudokuField.java:725-741 | the glyph of a column sits at the column's index in the row line |
| FieldText.RowText | src/main/java/sudoku/SudokuField.java:726-740 | the column loop builds the cells of one row line |
| FieldText.BoxText | src/main/java/sudoku/SudokuField.java:721-746 | the row loop builds the box drawing of the field |
| FieldText.ToString | src/main/java/sudoku/SudokuField.java:720-753 | the text is the box drawing plus, if asked, the info line with the empty and candidate counts; loading it gives the field's digits back |
| FieldText.LoadFromString | src/main/java/sudoku/SudokuField.java:150-169 | fails iff the text cannot be read, with the same error; otherwise a valid, settled field holding the digits read |
| FieldText.LoadRow | src/main/java/sudoku/SudokuField.java:155-166 | one row of cells is read into the grid, or the parse fails with that row's error |
| FieldText.ReadCell | src/main/java/sudoku/SudokuField.java:156-164 | the cell is read as the specification of one cell reads it |
| FieldText.SudokuFromString | src/main/java/sudoku/Sudoku.java:80-84 | fails iff the text cannot be read; otherwise the game's field is the loaded field |
| Games.GeneratedSolvable | src/main/java/sudoku/Sudoku.java:69-73 | a puzzle generated from the empty field is solved by the full field it was cut from |
| Games.GeneratedAfterPlace | src/main/java/sudoku/Sudoku.java:104-111 | what is generated after placing a candidate is also generated for the field before it |
| Games.Sudoku.constructor | src/main/java/sudoku/Sudoku.java:45-47 | the game starts with a valid, settled, empty field |
| Games.Sudoku.FromGrid | src/main/java/sudoku/Sudoku.java:54-60 | the game's field is valid, settled and holds the given digits |
| Games.Sudoku.Holding | src/main/java/sudoku/Sudoku.java:82 | the game holds the given field |
| Games.Sudoku.WithPredefinedCells | src/main/java/sudoku/Sudoku.java:69-73 | fails iff more than 60 cells are asked for; otherwise the field is valid, has exactly that many digits (none for a negative count) and has a solution |
| Games.Sudoku.NumCellsFilled | src/main/java/sudoku/Sudoku.java:149-151 | the number of filled cells of the game's field |
| Games.Sudoku.Solve | src/main/java/sudoku/Sudoku.java:173-223 | true means the field is full and keeps the start's digits, and solves it when the start had no clash; false means the digits are unchanged and the start has no solution |
| Games.Sudoku.TryOption | src/main/java/sudoku/Sudoku.java:194-214 | either the field is solved, or it is the old state with the tried candidate removed and no solution is lost |
| Games.Sudoku.PlaceAndSolve | src/main/java/sudoku/Sudoku.java:195-205 | either the field is solved from the placed candidate, or that placement has no solution |
| Games.Sudoku.Restore | src/main/java/sudoku/Sudoku.java:208-209 | the field becomes the snapshot with the refuted candidate removed, and no solution is lost |
| Games.Sudoku.Generate | src/main/java/sudoku/Sudoku.java:92-135 | fails iff more than 60 cells are asked for; null only when the field has no solution, its digits unchanged; otherwise a valid, settled puzzle with the asked number of digits, cut from a full field that keeps the start's digits and solves the start when it had no clash |
| Games.Sudoku.Fill | src/main/java/sudoku/Sudoku.java:96-119 | the scan over the cells either produces the puzzle or proves the field unsolvable with the digits unchanged |
| Games.Sudoku.FillCell | src/main/java/sudoku/Sudoku.java:98-117 | trying candidates of one empty cell either produces the puzzle or proves the field unsolvable |
| Games.Sudoku.TryGenerate | src/main/java/sudoku/Sudoku.java:99-116 | either the puzzle is produced, or the field is the old state with the tried candidate removed and no solution is lost |
| Games.Sudoku.PlaceAndGenerate | src/main/java/sudoku/Sudoku.java:104-111 | either the puzzle is produced from the placed candidate, or that placement has no solution |
| Games.Sudoku.Adopt | src/main/java/sudoku/Sudoku.java:109 | the game's field becomes the generated puzzle |
| Games.Sudoku.Prepare | src/main/java/sudoku/Sudoku.java:121-134 | a fresh valid, settled field with exactly the asked number of digits, each copied from the full field |
| Games.Sudoku.CopyRandomCell | src/main/java/sudoku/Sudoku.java:125-130 | one more empty cell gets the full field's digit, and the field stays valid and settled |

## Code and description differ

Where the written description of the program and its code disagree, the model follows the code.

- `getBestEmptyPosition` keeps a new cell only when its count is strictly smaller. So among cells tied for the fewest candidates it returns the first in row-major order, not the last (`Fields.SudokuField.GetBestEmptyPosition`, `Scans.FirstFewest`).
- `getBestEmptyPosition` stops at the first empty cell with at most one candidate. A cell with one candidate met before a cell with none is returned. The scan does not report the dead end "regardless of other cells".
- `setValue` accepts 0 (it only stores it) and does not check that the digit is a candidate. A predefined field with clashes is therefore loaded as given (`Fields.SudokuField.FromGrid`, `Boards.PlaceKeepsSettled`).
- `isValid` checks rows and columns only (`Scans.SectorsNotChecked`).
- In `setValue` the comment on the `options[i][column]` update says "row", but that loop strikes the column; the one on `options[row][i]` says "column", but that loop strikes the row. The model follows what the loops do.

## Left out

- `Main.java`: file input and output, timing, progress printing and batch driving.
- `print` overloads, `debugMode` with `isDebugMode`/`setDebugMode`, and the console output inside `solve`.
- `solveA`: nothing calls it, it recurses into `solve` rather than into itself, and its inner loop does not stop when every empty cell has more candidates than its depth.
- The `SudokuPosition` overloads of `getNextOption`, `getRandomOption`, `getValue`, `numRemainingOptions`, `removeOption` and `setValue`: each forwards to the (row, column) form that is modelled.
- `getRow`/`getColumn`: the datatype fields `row` and `column` are those accessors.
- The instance `getNextPosition` of a position forwards to the static one, which is `Positions.NextPosition`.
- The `toString()` and `toString(boolean)` overloads: they call the full form with highlight (-1, -1), which `FieldText.ToString` covers with any highlight.
- Null arguments and the null-argument branches of `Sudoku(byte[][])` and `Sudoku(String)`: positions and fields are never null in the model.
- `java.util.Random`: each draw is an arbitrary value in its range (`Randoms.NextInt`, `Randoms.DrawPositions`). Which values the generator yields is not modelled; every property holds for all draws.
- Fields.SudokuField.GetRandomOption: the random index is a parameter `n` below the candidate count.
- Fields.SudokuField.GetRandomEmptyPosition: the up to seven random cells are a parameter `draws`.
- Byte widths: all numbers are unbounded integers. The digits and counts stay in 0..81, so no byte cast changes a value on the inputs the model admits.
- Fields.SudokuField.GetValue, IsOption, NumRemainingOptions, SetValue and RemoveOption require their indices in range. Out of range, Java raises `ArrayIndexOutOfBoundsException`, which is not modelled.
- Fields.SudokuField.FromGrid requires digits of at most 9 and a 9×9 array. A larger value would make `setValue` index the candidate array out of range.
- Fields.SudokuField.SetValue keeps validity only for an empty cell and a digit 0..9, the only way the program calls it. Placing into a filled cell lowers the empty count twice, as the Java code does.
- `System.lineSeparator()` is fixed as `"\n"`.
- Only ASCII digits are read. `Integer.parseInt` also accepts other Unicode decimal digits, which the box format never contains.
- A missing line or a line too short for a column is `MalformedText`. Java would raise `ArrayIndexOutOfBoundsException` or `StringIndexOutOfBoundsException`.
- `String.split` drops trailing empty strings. This changes no line that is read.
- FieldText.ToString, LoadFromString and SudokuFromString take the field or text as parameters rather than being instance or static members of the Java classes.
  - `Sudoku(String)` is a static method returning a `Result`, because a constructor cannot fail.
  - `Games.Sudoku.Holding` is the assignment of the loaded field.
- Fields.SudokuField.Copy: in the model the copy is a fresh set of arrays with the same contents. This is the deep copy Java makes row by row.
- The loop bodies of the Java methods are separate methods so that each can be proved on its own:
  - Fields.SudokuField.LoadRow, ScanRow, CheckRow, CheckCell, StoreDigit and ClearPeers;
  - Games.Sudoku.TryOption, PlaceAndSolve, Restore, Fill, FillCell, TryGenerate, PlaceAndGenerate, Adopt, Prepare and CopyRandomCell;
  - FieldText.RowText, BoxText, LoadRow and ReadCell.
- Games.Sudoku.Generate: the "more than 60" check runs once, before the search, instead of in every recursive frame. It has the same outcome, since the count never changes.
- Games.Sudoku.Generate: the moment when `field` is null between the recursive call and the restore is not modelled. The caller restores the snapshot before it reads `field` again.
- Games.Sudoku.Solve and Generate require `Complete` (no solution lost by the candidates). Every field the program builds has this property (`Boards.SettledComplete`, `Boards.RefutedKeepsComplete`). A field whose candidates were removed by hand may not.
- Games.Sudoku.Solve states that a true result solves the start only when the start has no clash. A start with clashes is filled without being a valid solution, as in Java.
- Games.Sudoku.Solve, Generate, Fill, FillCell, TryGenerate and PlaceAndGenerate return the generating full grid as a ghost `solution`. It names the full field the puzzle was cut from, which the Java code holds in the innermost frame only.
