/**
 * What the read-only scans of a field look for, stated over the `Board`
 * value: candidate ranks, the cell the solver picks, the cyclic search for
 * an empty cell, the row and column check and the candidate total.
 */
module Scans {
  import opened Wrappers
  import opened Positions
  import opened Boards

  /** The candidates of a cell smaller than `v`. */
  function Below(c: set<int>, v: int): set<int>
  {
    set w | w in c && w < v
  }

  /** Passing one more digit adds it to the smaller candidates exactly when it is a candidate. */
  lemma BelowStep(c: set<int>, v: int)
    ensures Below(c, v + 1) == Below(c, v) + (if v in c then {v} else {})
    ensures |Below(c, v + 1)| == |Below(c, v)| + (if v in c then 1 else 0)
  {
    assert Below(c, v + 1) == Below(c, v) + (if v in c then {v} else {});
  }

  /** Below ten every digit is counted. */
  lemma BelowTenAll(c: set<int>)
    requires forall w | w in c :: 1 <= w <= 9
    ensures Below(c, 10) == c
  {
  }

  /** Distinct candidates have distinct ranks, so each rank names one candidate. */
  lemma RankUnique(c: set<int>, v: int, w: int)
    requires v in c && w in c && |Below(c, v)| == |Below(c, w)|
    ensures v == w
  {
    if v < w {
      RankGrows(c, v, w);
    } else if w < v {
      RankGrows(c, w, v);
    }
  }

  /** A larger candidate has a larger rank. */
  lemma RankGrows(c: set<int>, v: int, w: int)
    requires v in c && v < w
    ensures |Below(c, v)| < |Below(c, w)|
  {
    var small, large := Below(c, v), Below(c, w);
    assert small <= large && v in large && v !in small;
    assert small + {v} <= large;
    assert |small + {v}| == |small| + 1;
    assert large * (small + {v}) == small + {v};
    assert |large - (small + {v})| == |large| - |large * (small + {v})|;
  }

  /** Every rank below the number of candidates belongs to one of them. */
  lemma {:induction false} RankExists(c: set<int>, n: int)
    requires forall w | w in c :: 1 <= w <= 9
    requires 0 <= n < |c|
    ensures exists v | v in c :: |Below(c, v)| == n
  {
    var v := 1;
    assert Below(c, 1) == {};
    while v < 10 && !(v in c && |Below(c, v)| == n)
      invariant 1 <= v <= 10 && |Below(c, v)| <= n
      decreases 10 - v
    {
      BelowStep(c, v);
      v := v + 1;
    }
    if v == 10 {
      BelowTenAll(c);
      assert false;
    }
  }

  /** The cell holds no digit. */
  ghost predicate EmptyCell(b: Board, p: Position)
  {
    b.field[p.row][p.column] == EMPTY
  }

  /** The number of candidates of a cell. */
  ghost function Count(b: Board, p: Position): int
  {
    |CellOptions(b, p.row, p.column)|
  }

  /** An empty cell with at most one candidate ends the search for the best cell at once. */
  ghost predicate Decides(b: Board, p: Position)
  {
    EmptyCell(b, p) && Count(b, p) <= 1
  }

  /** `p` is the first cell, in row-major order, that ends the search at once. */
  ghost predicate FirstDecisive(b: Board, p: Position)
  {
    Decides(b, p) && forall q: Position | Index(q) < Index(p) :: !Decides(b, q)
  }

  /** `p` is the first empty cell, in row-major order, with the fewest candidates. */
  ghost predicate FirstFewest(b: Board, p: Position)
  {
    EmptyCell(b, p) &&
    forall q: Position | EmptyCell(b, q) :: Count(b, p) <= Count(b, q) && (Index(q) < Index(p) ==> Count(b, p) < Count(b, q))
  }

  /**
   * What the scan of `getBestEmptyPosition` knows after the first `k` cells:
   * none of them ends the search, and the head of the list of `positions`
   * is the first of them with the fewest candidates, `minOptions` being its
   * count (ten while no empty cell has been met).
   */
  ghost predicate ScanState(b: Board, k: int, positions: seq<Position>, minOptions: int)
  {
    (forall q: Position | Index(q) < k :: !Decides(b, q)) &&
    (|positions| == 0 ==> minOptions == 10 && forall q: Position | Index(q) < k :: !EmptyCell(b, q)) &&
    (|positions| > 0 ==>
      Index(positions[0]) < k && EmptyCell(b, positions[0]) && minOptions == Count(b, positions[0]) &&
      forall q: Position | Index(q) < k && EmptyCell(b, q) ::
        minOptions <= Count(b, q) && (Index(q) < Index(positions[0]) ==> minOptions < Count(b, q)))
  }

  /** There is one first cell that ends the search. */
  lemma FirstDecisiveUnique(b: Board, p: Position, q: Position)
    requires FirstDecisive(b, p) && FirstDecisive(b, q)
    ensures p == q
  {
    IndexInjective(p, q);
  }

  /** There is one first cell with the fewest candidates. */
  lemma FirstFewestUnique(b: Board, p: Position, q: Position)
    requires FirstFewest(b, p) && FirstFewest(b, q)
    ensures p == q
  {
    IndexInjective(p, q);
  }

  /** When no cell ends the search early, the first cell with the fewest candidates has at least two. */
  lemma FirstFewestHasChoices(b: Board, p: Position)
    requires (forall q: Position :: !Decides(b, q)) && FirstFewest(b, p)
    ensures Count(b, p) >= 2
  {
    assert !Decides(b, p);
  }

  /** A cell that neither ends the search nor has fewer candidates than the best so far leaves the scan as it was. */
  lemma ScanSkip(b: Board, k: int, positions: seq<Position>, minOptions: int, p: Position)
    requires ScanState(b, k, positions, minOptions) && Index(p) == k
    requires !EmptyCell(b, p) || (2 <= Count(b, p) && minOptions <= Count(b, p))
    ensures ScanState(b, k + 1, positions, minOptions)
  {
    CellOptionsAtMostNine(b, p.row, p.column);
    forall q: Position | Index(q) == k ensures q == p {
      IndexInjective(q, p);
    }
  }

  /** An empty cell with at least two candidates, but fewer than the best so far, becomes the head of the list. */
  lemma ScanAdd(b: Board, k: int, positions: seq<Position>, minOptions: int, p: Position)
    requires ScanState(b, k, positions, minOptions) && Index(p) == k
    requires EmptyCell(b, p) && 2 <= Count(b, p) < minOptions
    ensures ScanState(b, k + 1, [p] + positions, Count(b, p))
  {
    forall q: Position | Index(q) == k ensures q == p {
      IndexInjective(q, p);
    }
  }

  /**
   * The outcome of `getBestEmptyPosition`: a failure exactly when no cell
   * is empty; nothing exactly when the first empty cell with at most one
   * candidate has none; otherwise that first cell when it has one
   * candidate, or else the first empty cell with the fewest candidates.
   */
  ghost predicate BestOutcome(b: Board, r: Result<Option<Position>>)
  {
    (r.Failure? <==> forall p: Position :: !EmptyCell(b, p)) &&
    (r.Failure? ==> r.error == IndexOutOfBounds("Index: 0, Size: 0")) &&
    (r == Success(None) <==> exists p: Position :: FirstDecisive(b, p) && Count(b, p) == 0) &&
    (r.Success? && r.value.Some? ==>
      (FirstDecisive(b, r.value.value) && Count(b, r.value.value) == 1) ||
      ((forall q: Position :: !Decides(b, q)) && FirstFewest(b, r.value.value)))
  }

  /** An empty cell without candidates met before any cell with one ends the scan with nothing. */
  lemma ScanStopsEmpty(b: Board, k: int, positions: seq<Position>, minOptions: int, p: Position)
    requires ScanState(b, k, positions, minOptions) && Index(p) == k
    requires EmptyCell(b, p) && Count(b, p) == 0
    ensures BestOutcome(b, Success(None))
  {
    assert FirstDecisive(b, p);
  }

  /** An empty cell with one candidate met before any cell without ends the scan with that cell. */
  lemma ScanStopsSingle(b: Board, k: int, positions: seq<Position>, minOptions: int, p: Position)
    requires ScanState(b, k, positions, minOptions) && Index(p) == k
    requires EmptyCell(b, p) && Count(b, p) == 1
    ensures BestOutcome(b, Success(Some(p)))
  {
    forall q: Position | FirstDecisive(b, q) ensures q == p {
      FirstDecisiveUnique(b, p, q);
    }
  }

  /** After all 81 cells: the head of the list, or a failure when the list is empty. */
  lemma ScanDone(b: Board, positions: seq<Position>, minOptions: int)
    requires ScanState(b, 81, positions, minOptions)
    ensures BestOutcome(b, if |positions| == 0 then Failure(IndexOutOfBounds("Index: 0, Size: 0")) else Success(Some(positions[0])))
  {
  }

  /** Where the cyclic search starts: just after `pos`, or at the first cell when there is no `pos`. */
  function Start(pos: Option<Position>): (s: int)
    ensures -1 <= s < 81
  {
    if pos.None? then -1 else Index(pos.value)
  }

  /**
   * How many cells the cyclic row-major search that begins right after
   * cell number `s` visits before `q`: 0 for the next cell, 80 for cell `s`
   * itself, which it visits last.
   */
  function Steps(s: int, q: Position): (n: int)
    requires -1 <= s < 81
    ensures 0 <= n < 81
  {
    // the row-major number of `q` is written out rather than taken from
    // `Index`, which keeps the solver's arithmetic on `START` linear
    if 9 * q.row + q.column <= s then 9 * q.row + q.column - s + 80 else 9 * q.row + q.column - s - 1
  }

  /** `p` is the first empty cell the cyclic search from after `s` meets. */
  ghost predicate FirstEmptyAfter(b: Board, s: int, p: Position)
    requires -1 <= s < 81
  {
    EmptyCell(b, p) && forall q: Position | Steps(s, q) < Steps(s, p) :: !EmptyCell(b, q)
  }

  /** The search is cyclic: one cell sits at each distance from the start. */
  lemma StepsInjective(s: int, p: Position, q: Position)
    requires -1 <= s < 81 && Steps(s, p) == Steps(s, q)
    ensures p == q
  {
    IndexInjective(p, q);
  }

  /**
   * One step of the search: the row-major successor of the previous cell,
   * wrapping to the first cell after the last one (before the first step,
   * the previous cell is `pos`), lies one step further.
   */
  lemma AdvanceVisits(pos: Option<Position>, i: int, cur: Option<Position>)
    requires 0 <= i < 81
    requires i == 0 ==> cur == pos
    requires i > 0 ==> cur.Some? && Steps(Start(pos), cur.value) == i - 1
    ensures NextPosition(cur).Some? ==> Steps(Start(pos), NextPosition(cur).value) == i
    ensures NextPosition(cur).None? ==> Steps(Start(pos), START) == i
  {
  }

  /** A step that meets a filled cell extends the stretch of cells known to be filled. */
  lemma SearchStep(b: Board, s: int, i: int, p: Position)
    requires -1 <= s < 81 && 0 <= i < 81 && Steps(s, p) == i
    requires forall q: Position | Steps(s, q) < i :: !EmptyCell(b, q)
    requires !EmptyCell(b, p)
    ensures forall q: Position | Steps(s, q) < i + 1 :: !EmptyCell(b, q)
  {
    forall q: Position | Steps(s, q) == i ensures q == p {
      StepsInjective(s, p, q);
    }
  }

  /** A step that meets an empty cell has found the first empty cell of the search. */
  lemma SearchFound(b: Board, s: int, i: int, p: Position)
    requires -1 <= s < 81 && 0 <= i < 81 && Steps(s, p) == i
    requires forall q: Position | Steps(s, q) < i :: !EmptyCell(b, q)
    requires EmptyCell(b, p)
    ensures FirstEmptyAfter(b, s, p)
  {
  }

  /** The candidate counts of cells `(r, 0)` .. `(r, k - 1)`, added up. */
  function RowTotal(b: Board, r: int, k: nat): nat
    requires k <= 9
  {
    if k == 0 then 0 else RowTotal(b, r, k - 1) + |CellOptions(b, r, k - 1)|
  }

  /** The candidate counts of all cells of rows 0 .. `k - 1`, added up. */
  function GridTotal(b: Board, k: nat): nat
    requires k <= 9
  {
    if k == 0 then 0 else GridTotal(b, k - 1) + RowTotal(b, k - 1, |b.field[k - 1]|)
  }

  /** The number of candidates of the whole field, as `numRemainingOptionsTotal` adds them up. */
  function TotalOptions(b: Board): nat
  {
    // the length rather than the literal 9 keeps the solver from unrolling the sum
    GridTotal(b, |b.field|)
  }

  lemma {:induction false} RowTotalRemove(b: Board, row: int, column: int, value: int, r: int, k: nat)
    requires k <= 9
    ensures RowTotal(RemoveOption(b, row, column, value), r, k) ==
      RowTotal(b, r, k) - (if r == row && 0 <= column < k && value in CellOptions(b, row, column) then 1 else 0)
  {
    if k > 0 {
      RowTotalRemove(b, row, column, value, r, k - 1);
      CellOptionsAfterRemove(b, row, column, value, r, k - 1);
    }
  }

  lemma {:induction false} GridTotalRemove(b: Board, row: int, column: int, value: int, k: nat)
    requires k <= 9 && InRange(column)
    ensures GridTotal(RemoveOption(b, row, column, value), k) ==
      GridTotal(b, k) - (if 0 <= row < k && value in CellOptions(b, row, column) then 1 else 0)
  {
    if k > 0 {
      GridTotalRemove(b, row, column, value, k - 1);
      RowTotalRemove(b, row, column, value, k - 1, |b.field[k - 1]|);
    }
  }

  /**
   * Dropping a candidate lowers the candidate total by one; dropping a
   * digit that is no candidate leaves it as it was.
   */
  lemma TotalOptionsRemove(b: Board, row: int, column: int, value: int)
    requires InRange(row) && InRange(column)
    ensures TotalOptions(RemoveOption(b, row, column, value)) ==
      TotalOptions(b) - (if value in CellOptions(b, row, column) then 1 else 0)
  {
    GridTotalRemove(b, row, column, value, |b.field|);
  }

  /** A position `getBestEmptyPosition` returns is an empty cell. */
  lemma BestIsEmpty(b: Board, r: Result<Option<Position>>)
    requires BestOutcome(b, r) && r.Success? && r.value.Some?
    ensures EmptyCell(b, r.value.value)
  {
  }

  /** When `getBestEmptyPosition` finds no position, some empty cell has no candidates. */
  lemma BestNoneStuck(b: Board) returns (p: Position)
    requires BestOutcome(b, Success(None))
    ensures EmptyCell(b, p) && CellOptions(b, p.row, p.column) == {}
  {
    p :| FirstDecisive(b, p) && Count(b, p) == 0;
  }

  /** When the field has an empty cell, `getBestEmptyPosition` does not fail. */
  lemma BestSucceeds(b: Board, r: Result<Option<Position>>)
    requires BestOutcome(b, r) && Invariant(b) && b.remainingEmptyCells != 0
    ensures r.Success?
  {
    SomeEmptyCell(b);
  }

  /** A field whose cached count of empty cells is positive has an empty cell. */
  lemma SomeEmptyCell(b: Board)
    requires Invariant(b) && b.remainingEmptyCells != 0
    ensures exists p: Position :: EmptyCell(b, p)
  {
    CountEmptyBounds(b.field);
    var r, c :| 0 <= r < 9 && 0 <= c < 9 && b.field[r][c] == EMPTY;
    assert EmptyCell(b, SudokuPosition(r, c));
  }

  /** No two of the cells `(r, 0)` .. `(r, k - 1)` hold the same positive digit. */
  ghost predicate RowDistinct(g: Grid, r: int, k: int)
    requires InRange(r) && 0 <= k <= 9
  {
    forall c1, c2 | 0 <= c1 < c2 < k && g[r][c1] > EMPTY :: g[r][c1] != g[r][c2]
  }

  /** No two of the cells `(0, c)` .. `(k - 1, c)` hold the same positive digit. */
  ghost predicate ColumnDistinct(g: Grid, c: int, k: int)
    requires InRange(c) && 0 <= k <= 9
  {
    forall r1, r2 | 0 <= r1 < r2 < k && g[r1][c] > EMPTY :: g[r1][c] != g[r2][c]
  }

  /** What `isValid` checks: no row and no column repeats a digit. Sectors are not looked at. */
  ghost predicate RowsColumnsDistinct(g: Grid)
  {
    (forall r | 0 <= r < 9 :: RowDistinct(g, r, 9)) && (forall c | 0 <= c < 9 :: ColumnDistinct(g, c, 9))
  }

  /** Every cell holds a positive number. */
  ghost predicate AllPositive(g: Grid)
  {
    forall r, c | 0 <= r < 9 && 0 <= c < 9 :: g[r][c] > EMPTY
  }

  /** Some cell `(r, 0)` .. `(r, k - 1)` holds `v`. */
  ghost predicate RowHas(g: Grid, r: int, k: int, v: int)
    requires InRange(r) && 0 <= k <= 9
  {
    exists c | 0 <= c < k :: g[r][c] == v
  }

  /** Some cell `(0, c)` .. `(k - 1, c)` holds `v`. */
  ghost predicate ColumnHas(g: Grid, c: int, k: int, v: int)
    requires InRange(c) && 0 <= k <= 9
  {
    exists r | 0 <= r < k :: g[r][c] == v
  }

  /** Every column is free of repeats among its first `k` cells. */
  ghost predicate ColumnsDistinct(g: Grid, k: int)
    requires 0 <= k <= 9
  {
    forall c | 0 <= c < 9 :: ColumnDistinct(g, c, k)
  }

  /**
   * The columns once the cells `(row, 0)` .. `(row, column - 1)` are
   * scanned too: columns left of `column` are free of repeats down to
   * `row` inclusive, the others down to `row` exclusive.
   */
  ghost predicate ColumnsScanned(g: Grid, row: int, column: int)
    requires InRange(row) && 0 <= column <= 9
  {
    forall c | 0 <= c < 9 :: ColumnDistinct(g, c, ScanDepth(row, column, c))
  }

  /** How many cells of column `c` are scanned once the scan reaches `(row, column)`. */
  function ScanDepth(row: int, column: int, c: int): int
  {
    if c < column then row + 1 else row
  }

  /** Some scanned cell of column `c` holds `v`. */
  ghost predicate ColumnSeen(g: Grid, row: int, column: int, c: int, v: int)
    requires InRange(row) && 0 <= column <= 9 && InRange(c)
  {
    0 <= ScanDepth(row, column, c) <= 9 && ColumnHas(g, c, ScanDepth(row, column, c), v)
  }

  /** Scanning cell `(row, column)` keeps its column free of repeats unless the digit was seen above. */
  lemma ColumnsScannedStep(g: Grid, row: int, column: int)
    requires InRange(row) && InRange(column) && ColumnsScanned(g, row, column)
    requires g[row][column] > EMPTY ==> !ColumnHas(g, column, row, g[row][column])
    ensures ColumnsScanned(g, row, column + 1)
  {
    var next := column + 1;
    forall c | 0 <= c < 9 ensures ColumnDistinct(g, c, ScanDepth(row, next, c)) {
      assert ColumnDistinct(g, c, ScanDepth(row, column, c));
      if c == column {
        ColumnDistinctStep(g, c, row);
      }
    }
  }

  /** Before a row is scanned its columns are checked down to it; after, down to the next. */
  lemma ColumnsScannedBounds(g: Grid, row: int)
    requires InRange(row)
    ensures ColumnsScanned(g, row, 0) <==> ColumnsDistinct(g, row)
    ensures ColumnsScanned(g, row, 9) <==> ColumnsDistinct(g, row + 1)
  {
    if ColumnsScanned(g, row, 0) {
      forall c | 0 <= c < 9 ensures ColumnDistinct(g, c, row) {
        assert ColumnDistinct(g, c, ScanDepth(row, 0, c));
      }
    }
    if ColumnsDistinct(g, row) {
      forall c | 0 <= c < 9 ensures ColumnDistinct(g, c, ScanDepth(row, 0, c)) {
        assert ColumnDistinct(g, c, row);
      }
    }
    var below := row + 1;
    if ColumnsScanned(g, row, 9) {
      forall c | 0 <= c < 9 ensures ColumnDistinct(g, c, below) {
        assert ColumnDistinct(g, c, ScanDepth(row, 9, c));
      }
    }
    if ColumnsDistinct(g, below) {
      forall c | 0 <= c < 9 ensures ColumnDistinct(g, c, ScanDepth(row, 9, c)) {
        assert ColumnDistinct(g, c, below);
      }
    }
  }

  lemma ColumnSeenStep(g: Grid, row: int, column: int)
    requires InRange(row) && InRange(column)
    ensures forall c, v | InRange(c) :: ColumnSeen(g, row, column + 1, c, v) <==>
      ColumnSeen(g, row, column, c, v) || (c == column && g[row][column] == v)
  {
    ColumnHasStep(g, column, row, row + 1);
  }

  /** `next` is `k + 1`, passed separately to keep the quantifier triggerable. */
  lemma RowHasStep(g: Grid, r: int, k: int, next: int)
    requires InRange(r) && 0 <= k < 9 && next == k + 1
    ensures forall v :: RowHas(g, r, next, v) <==> RowHas(g, r, k, v) || g[r][k] == v
  {
    forall v | RowHas(g, r, next, v) && g[r][k] != v ensures RowHas(g, r, k, v) {
      var c :| 0 <= c < next && g[r][c] == v;
      assert c < k;
    }
  }

  lemma ColumnHasStep(g: Grid, c: int, k: int, next: int)
    requires InRange(c) && 0 <= k < 9 && next == k + 1
    ensures forall v :: ColumnHas(g, c, next, v) <==> ColumnHas(g, c, k, v) || g[k][c] == v
  {
    forall v | ColumnHas(g, c, next, v) && g[k][c] != v ensures ColumnHas(g, c, k, v) {
      var r :| 0 <= r < next && g[r][c] == v;
      assert r < k;
    }
  }

  lemma RowDistinctStep(g: Grid, r: int, k: int)
    requires InRange(r) && 0 <= k < 9 && RowDistinct(g, r, k)
    requires g[r][k] > EMPTY ==> !RowHas(g, r, k, g[r][k])
    ensures RowDistinct(g, r, k + 1)
  {
    forall c1, c2 | 0 <= c1 < c2 < k + 1 && g[r][c1] > EMPTY ensures g[r][c1] != g[r][c2] {
    }
  }

  /** One more cell of column `c` keeps it free of repeats unless its digit was seen above. */
  lemma ColumnDistinctStep(g: Grid, c: int, k: int)
    requires InRange(c) && 0 <= k < 9 && ColumnDistinct(g, c, k)
    requires g[k][c] > EMPTY ==> !ColumnHas(g, c, k, g[k][c])
    ensures ColumnDistinct(g, c, k + 1)
  {
    forall r1, r2 | 0 <= r1 < r2 < k + 1 && g[r1][c] > EMPTY ensures g[r1][c] != g[r2][c] {
    }
  }

  /** A digit met a second time in a row fails the check. */
  lemma RowRepeatFails(g: Grid, row: int, column: int, v: int)
    requires InRange(row) && InRange(column) && v > EMPTY && g[row][column] == v && RowHas(g, row, column, v)
    ensures !RowsColumnsDistinct(g)
  {
    var c :| 0 <= c < column && g[row][c] == v;
    assert !RowDistinct(g, row, 9);
  }

  /** A digit met a second time in a column fails the check. */
  lemma ColumnRepeatFails(g: Grid, row: int, column: int, v: int)
    requires InRange(row) && InRange(column) && v > EMPTY && g[row][column] == v && ColumnHas(g, column, row, v)
    ensures !RowsColumnsDistinct(g)
  {
    var r :| 0 <= r < row && g[r][column] == v;
    assert !ColumnDistinct(g, column, 9);
  }

  /** A field without clashes passes `isValid`. */
  lemma NoClashRowsColumnsDistinct(g: Grid)
    requires NoClash(g)
    ensures RowsColumnsDistinct(g)
  {
    forall r | 0 <= r < 9 ensures RowDistinct(g, r, 9) {
      forall c1, c2 | 0 <= c1 < c2 < 9 && g[r][c1] > EMPTY ensures g[r][c1] != g[r][c2] {
        assert Peer(r, c1, r, c2);
      }
    }
    forall c | 0 <= c < 9 ensures ColumnDistinct(g, c, 9) {
      forall r1, r2 | 0 <= r1 < r2 < 9 && g[r1][c] > EMPTY ensures g[r1][c] != g[r2][c] {
        assert Peer(r1, c, r2, c);
      }
    }
  }

  /** A field whose only two digits are 1 at (0, 0) and at (1, 1). */
  function SectorClash(): Grid
  {
    [[1, 0, 0, 0, 0, 0, 0, 0, 0], [0, 1, 0, 0, 0, 0, 0, 0, 0]] + seq(7, _ => EMPTY_ROW)
  }

  /**
   * `isValid` does not look at sectors: two equal digits in one sector
   * pass it, although they clash.
   */
  lemma SectorsNotChecked()
    ensures RowsColumnsDistinct(SectorClash()) && !NoClash(SectorClash())
  {
    var g := SectorClash();
    assert Peer(0, 0, 1, 1) && g[0][0] == g[1][1] == 1;
    assert forall r, c | 0 <= r < 9 && 0 <= c < 9 && g[r][c] > EMPTY :: r == c && r < 2;
  }
}
