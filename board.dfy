/**
 * The state of a Sudoku field as a value: the digits, the candidate digits
 * of every cell and the cached number of empty cells. `Place` and
 * `RemoveOption` are the two updates the program performs; the lemmas state
 * what they do cell by cell and which invariants they keep.
 */
module Boards {
  import opened Wrappers
  import opened Positions
  import opened Sectors

  /** Number of cells of the field. */
  const CELLS := 81
  /** The digit stored in an empty cell. */
  const EMPTY := 0
  /** Largest digit, also the side length of the field. */
  const MAX := 9
  /** Smallest digit. */
  const MIN := 1

  /** A row of nine digits. */
  type Row = s: seq<int> | |s| == 9 witness seq(9, _ => 0)
  /** Nine rows: the digits of the whole field. */
  type Grid = g: seq<Row> | |g| == 9 witness seq(9, _ => EMPTY_ROW)

  const EMPTY_ROW: Row := seq(9, _ => EMPTY)

  /**
   * `field[r][c]` is the digit of a cell (0 when empty), `(r, c, v)` is in
   * `options` while digit `v` is still considered for cell `(r, c)`, and
   * `remainingEmptyCells` is the cached number of empty cells. The per-cell
   * option counts the program also caches are the sizes of `CellOptions`.
   */
  datatype Board = Board(field: Grid, options: set<(int, int, int)>, remainingEmptyCells: int)

  /** The digits still considered for one cell. */
  function CellOptions(b: Board, row: int, column: int): set<int>
  {
    set v | 1 <= v <= 9 && (row, column, v) in b.options
  }

  /** Two cells share a row, a column or a 3x3 block (a cell is its own peer). */
  predicate Peer(row1: int, column1: int, row2: int, column2: int)
  {
    row1 == row2 || column1 == column2 || SameBlock(row1, column1, row2, column2)
  }

  /** Every cell holds 0 or a digit 1..9. */
  predicate Digits(g: Grid)
  {
    forall r, c | 0 <= r < 9 && 0 <= c < 9 :: 0 <= g[r][c] <= 9
  }

  /** No cell holds more than 9. */
  predicate AtMostNine(g: Grid)
  {
    forall r, c | 0 <= r < 9 && 0 <= c < 9 :: g[r][c] <= 9
  }

  /** Number of zeros in a row. */
  function RowZeros(s: seq<int>): nat
  {
    if |s| == 0 then 0 else RowZeros(s[..|s| - 1]) + (if s[|s| - 1] == EMPTY then 1 else 0)
  }

  /** Number of empty cells of a grid. */
  function CountEmpty(g: seq<seq<int>>): nat
  {
    if |g| == 0 then 0 else CountEmpty(g[..|g| - 1]) + RowZeros(g[|g| - 1])
  }

  /**
   * What the program keeps true between operations: digits in range, the
   * cached empty count is right, only empty cells have candidates, every
   * candidate is a digit and no candidate repeats a digit placed in a peer.
   */
  ghost predicate Invariant(b: Board)
  {
    Digits(b.field) &&
    b.remainingEmptyCells == CountEmpty(b.field) &&
    (forall r, c, v | (r, c, v) in b.options :: InRange(r) && InRange(c) && 1 <= v <= 9 && b.field[r][c] == EMPTY) &&
    (forall r1, c1, r2, c2 | 0 <= r1 < 9 && 0 <= c1 < 9 && 0 <= r2 < 9 && 0 <= c2 < 9 &&
        Peer(r1, c1, r2, c2) :: (r1, c1, b.field[r2][c2]) !in b.options)
  }

  /** Every candidate names a cell of the field and a digit. */
  ghost predicate OptionsInRange(b: Board)
  {
    forall r, c, v | (r, c, v) in b.options :: InRange(r) && InRange(c) && 1 <= v <= 9
  }

  /** The candidate `value` of one cell is dropped. */
  function RemoveOption(b: Board, row: int, column: int, value: int): (r: Board)
    ensures r.field == b.field && r.remainingEmptyCells == b.remainingEmptyCells
    ensures r.options == b.options - {(row, column, value)}
  {
    b.(options := b.options - {(row, column, value)})
  }

  /** Row of the cell numbered `i` inside the block of `row`. */
  function BlockRow(row: int, i: int): (r: int)
    requires InRange(row) && InRange(i)
    ensures InRange(r)
  {
    (row / 3) * 3 + i / 3
  }

  /** Column of the cell numbered `i` inside the block of `column`. */
  function BlockColumn(column: int, i: int): (r: int)
    requires InRange(column) && InRange(i)
    ensures InRange(r)
  {
    (column / 3) * 3 + i % 3
  }

  /** Round `k` of the clearing loop: cell k of the column, of the row, of the block. */
  function ClearRound(b: Board, row: int, column: int, value: int, k: int): (r: Board)
    requires InRange(row) && InRange(column) && InRange(k)
  {
    RemoveOption(RemoveOption(RemoveOption(b, k, column, value), row, k, value),
                 BlockRow(row, k), BlockColumn(column, k), value)
  }

  /**
   * The first `i` rounds of the clearing loop of `setValue`: round `k`
   * drops `value` from cell k of the column, of the row and of the block.
   */
  function ClearUnits(b: Board, row: int, column: int, value: int, i: int): (r: Board)
    requires InRange(row) && InRange(column) && 0 <= i <= 9
    ensures r.field == b.field && r.remainingEmptyCells == b.remainingEmptyCells
    ensures r.options <= b.options
    decreases i
  {
    if i == 0 then b else ClearRound(ClearUnits(b, row, column, value, i - 1), row, column, value, i - 1)
  }

  /** The state `setValue` reaches before its clearing loop: digit stored, the cell's candidates gone. */
  function Filled(b: Board, row: int, column: int, value: int): (r: Board)
    requires InRange(row) && InRange(column)
  {
    Board(b.field[row := b.field[row][column := value]],
          (set t | t in b.options && (t.0 != row || t.1 != column)),
          b.remainingEmptyCells - 1)
  }

  /**
   * `setValue`: store the digit; a digit 1..9 also counts one empty cell
   * less, clears the cell's candidates and runs the clearing loop.
   */
  function Place(b: Board, row: int, column: int, value: int): (r: Board)
    requires InRange(row) && InRange(column)
  {
    if value <= EMPTY then b.(field := b.field[row := b.field[row][column := value]])
    // the length rather than the literal 9 keeps the solver from unrolling the loop
    else ClearUnits(Filled(b, row, column, value), row, column, value, |b.field|)
  }

  /** The three cells round `k` of the clearing loop visits. */
  function Round(row: int, column: int, k: int): set<(int, int)>
    requires InRange(row) && InRange(column) && InRange(k)
  {
    {(k, column), (row, k), (BlockRow(row, k), BlockColumn(column, k))}
  }

  /** The cells the first `i` rounds of the clearing loop have visited. */
  function Swept(row: int, column: int, i: int): set<(int, int)>
    requires InRange(row) && InRange(column) && 0 <= i <= 9
  {
    if i == 0 then {} else Swept(row, column, i - 1) + Round(row, column, i - 1)
  }

  /** The block cell numbered `k` is the cell of the same block whose number inside it is `k`. */
  lemma BlockCell(x: int, y: int, row: int, column: int, k: int)
    requires InRange(x) && InRange(y) && InRange(row) && InRange(column) && InRange(k)
    ensures (x == BlockRow(row, k) && y == BlockColumn(column, k)) <==>
      (SameBlock(x, y, row, column) && (x % 3) * 3 + y % 3 == k)
  {
    if SameBlock(x, y, row, column) && (x % 3) * 3 + y % 3 == k {
      assert k / 3 == x % 3 && k % 3 == y % 3;
    }
  }

  /** Every round before `i` is part of what the first `i` rounds visit. */
  lemma {:induction false} SweptHas(row: int, column: int, i: int, k: int)
    requires InRange(row) && InRange(column) && 0 <= k < i <= 9
    ensures Round(row, column, k) <= Swept(row, column, i)
    decreases i
  {
    if k < i - 1 {
      SweptHas(row, column, i - 1, k);
    }
  }

  /** A cell visited by the first `i` rounds is visited by one of them. */
  lemma {:induction false} SweptFrom(row: int, column: int, i: int, x: int, y: int) returns (k: int)
    requires InRange(row) && InRange(column) && 0 <= i <= 9
    requires (x, y) in Swept(row, column, i)
    ensures 0 <= k < i && (x, y) in Round(row, column, k)
    decreases i
  {
    if (x, y) in Round(row, column, i - 1) {
      k := i - 1;
    } else {
      k := SweptFrom(row, column, i - 1, x, y);
    }
  }

  /** After all nine rounds the visited cells are exactly the peers. */
  lemma SweptAll(x: int, y: int, row: int, column: int)
    requires InRange(x) && InRange(y) && InRange(row) && InRange(column)
    ensures (x, y) in Swept(row, column, 9) <==> Peer(x, y, row, column)
  {
    if (x, y) in Swept(row, column, 9) {
      var k := SweptFrom(row, column, 9, x, y);
      BlockCell(x, y, row, column, k);
    }
    if Peer(x, y, row, column) {
      var k := if y == column then x else if x == row then y else (x % 3) * 3 + y % 3;
      BlockCell(x, y, row, column, k);
      SweptHas(row, column, 9, k);
    }
  }

  /** Candidate by candidate, `i` rounds drop `value` exactly from the visited cells. */
  lemma {:induction false} ClearUnitsAt(b: Board, row: int, column: int, value: int, i: int, x: int, y: int, d: int)
    requires InRange(row) && InRange(column) && 0 <= i <= 9
    ensures (x, y, d) in ClearUnits(b, row, column, value, i).options <==>
      (x, y, d) in b.options && !(d == value && (x, y) in Swept(row, column, i))
    decreases i
  {
    if i > 0 {
      ClearUnitsAt(b, row, column, value, i - 1, x, y, d);
    }
  }

  /**
   * What `setValue` does with a digit 1..9, candidate by candidate: the
   * digit is stored, the cell loses all candidates, every other peer loses
   * the candidate `value`, nothing else changes.
   */
  lemma PlaceAt(b: Board, row: int, column: int, value: int, x: int, y: int, d: int)
    requires InRange(row) && InRange(column) && InRange(x) && InRange(y) && 1 <= value <= 9
    ensures Place(b, row, column, value).field == b.field[row := b.field[row][column := value]]
    ensures Place(b, row, column, value).remainingEmptyCells == b.remainingEmptyCells - 1
    ensures (x, y, d) in Place(b, row, column, value).options <==>
      !(x == row && y == column) && (x, y, d) in b.options && !(d == value && Peer(x, y, row, column))
  {
    ClearUnitsAt(Filled(b, row, column, value), row, column, value, 9, x, y, d);
    SweptAll(x, y, row, column);
  }

  /** Changing one entry of a row changes its zero count accordingly. */
  lemma {:induction false} RowZerosUpdate(s: seq<int>, c: int, v: int)
    requires 0 <= c < |s|
    ensures RowZeros(s[c := v]) ==
      RowZeros(s) - (if s[c] == EMPTY then 1 else 0) + (if v == EMPTY then 1 else 0)
    decreases |s|
  {
    var t := s[c := v];
    if c < |s| - 1 {
      assert t[..|t| - 1] == s[..|s| - 1][c := v];
      RowZerosUpdate(s[..|s| - 1], c, v);
    } else {
      assert t[..|t| - 1] == s[..|s| - 1];
    }
  }

  /** Changing one row of a grid changes its empty count accordingly. */
  lemma {:induction false} CountEmptyUpdate(g: seq<seq<int>>, r: int, row: seq<int>)
    requires 0 <= r < |g|
    ensures CountEmpty(g[r := row]) == CountEmpty(g) - RowZeros(g[r]) + RowZeros(row)
    decreases |g|
  {
    var h := g[r := row];
    if r < |g| - 1 {
      assert h[..|h| - 1] == g[..|g| - 1][r := row];
      CountEmptyUpdate(g[..|g| - 1], r, row);
    } else {
      assert h[..|h| - 1] == g[..|g| - 1];
    }
  }

  /** Filling an empty cell with a digit leaves one empty cell less. */
  lemma FillCountsDown(g: Grid, row: int, column: int, value: int)
    requires InRange(row) && InRange(column) && g[row][column] == EMPTY && value != EMPTY
    ensures CountEmpty(g[row := g[row][column := value]]) == CountEmpty(g) - 1
  {
    RowZerosUpdate(g[row], column, value);
    CountEmptyUpdate(g, row, g[row][column := value]);
  }

  /** The digits after `setValue`: only the one cell changes. */
  lemma PlaceField(b: Board, row: int, column: int, value: int)
    requires InRange(row) && InRange(column)
    ensures Place(b, row, column, value).field == b.field[row := b.field[row][column := value]]
    ensures value > EMPTY ==> Place(b, row, column, value).remainingEmptyCells == b.remainingEmptyCells - 1
    ensures value <= EMPTY ==> Place(b, row, column, value).options == b.options
    ensures value <= EMPTY ==> Place(b, row, column, value).remainingEmptyCells == b.remainingEmptyCells
    ensures Place(b, row, column, value).options <= b.options
  {
  }

  /**
   * `setValue` on an empty cell keeps the invariant: the count of empty
   * cells stays right and the new digit is no longer a candidate anywhere
   * in its row, column or block.
   */
  lemma PlaceKeepsInvariant(b: Board, row: int, column: int, value: int)
    requires Invariant(b) && InRange(row) && InRange(column) && b.field[row][column] == EMPTY
    requires 0 <= value <= 9
    ensures Invariant(Place(b, row, column, value))
  {
    var r := Place(b, row, column, value);
    PlaceField(b, row, column, value);
    if value == EMPTY {
      assert b.field[row][column := value] == b.field[row];
      assert r.field == b.field;
    } else {
      FillCountsDown(b.field, row, column, value);
      PlaceOptionsOnEmpty(b, row, column, value);
      PlaceClearsPeers(b, row, column, value);
    }
  }

  /** After `setValue` with a digit, candidates remain only on empty cells. */
  lemma PlaceOptionsOnEmpty(b: Board, row: int, column: int, value: int)
    requires Invariant(b) && InRange(row) && InRange(column) && 1 <= value <= 9
    ensures forall x, y, d | (x, y, d) in Place(b, row, column, value).options ::
      InRange(x) && InRange(y) && 1 <= d <= 9 && Place(b, row, column, value).field[x][y] == EMPTY
  {
    var r := Place(b, row, column, value);
    PlaceField(b, row, column, value);
    forall x, y, d | (x, y, d) in r.options
      ensures InRange(x) && InRange(y) && 1 <= d <= 9 && r.field[x][y] == EMPTY
    {
      assert (x, y, d) in b.options;
      PlaceAt(b, row, column, value, x, y, d);
    }
  }

  /** After `setValue` with a digit, no cell has a peer's digit as candidate. */
  lemma PlaceClearsPeers(b: Board, row: int, column: int, value: int)
    requires Invariant(b) && InRange(row) && InRange(column) && 1 <= value <= 9
    ensures forall r1, c1, r2, c2 | 0 <= r1 < 9 && 0 <= c1 < 9 && 0 <= r2 < 9 && 0 <= c2 < 9 &&
      Peer(r1, c1, r2, c2) :: (r1, c1, Place(b, row, column, value).field[r2][c2]) !in Place(b, row, column, value).options
  {
    var r := Place(b, row, column, value);
    PlaceField(b, row, column, value);
    forall r1, c1, r2, c2 | 0 <= r1 < 9 && 0 <= c1 < 9 && 0 <= r2 < 9 && 0 <= c2 < 9 && Peer(r1, c1, r2, c2)
      ensures (r1, c1, r.field[r2][c2]) !in r.options
    {
      if r2 == row && c2 == column {
        PlaceAt(b, row, column, value, r1, c1, value);
      } else {
        assert r.field[r2][c2] == b.field[r2][c2];
      }
    }
  }

  /** Dropping a candidate keeps the invariant. */
  lemma RemoveOptionKeepsInvariant(b: Board, row: int, column: int, value: int)
    requires Invariant(b)
    ensures Invariant(RemoveOption(b, row, column, value))
  {
  }

  /** Dropping a candidate twice is dropping it once. */
  lemma RemoveOptionIdempotent(b: Board, row: int, column: int, value: int)
    ensures RemoveOption(RemoveOption(b, row, column, value), row, column, value) == RemoveOption(b, row, column, value)
  {
  }

  /** No two distinct peer cells hold the same digit. */
  ghost predicate NoClash(g: Grid)
  {
    forall r1, c1, r2, c2 | 0 <= r1 < 9 && 0 <= c1 < 9 && 0 <= r2 < 9 && 0 <= c2 < 9 &&
      (r1 != r2 || c1 != c2) && Peer(r1, c1, r2, c2) && g[r1][c1] != EMPTY :: g[r1][c1] != g[r2][c2]
  }

  /** Every cell holds a digit. */
  ghost predicate Full(g: Grid)
  {
    forall r, c | 0 <= r < 9 && 0 <= c < 9 :: g[r][c] != EMPTY
  }

  /** `s` keeps every digit already placed in `g`. */
  ghost predicate Extends(s: Grid, g: Grid)
  {
    forall r, c | 0 <= r < 9 && 0 <= c < 9 && g[r][c] != EMPTY :: s[r][c] == g[r][c]
  }

  /** `s` is a solution of the puzzle `g`. */
  ghost predicate Solves(s: Grid, g: Grid)
  {
    Digits(s) && Full(s) && NoClash(s) && Extends(s, g)
  }

  ghost predicate HasSolution(g: Grid)
  {
    exists s: Grid :: Solves(s, g)
  }

  /**
   * No solution is lost by the candidates: in every solution, the digit of
   * each empty cell is still a candidate there.
   */
  ghost predicate Complete(b: Board)
  {
    forall s: Grid, r, c | Solves(s, b.field) && 0 <= r < 9 && 0 <= c < 9 && b.field[r][c] == EMPTY ::
      (r, c, s[r][c]) in b.options
  }

  /** Placing a candidate digit never puts two equal digits in peer cells. */
  lemma PlaceCandidateNoClash(b: Board, row: int, column: int, value: int)
    requires Invariant(b) && NoClash(b.field) && InRange(row) && InRange(column)
    requires value in CellOptions(b, row, column)
    ensures NoClash(Place(b, row, column, value).field)
  {
    var g := Place(b, row, column, value).field;
    PlaceField(b, row, column, value);
    forall r1, c1, r2, c2 | 0 <= r1 < 9 && 0 <= c1 < 9 && 0 <= r2 < 9 && 0 <= c2 < 9 &&
      (r1 != r2 || c1 != c2) && Peer(r1, c1, r2, c2) && g[r1][c1] != EMPTY
      ensures g[r1][c1] != g[r2][c2]
    {
      if r1 == row && c1 == column {
        assert (row, column, b.field[r2][c2]) !in b.options;
      } else if r2 == row && c2 == column {
        assert Peer(r2, c2, r1, c1);
        assert (row, column, b.field[r1][c1]) !in b.options;
      }
    }
  }

  /** Placing a digit on an empty cell loses no solution of the new puzzle. */
  lemma PlaceKeepsComplete(b: Board, row: int, column: int, value: int)
    requires Invariant(b) && Complete(b) && InRange(row) && InRange(column)
    requires b.field[row][column] == EMPTY && 1 <= value <= 9
    ensures Complete(Place(b, row, column, value))
  {
    var p := Place(b, row, column, value);
    PlaceField(b, row, column, value);
    forall s: Grid, r, c | Solves(s, p.field) && 0 <= r < 9 && 0 <= c < 9 && p.field[r][c] == EMPTY
      ensures (r, c, s[r][c]) in p.options
    {
      assert Solves(s, b.field);
      assert (r, c, s[r][c]) in b.options;
      PlaceAt(b, row, column, value, r, c, s[r][c]);
      assert s[row][column] == value;
    }
  }

  /**
   * When placing `value` leads to no solution, dropping that candidate
   * loses no solution either: this is the backtracking step.
   */
  lemma RefutedKeepsComplete(b: Board, row: int, column: int, value: int)
    requires Complete(b) && InRange(row) && InRange(column) && b.field[row][column] == EMPTY
    requires !HasSolution(Place(b, row, column, value).field)
    ensures Complete(RemoveOption(b, row, column, value))
  {
    var q := RemoveOption(b, row, column, value);
    var g := Place(b, row, column, value).field;
    PlaceField(b, row, column, value);
    forall s: Grid, r, c | Solves(s, q.field) && 0 <= r < 9 && 0 <= c < 9 && q.field[r][c] == EMPTY
      ensures (r, c, s[r][c]) in q.options
    {
      if r == row && c == column && s[r][c] == value {
        assert Solves(s, g);
        assert false;
      }
    }
  }

  /**
   * While the puzzle has a solution, every empty cell keeps a candidate;
   * so an empty cell without candidates means there is no solution.
   */
  lemma SolvableHasCandidates(b: Board, row: int, column: int)
    requires Complete(b) && InRange(row) && InRange(column) && b.field[row][column] == EMPTY
    requires HasSolution(b.field)
    ensures CellOptions(b, row, column) != {}
  {
    var s: Grid :| Solves(s, b.field);
    assert s[row][column] in CellOptions(b, row, column);
  }

  /** An empty cell without candidates leaves the puzzle without a solution. */
  lemma StuckUnsolvable(b: Board, row: int, column: int)
    requires Complete(b) && InRange(row) && InRange(column) && b.field[row][column] == EMPTY
    requires CellOptions(b, row, column) == {}
    ensures !HasSolution(b.field)
  {
    forall v | 1 <= v <= 9 ensures (row, column, v) !in b.options {
      assert v !in CellOptions(b, row, column);
    }
  }

  /** A digit placed on an empty cell keeps every digit already there. */
  lemma PlaceExtends(b: Board, row: int, column: int, value: int)
    requires InRange(row) && InRange(column) && b.field[row][column] == EMPTY
    ensures Extends(Place(b, row, column, value).field, b.field)
  {
    PlaceField(b, row, column, value);
  }

  /** Copying a digit of `s` into a field that `s` extends keeps `s` extending it. */
  lemma PlaceFromExtends(s: Grid, b: Board, row: int, column: int)
    requires InRange(row) && InRange(column) && Extends(s, b.field)
    ensures Extends(s, Place(b, row, column, s[row][column]).field)
  {
    PlaceField(b, row, column, s[row][column]);
  }

  /** A full field without clashes is its own solution. */
  lemma FullSolvesItself(g: Grid)
    requires Digits(g) && Full(g) && NoClash(g)
    ensures Solves(g, g) && HasSolution(g)
  {
    assert Solves(g, g);
  }

  /** Solutions of a puzzle that extends `g` are solutions of `g`. */
  lemma ExtendsTransitive(s: Grid, h: Grid, g: Grid)
    requires Extends(s, h) && Extends(h, g)
    ensures Extends(s, g)
  {
  }

  /** How far row `r` of a fixed solved field is shifted: three per row of a band, one per band. */
  function Shift(r: int): int
    requires InRange(r)
  {
    [0, 3, 6, 1, 4, 7, 2, 5, 8][r]
  }

  /** Digit of cell `(r, c)` of that field: the digits 1..9, rotated left by `Shift(r)`. */
  function PatternDigit(r: int, c: int): int
    requires InRange(r) && InRange(c)
  {
    if Shift(r) + c < 9 then Shift(r) + c + 1 else Shift(r) + c - 8
  }

  function PatternGrid(): Grid
  {
    seq(9, r requires 0 <= r < 9 => seq(9, c requires 0 <= c < 9 => PatternDigit(r, c)))
  }

  lemma PatternDistinct(r1: int, c1: int, r2: int, c2: int)
    requires InRange(r1) && InRange(c1) && InRange(r2) && InRange(c2)
    requires (r1 != r2 || c1 != c2) && Peer(r1, c1, r2, c2)
    ensures PatternDigit(r1, c1) != PatternDigit(r2, c2)
  {
    if r1 != r2 && c1 != c2 {
      assert r1 / 3 == r2 / 3 && c1 / 3 == c2 / 3;
    }
  }

  /** The puzzle without any digit has a solution, so generating from an empty field cannot fail. */
  lemma EmptyGridSolvable()
    ensures Solves(PatternGrid(), EmptyGrid()) && HasSolution(EmptyGrid())
  {
    var g := PatternGrid();
    forall r1, c1, r2, c2 | 0 <= r1 < 9 && 0 <= c1 < 9 && 0 <= r2 < 9 && 0 <= c2 < 9 &&
      (r1 != r2 || c1 != c2) && Peer(r1, c1, r2, c2) && g[r1][c1] != EMPTY
      ensures g[r1][c1] != g[r2][c2]
    {
      PatternDistinct(r1, c1, r2, c2);
    }
  }

  /** Every candidate triple of the empty field: all digits on all cells. */
  const ALL_OPTIONS: set<(int, int, int)> :=
    set r, c, v | 0 <= r < 9 && 0 <= c < 9 && 1 <= v <= 9 :: (r, c, v)

  /** The digits of a new field: every cell empty. */
  function EmptyGrid(): (g: Grid)
    ensures forall r, c | 0 <= r < 9 && 0 <= c < 9 :: g[r][c] == EMPTY
  {
    seq(9, _ => EMPTY_ROW)
  }

  /** The state of a new, empty field. */
  function EmptyBoard(): (b: Board)
    ensures forall r, c | 0 <= r < 9 && 0 <= c < 9 :: b.field[r][c] == EMPTY
  {
    Board(EmptyGrid(), ALL_OPTIONS, CELLS)
  }

  lemma {:induction false} RowZerosAllEmpty(s: seq<int>)
    requires forall i | 0 <= i < |s| :: s[i] == EMPTY
    ensures RowZeros(s) == |s|
    decreases |s|
  {
    if |s| > 0 {
      RowZerosAllEmpty(s[..|s| - 1]);
    }
  }

  lemma {:induction false} CountEmptyAllEmpty(g: seq<seq<int>>)
    requires forall i | 0 <= i < |g| :: g[i] == EMPTY_ROW
    ensures CountEmpty(g) == 9 * |g|
    decreases |g|
  {
    if |g| > 0 {
      CountEmptyAllEmpty(g[..|g| - 1]);
      RowZerosAllEmpty(EMPTY_ROW);
    }
  }

  /** The candidate triples of the empty field are exactly the in-range ones. */
  lemma AllOptionsAt(x: int, y: int, d: int)
    ensures (x, y, d) in ALL_OPTIONS <==> InRange(x) && InRange(y) && 1 <= d <= 9
  {
    if InRange(x) && InRange(y) && 1 <= d <= 9 {
      assert (x, y, d) == (x, y, d);
    }
  }

  /** The nine digits. */
  const ALL_DIGITS: set<int> := {1, 2, 3, 4, 5, 6, 7, 8, 9}

  lemma AllDigitsAt(v: int)
    ensures v in ALL_DIGITS <==> 1 <= v <= 9
  {
  }

  lemma AllDigitsSize()
    ensures |ALL_DIGITS| == 9
  {
  }

  /** Every digit is a candidate of every cell of the empty field. */
  lemma EmptyCellHas(r: int, c: int, v: int)
    requires InRange(r) && InRange(c) && 1 <= v <= 9
    ensures v in CellOptions(EmptyBoard(), r, c)
  {
    AllOptionsAt(r, c, v);
  }

  /** Every cell of the empty field has the nine digits as candidates. */
  lemma EmptyCellOptions(r: int, c: int)
    requires InRange(r) && InRange(c)
    ensures CellOptions(EmptyBoard(), r, c) == ALL_DIGITS
    ensures |CellOptions(EmptyBoard(), r, c)| == 9
  {
    var s := CellOptions(EmptyBoard(), r, c);
    forall v | v in ALL_DIGITS ensures v in s {
      AllDigitsAt(v);
      EmptyCellHas(r, c, v);
    }
    forall v | v in s ensures v in ALL_DIGITS {
      AllDigitsAt(v);
    }
    assert s == ALL_DIGITS;
    AllDigitsSize();
  }

  /** The empty field satisfies the invariant and has no clash. */
  lemma EmptyBoardInvariant()
    ensures Invariant(EmptyBoard()) && NoClash(EmptyBoard().field)
  {
    var b := EmptyBoard();
    CountEmptyAllEmpty(b.field);
    forall r, c, v | (r, c, v) in b.options
      ensures InRange(r) && InRange(c) && 1 <= v <= 9 && b.field[r][c] == EMPTY
    {
      AllOptionsAt(r, c, v);
    }
    forall r1, c1, r2, c2 | 0 <= r1 < 9 && 0 <= c1 < 9 && 0 <= r2 < 9 && 0 <= c2 < 9
      ensures (r1, c1, b.field[r2][c2]) !in b.options
    {
      AllOptionsAt(r1, c1, b.field[r2][c2]);
    }
  }

  /** A subset is no larger than its superset. */
  lemma SubsetSize(a: set<int>, b: set<int>)
    requires a <= b
    ensures |a| <= |b|
  {
    assert b * a == a;
    assert |b - a| == |b| - |b * a|;
  }

  /** A cell never has more than nine candidates. */
  lemma CellOptionsAtMostNine(b: Board, x: int, y: int)
    ensures |CellOptions(b, x, y)| <= 9
  {
    forall v | v in CellOptions(b, x, y) ensures v in ALL_DIGITS {
      AllDigitsAt(v);
    }
    SubsetSize(CellOptions(b, x, y), ALL_DIGITS);
  }

  /** Dropping a candidate changes the candidates of that one cell only. */
  lemma CellOptionsAfterRemove(b: Board, row: int, column: int, value: int, x: int, y: int)
    ensures CellOptions(RemoveOption(b, row, column, value), x, y) ==
      if x == row && y == column then CellOptions(b, x, y) - {value} else CellOptions(b, x, y)
  {
  }

  /** Storing a digit empties the candidates of its cell and of no other. */
  lemma CellOptionsAfterFill(b: Board, row: int, column: int, value: int, x: int, y: int)
    requires InRange(row) && InRange(column)
    ensures CellOptions(Filled(b, row, column, value), x, y) ==
      if x == row && y == column then {} else CellOptions(b, x, y)
  {
  }

  /** A row has no more zeros than entries; none exactly when no entry is 0, all exactly when every entry is. */
  lemma {:induction false} RowZerosBounds(s: seq<int>)
    ensures RowZeros(s) <= |s|
    ensures RowZeros(s) == 0 <==> forall i | 0 <= i < |s| :: s[i] != EMPTY
    ensures RowZeros(s) == |s| <==> forall i | 0 <= i < |s| :: s[i] == EMPTY
    decreases |s|
  {
    if |s| > 0 {
      var t := s[..|s| - 1];
      RowZerosBounds(t);
      assert forall i | 0 <= i < |t| :: t[i] == s[i];
    }
  }

  /** A grid of rows of nine has at most nine empty cells per row; none exactly when every cell holds a digit. */
  lemma {:induction false} CountEmptyBounds(g: seq<seq<int>>)
    requires forall r | 0 <= r < |g| :: |g[r]| == 9
    ensures CountEmpty(g) <= 9 * |g|
    ensures CountEmpty(g) == 0 <==> forall r, c | 0 <= r < |g| && 0 <= c < 9 :: g[r][c] != EMPTY
    ensures CountEmpty(g) == 9 * |g| <==> forall r, c | 0 <= r < |g| && 0 <= c < 9 :: g[r][c] == EMPTY
    decreases |g|
  {
    if |g| > 0 {
      var h := g[..|g| - 1];
      CountEmptyBounds(h);
      RowZerosBounds(g[|g| - 1]);
      assert forall r | 0 <= r < |h| :: h[r] == g[r];
    }
  }

  /** The cells `setValue` visits in round `i` of its block step, as the sector helpers compute them. */
  lemma SectorCellIsBlockCell(row: int, column: int, i: int)
    requires InRange(row) && InRange(column) && InRange(i)
    ensures GetSector(row, column).Success?
    ensures GetRowBySectorPos(GetSector(row, column).value, i) == Success(BlockRow(row, i))
    ensures GetColumnBySectorPos(GetSector(row, column).value, i) == Success(BlockColumn(column, i))
  {
    var a, b := row / 3, column / 3;
    var sector := GetSector(row, column).value;
    assert sector - 1 == 3 * a + b;
    Digits3(a, b);
    assert (sector - 1) / 3 == a && (sector - 1) % 3 == b;
  }

  /** Digit `d` may go into cell `(x, y)` of `f`: the cell is empty and no peer holds `d`. */
  ghost predicate Allowed(f: Grid, x: int, y: int, d: int)
  {
    InRange(x) && InRange(y) && 1 <= d <= 9 && f[x][y] == EMPTY &&
    forall r, c | 0 <= r < 9 && 0 <= c < 9 && Peer(x, y, r, c) :: f[r][c] != d
  }

  /** The candidates are exactly the digits the placed digits allow, as after loading a field. */
  ghost predicate Settled(b: Board)
  {
    forall x, y, d :: (x, y, d) in b.options <==> Allowed(b.field, x, y, d)
  }

  /** The empty field is settled: every digit is allowed everywhere. */
  lemma EmptyBoardSettled()
    ensures Settled(EmptyBoard())
  {
    var b := EmptyBoard();
    forall x, y, d ensures (x, y, d) in b.options <==> Allowed(b.field, x, y, d) {
      AllOptionsAt(x, y, d);
    }
  }

  /** A peer check of the field after storing `value`, in terms of the field before. */
  lemma AllowedAfterPlace(b: Board, row: int, column: int, value: int, x: int, y: int, d: int)
    requires InRange(row) && InRange(column) && b.field[row][column] == EMPTY && 1 <= value <= 9
    ensures Allowed(Place(b, row, column, value).field, x, y, d) <==>
      Allowed(b.field, x, y, d) && !(x == row && y == column) && !(d == value && Peer(x, y, row, column))
  {
    var f := Place(b, row, column, value).field;
    PlaceField(b, row, column, value);
    if Allowed(f, x, y, d) {
      forall r, c | 0 <= r < 9 && 0 <= c < 9 && Peer(x, y, r, c) ensures b.field[r][c] != d {
        if r == row && c == column {
          assert b.field[r][c] == EMPTY;
        } else {
          assert f[r][c] == b.field[r][c];
        }
      }
      assert f[row][column] == value;
    }
  }

  /** Storing a digit in an empty cell of a settled field leaves it settled. */
  lemma PlaceKeepsSettled(b: Board, row: int, column: int, value: int)
    requires Invariant(b) && Settled(b) && InRange(row) && InRange(column) && b.field[row][column] == EMPTY
    requires 0 <= value <= 9
    ensures Settled(Place(b, row, column, value))
  {
    var p := Place(b, row, column, value);
    PlaceField(b, row, column, value);
    if value == EMPTY {
      assert b.field[row][column := value] == b.field[row];
      assert p.field == b.field;
    } else {
      forall x, y, d ensures (x, y, d) in p.options <==> Allowed(p.field, x, y, d) {
        AllowedAfterPlace(b, row, column, value, x, y, d);
        if InRange(x) && InRange(y) {
          PlaceAt(b, row, column, value, x, y, d);
        } else {
          assert (x, y, d) !in b.options;
        }
      }
    }
  }

  /** A settled field loses no solution. */
  lemma SettledComplete(b: Board)
    requires Settled(b)
    ensures Complete(b)
  {
    forall s: Grid, r, c | Solves(s, b.field) && 0 <= r < 9 && 0 <= c < 9 && b.field[r][c] == EMPTY
      ensures (r, c, s[r][c]) in b.options
    {
      forall x, y | 0 <= x < 9 && 0 <= y < 9 && Peer(r, c, x, y) ensures b.field[x][y] != s[r][c] {
        if b.field[x][y] != EMPTY {
          assert s[x][y] == b.field[x][y];
        }
      }
    }
  }
}
