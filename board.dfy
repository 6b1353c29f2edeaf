/** The 6x7 Connect-Four grid of game/board.py: cells, the value-level grid used by the
    rules and the search, and the two in-place moves on a two-dimensional array. */
module Board {

  const ROWS: int := 6
  const COLS: int := 7

  const EMPTY: Cell := 0
  const HUMAN: Cell := 1
  const AI: Cell := -1

  datatype Option<T> = None | Some(value: T)

  /** A cell holds EMPTY, HUMAN or AI. */
  type Cell = x: int | -1 <= x <= 1

  predicate IsGrid(g: seq<seq<Cell>>) {
    |g| == ROWS && forall r :: 0 <= r < |g| ==> |g[r]| == COLS
  }

  /** A board snapshot as a value: ROWS rows of COLS cells, row 0 at the top. */
  type Grid = g: seq<seq<Cell>> | IsGrid(g) witness seq(6, _ => seq(7, _ => 0))

  /** An array has the board's shape. */
  predicate IsBoard(a: array2<Cell>) {
    a.Length0 == ROWS && a.Length1 == COLS
  }

  /** The value held by a board array. */
  function Snapshot(a: array2<Cell>): (g: Grid)
    requires IsBoard(a)
    reads a
    ensures forall r, c :: 0 <= r < ROWS && 0 <= c < COLS ==> g[r][c] == a[r, c]
  {
    seq(ROWS, r requires 0 <= r < ROWS reads a => seq(COLS, c requires 0 <= c < COLS reads a => a[r, c]))
  }

  /** Two grids are equal when they agree on every cell. */
  lemma GridExt(g: Grid, h: Grid)
    requires forall r, c :: 0 <= r < ROWS && 0 <= c < COLS ==> g[r][c] == h[r][c]
    ensures g == h
  {
    forall r | 0 <= r < ROWS
      ensures g[r] == h[r]
    {
      assert forall c :: 0 <= c < COLS ==> g[r][c] == h[r][c];
    }
  }

  /** create_board: every cell of the new grid is EMPTY. */
  function EmptyGrid(): (g: Grid)
    ensures forall r, c :: 0 <= r < ROWS && 0 <= c < COLS ==> g[r][c] == EMPTY
  {
    seq(ROWS, _ => seq(COLS, _ => EMPTY))
  }

  /** Gravity: in every column the EMPTY cells form a prefix starting at row 0,
      so a piece never sits above an empty cell. */
  predicate Gravity(g: Grid) {
    forall r1, r2, c :: 0 <= r1 < r2 < ROWS && 0 <= c < COLS && g[r1][c] != EMPTY ==> g[r2][c] != EMPTY
  }

  /** The cell of g at (row, col) set to p, every other cell as in g. */
  function Place(g: Grid, row: int, col: int, p: Cell): (h: Grid)
    requires 0 <= row < ROWS && 0 <= col < COLS
    ensures forall r, c :: 0 <= r < ROWS && 0 <= c < COLS ==>
              h[r][c] == if r == row && c == col then p else g[r][c]
  {
    var newRow: seq<Cell> := g[row][col := p];
    g[row := newRow]
  }

  /** The scan of apply_move from row `row` upwards: the first EMPTY row met. */
  function ScanUp(g: Grid, col: int, row: int): (r: Option<int>)
    requires 0 <= col < COLS && -1 <= row < ROWS
    decreases row + 1
    ensures r.None? <==> forall k :: 0 <= k <= row ==> g[k][col] != EMPTY
    ensures r.Some? ==> 0 <= r.value <= row && g[r.value][col] == EMPTY
    ensures r.Some? ==> forall k :: r.value < k <= row ==> g[k][col] != EMPTY
  {
    if row < 0 then None
    else if g[row][col] == EMPTY then Some(row)
    else ScanUp(g, col, row - 1)
  }

  /** The row apply_move writes into: none for a column index out of range or a column
      without an EMPTY cell, otherwise the highest-index EMPTY row of the column. */
  function DropRow(g: Grid, col: int): (r: Option<int>)
    ensures r.None? <==> col < 0 || col >= COLS || forall k :: 0 <= k < ROWS ==> g[k][col] != EMPTY
    ensures r.Some? ==> 0 <= col < COLS && 0 <= r.value < ROWS && g[r.value][col] == EMPTY
    ensures r.Some? ==> forall k :: r.value < k < ROWS ==> g[k][col] != EMPTY
  {
    if col < 0 || col >= COLS then None else ScanUp(g, col, ROWS - 1)
  }

  /** apply_move on values: None when the move fails, otherwise the grid with exactly the
      cell (DropRow, col) changed to p. */
  function Drop(g: Grid, col: int, p: Cell): (h: Option<Grid>)
    ensures h.None? <==> col < 0 || col >= COLS || forall k :: 0 <= k < ROWS ==> g[k][col] != EMPTY
    ensures h.Some? ==> forall r, c :: 0 <= r < ROWS && 0 <= c < COLS ==>
              h.value[r][c] == if r == DropRow(g, col).value && c == col then p else g[r][c]
  {
    match DropRow(g, col)
    case None => None
    case Some(row) => Some(Place(g, row, col, p))
  }

  /** Python's indexing of a row by a column number: -COLS..-1 count from the right. */
  function PyColumn(col: int): (c: int)
    requires -COLS <= col < COLS
    ensures 0 <= c < COLS && (c == col || c == col + COLS)
  {
    if col < 0 then col + COLS else col
  }

  /** The scan of undo_move from row `row` downwards: the first non-EMPTY row met. */
  function ScanDown(g: Grid, col: int, row: int): (r: Option<int>)
    requires 0 <= col < COLS && 0 <= row <= ROWS
    decreases ROWS - row
    ensures r.None? <==> forall k :: row <= k < ROWS ==> g[k][col] == EMPTY
    ensures r.Some? ==> row <= r.value < ROWS && g[r.value][col] != EMPTY
    ensures r.Some? ==> forall k :: row <= k < r.value ==> g[k][col] == EMPTY
  {
    if row == ROWS then None
    else if g[row][col] != EMPTY then Some(row)
    else ScanDown(g, col, row + 1)
  }

  /** The row undo_move clears: the lowest-index non-EMPTY row of the column. */
  function UndoRow(g: Grid, col: int): (r: Option<int>)
    requires -COLS <= col < COLS
    ensures r.None? <==> forall k :: 0 <= k < ROWS ==> g[k][PyColumn(col)] == EMPTY
    ensures r.Some? ==> 0 <= r.value < ROWS && g[r.value][PyColumn(col)] != EMPTY
    ensures r.Some? ==> forall k :: 0 <= k < r.value ==> g[k][PyColumn(col)] == EMPTY
  {
    ScanDown(g, PyColumn(col), 0)
  }

  /** undo_move on values: None for an all-EMPTY column, otherwise the grid with exactly the
      topmost piece of the column cleared. */
  function Undo(g: Grid, col: int): (h: Option<Grid>)
    requires -COLS <= col < COLS
    ensures h.None? <==> forall k :: 0 <= k < ROWS ==> g[k][PyColumn(col)] == EMPTY
    ensures h.Some? ==> forall r, c :: 0 <= r < ROWS && 0 <= c < COLS ==>
              h.value[r][c] == if r == UndoRow(g, col).value && c == PyColumn(col) then EMPTY else g[r][c]
  {
    match UndoRow(g, col)
    case None => None
    case Some(row) => Some(Place(g, row, PyColumn(col), EMPTY))
  }

  /** is_column_full: the top cell of the column is occupied. */
  predicate IsColumnFull(g: Grid, col: int)
    requires -COLS <= col < COLS
  {
    g[0][PyColumn(col)] != EMPTY
  }

  /** create_board. */
  method CreateBoard() returns (board: array2<Cell>)
    ensures fresh(board) && IsBoard(board)
    ensures Snapshot(board) == EmptyGrid()
  {
    board := new Cell[ROWS, COLS]((_, _) => EMPTY);
    GridExt(Snapshot(board), EmptyGrid());
  }

  /** apply_move: drops `player` into column `col`, scanning from the bottom row up. */
  method ApplyMove(board: array2<Cell>, col: int, player: Cell) returns (ok: bool)
    requires IsBoard(board)
    modifies board
    ensures ok <==> Drop(old(Snapshot(board)), col, player).Some?
    ensures Snapshot(board) == if ok then Drop(old(Snapshot(board)), col, player).value else old(Snapshot(board))
  {
    if col < 0 || col >= COLS {
      return false;
    }
    var row := ROWS - 1;
    while row >= 0
      invariant -1 <= row < ROWS
      invariant forall k :: row < k < ROWS ==> board[k, col] != EMPTY
      invariant Snapshot(board) == old(Snapshot(board))
    {
      if board[row, col] == EMPTY {
        ghost var g := Snapshot(board);
        board[row, col] := player;
        assert DropRow(g, col) == Some(row);
        GridExt(Snapshot(board), Drop(g, col, player).value);
        return true;
      }
      row := row - 1;
    }
    return false;
  }

  /** undo_move: clears the topmost piece of column `col`, scanning from row 0 down. */
  method UndoMove(board: array2<Cell>, col: int) returns (ok: bool)
    requires IsBoard(board)
    requires -COLS <= col < COLS
    modifies board
    ensures ok <==> Undo(old(Snapshot(board)), col).Some?
    ensures Snapshot(board) == if ok then Undo(old(Snapshot(board)), col).value else old(Snapshot(board))
  {
    var c := PyColumn(col);
    var row := 0;
    while row < ROWS
      invariant 0 <= row <= ROWS
      invariant forall k :: 0 <= k < row ==> board[k, c] == EMPTY
      invariant Snapshot(board) == old(Snapshot(board))
    {
      if board[row, c] != EMPTY {
        ghost var g := Snapshot(board);
        board[row, c] := EMPTY;
        assert UndoRow(g, col) == Some(row);
        GridExt(Snapshot(board), Undo(g, col).value);
        return true;
      }
      row := row + 1;
    }
    return false;
  }

  /** The empty board satisfies gravity. */
  lemma EmptyGridGravity()
    ensures Gravity(EmptyGrid())
  {
  }

  /** A column index outside [0, COLS) makes apply_move fail. */
  lemma DropOutOfRange(g: Grid, col: int, p: Cell)
    requires col < 0 || col >= COLS
    ensures Drop(g, col, p) == None
  {
  }

  /** apply_move keeps the gravity invariant. */
  lemma DropPreservesGravity(g: Grid, col: int, p: Cell)
    requires Gravity(g)
    requires Drop(g, col, p).Some?
    ensures Gravity(Drop(g, col, p).value)
  {
    var h := Drop(g, col, p).value;
    var row := DropRow(g, col).value;
    forall r1, r2, c | 0 <= r1 < r2 < ROWS && 0 <= c < COLS && h[r1][c] != EMPTY
      ensures h[r2][c] != EMPTY
    {
      if c == col && r2 == row {
        assert false;
      }
    }
  }

  /** Under gravity every row above the landing row of a move is EMPTY. */
  lemma AboveDropRowEmpty(g: Grid, col: int)
    requires Gravity(g)
    requires DropRow(g, col).Some?
    ensures forall k :: 0 <= k <= DropRow(g, col).value ==> g[k][col] == EMPTY
  {
    var row := DropRow(g, col).value;
    forall k | 0 <= k <= row
      ensures g[k][col] == EMPTY
    {
      if k < row && g[k][col] != EMPTY {
        assert false;
      }
    }
  }

  /** Round trip: under gravity, undoing a successful move of a non-EMPTY piece in the same
      column restores the grid exactly. */
  lemma ApplyUndoRoundTrip(g: Grid, col: int, p: Cell)
    requires Gravity(g)
    requires p != EMPTY
    requires Drop(g, col, p).Some?
    ensures Undo(Drop(g, col, p).value, col) == Some(g)
  {
    var h := Drop(g, col, p).value;
    var row := DropRow(g, col).value;
    AboveDropRowEmpty(g, col);
    assert PyColumn(col) == col;
    assert h[row][col] == p;
    assert forall k :: 0 <= k < row ==> h[k][col] == EMPTY;
    assert UndoRow(h, col) == Some(row);
    GridExt(Undo(h, col).value, g);
  }

  /** Under gravity and for an in-range column, is_column_full holds exactly when
      apply_move fails. */
  lemma ColumnFullIffDropFails(g: Grid, col: int, p: Cell)
    requires Gravity(g)
    requires 0 <= col < COLS
    ensures IsColumnFull(g, col) <==> Drop(g, col, p).None?
  {
    if IsColumnFull(g, col) {
      assert forall k :: 0 <= k < ROWS ==> g[k][col] != EMPTY by {
        forall k | 0 <= k < ROWS ensures g[k][col] != EMPTY {
          if k > 0 { assert g[0][col] != EMPTY; }
        }
      }
    }
  }
}
