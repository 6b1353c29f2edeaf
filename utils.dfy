/** The move helpers of game/utils.py: the legal columns of a board and the board copy. */
module Utils {
  import opened Board

  /** The columns c..COLS-1 whose top cell is EMPTY, in ascending order. */
  function ValidFrom(g: Grid, c: int): seq<int>
    requires 0 <= c <= COLS
    decreases COLS - c
  {
    if c == COLS then []
    else if g[0][c] == EMPTY then [c] + ValidFrom(g, c + 1)
    else ValidFrom(g, c + 1)
  }

  /** ValidFrom lists exactly the columns from c on whose top cell is EMPTY, each once and
      in strictly ascending order. */
  lemma {:induction false} ValidFromSpec(g: Grid, c: int)
    requires 0 <= c <= COLS
    decreases COLS - c
    ensures forall i :: 0 <= i < |ValidFrom(g, c)| ==> c <= ValidFrom(g, c)[i] < COLS
    ensures forall i, j :: 0 <= i < j < |ValidFrom(g, c)| ==> ValidFrom(g, c)[i] < ValidFrom(g, c)[j]
    ensures forall k :: k in ValidFrom(g, c) <==> c <= k < COLS && g[0][k] == EMPTY
  {
    if c < COLS {
      ValidFromSpec(g, c + 1);
    }
  }

  /** get_valid_moves: the columns whose row 0 is EMPTY, in ascending order. */
  function ValidMoves(g: Grid): seq<int> {
    ValidFrom(g, 0)
  }

  /** get_valid_moves returns each column whose top cell is EMPTY, and only those, once
      each and in strictly ascending order. */
  lemma ValidMovesSpec(g: Grid)
    ensures forall i :: 0 <= i < |ValidMoves(g)| ==> 0 <= ValidMoves(g)[i] < COLS
    ensures forall i, j :: 0 <= i < j < |ValidMoves(g)| ==> ValidMoves(g)[i] < ValidMoves(g)[j]
    ensures forall k :: k in ValidMoves(g) <==> 0 <= k < COLS && g[0][k] == EMPTY
  {
    ValidFromSpec(g, 0);
  }

  /** copy_board: a fresh array holding the same grid; writes to it cannot reach `board`. */
  method CopyBoard(board: array2<Cell>) returns (copy: array2<Cell>)
    requires IsBoard(board)
    ensures fresh(copy) && IsBoard(copy)
    ensures Snapshot(copy) == Snapshot(board)
  {
    copy := new Cell[ROWS, COLS]((r, c) reads board =>
      if 0 <= r < ROWS && 0 <= c < COLS then board[r, c] else EMPTY);
    GridExt(Snapshot(copy), Snapshot(board));
  }

  /** A legal column is one a move into can land in: the drop succeeds. */
  lemma ValidMoveDrops(g: Grid, col: int, p: Cell)
    requires col in ValidMoves(g)
    ensures Drop(g, col, p).Some?
  {
    ValidMovesSpec(g);
    assert g[0][col] == EMPTY;
  }

  /** Under gravity, apply_move succeeds for an in-range column exactly when the column is
      among the valid moves. */
  lemma DropSucceedsIffValid(g: Grid, col: int, p: Cell)
    requires Gravity(g)
    requires 0 <= col < COLS
    ensures Drop(g, col, p).Some? <==> col in ValidMoves(g)
  {
    ValidMovesSpec(g);
    ColumnFullIffDropFails(g, col, p);
  }

  /** With every top cell EMPTY, the columns from c on are all valid. */
  lemma {:induction false} ValidFromOpenTopRow(g: Grid, c: int)
    requires forall k :: 0 <= k < COLS ==> g[0][k] == EMPTY
    requires 0 <= c <= COLS
    decreases COLS - c
    ensures ValidFrom(g, c) == seq(COLS - c, i => c + i)
  {
    if c < COLS {
      ValidFromOpenTopRow(g, c + 1);
      assert [c] + seq(COLS - c - 1, i => c + 1 + i) == seq(COLS - c, i => c + i);
    }
  }

  /** On the empty board every column is a valid move, in order: [0..6]. */
  lemma ValidMovesOfEmptyGrid()
    ensures ValidMoves(EmptyGrid()) == [0, 1, 2, 3, 4, 5, 6]
  {
    ValidFromOpenTopRow(EmptyGrid(), 0);
  }

  /** With every top cell filled, no column from c on is valid. */
  lemma {:induction false} ValidFromFullTopRow(g: Grid, c: int)
    requires forall k :: 0 <= k < COLS ==> g[0][k] != EMPTY
    requires 0 <= c <= COLS
    decreases COLS - c
    ensures ValidFrom(g, c) == []
  {
    if c < COLS {
      ValidFromFullTopRow(g, c + 1);
    }
  }

  /** When row 0 is full there is no valid move. */
  lemma ValidMovesOfFullTopRow(g: Grid)
    requires forall c :: 0 <= c < COLS ==> g[0][c] != EMPTY
    ensures ValidMoves(g) == []
  {
    ValidFromFullTopRow(g, 0);
  }
}
