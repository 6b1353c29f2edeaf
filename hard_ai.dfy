/** The tactical policy of ai/hard_ai.py: take an immediate win, else block the human's
    immediate win, else play the proposed column unless the human could then win at once,
    in which case fall back to the minimax move. The proposal, which the source obtains
    from a neural network, is the parameter nnCol. */
module HardAI {
  import opened Board
  import opened Utils
  import opened Rules
  import opened MinimaxAI

  /** Playing the legal column col as p makes check_winner report p. */
  predicate Wins(g: Grid, col: int, p: Cell)
    requires col in ValidMoves(g)
  {
    Winner(Child(g, col, p)) == p
  }

  /** The first column of ms, in the order of ms, that wins at once for p. */
  function FirstWinning(g: Grid, ms: seq<int>, p: Cell): Option<int>
    requires forall i :: 0 <= i < |ms| ==> ms[i] in ValidMoves(g)
  {
    if ms == [] then None
    else if Wins(g, ms[0], p) then Some(ms[0])
    else FirstWinning(g, ms[1..], p)
  }

  /** On a strictly ascending list of legal columns, FirstWinning finds nothing exactly
      when no column of ms wins, and otherwise a winning column of ms below which no column
      of ms wins. */
  lemma {:induction false} FirstWinningSpec(g: Grid, ms: seq<int>, p: Cell)
    requires forall i :: 0 <= i < |ms| ==> ms[i] in ValidMoves(g)
    requires forall i, j :: 0 <= i < j < |ms| ==> ms[i] < ms[j]
    ensures FirstWinning(g, ms, p).None? <==> forall i :: 0 <= i < |ms| ==> !Wins(g, ms[i], p)
    ensures FirstWinning(g, ms, p).Some? ==>
              var c := FirstWinning(g, ms, p).value;
              c in ms && Wins(g, c, p) && forall i :: 0 <= i < |ms| && ms[i] < c ==> !Wins(g, ms[i], p)
  {
    if ms != [] && !Wins(g, ms[0], p) {
      var rest := ms[1..];
      FirstWinningSpec(g, rest, p);
      forall i | 1 <= i < |ms|
        ensures ms[i] == rest[i - 1]
      {
      }
    }
  }

  /** A column FirstWinning finds is one of ms. */
  lemma {:induction false} FirstWinningIn(g: Grid, ms: seq<int>, p: Cell)
    requires forall i :: 0 <= i < |ms| ==> ms[i] in ValidMoves(g)
    ensures FirstWinning(g, ms, p).Some? ==> FirstWinning(g, ms, p).value in ms
  {
    if ms != [] && !Wins(g, ms[0], p) {
      FirstWinningIn(g, ms[1..], p);
    }
  }

  /** Over the valid moves, FirstWinning finds nothing exactly when no valid column wins,
      and otherwise the lowest column that does. */
  lemma LowestWinningColumn(g: Grid, p: Cell)
    ensures FirstWinning(g, ValidMoves(g), p).None? <==> forall col :: col in ValidMoves(g) ==> !Wins(g, col, p)
    ensures FirstWinning(g, ValidMoves(g), p).Some? ==>
              var c := FirstWinning(g, ValidMoves(g), p).value;
              c in ValidMoves(g) && Wins(g, c, p) &&
              forall col :: col in ValidMoves(g) && col < c ==> !Wins(g, col, p)
  {
    ValidMovesSpec(g);
    FirstWinningSpec(g, ValidMoves(g), p);
  }

  /** The board the safety check looks at: the proposal played by the AI, or the board
      itself when apply_move refuses the column. */
  function AfterProposal(g: Grid, nnCol: int): Grid {
    match Drop(g, nnCol, AI)
    case Some(h) => h
    case None => g
  }

  /** After the proposal some legal reply wins at once for the human. */
  predicate Unsafe(g: Grid, nnCol: int) {
    var h := AfterProposal(g, nnCol);
    FirstWinning(h, ValidMoves(h), HUMAN).Some?
  }

  /** The column get_move of ai/hard_ai.py returns for the proposal nnCol. */
  function StrongMove(g: Grid, nnCol: int): Option<int> {
    var win := FirstWinning(g, ValidMoves(g), AI);
    if win.Some? then win
    else
      var block := FirstWinning(g, ValidMoves(g), HUMAN);
      if block.Some? then block
      else if Unsafe(g, nnCol) then BestMove(g, MAX_DEPTH, true)
      else Some(nnCol)
  }

  /** One of the loops of get_move: try every valid column of the board, in ascending
      order, on a fresh copy, and report the first whose move makes check_winner name p. */
  method FirstWinningColumn(board: array2<Cell>, p: Cell) returns (col: Option<int>)
    requires IsBoard(board)
    ensures col == FirstWinning(Snapshot(board), ValidMoves(Snapshot(board)), p)
  {
    var g := Snapshot(board);
    var validMoves := ValidMoves(g);
    var i := 0;
    while i < |validMoves|
      invariant 0 <= i <= |validMoves|
      invariant FirstWinning(g, validMoves[i..], p) == FirstWinning(g, validMoves, p)
    {
      var c := validMoves[i];
      var temp := CopyBoard(board);
      var _ := ApplyMove(temp, c, p);
      assert Snapshot(temp) == Child(g, c, p);
      assert validMoves[i..][1..] == validMoves[i + 1..];
      if Winner(Snapshot(temp)) == p {
        return Some(c);
      }
      i := i + 1;
    }
    return None;
  }

  /** get_move of ai/hard_ai.py for the proposal nnCol. The board is never written. */
  method HardMove(board: array2<Cell>, nnCol: int) returns (col: Option<int>)
    requires IsBoard(board)
    ensures col == StrongMove(Snapshot(board), nnCol)
  {
    var win := FirstWinningColumn(board, AI);
    if win.Some? {
      return win;
    }
    var block := FirstWinningColumn(board, HUMAN);
    if block.Some? {
      return block;
    }
    var temp := CopyBoard(board);
    var _ := ApplyMove(temp, nnCol, AI);
    assert Snapshot(temp) == AfterProposal(Snapshot(board), nnCol);
    var reply := FirstWinningColumn(temp, HUMAN);
    if reply.Some? {
      col := GetMove(board);
      return;
    }
    return Some(nnCol);
  }

  /** A column that wins at once is taken, and of several the lowest. */
  lemma TakesWin(g: Grid, nnCol: int, col: int)
    requires col in ValidMoves(g) && Wins(g, col, AI)
    ensures StrongMove(g, nnCol).Some?
    ensures var c := StrongMove(g, nnCol).value;
            c in ValidMoves(g) && Wins(g, c, AI) && c <= col
  {
    LowestWinningColumn(g, AI);
  }

  /** Without a winning column, a column where the human would win at once is blocked,
      and of several the lowest. */
  lemma BlocksLoss(g: Grid, nnCol: int, col: int)
    requires forall c :: c in ValidMoves(g) ==> !Wins(g, c, AI)
    requires col in ValidMoves(g) && Wins(g, col, HUMAN)
    ensures StrongMove(g, nnCol).Some?
    ensures var c := StrongMove(g, nnCol).value;
            c in ValidMoves(g) && Wins(g, c, HUMAN) && c <= col
  {
    LowestWinningColumn(g, AI);
    LowestWinningColumn(g, HUMAN);
  }

  /** With neither a win nor a block, the proposal is played exactly when no legal reply
      lets the human win at once; otherwise the minimax move on the original board is. */
  lemma SafetyCheck(g: Grid, nnCol: int)
    requires forall c :: c in ValidMoves(g) ==> !Wins(g, c, AI) && !Wins(g, c, HUMAN)
    ensures var h := AfterProposal(g, nnCol);
            StrongMove(g, nnCol) ==
            if exists c :: c in ValidMoves(h) && Wins(h, c, HUMAN) then BestMove(g, MAX_DEPTH, true)
            else Some(nnCol)
  {
    LowestWinningColumn(g, AI);
    LowestWinningColumn(g, HUMAN);
    LowestWinningColumn(AfterProposal(g, nnCol), HUMAN);
  }

  /** On a board with no winner and a legal move, with a proposal among the legal moves
      (as the masked argmax guarantees), the policy returns a legal column. */
  lemma StrongMoveValid(g: Grid, nnCol: int)
    requires Winner(g) == EMPTY && ValidMoves(g) != [] && nnCol in ValidMoves(g)
    ensures StrongMove(g, nnCol).Some? && StrongMove(g, nnCol).value in ValidMoves(g)
  {
    var win := FirstWinning(g, ValidMoves(g), AI);
    var block := FirstWinning(g, ValidMoves(g), HUMAN);
    if win.Some? {
      FirstWinningIn(g, ValidMoves(g), AI);
    } else if block.Some? {
      FirstWinningIn(g, ValidMoves(g), HUMAN);
    } else if Unsafe(g, nnCol) {
      DrawIffNoValidMoves(g);
      assert StrongMove(g, nnCol) == BestMove(g, MAX_DEPTH, true);
    }
  }
}
