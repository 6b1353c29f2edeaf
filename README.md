# Connect-Four engine: a verified Dafny model

This project models the game core of a Connect-Four server written in Python and proves
properties of that model. It covers the 6x7 board and its two in-place moves, win and
draw detection, the list of legal columns, the minimax opponent with alpha-beta pruning,
and the "hard" opponent's tactical layer over a proposed column.

The model has five modules, one per source file:

- `Board` (`board.dfy`, game/board.py)
  - Cells are `-1 | 0 | 1` (AI, EMPTY, HUMAN).
  - A board is a two-dimensional array `array2<Cell>`. `Snapshot` reads it as a value, a `Grid` of 6 rows of 7 cells with row 0 at the top.
  - `apply_move` and `undo_move` are methods whose loops change the array in place. They are proved against the value-level specifications `Drop` and `Undo`. Properties of those (gravity, the undo round trip, column fullness) are proved as lemmas.
- `Utils` (`utils.dfy`, game/utils.py)
  - `get_valid_moves` is a recursive list of columns whose top cell is EMPTY.
  - `copy_board` is a method returning a fresh array with the same contents.
- `Rules` (`rules.dfy`, game/rules.py)
  - The 69 four-cell windows are listed in the order `check_winner` scans them.
  - `check_winner` is the scan that stops at the first window whose sum has absolute value 4.
  - `is_draw` tests that the top row is full.
  - Lemmas relate the scan to "some line of four exists" and locate the first complete window.
- `MinimaxAI` (`minimax.dfy`, ai/minimax_ai.py)
  - The window score and the board heuristic are modelled, and the heuristic is proved to stay strictly between the win scores on a board without a winner.
  - `MinimaxValue` is the depth-limited minimax value without pruning. It keeps the source's order of terminal tests.
  - `BestMove` is the column unpruned minimax picks: the first child in ascending column order with the best value.
  - The alpha-beta method `Minimax` applies each move on a copied board. Its two loops (`SearchMax` and `SearchMin`) break on `alpha >= beta`.
  - `Minimax` is proved fail-soft with respect to `MinimaxValue`. A result at or below alpha is an upper bound, a result at or above beta is a lower bound, and a result strictly inside the window is exact and comes with the `BestMove` column.
  - In particular `get_move`, called with the full window, returns exactly `BestMove` at depth 4.
- `HardAI` (`hard_ai.dfy`, ai/hard_ai.py)
  - The three loops of `get_move` are modelled as one method, `FirstWinningColumn`, which tries every valid column on a fresh copy.
  - The policy, `HardMove`, takes the network's proposal as the parameter `nnCol`.
  - The policy is proved to take the lowest winning column and otherwise block the lowest losing one. Otherwise it keeps the proposal exactly when no human reply wins at once, and falls back to the minimax move when one does.

±infinity in the search is the datatype `Ext = NegInf | Fin(n) | PosInf`. Because every
score lies within ±1000000, the comparisons are the same as the source's.

Where the source's comments and its code disagree, the model follows the code:

- `is_draw`'s docstring says "board is full and no winner". The code only checks that row 0 has no EMPTY cell and never looks for a winner.
  - `Rules.DrawIgnoresWinner` exhibits a full board that is a draw and on which HUMAN has a line.
  - `Minimax` tests for a winner before it tests `is_draw`, so the search is unaffected.
- Row 0 is the top row. So the diagonal the comments call "bottom-left to top-right" (`r + i, c + i`) in fact runs down and to the right. The one called "top-left to bottom-right" (`r - i, c + i`) runs up and to the right.
- The docstring of `undo_move` says "top-most piece". The code clears the lowest-index non-EMPTY row, which is the top-most piece under gravity. `Board.ApplyUndoRoundTrip` states the round trip under gravity only.

## Model

| member | source | states |
|---|---|---|
| Board.EmptyGrid | game/board.py:11-15 | every cell of the new grid is EMPTY |
| Board.CreateBoard | game/board.py:11-15 | a fresh 6x7 array whose contents are the empty grid |
| Board.ScanUp | game/board.py:26-29 | the bottom-up scan finds nothing exactly when rows 0..row are all occupied, else the highest EMPTY row at or below `row`, with every row below it occupied |
| Board.DropRow | game/board.py:23-31 | no landing row exactly when the column is out of range or full; otherwise an EMPTY row with every higher-index row of the column occupied |
| Board.Drop | game/board.py:18-31 | the move fails exactly when the column is out of range or has no EMPTY cell; otherwise exactly the landing cell becomes the player and every other cell keeps its value |
| Board.ApplyMove | game/board.py:18-31 | the result is True exactly when `Drop` succeeds; the array then holds `Drop`'s grid, and otherwise it is unchanged |
| Board.PyColumn | game/board.py:39 | numpy's indexing of a row: a column in -7..-1 counts from the right, the result is always in 0..6 |
| Board.ScanDown | game/board.py:38-41 | the top-down scan finds nothing exactly when rows row..5 are EMPTY, else the lowest-index occupied row with every row above it EMPTY |
| Board.UndoRow | game/board.py:38-41 | the row undo_move clears: none exactly for an all-EMPTY column, otherwise the lowest-index occupied row |
| Board.Undo | game/board.py:34-42 | undo fails exactly for an all-EMPTY column; otherwise exactly the top-most piece is cleared and every other cell is unchanged |
| Board.UndoMove | game/board.py:34-42 | the result is True exactly when `Undo` succeeds; the array then holds `Undo`'s grid, and otherwise it is unchanged |
| Board.EmptyGridGravity | game/board.py:11-15 | the empty board satisfies gravity (in every column the EMPTY cells form a prefix from row 0) |
| Board.DropOutOfRange | game/board.py:23-24 | a column below 0 or at least 7 makes apply_move fail |
| Board.DropPreservesGravity | game/board.py:26-29 | a successful move keeps gravity |
| Board.AboveDropRowEmpty | game/board.py:26-29 | under gravity every row at or above the landing row of the column is EMPTY |
| Board.ApplyUndoRoundTrip | game/board.py:18-42 | under gravity, undoing a successful move of a piece in the same column restores the grid exactly |
| Board.ColumnFullIffDropFails | game/board.py:45-49 | under gravity and for an in-range column, is_column_full holds exactly when apply_move fails |
| Board.IsColumnFull | game/board.py:45-49 | no contract; its properties are lemma Board.ColumnFullIffDropFails |
| Utils.ValidFromSpec | game/utils.py:9 | the columns listed from c on are exactly those at least c with an EMPTY top cell, each in 0..6, strictly ascending |
| Utils.ValidFrom | game/utils.py:9 | no contract; its properties are lemmas Utils.ValidFromSpec, Utils.ValidFromOpenTopRow and Utils.ValidFromFullTopRow |
| Utils.ValidMoves | game/utils.py:5-9 | no contract; its properties are lemmas Utils.ValidMovesSpec, Utils.ValidMoveDrops and Utils.DropSucceedsIffValid |
| Utils.ValidMovesSpec | game/utils.py:5-9 | get_valid_moves lists exactly the columns whose top cell is EMPTY, once each and in ascending order |
| Utils.CopyBoard | game/utils.py:12-16 | the copy is a fresh array with the same shape and contents |
| Utils.ValidMoveDrops | game/utils.py:5-9 | a move into a listed column always succeeds |
| Utils.DropSucceedsIffValid | game/utils.py:5-9 | under gravity and for an in-range column, apply_move succeeds exactly when the column is listed |
| Utils.ValidFromOpenTopRow | game/utils.py:9 | with every top cell EMPTY the columns from c on are c..6 in order |
| Utils.ValidMovesOfEmptyGrid | game/utils.py:5-9 | on the empty board the valid moves are [0, 1, 2, 3, 4, 5, 6] |
| Utils.ValidFromFullTopRow | game/utils.py:9 | with every top cell occupied no column from c on is listed |
| Utils.ValidMovesOfFullTopRow | game/utils.py:5-9 | with a full top row there is no valid move |
| Rules.Sum4Uniform | game/rules.py:16 | four cells in {-1, 0, 1} sum to absolute value 4 exactly when they hold one and the same non-EMPTY marker, and the sum is then 4 times that marker |
| Rules.Horizontal | game/rules.py:13-17 | no contract; the horizontal windows in loop order (rows, then start columns), covered by lemmas Rules.AllWindows, Rules.LineIsWindow and Rules.WindowIsLine |
| Rules.Vertical | game/rules.py:20-24 | no contract; the vertical windows in loop order (columns, then start rows), covered by the same three lemmas |
| Rules.DiagonalDown | game/rules.py:27-31 | no contract; the (r + i, c + i) windows for start rows 0..2, covered by the same three lemmas |
| Rules.DiagonalUp | game/rules.py:34-38 | no contract; the (r - i, c + i) windows for start rows 3..5, covered by the same three lemmas |
| Rules.ScanWindows | game/rules.py:12-40 | no contract; its property is lemma Rules.ScanFindsFirstComplete |
| Rules.Winner | game/rules.py:4-40 | no contract; its properties are lemmas Rules.WinnerIsFirstComplete, Rules.WinnerIffLine, Rules.NoWinnerOnEmptyGrid and Rules.BottomRowWin |
| Rules.IsDraw | game/rules.py:43-47 | no contract; its properties are lemmas Rules.DrawIffNoValidMoves, Rules.DrawMeansFull and Rules.DrawIgnoresWinner |
| Rules.AllWindows | game/rules.py:12-38 | the scan visits 69 windows, every one of them on the board |
| Rules.LineIsWindow | game/rules.py:12-38 | every line of four on the board in one of the four directions is a scanned window |
| Rules.WindowIsLine | game/rules.py:12-38 | every scanned window is a line in one of the four directions |
| Rules.ScanFindsFirstComplete | game/rules.py:12-40 | the scan from window i reports the marker of the first complete window from i on, and EMPTY when there is none |
| Rules.WinnerIsFirstComplete | game/rules.py:4-40 | check_winner is EMPTY exactly when no window is complete, and otherwise the marker of the first complete window in scan order |
| Rules.WinnerIffLine | game/rules.py:4-40 | check_winner is non-EMPTY exactly when some marker owns a line of four in one of the four directions, and then it is that line's marker |
| Rules.NoWinnerOnEmptyGrid | game/rules.py:4-40 | the empty board has no winner |
| Rules.BottomRowWin | game/rules.py:12-17 | four equal markers at the left of the bottom row, on an otherwise empty board, win for that marker |
| Rules.DrawIffNoValidMoves | game/rules.py:43-47 | is_draw holds exactly when get_valid_moves is empty |
| Rules.DrawMeansFull | game/rules.py:43-47 | under gravity a draw is a completely filled board |
| Rules.DrawIgnoresWinner | game/rules.py:43-47 | some full board is a draw although HUMAN has a line: is_draw does not consult the winner |
| MinimaxAI.CountAll | ai/minimax_ai.py:16 | a window's count of x equals its length exactly when every cell is x |
| MinimaxAI.Count | ai/minimax_ai.py:16-26 | list.count never exceeds the window's length; its other property is lemma MinimaxAI.CountAll |
| MinimaxAI.EvaluateWindow | ai/minimax_ai.py:10-28 | the score of four cells is one of 100000, 100, 10, 0, -10, -120 |
| MinimaxAI.WindowScoreCases | ai/minimax_ai.py:10-28 | exactly which windows earn 100000, 100, 10, -120 and -10; four HUMAN markers and mixed windows earn 0 |
| MinimaxAI.EvaluateBoard | ai/minimax_ai.py:31-67 | no contract; its properties are lemmas MinimaxAI.EvaluateOverAllWindows and MinimaxAI.HeuristicBelowWinScore |
| MinimaxAI.EvaluateOverAllWindows | ai/minimax_ai.py:31-67 | evaluate_board is 6 per AI piece in column 3 plus the window scores over the same 69 windows check_winner scans |
| MinimaxAI.SumScoresBounds | ai/minimax_ai.py:43-65 | without complete windows each window contributes between -120 and 100 |
| MinimaxAI.HeuristicBelowWinScore | ai/minimax_ai.py:31-67 | on a board without a winner the heuristic lies strictly between -1000000 and 1000000 |
| MinimaxAI.MaxExt | ai/minimax_ai.py:97 | Python's max over extended scores: an upper bound of both arguments and one of them |
| MinimaxAI.MinExt | ai/minimax_ai.py:116 | Python's min over extended scores: a lower bound of both arguments and one of them |
| MinimaxAI.FirstMaxIndex | ai/minimax_ai.py:93-95 | the loop's strict `>` keeps the first index holding the maximum: every earlier entry is strictly smaller |
| MinimaxAI.FirstMinIndex | ai/minimax_ai.py:112-114 | the strict `<` keeps the first index holding the minimum |
| MinimaxAI.Child | ai/minimax_ai.py:89-90 | the child board is the successful apply_move of the mover's piece |
| MinimaxAI.Terminal | ai/minimax_ai.py:74-82 | no contract; the positions the search does not expand, characterised by MinimaxAI.BestMove, MinimaxAI.ValueOfInnerNode and MinimaxAI.Minimax |
| MinimaxAI.MinimaxValue | ai/minimax_ai.py:70-120 | the unpruned depth-limited minimax value never leaves [-1000000, 1000000] |
| MinimaxAI.BestMove | ai/minimax_ai.py:74-101 | no column exactly on a terminal position (a winner, a full top row or depth 0), and otherwise a valid column |
| MinimaxAI.ValueOfInnerNode | ai/minimax_ai.py:84-120 | a non-terminal position has a valid move and its value is the best of its children's values |
| MinimaxAI.BestMoveAchievesValue | ai/minimax_ai.py:88-95 | the chosen column's child has the position's minimax value |
| MinimaxAI.NoColumnBetter | ai/minimax_ai.py:88-95 | no valid column's child is better for the side to move than the minimax value |
| MinimaxAI.EarlierColumnWorse | ai/minimax_ai.py:93-95 | every valid column to the left of the chosen one is strictly worse |
| MinimaxAI.BestMoveIsFirstOptimal | ai/minimax_ai.py:84-120 | the chosen column is the lowest valid column whose child reaches the minimax value, and none does better |
| MinimaxAI.MaxIteration | ai/minimax_ai.py:88-99 | one maximizing iteration with a fail-soft child score either cuts off with the loop's result or keeps the loop invariant (for the children searched, an upper bound at or below alpha, else the exact first maximum) |
| MinimaxAI.MinIteration | ai/minimax_ai.py:107-118 | the mirror image for the minimizing loop and beta |
| MinimaxAI.MaxDone | ai/minimax_ai.py:88-101 | a maximizing loop that ran through every child returns a score fail-soft for the best child value, with the first best column when the score is inside the window |
| MinimaxAI.MinDone | ai/minimax_ai.py:107-120 | the mirror image for the minimizing loop |
| MinimaxAI.FirstArgMaxOfAll | ai/minimax_ai.py:93-95 | an upper bound reached first at index k is the maximum and k is the first maximum index |
| MinimaxAI.FirstArgMinOfAll | ai/minimax_ai.py:112-114 | the mirror image for the minimum |
| MinimaxAI.SearchMax | ai/minimax_ai.py:84-101 | the maximizing loop returns a valid column and a score fail-soft for the best child value; inside the window the column is the first best one |
| MinimaxAI.SearchMin | ai/minimax_ai.py:103-120 | the minimizing loop, the mirror image of SearchMax |
| MinimaxAI.ScoreChild | ai/minimax_ai.py:88-91 | a child searched on a copy with window (alpha, beta) scores fail-soft for its true minimax value |
| MinimaxAI.Minimax | ai/minimax_ai.py:70-120 | terminal positions score 1000000, -1000000 or the heuristic, in the source's order; otherwise the score is fail-soft for the unpruned value, and inside the window (always, for the full window) the column is BestMove's |
| MinimaxAI.GetMove | ai/minimax_ai.py:123-128 | get_move returns exactly BestMove at depth 4, a valid column exactly when the board has no winner and its top row is not full |
| HardAI.FirstWinningSpec | ai/hard_ai.py:25-29 | on an ascending column list the first winning column is found exactly when one wins, and no smaller listed column wins |
| HardAI.FirstWinningIn | ai/hard_ai.py:25-29 | a column the scan returns is one of the columns tried |
| HardAI.Wins | ai/hard_ai.py:25-36 | no contract; the test `check_winner(temp) == p` after the move on a copy, used by every HardAI lemma |
| HardAI.FirstWinning | ai/hard_ai.py:25-36 | no contract; its properties are lemmas HardAI.FirstWinningSpec, HardAI.FirstWinningIn and HardAI.LowestWinningColumn |
| HardAI.AfterProposal | ai/hard_ai.py:52-53 | no contract; the board the safety check inspects, used by lemma HardAI.SafetyCheck |
| HardAI.Unsafe | ai/hard_ai.py:55-60 | no contract; its property is lemma HardAI.SafetyCheck |
| HardAI.StrongMove | ai/hard_ai.py:20-62 | no contract; its properties are lemmas HardAI.TakesWin, HardAI.BlocksLoss, HardAI.SafetyCheck and HardAI.StrongMoveValid, and method HardAI.HardMove conforms to it |
| HardAI.LowestWinningColumn | ai/hard_ai.py:25-36 | over the valid moves the scan returns nothing exactly when no column wins, and otherwise the lowest winning column |
| HardAI.FirstWinningColumn | ai/hard_ai.py:25-36 | the loop over valid moves on fresh copies returns the first column whose move makes check_winner name the player |
| HardAI.HardMove | ai/hard_ai.py:20-62 | get_move's result for the proposal: win, else block, else the proposal or, when some human reply then wins, minimax's move; the board is not written |
| HardAI.TakesWin | ai/hard_ai.py:25-29 | whenever some valid column wins at once, the result wins at once and is not to the right of any winning column |
| HardAI.BlocksLoss | ai/hard_ai.py:32-36 | without a winning column, a column where the human would win is blocked, the lowest one |
| HardAI.SafetyCheck | ai/hard_ai.py:52-62 | with neither a win nor a block, the proposal is returned exactly when no valid human reply wins at once, and otherwise minimax's get_move on the original board |
| HardAI.StrongMoveValid | ai/hard_ai.py:20-62 | with no winner, a valid move and a valid proposal, the result is a valid column |

## Left out

- The neural network (ai/hard_ai.py:1-17 and 39-49): model loading, the tensor, the float q-values and the argmax over masked columns. The proposal is the parameter `nnCol`. `HardAI.StrongMoveValid` assumes what the masking yields for ordinary q-values, namely that the proposal is a valid column whenever there is one. When no valid column's q-value lies above -1e9, or a q-value is NaN, the argmax can pick an invalid column.
- HardAI.HardMove: when the top row is full, the source's argmax over all-masked q-values picks column 0. The model returns whatever `nnCol` it is given, because the argmax belongs to the network part.
- `random.choice` for the initial `best_col` (ai/minimax_ai.py:86, 105): any finite score beats ±infinity, so the first iteration always replaces it. The model starts from the first valid column instead.
- MinimaxAI.Minimax: when the score is at or outside the window, the contract only says the column is valid. The source then returns the first explored column whose score reached `value`. Callers discard the column of an inner call (ai/minimax_ai.py:91, 110), and the root's full window gets the exact `BestMove` statement.
- `math.inf`: modelled as the `Ext` datatype rather than as floats.
- Board.UndoMove: requires a column in -7..6. A column outside that range raises IndexError in numpy, and exceptions are not modelled.
- Board.IsColumnFull: requires a column in -7..6, for the same reason.
- Board.ApplyMove: the player is a `Cell` (-1, 0 or 1). The source accepts any integer, but every caller passes a marker.
- The conversion `np.array(board)` at the start of hard get_move: the model receives the array directly.
- game/utils.py:19-32: `board_to_tensor` (a reshape for the network) and `print_board` (console output).
- app.py (the HTTP endpoints and the global game state), frontend/script.js (the browser UI), ai/random_ai.py (a random choice among the valid moves), ai/train_dqn.py and ai/dqn_model.py (network training and architecture), and test.py (entirely commented out).
