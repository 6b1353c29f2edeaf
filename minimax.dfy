/** The search opponent of ai/minimax_ai.py: the positional heuristic, the depth-limited
    minimax value it approximates, and the alpha-beta search the source runs. */
module MinimaxAI {
  import opened Board
  import opened Utils
  import opened Rules

  const MAX_DEPTH: nat := 4

  /** The score of a board on which AI (positive) or HUMAN (negative) owns a line. */
  const WIN_SCORE: int := 1000000

  // ---------------------------------------------------------------- heuristic

  /** The number of cells of w equal to x (Python's list.count). */
  function Count(w: seq<Cell>, x: Cell): (n: nat)
    ensures n <= |w|
  {
    if w == [] then 0 else (if w[0] == x then 1 else 0) + Count(w[1..], x)
  }

  /** Every cell is AI, HUMAN or EMPTY, so the three counts add up to the length. */
  lemma {:induction false} CountsAddUp(w: seq<Cell>)
    ensures Count(w, AI) + Count(w, HUMAN) + Count(w, EMPTY) == |w|
  {
    if w != [] {
      CountsAddUp(w[1..]);
    }
  }

  /** Every cell of w is x exactly when x is counted |w| times. */
  lemma {:induction false} CountAll(w: seq<Cell>, x: Cell)
    ensures Count(w, x) == |w| <==> forall i :: 0 <= i < |w| ==> w[i] == x
  {
    if w != [] {
      CountAll(w[1..], x);
      assert forall i :: 1 <= i < |w| ==> w[i] == w[1..][i - 1];
    }
  }

  /** evaluate_window: the AI part (4 -> 100000, 3 + one empty -> 100, 2 + two empty -> 10)
      plus the HUMAN part (3 + one empty -> -120, 2 + two empty -> -10). */
  function EvaluateWindow(window: seq<Cell>): (score: int)
    ensures |window| == 4 ==> score in {100000, 100, 10, 0, -10, -120}
  {
    CountsAddUp(window);
    var ai := Count(window, AI);
    var human := Count(window, HUMAN);
    var empty := Count(window, EMPTY);
    (if ai == 4 then 100000 else if ai == 3 && empty == 1 then 100 else if ai == 2 && empty == 2 then 10 else 0)
    + (if human == 3 && empty == 1 then -120 else if human == 2 && empty == 2 then -10 else 0)
  }

  /** Which windows earn which score. Four HUMAN markers earn nothing (there is no penalty
      mirroring the AI's 100000), and a window holding both markers scores 0. */
  lemma WindowScoreCases(window: seq<Cell>)
    requires |window| == 4
    ensures EvaluateWindow(window) == 100000 <==> Count(window, AI) == 4
    ensures EvaluateWindow(window) == 100 <==> Count(window, AI) == 3 && Count(window, EMPTY) == 1
    ensures EvaluateWindow(window) == 10 <==> Count(window, AI) == 2 && Count(window, EMPTY) == 2
    ensures EvaluateWindow(window) == -120 <==> Count(window, HUMAN) == 3 && Count(window, EMPTY) == 1
    ensures EvaluateWindow(window) == -10 <==> Count(window, HUMAN) == 2 && Count(window, EMPTY) == 2
    ensures Count(window, HUMAN) == 4 ==> EvaluateWindow(window) == 0
    ensures Count(window, AI) > 0 && Count(window, HUMAN) > 0 ==> EvaluateWindow(window) == 0
  {
    CountsAddUp(window);
  }

  /** Column c of the grid, top to bottom. */
  function Column(g: Grid, c: int): (cells: seq<Cell>)
    requires 0 <= c < COLS
    ensures |cells| == ROWS && forall r :: 0 <= r < ROWS ==> cells[r] == g[r][c]
  {
    seq(ROWS, r requires 0 <= r < ROWS => g[r][c])
  }

  /** The sum of evaluate_window over a list of windows. */
  function SumScores(g: Grid, ws: seq<Window>): int
    requires forall k :: 0 <= k < |ws| ==> InBounds(ws[k])
  {
    if ws == [] then 0 else EvaluateWindow(Cells(g, ws[0])) + SumScores(g, ws[1..])
  }

  /** evaluate_board: 6 per AI piece in the centre column, then the four window loops. */
  function EvaluateBoard(g: Grid): int {
    Count(Column(g, COLS / 2), AI) * 6
    + SumScores(g, Horizontal())
    + SumScores(g, Vertical())
    + SumScores(g, DiagonalDown())
    + SumScores(g, DiagonalUp())
  }

  lemma {:induction false} SumScoresAppend(g: Grid, a: seq<Window>, b: seq<Window>)
    requires forall k :: 0 <= k < |a| ==> InBounds(a[k])
    requires forall k :: 0 <= k < |b| ==> InBounds(b[k])
    ensures SumScores(g, a + b) == SumScores(g, a) + SumScores(g, b)
  {
    if a != [] {
      assert (a + b)[0] == a[0];
      assert (a + b)[1..] == a[1..] + b;
      SumScoresAppend(g, a[1..], b);
    } else {
      assert a + b == b;
    }
  }

  /** The heuristic scores exactly the 69 windows check_winner scans, plus the centre bonus. */
  lemma EvaluateOverAllWindows(g: Grid)
    ensures EvaluateBoard(g) == 6 * Count(Column(g, 3), AI) + SumScores(g, AllWindows())
  {
    var h, v, d, u := Horizontal(), Vertical(), DiagonalDown(), DiagonalUp();
    SumScoresAppend(g, h, v);
    SumScoresAppend(g, h + v, d);
    SumScoresAppend(g, h + v + d, u);
  }

  /** Without complete windows every window scores between -120 and 100. */
  lemma {:induction false} SumScoresBounds(g: Grid, ws: seq<Window>)
    requires forall k :: 0 <= k < |ws| ==> InBounds(ws[k]) && !Complete(g, ws[k])
    ensures -120 * |ws| <= SumScores(g, ws) <= 100 * |ws|
  {
    if ws != [] {
      var cs := Cells(g, ws[0]);
      CountAll(cs, AI);
      WindowScoreCases(cs);
      SumScoresBounds(g, ws[1..]);
    }
  }

  /** On a board without a winner, the heuristic stays strictly between the two win scores. */
  lemma HeuristicBelowWinScore(g: Grid)
    requires Winner(g) == EMPTY
    ensures -WIN_SCORE < EvaluateBoard(g) < WIN_SCORE
  {
    WinnerIsFirstComplete(g);
    EvaluateOverAllWindows(g);
    SumScoresBounds(g, AllWindows());
  }

  // ---------------------------------------------------------------- extended integers

  /** Scores with the two infinities the source writes as -math.inf and math.inf. */
  datatype Ext = NegInf | Fin(n: int) | PosInf

  /** Strict order on extended scores. */
  predicate Below(a: Ext, b: Ext) {
    if a.NegInf? then !b.NegInf?
    else if a.PosInf? then false
    else b.PosInf? || (b.Fin? && a.n < b.n)
  }

  /** Python's max(a, b). */
  function MaxExt(a: Ext, b: Ext): (m: Ext)
    ensures !Below(m, a) && !Below(m, b) && (m == a || m == b)
  {
    if Below(a, b) then b else a
  }

  /** Python's min(a, b). */
  function MinExt(a: Ext, b: Ext): (m: Ext)
    ensures !Below(a, m) && !Below(b, m) && (m == a || m == b)
  {
    if Below(b, a) then b else a
  }

  // ---------------------------------------------------------------- extremes of a list

  function Max(x: int, y: int): int { if x < y then y else x }
  function Min(x: int, y: int): int { if y < x then y else x }

  /** The largest element. */
  function SeqMax(s: seq<int>): (m: int)
    requires |s| > 0
    ensures forall i :: 0 <= i < |s| ==> s[i] <= m
    ensures exists i :: 0 <= i < |s| && s[i] == m
  {
    if |s| == 1 then s[0] else Max(SeqMax(s[..|s| - 1]), s[|s| - 1])
  }

  /** The smallest element. */
  function SeqMin(s: seq<int>): (m: int)
    requires |s| > 0
    ensures forall i :: 0 <= i < |s| ==> m <= s[i]
    ensures exists i :: 0 <= i < |s| && s[i] == m
  {
    if |s| == 1 then s[0] else Min(SeqMin(s[..|s| - 1]), s[|s| - 1])
  }

  /** The first index holding the largest element. */
  function FirstMaxIndex(s: seq<int>): (k: nat)
    requires |s| > 0
    ensures k < |s| && s[k] == SeqMax(s)
    ensures forall j :: 0 <= j < k ==> s[j] < s[k]
  {
    if |s| == 1 then 0
    else
      var k := FirstMaxIndex(s[..|s| - 1]);
      if s[k] < s[|s| - 1] then |s| - 1 else k
  }

  /** The first index holding the smallest element. */
  function FirstMinIndex(s: seq<int>): (k: nat)
    requires |s| > 0
    ensures k < |s| && s[k] == SeqMin(s)
    ensures forall j :: 0 <= j < k ==> s[k] < s[j]
  {
    if |s| == 1 then 0
    else
      var k := FirstMinIndex(s[..|s| - 1]);
      if s[|s| - 1] < s[k] then |s| - 1 else k
  }

  // ---------------------------------------------------------------- depth-limited minimax

  /** The marker placed by the side to move. */
  function Mover(maximizing: bool): Cell {
    if maximizing then AI else HUMAN
  }

  /** The board after a legal move. */
  function Child(g: Grid, col: int, p: Cell): (h: Grid)
    requires col in ValidMoves(g)
    ensures Drop(g, col, p) == Some(h)
  {
    ValidMoveDrops(g, col, p);
    Drop(g, col, p).value
  }

  /** The positions the search does not expand: a winner, a full top row, or no depth left. */
  predicate Terminal(g: Grid, depth: nat) {
    Winner(g) != EMPTY || IsDraw(g) || depth == 0
  }

  /** The depth left for the children of a node searched at depth > 0. */
  function ChildDepth(depth: nat): nat
    requires depth > 0
  {
    depth - 1
  }

  /** The depth-limited minimax value without pruning, with the same terminal rules and
      the same priority as the source (AI win, HUMAN win, then full top row or depth 0).
      It never leaves the range of the two win scores. */
  function MinimaxValue(g: Grid, depth: nat, maximizing: bool): (v: int)
    decreases depth, 3
    ensures -WIN_SCORE <= v <= WIN_SCORE
  {
    var winner := Winner(g);
    if winner == AI then WIN_SCORE
    else if winner == HUMAN then -WIN_SCORE
    else if IsDraw(g) || depth == 0 then HeuristicBelowWinScore(g); EvaluateBoard(g)
    else
      DrawIffNoValidMoves(g);
      var vs := ChildValues(g, depth, maximizing);
      if maximizing then SeqMax(vs) else SeqMin(vs)
  }

  /** The minimax values of the children reached by the legal moves ms, in the order of ms. */
  function ChildValuesOf(g: Grid, ms: seq<int>, depth: nat, maximizing: bool): (vs: seq<int>)
    requires depth > 0
    requires forall i :: 0 <= i < |ms| ==> ms[i] in ValidMoves(g)
    decreases depth, 1, |ms|
    ensures |vs| == |ms|
    ensures forall i :: 0 <= i < |vs| ==> -WIN_SCORE <= vs[i] <= WIN_SCORE
  {
    if ms == [] then []
    else [ChildValue(g, depth, maximizing, ms[0])] + ChildValuesOf(g, ms[1..], depth, maximizing)
  }

  /** The minimax value of the child reached by a legal move, searched one level less deep
      with the other side to move. */
  function ChildValue(g: Grid, depth: nat, maximizing: bool, col: int): (v: int)
    requires depth > 0 && col in ValidMoves(g)
    decreases depth, 0
    ensures -WIN_SCORE <= v <= WIN_SCORE
  {
    MinimaxValue(Child(g, col, Mover(maximizing)), ChildDepth(depth), !maximizing)
  }

  /** Entry i of ChildValuesOf is the value of the child reached by ms[i]. */
  lemma {:induction false} ChildValuesOfAt(g: Grid, ms: seq<int>, depth: nat, maximizing: bool, i: int)
    requires depth > 0
    requires forall j :: 0 <= j < |ms| ==> ms[j] in ValidMoves(g)
    requires 0 <= i < |ms|
    decreases i
    ensures ChildValuesOf(g, ms, depth, maximizing)[i] == ChildValue(g, depth, maximizing, ms[i])
  {
    if i > 0 {
      ChildValuesOfAt(g, ms[1..], depth, maximizing, i - 1);
    }
  }

  /** The minimax values of the children, one per valid column in ascending order. */
  function ChildValues(g: Grid, depth: nat, maximizing: bool): (vs: seq<int>)
    requires depth > 0
    decreases depth, 2
    ensures |vs| == |ValidMoves(g)|
    ensures forall i :: 0 <= i < |vs| ==> -WIN_SCORE <= vs[i] <= WIN_SCORE
  {
    ChildValuesOf(g, ValidMoves(g), depth, maximizing)
  }

  /** Entry i of ChildValues belongs to the i-th valid column. */
  lemma ChildValueAt(g: Grid, depth: nat, maximizing: bool, i: int)
    requires depth > 0 && 0 <= i < |ValidMoves(g)|
    ensures ChildValues(g, depth, maximizing)[i] == ChildValue(g, depth, maximizing, ValidMoves(g)[i])
  {
    ChildValuesOfAt(g, ValidMoves(g), depth, maximizing, i);
  }

  /** The column minimax picks: the first valid column, in ascending order, whose child
      has the best value for the side to move; none on a terminal position. */
  function BestMove(g: Grid, depth: nat, maximizing: bool): (col: Option<int>)
    ensures col.None? <==> Terminal(g, depth)
    ensures col.Some? ==> col.value in ValidMoves(g)
  {
    if Terminal(g, depth) then None
    else
      DrawIffNoValidMoves(g);
      var vs := ChildValues(g, depth, maximizing);
      Some(ValidMoves(g)[if maximizing then FirstMaxIndex(vs) else FirstMinIndex(vs)])
  }

  /** In a strictly ascending list a smaller element sits at a smaller index. */
  lemma AscendingOrder(ms: seq<int>, i: int, k: int)
    requires forall x, y :: 0 <= x < y < |ms| ==> ms[x] < ms[y]
    requires 0 <= i < |ms| && 0 <= k < |ms| && ms[i] < ms[k]
    ensures i < k
  {
  }

  /** A non-terminal position's value is the best of its children's values. */
  lemma ValueOfInnerNode(g: Grid, depth: nat, maximizing: bool)
    requires !Terminal(g, depth)
    ensures ValidMoves(g) != []
    ensures MinimaxValue(g, depth, maximizing) ==
            if maximizing then SeqMax(ChildValues(g, depth, maximizing)) else SeqMin(ChildValues(g, depth, maximizing))
  {
    DrawIffNoValidMoves(g);
  }

  /** The position of a valid move in the list of valid moves. */
  lemma IndexOfMove(g: Grid, col: int) returns (i: int)
    requires col in ValidMoves(g)
    ensures 0 <= i < |ValidMoves(g)| && ValidMoves(g)[i] == col
  {
    i :| 0 <= i < |ValidMoves(g)| && ValidMoves(g)[i] == col;
  }

  /** The chosen column's child has the position's minimax value. */
  lemma BestMoveAchievesValue(g: Grid, depth: nat, maximizing: bool)
    requires !Terminal(g, depth)
    ensures ChildValue(g, depth, maximizing, BestMove(g, depth, maximizing).value) == MinimaxValue(g, depth, maximizing)
  {
    ValueOfInnerNode(g, depth, maximizing);
    var vs := ChildValues(g, depth, maximizing);
    var k := if maximizing then FirstMaxIndex(vs) else FirstMinIndex(vs);
    assert BestMove(g, depth, maximizing).value == ValidMoves(g)[k];
    ChildValueAt(g, depth, maximizing, k);
  }

  /** No valid column's child is better for the side to move than the minimax value. */
  lemma NoColumnBetter(g: Grid, depth: nat, maximizing: bool, col: int)
    requires !Terminal(g, depth) && col in ValidMoves(g)
    ensures if maximizing then ChildValue(g, depth, maximizing, col) <= MinimaxValue(g, depth, maximizing)
            else MinimaxValue(g, depth, maximizing) <= ChildValue(g, depth, maximizing, col)
  {
    ValueOfInnerNode(g, depth, maximizing);
    var i := IndexOfMove(g, col);
    ChildValueAt(g, depth, maximizing, i);
  }

  /** Every valid column to the left of the chosen one is strictly worse. */
  lemma EarlierColumnWorse(g: Grid, depth: nat, maximizing: bool, col: int)
    requires !Terminal(g, depth) && col in ValidMoves(g)
    ensures col < BestMove(g, depth, maximizing).value ==>
              if maximizing then ChildValue(g, depth, maximizing, col) < MinimaxValue(g, depth, maximizing)
              else MinimaxValue(g, depth, maximizing) < ChildValue(g, depth, maximizing, col)
  {
    ValueOfInnerNode(g, depth, maximizing);
    ValidMovesSpec(g);
    var vs := ChildValues(g, depth, maximizing);
    var k := if maximizing then FirstMaxIndex(vs) else FirstMinIndex(vs);
    assert BestMove(g, depth, maximizing).value == ValidMoves(g)[k];
    var i := IndexOfMove(g, col);
    if col < BestMove(g, depth, maximizing).value {
      AscendingOrder(ValidMoves(g), i, k);
      ChildValueAt(g, depth, maximizing, i);
    }
  }

  /** The chosen column achieves the minimax value, no valid column does better, and every
      valid column before it does strictly worse. */
  lemma BestMoveIsFirstOptimal(g: Grid, depth: nat, maximizing: bool)
    requires !Terminal(g, depth)
    ensures ChildValue(g, depth, maximizing, BestMove(g, depth, maximizing).value) == MinimaxValue(g, depth, maximizing)
    ensures forall col :: col in ValidMoves(g) ==>
              if maximizing then ChildValue(g, depth, maximizing, col) <= MinimaxValue(g, depth, maximizing)
              else MinimaxValue(g, depth, maximizing) <= ChildValue(g, depth, maximizing, col)
    ensures forall col :: col in ValidMoves(g) && col < BestMove(g, depth, maximizing).value ==>
              if maximizing then ChildValue(g, depth, maximizing, col) < MinimaxValue(g, depth, maximizing)
              else MinimaxValue(g, depth, maximizing) < ChildValue(g, depth, maximizing, col)
  {
    BestMoveAchievesValue(g, depth, maximizing);
    forall col | col in ValidMoves(g) {
      NoColumnBetter(g, depth, maximizing, col);
    }
    forall col | col in ValidMoves(g) && col < BestMove(g, depth, maximizing).value {
      EarlierColumnWorse(g, depth, maximizing, col);
    }
  }

  // ---------------------------------------------------------------- alpha-beta

  /** What an alpha-beta search with window (alpha, beta) that returns r promises about
      the true value v: a result at or below alpha bounds v from above, one at or above
      beta bounds v from below, and one strictly inside the window is exact. */
  predicate FailSoft(alpha: Ext, beta: Ext, r: int, v: int) {
    (!Below(alpha, Fin(r)) ==> v <= r) &&
    (!Below(Fin(r), beta) ==> r <= v) &&
    (Below(alpha, Fin(r)) && Below(Fin(r), beta) ==> v == r)
  }

  /** The value m sits at index k of the first n entries of vs, none of them exceeds it,
      and every entry before k is strictly smaller. */
  predicate FirstArgMax(vs: seq<int>, n: int, m: int, k: int) {
    0 <= k < n <= |vs| && vs[k] == m &&
    (forall j :: 0 <= j < n ==> vs[j] <= m) &&
    (forall j :: 0 <= j < k ==> vs[j] < m)
  }

  /** The mirror image: the first index of a smallest entry among the first n. */
  predicate FirstArgMin(vs: seq<int>, n: int, m: int, k: int) {
    0 <= k < n <= |vs| && vs[k] == m &&
    (forall j :: 0 <= j < n ==> m <= vs[j]) &&
    (forall j :: 0 <= j < k ==> m < vs[j])
  }

  /** A first arg-max of the whole list is what SeqMax and FirstMaxIndex compute. */
  lemma FirstArgMaxOfAll(vs: seq<int>, m: int, k: int)
    requires FirstArgMax(vs, |vs|, m, k)
    ensures SeqMax(vs) == m && FirstMaxIndex(vs) == k
  {
    // the first maximum index f holds m as well, and neither f < k nor k < f is possible
    assert vs[FirstMaxIndex(vs)] == m;
  }

  /** A first arg-min of the whole list is what SeqMin and FirstMinIndex compute. */
  lemma FirstArgMinOfAll(vs: seq<int>, m: int, k: int)
    requires FirstArgMin(vs, |vs|, m, k)
    ensures SeqMin(vs) == m && FirstMinIndex(vs) == k
  {
    assert vs[FirstMinIndex(vs)] == m;
  }

  /** The state of the maximizing loop after the first i children, whose true values are
      vs: the best score so far `best` was first reached at index k, column `bestCol`, and
      `a` is alpha raised by it. When the window is open, a best score at or below alpha
      bounds the children's values from above, and one above alpha is their exact first
      maximum. */
  predicate MaxLoop(alpha: Ext, beta: Ext, vs: seq<int>, ms: seq<int>, i: int,
                    best: Ext, bestCol: int, k: int, a: Ext) {
    |vs| == |ms| && 0 <= i <= |ms| &&
    ((i == 0 && best == NegInf) || (i > 0 && best.Fin?)) &&
    bestCol in ms && a == MaxExt(alpha, best) &&
    (Below(alpha, beta) ==> Below(a, beta)) &&
    (Below(alpha, beta) && i > 0 && !Below(alpha, best) ==> forall j :: 0 <= j < i ==> vs[j] <= best.n) &&
    (Below(alpha, beta) && i > 0 && Below(alpha, best) ==> FirstArgMax(vs, i, best.n, k) && bestCol == ms[k])
  }

  /** The mirror image for the minimizing loop, with `b` the lowered beta. */
  predicate MinLoop(alpha: Ext, beta: Ext, vs: seq<int>, ms: seq<int>, i: int,
                    best: Ext, bestCol: int, k: int, b: Ext) {
    |vs| == |ms| && 0 <= i <= |ms| &&
    ((i == 0 && best == PosInf) || (i > 0 && best.Fin?)) &&
    bestCol in ms && b == MinExt(beta, best) &&
    (Below(alpha, beta) ==> Below(alpha, b)) &&
    (Below(alpha, beta) && i > 0 && !Below(best, beta) ==> forall j :: 0 <= j < i ==> best.n <= vs[j]) &&
    (Below(alpha, beta) && i > 0 && Below(best, beta) ==> FirstArgMin(vs, i, best.n, k) && bestCol == ms[k])
  }

  /** What the maximizing loop delivers for the true child values vs of the moves ms: a
      valid column, a score fail-soft for their maximum, and the first maximizing column
      whenever the score lies strictly inside the window. */
  predicate MaxResult(alpha: Ext, beta: Ext, vs: seq<int>, ms: seq<int>, col: int, value: int) {
    0 < |vs| == |ms| && col in ms &&
    (Below(alpha, beta) ==> FailSoft(alpha, beta, value, SeqMax(vs))) &&
    (Below(alpha, Fin(value)) && Below(Fin(value), beta) ==> col == ms[FirstMaxIndex(vs)])
  }

  /** The mirror image for the minimizing loop. */
  predicate MinResult(alpha: Ext, beta: Ext, vs: seq<int>, ms: seq<int>, col: int, value: int) {
    0 < |vs| == |ms| && col in ms &&
    (Below(alpha, beta) ==> FailSoft(alpha, beta, value, SeqMin(vs))) &&
    (Below(alpha, Fin(value)) && Below(Fin(value), beta) ==> col == ms[FirstMinIndex(vs)])
  }

  /** One iteration of the maximizing loop, given a child score r that is fail-soft for the
      child's true value in the window (a, beta): the score replaces the best one when it
      is strictly larger; if alpha then reaches beta the loop may stop with its result, and
      otherwise the loop state holds for i + 1 children. */
  lemma MaxIteration(alpha: Ext, beta: Ext, vs: seq<int>, ms: seq<int>, i: int,
                     best: Ext, bestCol: int, k: int, a: Ext, r: int)
    requires MaxLoop(alpha, beta, vs, ms, i, best, bestCol, k, a) && i < |ms|
    requires Below(a, beta) ==> FailSoft(a, beta, r, vs[i])
    ensures var up := Below(best, Fin(r));
            var nb := if up then Fin(r) else best;
            var nc := if up then ms[i] else bestCol;
            var nk := if up then i else k;
            nb.Fin? &&
            (!Below(MaxExt(a, nb), beta) ==> MaxResult(alpha, beta, vs, ms, nc, nb.n)) &&
            (Below(MaxExt(a, nb), beta) ==> MaxLoop(alpha, beta, vs, ms, i + 1, nb, nc, nk, MaxExt(a, nb)))
  {
    var up := Below(best, Fin(r));
    var nb := if up then Fin(r) else best;
    if Below(alpha, beta) && !Below(MaxExt(a, nb), beta) {
      // a cut-off: r reached beta, so it bounds the child's true value, and with it the
      // maximum, from below
      assert up && r <= vs[i] <= SeqMax(vs);
    }
  }

  /** One iteration of the minimizing loop. */
  lemma MinIteration(alpha: Ext, beta: Ext, vs: seq<int>, ms: seq<int>, i: int,
                     best: Ext, bestCol: int, k: int, b: Ext, r: int)
    requires MinLoop(alpha, beta, vs, ms, i, best, bestCol, k, b) && i < |ms|
    requires Below(alpha, b) ==> FailSoft(alpha, b, r, vs[i])
    ensures var down := Below(Fin(r), best);
            var nb := if down then Fin(r) else best;
            var nc := if down then ms[i] else bestCol;
            var nk := if down then i else k;
            nb.Fin? &&
            (!Below(alpha, MinExt(b, nb)) ==> MinResult(alpha, beta, vs, ms, nc, nb.n)) &&
            (Below(alpha, MinExt(b, nb)) ==> MinLoop(alpha, beta, vs, ms, i + 1, nb, nc, nk, MinExt(b, nb)))
  {
    var down := Below(Fin(r), best);
    var nb := if down then Fin(r) else best;
    if Below(alpha, beta) && !Below(alpha, MinExt(b, nb)) {
      assert down && SeqMin(vs) <= vs[i] <= r;
    }
  }

  /** A maximizing loop that ran through all children delivers its result. */
  lemma MaxDone(alpha: Ext, beta: Ext, vs: seq<int>, ms: seq<int>, best: Ext, bestCol: int, k: int, a: Ext)
    requires MaxLoop(alpha, beta, vs, ms, |ms|, best, bestCol, k, a) && ms != []
    ensures best.Fin? && MaxResult(alpha, beta, vs, ms, bestCol, best.n)
  {
    if Below(alpha, beta) && Below(alpha, best) {
      FirstArgMaxOfAll(vs, best.n, k);
    }
  }

  /** A minimizing loop that ran through all children delivers its result. */
  lemma MinDone(alpha: Ext, beta: Ext, vs: seq<int>, ms: seq<int>, best: Ext, bestCol: int, k: int, b: Ext)
    requires MinLoop(alpha, beta, vs, ms, |ms|, best, bestCol, k, b) && ms != []
    ensures best.Fin? && MinResult(alpha, beta, vs, ms, bestCol, best.n)
  {
    if Below(alpha, beta) && Below(best, beta) {
      FirstArgMinOfAll(vs, best.n, k);
    }
  }

  /** minimax(board, depth, alpha, beta, maximizing) with alpha-beta pruning. The board is
      never written: every child is searched on a fresh copy. Terminal positions score as
      the source says; otherwise the score is fail-soft with respect to the unpruned
      minimax value, and whenever it lies strictly inside (alpha, beta) the column is the
      one unpruned minimax picks. */
  method Minimax(board: array2<Cell>, depth: nat, alpha: Ext, beta: Ext, maximizing: bool)
    returns (col: Option<int>, value: int)
    requires IsBoard(board)
    decreases depth, 2
    ensures col.None? <==> Terminal(Snapshot(board), depth)
    ensures col.Some? ==> col.value in ValidMoves(Snapshot(board))
    ensures Winner(Snapshot(board)) == AI ==> value == WIN_SCORE
    ensures Winner(Snapshot(board)) == HUMAN ==> value == -WIN_SCORE
    ensures Winner(Snapshot(board)) == EMPTY && (IsDraw(Snapshot(board)) || depth == 0) ==>
              value == EvaluateBoard(Snapshot(board))
    ensures Below(alpha, beta) ==> FailSoft(alpha, beta, value, MinimaxValue(Snapshot(board), depth, maximizing))
    ensures Below(alpha, Fin(value)) && Below(Fin(value), beta) ==> col == BestMove(Snapshot(board), depth, maximizing)
    ensures alpha == NegInf && beta == PosInf ==>
              value == MinimaxValue(Snapshot(board), depth, maximizing) && col == BestMove(Snapshot(board), depth, maximizing)
  {
    var g := Snapshot(board);
    var winner := Winner(g);
    if winner == AI {
      return None, WIN_SCORE;
    } else if winner == HUMAN {
      return None, -WIN_SCORE;
    } else if IsDraw(g) || depth == 0 {
      return None, EvaluateBoard(g);
    }
    ValueOfInnerNode(g, depth, maximizing);
    var c;
    if maximizing {
      c, value := SearchMax(board, depth, alpha, beta);
    } else {
      c, value := SearchMin(board, depth, alpha, beta);
    }
    col := Some(c);
  }

  /** The maximizing loop of minimax: the children in ascending column order, each searched
      with the window (alpha raised by the best score so far, beta), stopping once alpha
      reaches beta. The result is fail-soft for the best child value, and when it lies
      strictly inside the window the column is the first one reaching that value. */
  method SearchMax(board: array2<Cell>, depth: nat, alpha: Ext, beta: Ext) returns (col: int, value: int)
    requires IsBoard(board)
    requires depth > 0 && ValidMoves(Snapshot(board)) != []
    decreases depth, 1
    ensures MaxResult(alpha, beta, ChildValues(Snapshot(board), depth, true), ValidMoves(Snapshot(board)), col, value)
  {
    var g := Snapshot(board);
    ghost var vs := ChildValues(g, depth, true);
    var validMoves := ValidMoves(g);
    var best: Ext := NegInf;
    var bestCol := validMoves[0];
    ghost var k := 0;
    var a := alpha;
    var i := 0;
    while i < |validMoves|
      invariant MaxLoop(alpha, beta, vs, validMoves, i, best, bestCol, k, a)
    {
      var newScore := ScoreChild(board, depth, i, a, beta, true);
      MaxIteration(alpha, beta, vs, validMoves, i, best, bestCol, k, a, newScore);
      if Below(best, Fin(newScore)) {
        best := Fin(newScore);
        bestCol := validMoves[i];
        k := i;
      }
      a := MaxExt(a, best);
      if !Below(a, beta) {
        return bestCol, best.n;
      }
      i := i + 1;
    }
    MaxDone(alpha, beta, vs, validMoves, best, bestCol, k, a);
    return bestCol, best.n;
  }

  /** The minimizing loop of minimax, the mirror image of SearchMax relative to beta. */
  method SearchMin(board: array2<Cell>, depth: nat, alpha: Ext, beta: Ext) returns (col: int, value: int)
    requires IsBoard(board)
    requires depth > 0 && ValidMoves(Snapshot(board)) != []
    decreases depth, 1
    ensures MinResult(alpha, beta, ChildValues(Snapshot(board), depth, false), ValidMoves(Snapshot(board)), col, value)
  {
    var g := Snapshot(board);
    ghost var vs := ChildValues(g, depth, false);
    var validMoves := ValidMoves(g);
    var best: Ext := PosInf;
    var bestCol := validMoves[0];
    ghost var k := 0;
    var b := beta;
    var i := 0;
    while i < |validMoves|
      invariant MinLoop(alpha, beta, vs, validMoves, i, best, bestCol, k, b)
    {
      var newScore := ScoreChild(board, depth, i, alpha, b, false);
      MinIteration(alpha, beta, vs, validMoves, i, best, bestCol, k, b, newScore);
      if Below(Fin(newScore), best) {
        best := Fin(newScore);
        bestCol := validMoves[i];
        k := i;
      }
      b := MinExt(b, best);
      if !Below(alpha, b) {
        return bestCol, best.n;
      }
      i := i + 1;
    }
    MinDone(alpha, beta, vs, validMoves, best, bestCol, k, b);
    return bestCol, best.n;
  }

  /** One child of the search: drop the mover's piece into the i-th valid column on a fresh
      copy of the board and search the copy one level deeper with the other side to move. */
  method ScoreChild(board: array2<Cell>, depth: nat, i: int, alpha: Ext, beta: Ext, maximizing: bool)
    returns (score: int)
    requires IsBoard(board)
    requires depth > 0 && 0 <= i < |ValidMoves(Snapshot(board))|
    decreases depth, 0
    ensures Below(alpha, beta) ==> FailSoft(alpha, beta, score, ChildValues(Snapshot(board), depth, maximizing)[i])
  {
    ChildValueAt(Snapshot(board), depth, maximizing, i);
    var tempBoard := CopyBoard(board);
    var _ := ApplyMove(tempBoard, ValidMoves(Snapshot(board))[i], Mover(maximizing));
    var _, s := Minimax(tempBoard, ChildDepth(depth), alpha, beta, !maximizing);
    score := s;
  }

  /** get_move: the root search at depth MAX_DEPTH with the full window. Its column is the
      one unpruned depth-limited minimax picks, and there is a column exactly when the board
      has no winner and its top row is not full. */
  method GetMove(board: array2<Cell>) returns (col: Option<int>)
    requires IsBoard(board)
    ensures col == BestMove(Snapshot(board), MAX_DEPTH, true)
    ensures col.Some? <==> Winner(Snapshot(board)) == EMPTY && !IsDraw(Snapshot(board))
    ensures col.Some? ==> col.value in ValidMoves(Snapshot(board))
  {
    var value;
    col, value := Minimax(board, MAX_DEPTH, NegInf, PosInf, true);
  }
}
