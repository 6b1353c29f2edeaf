/** The rules of game/rules.py: the four-cell windows, win detection by window sums, and
    the draw test. */
module Rules {
  import opened Board
  import opened Utils

  /** A run of four cells starting at (row, col) and stepping by (dr, dc). */
  datatype Window = Window(row: int, col: int, dr: int, dc: int)

  /** All four cells of the window lie on the board. */
  predicate InBounds(w: Window) {
    -1 <= w.dr <= 1 && -1 <= w.dc <= 1 &&
    0 <= w.row < ROWS && 0 <= w.row + 3 * w.dr < ROWS &&
    0 <= w.col < COLS && 0 <= w.col + 3 * w.dc < COLS
  }

  /** The four cells of a window, in the order the source lists them. */
  function Cells(g: Grid, w: Window): (cs: seq<Cell>)
    requires InBounds(w)
    ensures |cs| == 4
  {
    [g[w.row][w.col], g[w.row + w.dr][w.col + w.dc],
     g[w.row + 2 * w.dr][w.col + 2 * w.dc], g[w.row + 3 * w.dr][w.col + 3 * w.dc]]
  }

  /** A window whose four cells hold one and the same marker. */
  predicate Complete(g: Grid, w: Window)
    requires InBounds(w)
  {
    var cs := Cells(g, w);
    cs[0] != EMPTY && cs[0] == cs[1] == cs[2] == cs[3]
  }

  /** The sum of a window's cells. */
  function Sum4(cs: seq<Cell>): int
    requires |cs| == 4
  {
    cs[0] as int + cs[1] as int + cs[2] as int + cs[3] as int
  }

  /** For cells in {-1, 0, 1} the absolute value of the sum is 4 exactly when all four
      cells hold the same non-EMPTY marker, and the sign of the sum is that marker's. */
  lemma Sum4Uniform(cs: seq<Cell>)
    requires |cs| == 4
    ensures Abs(Sum4(cs)) == 4 <==> cs[0] != EMPTY && cs[0] == cs[1] == cs[2] == cs[3]
    ensures Abs(Sum4(cs)) == 4 ==> Sum4(cs) == 4 * (cs[0] as int)
  {
  }

  function Abs(x: int): int {
    if x < 0 then -x else x
  }

  /** The horizontal windows: rows top to bottom, then start columns left to right. */
  function Horizontal(): seq<Window> {
    seq(ROWS * (COLS - 3), k => Window(k / (COLS - 3), k % (COLS - 3), 0, 1))
  }

  /** The vertical windows: columns left to right, then start rows top to bottom. */
  function Vertical(): seq<Window> {
    seq(COLS * (ROWS - 3), k => Window(k % (ROWS - 3), k / (ROWS - 3), 1, 0))
  }

  /** The diagonals (r + i, c + i) for start rows 0..2. Row 0 is the top, so these run down
      and to the right, although the source's comment calls them bottom-left to top-right. */
  function DiagonalDown(): seq<Window> {
    seq((ROWS - 3) * (COLS - 3), k => Window(k / (COLS - 3), k % (COLS - 3), 1, 1))
  }

  /** The diagonals (r - i, c + i) for start rows 3..5: these run up and to the right. */
  function DiagonalUp(): seq<Window> {
    seq((ROWS - 3) * (COLS - 3), k => Window(3 + k / (COLS - 3), k % (COLS - 3), -1, 1))
  }

  /** The 69 windows in the order check_winner scans them: 24 horizontal, 21 vertical,
      12 + 12 diagonal, every one on the board. */
  function AllWindows(): (ws: seq<Window>)
    ensures |ws| == 69
    ensures forall k :: 0 <= k < |ws| ==> InBounds(ws[k])
  {
    Horizontal() + Vertical() + DiagonalDown() + DiagonalUp()
  }

  /** One of the four directions the scan uses: right, down, down-right, up-right. */
  predicate Direction(dr: int, dc: int) {
    (dr == 0 && dc == 1) || (dr == 1 && dc == 0) || (dr == 1 && dc == 1) || (dr == -1 && dc == 1)
  }

  /** Every line of four cells on the board, in one of the four directions, is one of the
      scanned windows. */
  lemma LineIsWindow(w: Window)
    requires Direction(w.dr, w.dc) && InBounds(w)
    ensures w in AllWindows()
  {
    var ws := AllWindows();
    if w.dr == 0 {
      var k := w.row * 4 + w.col;
      assert ws[k] == Horizontal()[k];
    } else if w.dc == 0 {
      var k := w.col * 3 + w.row;
      assert ws[24 + k] == Vertical()[k];
    } else if w.dr == 1 {
      var k := w.row * 4 + w.col;
      assert ws[45 + k] == DiagonalDown()[k];
    } else {
      var k := (w.row - 3) * 4 + w.col;
      assert ws[57 + k] == DiagonalUp()[k];
    }
  }

  /** Every scanned window is a line of four in one of the four directions. */
  lemma WindowIsLine(k: int)
    requires 0 <= k < |AllWindows()|
    ensures Direction(AllWindows()[k].dr, AllWindows()[k].dc)
  {
  }

  /** The scan of check_winner from window i on: the first cell of the first window whose
      sum has absolute value 4, or EMPTY when there is none. */
  function ScanWindows(g: Grid, ws: seq<Window>, i: int): Cell
    requires forall k :: 0 <= k < |ws| ==> InBounds(ws[k])
    requires 0 <= i <= |ws|
    decreases |ws| - i
  {
    if i == |ws| then EMPTY
    else
      var window := Cells(g, ws[i]);
      if Abs(Sum4(window)) == 4 then window[0] else ScanWindows(g, ws, i + 1)
  }

  /** The index of the first complete window from i on, or |ws| when there is none. */
  function FirstComplete(g: Grid, ws: seq<Window>, i: int): int
    requires forall k :: 0 <= k < |ws| ==> InBounds(ws[k])
    requires 0 <= i <= |ws|
    decreases |ws| - i
  {
    if i == |ws| then |ws|
    else if Complete(g, ws[i]) then i
    else FirstComplete(g, ws, i + 1)
  }

  /** The scan from window i stops at the first complete window and reports its marker,
      and reports EMPTY when no window from i on is complete. */
  lemma {:induction false} ScanFindsFirstComplete(g: Grid, ws: seq<Window>, i: int)
    requires forall k :: 0 <= k < |ws| ==> InBounds(ws[k])
    requires 0 <= i <= |ws|
    decreases |ws| - i
    ensures var j := FirstComplete(g, ws, i);
            i <= j <= |ws| && (j < |ws| ==> Complete(g, ws[j])) &&
            (forall k :: i <= k < j ==> !Complete(g, ws[k])) &&
            ScanWindows(g, ws, i) == if j == |ws| then EMPTY else Cells(g, ws[j])[0]
  {
    if i < |ws| {
      Sum4Uniform(Cells(g, ws[i]));
      if !Complete(g, ws[i]) {
        ScanFindsFirstComplete(g, ws, i + 1);
      }
    }
  }

  /** check_winner: the scan over AllWindows() from the first window. */
  function Winner(g: Grid): Cell {
    ScanWindows(g, AllWindows(), 0)
  }

  /** check_winner is EMPTY when no window is complete, and otherwise the marker of the
      first complete window in scan order. */
  lemma WinnerIsFirstComplete(g: Grid)
    ensures Winner(g) == EMPTY <==> forall j :: 0 <= j < 69 ==> !Complete(g, AllWindows()[j])
    ensures Winner(g) != EMPTY ==> exists j :: 0 <= j < 69 && Complete(g, AllWindows()[j]) &&
                                       Cells(g, AllWindows()[j])[0] == Winner(g) &&
                                       forall k :: 0 <= k < j ==> !Complete(g, AllWindows()[k])
  {
    ScanFindsFirstComplete(g, AllWindows(), 0);
    var j := FirstComplete(g, AllWindows(), 0);
    if j < 69 {
      assert Cells(g, AllWindows()[j])[0] != EMPTY;
    }
  }

  /** is_draw: no cell of row 0 is EMPTY. The winner is not consulted. */
  predicate IsDraw(g: Grid) {
    forall c :: 0 <= c < COLS ==> g[0][c] != EMPTY
  }

  /** A non-EMPTY result of check_winner is a marker owning a complete line of four in one
      of the four directions; conversely any such line makes the result non-EMPTY. */
  lemma WinnerIffLine(g: Grid)
    ensures Winner(g) != EMPTY ==> exists w: Window :: Direction(w.dr, w.dc) && InBounds(w) && Complete(g, w) && Cells(g, w)[0] == Winner(g)
    ensures (exists w: Window :: Direction(w.dr, w.dc) && InBounds(w) && Complete(g, w)) ==> Winner(g) != EMPTY
  {
    WinnerIsFirstComplete(g);
    if Winner(g) != EMPTY {
      var j :| 0 <= j < 69 && Complete(g, AllWindows()[j]) && Cells(g, AllWindows()[j])[0] == Winner(g);
      WindowIsLine(j);
    }
    if w: Window :| Direction(w.dr, w.dc) && InBounds(w) && Complete(g, w) {
      LineIsWindow(w);
      var j :| 0 <= j < |AllWindows()| && AllWindows()[j] == w;
      assert !(forall j :: 0 <= j < 69 ==> !Complete(g, AllWindows()[j]));
    }
  }

  /** The empty board has no winner. */
  lemma NoWinnerOnEmptyGrid()
    ensures Winner(EmptyGrid()) == EMPTY
  {
    WinnerIsFirstComplete(EmptyGrid());
  }

  /** Four equal markers in columns 0..3 of the bottom row, with rows 0..4 empty, make
      check_winner report that marker. */
  lemma BottomRowWin(g: Grid, p: Cell)
    requires p != EMPTY
    requires forall r, c :: 0 <= r < ROWS - 1 && 0 <= c < COLS ==> g[r][c] == EMPTY
    requires g[5][0] == p && g[5][1] == p && g[5][2] == p && g[5][3] == p
    ensures Winner(g) == p
  {
    WinnerIsFirstComplete(g);
    var ws := AllWindows();
    assert ws[20] == Window(5, 0, 0, 1);
    assert Complete(g, ws[20]);
    forall k | 0 <= k < 20
      ensures !Complete(g, ws[k])
    {
      assert ws[k] == Horizontal()[k];
      assert ws[k].row < 5;
    }
  }

  /** is_draw holds exactly when there is no valid move. */
  lemma DrawIffNoValidMoves(g: Grid)
    ensures IsDraw(g) <==> ValidMoves(g) == []
  {
    ValidMovesSpec(g);
    if ValidMoves(g) != [] {
      assert ValidMoves(g)[0] in ValidMoves(g);
    }
    if !IsDraw(g) {
      var c :| 0 <= c < COLS && g[0][c] == EMPTY;
      assert c in ValidMoves(g);
    }
  }

  /** Under gravity a draw is a completely filled board. */
  lemma DrawMeansFull(g: Grid)
    requires Gravity(g)
    requires IsDraw(g)
    ensures forall r, c :: 0 <= r < ROWS && 0 <= c < COLS ==> g[r][c] != EMPTY
  {
    forall r, c | 0 <= r < ROWS && 0 <= c < COLS
      ensures g[r][c] != EMPTY
    {
      if r > 0 {
        assert g[0][c] != EMPTY;
      }
    }
  }

  /** is_draw does not look for a winner: a full board on which HUMAN owns a line is
      reported as a draw as well. */
  lemma DrawIgnoresWinner()
    ensures exists g: Grid :: IsDraw(g) && Winner(g) == HUMAN
  {
    var g: Grid := seq(ROWS, _ => seq(COLS, _ => HUMAN));
    assert Complete(g, AllWindows()[0]);
    WinnerIsFirstComplete(g);
    assert IsDraw(g) && Winner(g) == HUMAN;
  }
}
