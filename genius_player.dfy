/**
 * The genius computer player (Ex02-TicTacToe/GeniusPlayer.java): extend a run of its own mark
 * along a row, else a column, else a diagonal walked down-right, else a diagonal walked
 * up-left, else fall back to a chosen cell.
 *
 * Its `fillLines` is the same method as the clever player's (`CleverPlayers.FillLines`).
 */
module GeniusPlayers {
  import opened Wrappers
  import opened Boards
  import opened Moves
  import opened CleverPlayers

  // ---------------------------------------------------------------------------------------
  // Columns
  // ---------------------------------------------------------------------------------------

  /**
   * `fillCols`: `fillLines` with rows and columns exchanged. Succeeds exactly when some column
   * has a spot; then the first one in column-major order, at (row q, column i), and nothing
   * else, now holds `mark`; the cell above it already held `mark`.
   */
  method FillCols(board: Board, mark: Mark) returns (ok: bool)
    requires board.Valid() && mark != Blank
    modifies board.boardArr
    ensures ok <==> FirstSpot(Columns(old(board.Grid()), board.boardSize), mark, 0).Some?
    ensures ok ==> var (i, q) := FirstSpot(Columns(old(board.Grid()), board.boardSize), mark, 0).value;
                   At(old(board.Grid()), q - 1, i) == mark &&
                   board.Grid() == Set(old(board.Grid()), q, i, mark)
    ensures !ok ==> board.Grid() == old(board.Grid())
  {
    ghost var cols := Columns(board.Grid(), board.boardSize);
    var found, row, col := ScanCols(board, mark, cols);
    if found {
      assert cols[col][row - 1] == mark;
      ok := board.PutMark(mark, row, col);
    } else {
      ok := false;
    }
  }

  /**
   * The loops of `fillCols`: the first spot in column-major order, found at (row, col); `cols`
   * is the board's columns.
   */
  method ScanCols(board: Board, mark: Mark, ghost cols: Grid) returns (found: bool, row: int, col: int)
    requires board.Valid() && mark != Blank && cols == Columns(board.Grid(), board.boardSize)
    ensures found <==> FirstSpot(cols, mark, 0).Some?
    ensures found ==> FirstSpot(cols, mark, 0) == Some((col, row))
  {
    var n := board.boardSize;
    found, row, col := false, 0, 0;
    for i := 0 to n
      invariant !found
      invariant FirstSpot(cols, mark, 0) == FirstSpot(cols, mark, i)
    {
      found, row := SpotInColumn(board, mark, i, cols[i]);
      if found {
        col := i;
        return;
      }
    }
  }

  /** The two inner loops of `fillCols`: the first spot of column i, `line`, found in row `row`. */
  method SpotInColumn(board: Board, mark: Mark, i: int, ghost line: seq<Mark>) returns (found: bool, row: int)
    requires board.Valid() && mark != Blank && 0 <= i < board.boardSize
    requires |line| == board.boardSize && forall r :: 0 <= r < |line| ==> line[r] == board.boardArr[r, i]
    ensures found <==> FirstSpotInLine(line, mark, 1).Some?
    ensures found ==> FirstSpotInLine(line, mark, 1) == Some(row)
  {
    var n := board.boardSize;
    var j := 0;
    while j < n
      invariant 0 <= j <= n + 1
      invariant FirstSpotInLine(line, mark, 1) == FirstSpotInLine(line, mark, j + 1)
    {
      found, row := FollowRun(board, mark, i, line, j);
      if found {
        return;
      }
      j := row + 1;
    }
    return false, 0;
  }

  /**
   * The `while` loop of `fillCols` from row j of column i, `line`: it walks down the run of
   * `mark` starting there and reports the blank cell right below it, if any; otherwise `row`
   * is the first row at or after j that does not hold `mark`, and no spot lies up to the row
   * below it.
   */
  method FollowRun(board: Board, mark: Mark, i: int, ghost line: seq<Mark>, j0: int) returns (found: bool, row: int)
    requires board.Valid() && mark != Blank && 0 <= i < board.boardSize && 0 <= j0 < board.boardSize
    requires |line| == board.boardSize && forall r :: 0 <= r < |line| ==> line[r] == board.boardArr[r, i]
    ensures found ==> FirstSpotInLine(line, mark, j0 + 1) == Some(row)
    ensures !found ==> j0 <= row <= board.boardSize
    ensures !found ==> FirstSpotInLine(line, mark, j0 + 1) == FirstSpotInLine(line, mark, row + 2)
  {
    var n := board.boardSize;
    var j := j0;
    while board.GetMark(j, i) == mark
      invariant j0 <= j <= n
      invariant FirstSpotInLine(line, mark, j0 + 1) == FirstSpotInLine(line, mark, j + 1)
      decreases n - j
    {
      j := j + 1;
      if j < n && board.GetMark(j, i) == Blank {
        return true, j;
      }
    }
    SkipNonSpot(line, mark, j + 1);
    return false, j;
  }

  /** A position that is not a spot can be passed over in the search for the first one. */
  lemma SkipNonSpot(line: seq<Mark>, mark: Mark, q: nat)
    requires !IsSpot(line, mark, q)
    ensures FirstSpotInLine(line, mark, q) == FirstSpotInLine(line, mark, q + 1)
  {
  }

  // ---------------------------------------------------------------------------------------
  // Diagonals
  // ---------------------------------------------------------------------------------------

  datatype Direction = DownRight | UpLeft

  /** A coordinate k steps from x along `dir`. */
  function Step(x: int, dir: Direction, k: int): int
  {
    if dir == DownRight then x + k else x - k
  }

  /**
   * The number of steps from (i, j) along `dir`, k or more, to the first cell that does not
   * hold `mark` (cells off the grid are blank, so the walk ends).
   */
  function WalkEnd(g: Grid, mark: Mark, i: int, j: int, dir: Direction, k: nat): (e: nat)
    requires mark != Blank
    ensures k <= e
    ensures At(g, Step(i, dir, e), Step(j, dir, e)) != mark
    ensures forall s :: k <= s < e ==> At(g, Step(i, dir, s), Step(j, dir, s)) == mark
    decreases if dir == DownRight then |g| - i - k else i - k
  {
    if At(g, Step(i, dir, k), Step(j, dir, k)) != mark then k
    else WalkEnd(g, mark, i, j, dir, k + 1)
  }

  /**
   * Where the walk from (i, j) wants to put `mark`: when (i, j) holds `mark`, the first cell
   * along `dir` past the run, provided both its coordinates are below n and it reads blank.
   * A walk up-left can thus end above or left of the grid.
   */
  function DiagTarget(g: Grid, n: nat, mark: Mark, dir: Direction, i: int, j: int): (t: Option<(int, int)>)
    requires mark != Blank
    ensures t.Some? ==> t.value.0 < n && t.value.1 < n && At(g, t.value.0, t.value.1) == Blank &&
                        At(g, Step(t.value.0, dir, -1), Step(t.value.1, dir, -1)) == mark
  {
    if At(g, i, j) != mark then None
    else
      var e := WalkEnd(g, mark, i, j, dir, 1);
      var r, c := Step(i, dir, e), Step(j, dir, e);
      assert Step(r, dir, -1) == Step(i, dir, e - 1) && Step(c, dir, -1) == Step(j, dir, e - 1);
      if r < n && c < n && At(g, r, c) == Blank then Some((r, c)) else None
  }

  /** The first target of the walks starting in row i, from column j on. */
  function FirstDiagTargetInRow(g: Grid, n: nat, mark: Mark, dir: Direction, i: int, j: nat): (t: Option<(int, int)>)
    requires mark != Blank
    ensures t.Some? ==> t.value.0 < n && t.value.1 < n && At(g, t.value.0, t.value.1) == Blank &&
                        At(g, Step(t.value.0, dir, -1), Step(t.value.1, dir, -1)) == mark
    decreases n - j
  {
    if j >= n then None
    else if DiagTarget(g, n, mark, dir, i, j).Some? then DiagTarget(g, n, mark, dir, i, j)
    else FirstDiagTargetInRow(g, n, mark, dir, i, j + 1)
  }

  /** The first target of the walks starting from row i on, in row-major order. */
  function FirstDiagTarget(g: Grid, n: nat, mark: Mark, dir: Direction, i: nat): (t: Option<(int, int)>)
    requires mark != Blank
    ensures t.Some? ==> t.value.0 < n && t.value.1 < n && At(g, t.value.0, t.value.1) == Blank &&
                        At(g, Step(t.value.0, dir, -1), Step(t.value.1, dir, -1)) == mark
    decreases n - i
  {
    if i >= n then None
    else if FirstDiagTargetInRow(g, n, mark, dir, i, 0).Some? then FirstDiagTargetInRow(g, n, mark, dir, i, 0)
    else FirstDiagTarget(g, n, mark, dir, i + 1)
  }

  lemma {:induction false} DownRightTargetInRowOnBoard(g: Grid, n: nat, mark: Mark, i: nat, j: nat)
    requires mark != Blank && FirstDiagTargetInRow(g, n, mark, DownRight, i, j).Some?
    ensures InRange(n, FirstDiagTargetInRow(g, n, mark, DownRight, i, j).value.0,
                    FirstDiagTargetInRow(g, n, mark, DownRight, i, j).value.1)
    decreases n - j
  {
    if DiagTarget(g, n, mark, DownRight, i, j).None? {
      DownRightTargetInRowOnBoard(g, n, mark, i, j + 1);
    }
  }

  /** A down-right walk starts on the board and moves away from row and column 0: its target is on the board. */
  lemma {:induction false} DownRightTargetOnBoard(g: Grid, n: nat, mark: Mark, i: nat)
    requires mark != Blank && FirstDiagTarget(g, n, mark, DownRight, i).Some?
    ensures InRange(n, FirstDiagTarget(g, n, mark, DownRight, i).value.0,
                    FirstDiagTarget(g, n, mark, DownRight, i).value.1)
    decreases n - i
  {
    if FirstDiagTargetInRow(g, n, mark, DownRight, i, 0).Some? {
      DownRightTargetInRowOnBoard(g, n, mark, i, 0);
    } else {
      DownRightTargetOnBoard(g, n, mark, i + 1);
    }
  }

  lemma {:induction false} TopRowMarkInRow(g: Grid, n: nat, mark: Mark, j: nat, j0: nat)
    requires mark != Blank && j <= j0 < n && At(g, 0, j0) == mark
    requires forall c :: j <= c < j0 ==> At(g, 0, c) != mark
    ensures FirstDiagTargetInRow(g, n, mark, UpLeft, 0, j) == Some((-1, j0 - 1))
    decreases j0 - j
  {
    if j < j0 {
      TopRowMarkInRow(g, n, mark, j + 1, j0);
    } else {
      assert WalkEnd(g, mark, 0, j0, UpLeft, 1) == 1;
    }
  }

  /**
   * The up-left scan gives up at the top edge: when `mark` occurs in row 0, the walk from its
   * first occurrence leaves the board, so `fillDiagonalsLeft` tries an off-board cell and
   * returns false, whatever spots the rest of the board has.
   */
  lemma TopRowMarkStopsUpLeftScan(g: Grid, n: nat, mark: Mark, j0: nat)
    requires mark != Blank && j0 < n && At(g, 0, j0) == mark
    requires forall c :: 0 <= c < j0 ==> At(g, 0, c) != mark
    ensures FirstDiagTarget(g, n, mark, UpLeft, 0) == Some((-1, j0 - 1))
    ensures !InRange(n, -1, j0 - 1)
  {
    TopRowMarkInRow(g, n, mark, 0, j0);
  }

  /** The state of a walk from (i, j) after k >= 1 steps that has not reached its target. */
  predicate Walking(g: Grid, n: nat, mark: Mark, dir: Direction, i: int, j: int, k: nat)
    requires mark != Blank
  {
    k >= 1 ==>
      At(g, i, j) == mark && WalkEnd(g, mark, i, j, dir, 1) == WalkEnd(g, mark, i, j, dir, k) &&
      !(Step(i, dir, k) < n && Step(j, dir, k) < n && At(g, Step(i, dir, k), Step(j, dir, k)) == Blank)
  }

  lemma WalkOn(g: Grid, n: nat, mark: Mark, dir: Direction, i: int, j: int, k: nat)
    requires mark != Blank && Walking(g, n, mark, dir, i, j, k)
    requires At(g, Step(i, dir, k), Step(j, dir, k)) == mark
    ensures k >= 1 ==> WalkEnd(g, mark, i, j, dir, 1) == WalkEnd(g, mark, i, j, dir, k + 1)
    ensures k == 0 ==> At(g, i, j) == mark
  {
  }

  /** A walk that reaches a blank cell of the board has found the target of its start. */
  lemma WalkFound(g: Grid, n: nat, mark: Mark, dir: Direction, i: int, j: int, k: nat)
    requires mark != Blank && k >= 1 && At(g, i, j) == mark
    requires WalkEnd(g, mark, i, j, dir, 1) == WalkEnd(g, mark, i, j, dir, k)
    requires Step(i, dir, k) < n && Step(j, dir, k) < n && At(g, Step(i, dir, k), Step(j, dir, k)) == Blank
    ensures DiagTarget(g, n, mark, dir, i, j) == Some((Step(i, dir, k), Step(j, dir, k)))
  {
  }

  /** A walk that stops elsewhere leaves its start without a target. */
  lemma WalkStopped(g: Grid, n: nat, mark: Mark, dir: Direction, i: int, j: int, k: nat)
    requires mark != Blank && Walking(g, n, mark, dir, i, j, k)
    requires At(g, Step(i, dir, k), Step(j, dir, k)) != mark
    ensures DiagTarget(g, n, mark, dir, i, j).None?
  {
  }

  /**
   * The inner `while` of the diagonal scans: walks from (i, j) along `dir` while the cells hold
   * `mark`; reports the end of the walk when both its coordinates are below n and it reads
   * blank, which is the target of (i, j).
   */
  method WalkFrom(board: Board, ghost g: Grid, mark: Mark, dir: Direction, i: nat, j: nat)
    returns (hit: bool, row: int, col: int)
    requires board.Valid() && board.Grid() == g
    requires mark != Blank && i < board.boardSize && j < board.boardSize
    ensures hit <==> DiagTarget(g, board.boardSize, mark, dir, i, j).Some?
    ensures hit ==> DiagTarget(g, board.boardSize, mark, dir, i, j) == Some((row, col))
  {
    var n := board.boardSize;
    var k := 0;
    while board.GetMark(Step(i, dir, k), Step(j, dir, k)) == mark
      invariant 0 <= k <= n
      invariant Walking(g, n, mark, dir, i, j, k)
      decreases n - k
    {
      WalkOn(g, n, mark, dir, i, j, k);
      k := k + 1;
      if Step(i, dir, k) < n && Step(j, dir, k) < n && board.GetMark(Step(i, dir, k), Step(j, dir, k)) == Blank {
        WalkFound(g, n, mark, dir, i, j, k);
        return true, Step(i, dir, k), Step(j, dir, k);
      }
    }
    WalkStopped(g, n, mark, dir, i, j, k);
    return false, 0, 0;
  }

  /**
   * The scan shared by `fillDiagonalsRight` and `fillDiagonalsLeft`, which differ only in the
   * direction of the walk: walks from each start (i, j) in row-major order and stops at the
   * first walk that has a target. Reports that target, the first of the board.
   */
  method FindDiagTarget(board: Board, mark: Mark, dir: Direction, ghost g: Grid) returns (found: bool, row: int, col: int)
    requires board.Valid() && mark != Blank && g == board.Grid()
    ensures found <==> FirstDiagTarget(g, board.boardSize, mark, dir, 0).Some?
    ensures found ==> FirstDiagTarget(g, board.boardSize, mark, dir, 0) == Some((row, col))
  {
    var n := board.boardSize;
    for i := 0 to n
      invariant FirstDiagTarget(g, n, mark, dir, 0) == FirstDiagTarget(g, n, mark, dir, i)
    {
      found, row, col := FindDiagTargetInRow(board, mark, dir, g, i);
      if found {
        return;
      }
    }
    return false, 0, 0;
  }

  /** The inner loop of the diagonal scans: the walks from the starts in row i, left to right. */
  method FindDiagTargetInRow(board: Board, mark: Mark, dir: Direction, ghost g: Grid, i: int)
    returns (found: bool, row: int, col: int)
    requires board.Valid() && mark != Blank && g == board.Grid() && 0 <= i < board.boardSize
    ensures found <==> FirstDiagTargetInRow(g, board.boardSize, mark, dir, i, 0).Some?
    ensures found ==> FirstDiagTargetInRow(g, board.boardSize, mark, dir, i, 0) == Some((row, col))
  {
    var n := board.boardSize;
    for j := 0 to n
      invariant FirstDiagTargetInRow(g, n, mark, dir, i, 0) == FirstDiagTargetInRow(g, n, mark, dir, i, j)
    {
      found, row, col := WalkFrom(board, g, mark, dir, i, j);
      if found {
        return;
      }
    }
    return false, 0, 0;
  }

  /**
   * `fillDiagonalsRight`: puts `mark` at the first down-right target. Succeeds exactly when
   * there is one; it is always on the board, and then it alone now holds `mark`. Otherwise
   * nothing changes.
   */
  method FillDiagonalsRight(board: Board, mark: Mark) returns (ok: bool)
    requires board.Valid() && mark != Blank
    modifies board.boardArr
    ensures ok <==> FirstDiagTarget(old(board.Grid()), board.boardSize, mark, DownRight, 0).Some?
    ensures ok ==> var t := FirstDiagTarget(old(board.Grid()), board.boardSize, mark, DownRight, 0).value;
                   InRange(board.boardSize, t.0, t.1) &&
                   board.Grid() == Set(old(board.Grid()), t.0, t.1, mark)
    ensures !ok ==> board.Grid() == old(board.Grid())
  {
    var found, row, col := FindDiagTarget(board, mark, DownRight, board.Grid());
    if found {
      DownRightTargetOnBoard(board.Grid(), board.boardSize, mark, 0);
      ok := board.PutMark(mark, row, col);
    } else {
      ok := false;
    }
  }

  /**
   * `fillDiagonalsLeft`: puts `mark` at the first up-left target and returns what `putMark`
   * returns, which is false when that target is off the board (see
   * `TopRowMarkStopsUpLeftScan`); then, as when there is no target, nothing changes.
   */
  method FillDiagonalsLeft(board: Board, mark: Mark) returns (ok: bool)
    requires board.Valid() && mark != Blank
    modifies board.boardArr
    ensures ok <==> var t := FirstDiagTarget(old(board.Grid()), board.boardSize, mark, UpLeft, 0);
                    t.Some? && InRange(board.boardSize, t.value.0, t.value.1)
    ensures ok ==> var t := FirstDiagTarget(old(board.Grid()), board.boardSize, mark, UpLeft, 0).value;
                   board.Grid() == Set(old(board.Grid()), t.0, t.1, mark)
    ensures !ok ==> board.Grid() == old(board.Grid())
  {
    var found, row, col := FindDiagTarget(board, mark, UpLeft, board.Grid());
    if found {
      ok := board.PutMark(mark, row, col);
    } else {
      ok := false;
    }
  }

  // ---------------------------------------------------------------------------------------
  // A turn
  // ---------------------------------------------------------------------------------------

  /**
   * The cell a genius player's turn fills: the first row spot, else the first column spot,
   * else the down-right target, else the up-left target when it is on the board, else the
   * chosen cell.
   */
  function GeniusMove(g: Grid, n: nat, mark: Mark, choose: Chooser): (cell: (int, int))
    requires IsSquare(g, n) && mark != Blank && PicksBlank(choose, g, n, mark)
    ensures InRange(n, cell.0, cell.1) && At(g, cell.0, cell.1) == Blank
  {
    var cols := Columns(g, n);
    var right := FirstDiagTarget(g, n, mark, DownRight, 0);
    var left := FirstDiagTarget(g, n, mark, UpLeft, 0);
    if FirstSpot(g, mark, 0).Some? then FirstSpot(g, mark, 0).value
    else if FirstSpot(cols, mark, 0).Some? then (FirstSpot(cols, mark, 0).value.1, FirstSpot(cols, mark, 0).value.0)
    else if right.Some? then DownRightTargetOnBoard(g, n, mark, 0); right.value
    else if left.Some? && InRange(n, left.value.0, left.value.1) then left.value
    else choose(g, mark)
  }

  /**
   * `playTurn`: `fillLines`, `fillCols`, `fillDiagonalsRight`, `fillDiagonalsLeft` in that
   * order, stopping at the first that succeeds; the chosen cell only when all four fail.
   * Exactly one blank cell, the one `GeniusMove` names, now holds `mark`.
   */
  method PlayTurn(board: Board, mark: Mark, choose: Chooser)
    requires board.Valid() && mark != Blank
    requires PicksBlank(choose, board.Grid(), board.boardSize, mark)
    modifies board.boardArr
    ensures board.Grid() == Set(old(board.Grid()), GeniusMove(old(board.Grid()), board.boardSize, mark, choose).0,
                                GeniusMove(old(board.Grid()), board.boardSize, mark, choose).1, mark)
  {
    var done := FillLines(board, mark);
    if !done {
      done := FillCols(board, mark);
    }
    if !done {
      done := FillDiagonalsRight(board, mark);
    }
    if !done {
      done := FillDiagonalsLeft(board, mark);
    }
    if !done {
      ChosenTurn(board, mark, choose);
    }
  }
}
