/**
 * One game of tic-tac-toe (Ex02-TicTacToe/Game.java): the win-streak clamp, the row, column
 * and diagonal win checks, and the turn loop.
 *
 * A "line" is a sequence of marks (a row of the grid, or a column read top to bottom). A mark
 * wins a line when `winStreak` consecutive cells of the line hold it.
 */
module Games {
  import opened Boards
  import opened Moves
  import opened Players

  // ---------------------------------------------------------------------------------------
  // Win streaks
  // ---------------------------------------------------------------------------------------

  const DefaultBoardSize: nat := 4
  const DefaultWinStreak: nat := 3

  /** What the constructor makes of a requested streak: out-of-range requests become `size`. */
  function ClampStreak(size: nat, winStreak: int): (ws: int)
    ensures ValidStreak(size, ws)
    ensures 2 <= winStreak <= size ==> ws == winStreak
    ensures !(2 <= winStreak <= size) ==> ws == size
  {
    if winStreak < 2 || winStreak > size then size else winStreak
  }

  /** The streaks a game can hold: between 2 and the board size, or the size of a board below 2. */
  predicate ValidStreak(size: nat, ws: int)
  {
    0 <= ws <= size && (ws >= 2 || ws == size)
  }

  // ---------------------------------------------------------------------------------------
  // Rows and columns
  // ---------------------------------------------------------------------------------------

  /** `ws` consecutive cells of `line`, starting at `s`, all hold the non-blank mark `m`. */
  predicate HasRunAt(line: seq<Mark>, ws: int, s: int, m: Mark)
  {
    m != Blank && 0 <= s && s + ws <= |line| &&
    forall k :: s <= k < s + ws ==> line[k] == m
  }

  /** The mark of the leftmost winning run of `line` that starts at `s` or later, else `Blank`. */
  function LineWinnerFrom(line: seq<Mark>, ws: int, s: nat): Mark
    decreases |line| - s
  {
    if s >= |line| || s + ws > |line| then Blank
    else if HasRunAt(line, ws, s, line[s]) then line[s]
    else LineWinnerFrom(line, ws, s + 1)
  }

  function LineWinner(line: seq<Mark>, ws: int): Mark
  {
    LineWinnerFrom(line, ws, 0)
  }

  /** The winner of the first line, from index `i` on, that has one; `Blank` if none has. */
  function FirstWinnerFrom(lines: seq<seq<Mark>>, ws: int, i: nat): Mark
    decreases |lines| - i
  {
    if i >= |lines| then Blank
    else if LineWinner(lines[i], ws) != Blank then LineWinner(lines[i], ws)
    else FirstWinnerFrom(lines, ws, i + 1)
  }

  /**
   * The length of the run of equal non-blank marks that ends at position p (1 for a blank
   * cell or a cell that differs from its left neighbour): the value of `count` in the scan.
   */
  function RunLen(line: seq<Mark>, p: nat): (len: nat)
    requires p < |line|
    ensures 1 <= len <= p + 1
  {
    if p == 0 then 1
    else if line[p] != Blank && line[p] == line[p - 1] then RunLen(line, p - 1) + 1
    else 1
  }

  /** A count of c >= 2 at position p means the c cells ending at p hold the same non-blank mark. */
  lemma {:induction false} RunLenSound(line: seq<Mark>, p: nat, c: nat)
    requires p < |line| && 1 <= c <= RunLen(line, p)
    ensures c - 1 <= p
    ensures forall q :: p - c < q <= p ==> line[q] == line[p]
    ensures c >= 2 ==> line[p] != Blank
  {
    if c >= 2 {
      assert p > 0 && line[p] != Blank && line[p] == line[p - 1];
      RunLenSound(line, p - 1, c - 1);
    }
  }

  /** Every winning run is seen by the scan: the count reaches `ws` at the run's last cell. */
  lemma {:induction false} RunLenComplete(line: seq<Mark>, ws: int, s: nat, m: Mark, k: nat)
    requires HasRunAt(line, ws, s, m) && k < ws
    ensures RunLen(line, s + k) >= k + 1
  {
    if k > 0 {
      RunLenComplete(line, ws, s, m, k - 1);
      assert line[s + k] == m && line[s + k - 1] == m;
    }
  }

  lemma {:induction false} LineWinnerFromRun(line: seq<Mark>, ws: int, s0: nat, s: nat)
    requires s0 <= s < |line| && HasRunAt(line, ws, s, line[s])
    requires forall t :: s0 <= t < s ==> !HasRunAt(line, ws, t, line[t])
    ensures LineWinnerFrom(line, ws, s0) == line[s]
    decreases s - s0
  {
    if s0 < s {
      LineWinnerFromRun(line, ws, s0 + 1, s);
    }
  }

  lemma {:induction false} LineWinnerFromNone(line: seq<Mark>, ws: int, s0: nat)
    requires forall t :: s0 <= t < |line| ==> !HasRunAt(line, ws, t, line[t])
    ensures LineWinnerFrom(line, ws, s0) == Blank
    decreases |line| - s0
  {
    if s0 < |line| && s0 + ws <= |line| {
      assert !HasRunAt(line, ws, s0, line[s0]);
      LineWinnerFromNone(line, ws, s0 + 1);
    }
  }

  lemma RunEndStartsRun(line: seq<Mark>, ws: int, p: nat)
    requires ws >= 2 && p < |line| && RunLen(line, p) >= ws
    ensures p - ws + 1 >= 0 && HasRunAt(line, ws, p - ws + 1, line[p - ws + 1])
    ensures line[p - ws + 1] == line[p]
  {
    RunLenSound(line, p, ws);
  }

  lemma NoEarlierRun(line: seq<Mark>, ws: int, p: nat)
    requires ws >= 2 && p < |line|
    requires forall q :: 0 <= q < p ==> RunLen(line, q) < ws
    ensures forall t :: 0 <= t < p - ws + 1 ==> !HasRunAt(line, ws, t, line[t])
  {
    forall t | 0 <= t < p - ws + 1 ensures !HasRunAt(line, ws, t, line[t]) {
      if HasRunAt(line, ws, t, line[t]) {
        RunLenComplete(line, ws, t, line[t], ws - 1);
      }
    }
  }

  /** The count stayed below `ws` at every position before p. */
  predicate ShortRunsBefore(line: seq<Mark>, ws: int, p: nat)
    requires p <= |line|
  {
    p == 0 || (RunLen(line, p - 1) < ws && ShortRunsBefore(line, ws, p - 1))
  }

  lemma {:induction false} ShortRunsBeforeAll(line: seq<Mark>, ws: int, p: nat)
    requires p <= |line| && ShortRunsBefore(line, ws, p)
    ensures forall q :: 0 <= q < p ==> RunLen(line, q) < ws
  {
    if p > 0 {
      ShortRunsBeforeAll(line, ws, p - 1);
    }
  }

  /** The scan stops at the first position whose count reaches `ws`: that cell holds the winner. */
  lemma FirstRunEndIsWinner(line: seq<Mark>, ws: int, p: nat)
    requires ws >= 2 && p < |line| && RunLen(line, p) >= ws
    requires forall q :: 0 <= q < p ==> RunLen(line, q) < ws
    ensures LineWinner(line, ws) == line[p] != Blank
  {
    var s := p - ws + 1;
    RunEndStartsRun(line, ws, p);
    NoEarlierRun(line, ws, p);
    LineWinnerFromRun(line, ws, 0, s);
  }

  /** A scan whose count never reaches `ws` finds no winning run. */
  lemma NoRunEndNoWinner(line: seq<Mark>, ws: int)
    requires ws >= 1
    requires forall q :: 0 <= q < |line| ==> RunLen(line, q) < ws
    ensures LineWinner(line, ws) == Blank
  {
    forall t | 0 <= t < |line| ensures !HasRunAt(line, ws, t, line[t]) {
      if HasRunAt(line, ws, t, line[t]) {
        RunLenComplete(line, ws, t, line[t], ws - 1);
      }
    }
    LineWinnerFromNone(line, ws, 0);
  }

  /** A line's winner is the mark of a winning run, and no run starts further left. */
  lemma {:induction false} LineWinnerSound(line: seq<Mark>, ws: int, s0: nat)
    requires ws >= 1 && LineWinnerFrom(line, ws, s0) != Blank
    ensures exists s :: s0 <= s && HasRunAt(line, ws, s, LineWinnerFrom(line, ws, s0)) &&
                        forall t :: s0 <= t < s ==> !HasRunAt(line, ws, t, line[t])
    decreases |line| - s0
  {
    if !HasRunAt(line, ws, s0, line[s0]) {
      LineWinnerSound(line, ws, s0 + 1);
    }
  }

  /** Every winning run of a line is found: the line then has a winner. */
  lemma {:induction false} LineWinnerComplete(line: seq<Mark>, ws: int, s0: nat, s: nat, m: Mark)
    requires s0 <= s && HasRunAt(line, ws, s, m) && ws >= 1
    ensures LineWinnerFrom(line, ws, s0) != Blank
    decreases s - s0
  {
    if s0 < s && !HasRunAt(line, ws, s0, line[s0]) {
      LineWinnerComplete(line, ws, s0 + 1, s, m);
    } else if s0 == s {
      assert line[s] == m;
    }
  }

  /** Soundness and completeness over several lines: a winner exists iff some line has a run. */
  lemma {:induction false} FirstWinnerIffRun(lines: seq<seq<Mark>>, ws: int, i: nat)
    requires ws >= 1
    ensures FirstWinnerFrom(lines, ws, i) != Blank <==>
            exists r, s, m :: i <= r < |lines| && HasRunAt(lines[r], ws, s, m)
    ensures FirstWinnerFrom(lines, ws, i) != Blank ==>
            exists r, s :: i <= r < |lines| && HasRunAt(lines[r], ws, s, FirstWinnerFrom(lines, ws, i))
    decreases |lines| - i
  {
    if i < |lines| {
      FirstWinnerIffRun(lines, ws, i + 1);
      var w := LineWinner(lines[i], ws);
      if w != Blank {
        LineWinnerSound(lines[i], ws, 0);
      } else {
        forall s, m | HasRunAt(lines[i], ws, s, m) ensures false {
          LineWinnerComplete(lines[i], ws, 0, s, m);
        }
      }
    }
  }

  // ---------------------------------------------------------------------------------------
  // Diagonals
  // ---------------------------------------------------------------------------------------

  /**
   * The `ws` cells (row + d*k, col + d*k), k < ws, all hold the non-blank mark `m`; cells off
   * the grid read as `Blank`. d = 1 walks down-right, d = -1 walks up-left: both are the same
   * main-diagonal direction.
   */
  predicate DiagRun(g: Grid, ws: int, row: int, col: int, d: int, m: Mark)
  {
    m != Blank && forall k :: 0 <= k < ws ==> At(g, row + d * k, col + d * k) == m
  }

  /** What `checkRightDiagonal` (d = 1) or `checkLeftDiagonal` (d = -1) reports at (row, col). */
  function DiagAt(g: Grid, ws: int, row: int, col: int, d: int): Mark
  {
    if ws >= 1 && DiagRun(g, ws, row, col, d, At(g, row, col)) then At(g, row, col) else Blank
  }

  /** The first report of the diagonal scan in row `i`, from column `j` on. */
  function DiagWinnerInRow(g: Grid, n: nat, ws: int, i: int, j: nat): Mark
    decreases n - j
  {
    if j >= n then Blank
    else if DiagAt(g, ws, i, j, 1) != Blank then DiagAt(g, ws, i, j, 1)
    else if DiagAt(g, ws, i, j, -1) != Blank then DiagAt(g, ws, i, j, -1)
    else DiagWinnerInRow(g, n, ws, i, j + 1)
  }

  /** The first report of the diagonal scan from row `i` on. */
  function DiagWinnerFrom(g: Grid, n: nat, ws: int, i: nat): Mark
    decreases n - i
  {
    if i >= n then Blank
    else if DiagWinnerInRow(g, n, ws, i, 0) != Blank then DiagWinnerInRow(g, n, ws, i, 0)
    else DiagWinnerFrom(g, n, ws, i + 1)
  }

  /** A run of k cells followed by one more cell holding its mark is a run of k + 1. */
  lemma DiagRunExtend(g: Grid, k: nat, row: int, col: int, d: int, m: Mark)
    requires k >= 1 && m != Blank && At(g, row, col) == m
    requires k >= 2 ==> DiagRun(g, k, row, col, d, m)
    requires At(g, row + d * k, col + d * k) == m
    ensures DiagRun(g, k + 1, row, col, d, m)
  {
    assert At(g, row + d * 0, col + d * 0) == m;
  }

  /** A cell within the streak that is blank or holds another mark breaks the run. */
  lemma DiagRunBreak(g: Grid, ws: int, k: nat, row: int, col: int, d: int, m: Mark)
    requires k < ws
    requires At(g, row + d * k, col + d * k) == Blank || At(g, row + d * k, col + d * k) != m
    ensures DiagAt(g, ws, row, col, d) == Blank || At(g, row, col) != m
  {
  }

  /** With a streak of 1 every cell reports itself, blank or not. */
  lemma DiagAtOne(g: Grid, row: int, col: int, d: int)
    ensures DiagAt(g, 1, row, col, d) == At(g, row, col)
  {
    assert At(g, row + d * 0, col + d * 0) == At(g, row, col);
  }

  /** An up-left run ending at (row, col) is the down-right run that starts ws - 1 cells earlier. */
  lemma LeftRunIsRightRun(g: Grid, ws: int, row: int, col: int, m: Mark)
    requires ws >= 1
    ensures DiagRun(g, ws, row, col, -1, m) <==> DiagRun(g, ws, row - ws + 1, col - ws + 1, 1, m)
  {
    var r0, c0 := row - ws + 1, col - ws + 1;
    if DiagRun(g, ws, row, col, -1, m) {
      forall k | 0 <= k < ws ensures At(g, r0 + 1 * k, c0 + 1 * k) == m {
        var k' := ws - 1 - k;
        assert row + -1 * k' == r0 + 1 * k && col + -1 * k' == c0 + 1 * k;
        assert At(g, row + -1 * k', col + -1 * k') == m;
      }
    }
    if DiagRun(g, ws, r0, c0, 1, m) {
      forall k | 0 <= k < ws ensures At(g, row + -1 * k, col + -1 * k) == m {
        var k' := ws - 1 - k;
        assert row + -1 * k == r0 + 1 * k' && col + -1 * k == c0 + 1 * k';
        assert At(g, r0 + 1 * k', c0 + 1 * k') == m;
      }
    }
  }

  /** What the diagonal scan reports is always a down-right run of that mark. */
  lemma {:induction false} DiagWinnerInRowSound(g: Grid, n: nat, ws: int, i: int, j: nat)
    requires DiagWinnerInRow(g, n, ws, i, j) != Blank
    ensures exists r, c :: DiagRun(g, ws, r, c, 1, DiagWinnerInRow(g, n, ws, i, j))
    decreases n - j
  {
    var m := DiagWinnerInRow(g, n, ws, i, j);
    if DiagAt(g, ws, i, j, 1) != Blank {
      assert DiagRun(g, ws, i, j, 1, m);
    } else if DiagAt(g, ws, i, j, -1) != Blank {
      LeftRunIsRightRun(g, ws, i, j, m);
      assert DiagRun(g, ws, i - ws + 1, j - ws + 1, 1, m);
    } else {
      DiagWinnerInRowSound(g, n, ws, i, j + 1);
    }
  }

  lemma {:induction false} DiagWinnerSound(g: Grid, n: nat, ws: int, i: nat)
    requires DiagWinnerFrom(g, n, ws, i) != Blank
    ensures exists r, c :: DiagRun(g, ws, r, c, 1, DiagWinnerFrom(g, n, ws, i))
    decreases n - i
  {
    if DiagWinnerInRow(g, n, ws, i, 0) != Blank {
      DiagWinnerInRowSound(g, n, ws, i, 0);
    } else {
      DiagWinnerSound(g, n, ws, i + 1);
    }
  }

  lemma {:induction false} DiagWinnerInRowComplete(g: Grid, n: nat, ws: int, i: int, j: nat, c: nat, m: Mark)
    requires j <= c < n && ws >= 1 && DiagRun(g, ws, i, c, 1, m)
    ensures DiagWinnerInRow(g, n, ws, i, j) != Blank
    decreases c - j
  {
    if j < c && DiagAt(g, ws, i, j, 1) == Blank && DiagAt(g, ws, i, j, -1) == Blank {
      DiagWinnerInRowComplete(g, n, ws, i, j + 1, c, m);
    } else if j == c {
      assert At(g, i + 1 * 0, c + 1 * 0) == m;
    }
  }

  /** Every down-right run that starts on an n-by-n board is reported by the diagonal scan. */
  lemma {:induction false} DiagWinnerComplete(g: Grid, n: nat, ws: int, i: nat, r: nat, c: nat, m: Mark)
    requires i <= r < n && c < n && ws >= 1 && DiagRun(g, ws, r, c, 1, m)
    ensures DiagWinnerFrom(g, n, ws, i) != Blank
    decreases r - i
  {
    if DiagWinnerInRow(g, n, ws, i, 0) == Blank {
      if i == r {
        DiagWinnerInRowComplete(g, n, ws, i, 0, c, m);
      } else {
        DiagWinnerComplete(g, n, ws, i + 1, r, c, m);
      }
    }
  }

  // ---------------------------------------------------------------------------------------
  // The whole board
  // ---------------------------------------------------------------------------------------

  /** The result of `checkWin`: rows first, then columns, then diagonals. */
  function Winner(g: Grid, n: nat, ws: int): Mark
  {
    if FirstWinnerFrom(g, ws, 0) != Blank then FirstWinnerFrom(g, ws, 0)
    else if FirstWinnerFrom(Columns(g, n), ws, 0) != Blank then FirstWinnerFrom(Columns(g, n), ws, 0)
    else DiagWinnerFrom(g, n, ws, 0)
  }

  /** Some row, column or down-right diagonal of the board holds a run of `m`. */
  ghost predicate HasLine(g: Grid, n: nat, ws: int, m: Mark)
  {
    (exists r, s :: 0 <= r < |g| && HasRunAt(g[r], ws, s, m)) ||
    (exists c, s :: 0 <= c < n && HasRunAt(Columns(g, n)[c], ws, s, m)) ||
    (exists r, c :: DiagRun(g, ws, r, c, 1, m))
  }

  /** A reported winner always has a winning row, column or down-right diagonal. */
  lemma WinnerSound(g: Grid, n: nat, ws: int)
    requires IsSquare(g, n) && ValidStreak(n, ws) && n >= 1
    requires Winner(g, n, ws) != Blank
    ensures HasLine(g, n, ws, Winner(g, n, ws))
  {
    FirstWinnerIffRun(g, ws, 0);
    FirstWinnerIffRun(Columns(g, n), ws, 0);
    if FirstWinnerFrom(g, ws, 0) == Blank && FirstWinnerFrom(Columns(g, n), ws, 0) == Blank {
      DiagWinnerSound(g, n, ws, 0);
    }
  }

  /**
   * Every row, column or down-right diagonal run on the board is detected. (Up-right runs, the
   * anti-diagonals, are not: see `AntiDiagonalMissed`.)
   */
  lemma WinnerComplete(g: Grid, n: nat, ws: int, m: Mark)
    requires IsSquare(g, n) && ValidStreak(n, ws) && n >= 1
    requires HasLine(g, n, ws, m)
    ensures Winner(g, n, ws) != Blank
  {
    FirstWinnerIffRun(g, ws, 0);
    FirstWinnerIffRun(Columns(g, n), ws, 0);
    if !(exists r, s :: 0 <= r < |g| && HasRunAt(g[r], ws, s, m)) &&
       !(exists c, s :: 0 <= c < n && HasRunAt(Columns(g, n)[c], ws, s, m)) {
      var r, c :| DiagRun(g, ws, r, c, 1, m);
      assert At(g, r + 1 * 0, c + 1 * 0) == m;
      DiagWinnerComplete(g, n, ws, 0, r, c, m);
    }
  }

  /** The 3-by-3 board with X on the anti-diagonal (0,2), (1,1), (2,0) and nothing else. */
  function AntiDiagonalBoard(): Grid
  {
    [[Blank, Blank, X], [Blank, X, Blank], [X, Blank, Blank]]
  }

  /** A line of three holding one X and two blanks has no winning run of three. */
  lemma NoRunInMixedLine(line: seq<Mark>)
    requires line in [[Blank, Blank, X], [Blank, X, Blank], [X, Blank, Blank]]
    ensures LineWinner(line, 3) == Blank
  {
    assert !HasRunAt(line, 3, 0, line[0]) by {
      assert line[0] == Blank || line[1] != line[0];
    }
    LineWinnerFromNone(line, 3, 0);
  }

  /**
   * X has three in a row on the anti-diagonal, yet no winner is reported: the "left" diagonal
   * check walks up-left, the same axis as the "right" one, so anti-diagonals are never checked.
   */
  lemma AntiDiagonalMissed()
    ensures At(AntiDiagonalBoard(), 0, 2) == At(AntiDiagonalBoard(), 1, 1) == At(AntiDiagonalBoard(), 2, 0) == X
    ensures Winner(AntiDiagonalBoard(), 3, 3) == Blank
  {
    var g := AntiDiagonalBoard();
    forall r | 0 <= r < 3 ensures LineWinner(g[r], 3) == Blank {
      NoRunInMixedLine(g[r]);
    }
    var t := Columns(g, 3);
    assert forall c :: 0 <= c < 3 ==> t[c] == g[c];
    forall c | 0 <= c < 3 ensures LineWinner(t[c], 3) == Blank {
      NoRunInMixedLine(t[c]);
    }
    forall i, j | 0 <= i < 3 && 0 <= j < 3
      ensures DiagAt(g, 3, i, j, 1) == Blank && DiagAt(g, 3, i, j, -1) == Blank
    {
      if At(g, i, j) != Blank {
        assert At(g, i + 1 * 1, j + 1 * 1) == Blank;
        assert At(g, i + -1 * 1, j + -1 * 1) == Blank;
      }
    }
  }

  // ---------------------------------------------------------------------------------------
  // The turn loop
  // ---------------------------------------------------------------------------------------

  /** X plays the even turns, O the odd ones. */
  function TurnMark(i: nat): (m: Mark)
    ensures m != Blank
  {
    if i % 2 == 0 then X else O
  }

  /** The kind of player who plays turn i: X's on the even turns, O's on the odd ones. */
  function TurnKind(i: nat, kindX: PlayerKind, kindO: PlayerKind): PlayerKind
  {
    if i % 2 == 0 then kindX else kindO
  }

  /**
   * The grid the game stops on, from turn i with grid g: after each turn the board is checked,
   * and the game stops at the first won board, or once n * n turns have been played.
   */
  function EndGrid(g: Grid, n: nat, ws: int, kindX: PlayerKind, kindO: PlayerKind, choose: Chooser, i: nat): (e: Grid)
    requires IsSquare(g, n) && i <= n * n && BlankCount(g) == n * n - i
    requires ChoosesBlank(choose, n)
    ensures IsSquare(e, n)
    ensures Winner(e, n, ws) != Blank || BlankCount(e) == 0
    decreases n * n - i
  {
    if i == n * n then g
    else
      var h := Turn(TurnKind(i, kindX, kindO), g, n, TurnMark(i), choose);
      if Winner(h, n, ws) != Blank then h
      else EndGrid(h, n, ws, kindX, kindO, choose, i + 1)
  }

  /** The grid a game on an empty n-by-n board stops on. */
  function GameEnd(n: nat, ws: int, kindX: PlayerKind, kindO: PlayerKind, choose: Chooser): (e: Grid)
    requires ChoosesBlank(choose, n)
    ensures IsSquare(e, n)
    ensures Winner(e, n, ws) != Blank || BlankCount(e) == 0
  {
    EmptyGridCounts(n);
    EndGrid(EmptyGrid(n), n, ws, kindX, kindO, choose, 0)
  }

  /** One turn of `EndGrid`: the game stops on the new grid if it is won, else goes on from it. */
  lemma EndGridStep(g: Grid, n: nat, ws: int, kindX: PlayerKind, kindO: PlayerKind, choose: Chooser, i: nat)
    requires IsSquare(g, n) && i < n * n && BlankCount(g) == n * n - i
    requires ChoosesBlank(choose, n)
    ensures var h := Turn(TurnKind(i, kindX, kindO), g, n, TurnMark(i), choose);
            EndGrid(g, n, ws, kindX, kindO, choose, i) ==
            if Winner(h, n, ws) != Blank then h else EndGrid(h, n, ws, kindX, kindO, choose, i + 1)
  {
  }

  /**
   * X moves on the even turns and O on the odd ones: before turn i, X has as many marks as O
   * when i is even and one more when i is odd, and each turn keeps that so for turn i + 1.
   */
  lemma TurnAlternates(kind: PlayerKind, g: Grid, n: nat, choose: Chooser, i: nat)
    requires IsSquare(g, n) && PicksBlank(choose, g, n, TurnMark(i))
    requires MarkCount(g, X) == MarkCount(g, O) + i % 2
    ensures var h := Turn(kind, g, n, TurnMark(i), choose);
            MarkCount(h, X) == MarkCount(h, O) + (i + 1) % 2
  {
    var h := Turn(kind, g, n, TurnMark(i), choose);
    if i % 2 == 0 {
      assert MarkCount(h, O) == MarkCount(g, O);
    } else {
      assert MarkCount(h, X) == MarkCount(g, X);
    }
  }

  /**
   * On the grid the game stops on, X has as many marks as O or one more: the players
   * alternate, X first.
   */
  lemma {:induction false} EndGridAlternates(g: Grid, n: nat, ws: int, kindX: PlayerKind, kindO: PlayerKind,
                                             choose: Chooser, i: nat)
    requires IsSquare(g, n) && i <= n * n && BlankCount(g) == n * n - i
    requires ChoosesBlank(choose, n)
    requires MarkCount(g, X) == MarkCount(g, O) + i % 2
    ensures var e := EndGrid(g, n, ws, kindX, kindO, choose, i);
            MarkCount(e, X) == MarkCount(e, O) || MarkCount(e, X) == MarkCount(e, O) + 1
    decreases n * n - i
  {
    if i < n * n {
      var h := Turn(TurnKind(i, kindX, kindO), g, n, TurnMark(i), choose);
      TurnAlternates(TurnKind(i, kindX, kindO), g, n, choose, i);
      EndGridStep(g, n, ws, kindX, kindO, choose, i);
      if Winner(h, n, ws) == Blank {
        EndGridAlternates(h, n, ws, kindX, kindO, choose, i + 1);
      }
    }
  }

  /**
   * How a game on an empty board ends. A reported winner has a winning row, column or
   * down-right diagonal on the final grid; a tie (`Blank`) is reported only on a full grid
   * with no such line for either player. X has as many marks as O, or one more.
   */
  lemma GameOutcome(n: nat, ws: int, kindX: PlayerKind, kindO: PlayerKind, choose: Chooser)
    requires ChoosesBlank(choose, n) && ValidStreak(n, ws) && n >= 1
    ensures var e := GameEnd(n, ws, kindX, kindO, choose);
            MarkCount(e, X) == MarkCount(e, O) || MarkCount(e, X) == MarkCount(e, O) + 1
    ensures var e := GameEnd(n, ws, kindX, kindO, choose);
            Winner(e, n, ws) != Blank ==> HasLine(e, n, ws, Winner(e, n, ws))
    ensures var e := GameEnd(n, ws, kindX, kindO, choose);
            Winner(e, n, ws) == Blank ==> BlankCount(e) == 0 && forall m :: !HasLine(e, n, ws, m)
  {
    var e := GameEnd(n, ws, kindX, kindO, choose);
    EmptyGridCounts(n);
    EndGridAlternates(EmptyGrid(n), n, ws, kindX, kindO, choose, 0);
    if Winner(e, n, ws) != Blank {
      WinnerSound(e, n, ws);
    } else {
      forall m ensures !HasLine(e, n, ws, m) {
        if HasLine(e, n, ws, m) {
          WinnerComplete(e, n, ws, m);
        }
      }
    }
  }

  /** A game between two players, on a `size`-by-`size` board, won by `winStreak` in a line. */
  class Game {
    const playerX: PlayerKind
    const playerO: PlayerKind
    const size: nat
    const winStreak: int

    ghost predicate Valid()
    {
      ValidStreak(size, winStreak)
    }

    /** The default game: a 4-by-4 board and a streak of 3. */
    constructor Default(playerX: PlayerKind, playerO: PlayerKind)
      ensures Valid()
      ensures this.playerX == playerX && this.playerO == playerO
      ensures size == DefaultBoardSize && winStreak == DefaultWinStreak
    {
      this.playerX, this.playerO := playerX, playerO;
      size, winStreak := DefaultBoardSize, DefaultWinStreak;
    }

    /** A streak below 2 or above the size is replaced by the size. */
    constructor (playerX: PlayerKind, playerO: PlayerKind, size: nat, winStreak: int)
      ensures Valid()
      ensures this.playerX == playerX && this.playerO == playerO
      ensures this.size == size && this.winStreak == ClampStreak(size, winStreak)
    {
      this.playerX, this.playerO := playerX, playerO;
      this.size := size;
      if winStreak < 2 || winStreak > size {
        this.winStreak := size;
      } else {
        this.winStreak := winStreak;
      }
    }

    function GetWinStreak(): (ws: int)
      requires Valid()
      ensures ValidStreak(size, ws) && ws == winStreak
    {
      winStreak
    }

    /**
     * The inner loop of `checkWinRow` (byColumn false, line i is row i) and of `checkWinCol`
     * (byColumn true, line i is column i read top to bottom): walks the line keeping the length
     * of the current run of equal non-blank marks, until it reaches the streak or the line ends.
     * A line with a winning run makes the count reach the streak, and the mark then held is
     * the line's winner; below that, the count reaches the streak only on a one-cell line with
     * a streak of 1, where the cell is reported even when blank.
     */
    method ScanLine(board: Board, ghost line: seq<Mark>, i: nat, byColumn: bool) returns (winMark: Mark, count: int)
      requires Valid() && board.Valid() && board.boardSize == size && i < size
      requires line == if byColumn then Columns(board.Grid(), size)[i] else board.Grid()[i]
      ensures count == winStreak ==> winMark == LineWinner(line, winStreak)
      ensures count == winStreak && winMark == Blank ==> winStreak == size == 1
      ensures count != winStreak ==> LineWinner(line, winStreak) == Blank
    {
      assert forall c :: 0 <= c < size ==> line[c] == if byColumn then board.GetMark(c, i) else board.GetMark(i, c);
      winMark := if byColumn then board.GetMark(0, i) else board.GetMark(i, 0);
      var j := 1;
      count := 1;
      while j < size && count < winStreak
        invariant 1 <= j <= size && count <= winStreak
        invariant count == RunLen(line, j - 1) && winMark == line[j - 1]
        invariant ShortRunsBefore(line, winStreak, j - 1)
      {
        var cell := if byColumn then board.GetMark(j, i) else board.GetMark(i, j);
        if cell != Blank && cell == winMark {
          count := count + 1;
        } else {
          winMark := cell;
          count := 1;
        }
        j := j + 1;
      }
      if count == winStreak {
        if winStreak >= 2 {
          ShortRunsBeforeAll(line, winStreak, j - 1);
          FirstRunEndIsWinner(line, winStreak, j - 1);
        } else {
          SingleCellWinner(line);
        }
      } else {
        ShortRunsBeforeAll(line, winStreak, j);
        NoRunEndNoWinner(line, winStreak);
      }
    }

    /** `checkWinRow`: the rows in order; the first one with a winning run reports its mark. */
    method CheckWinRow(board: Board) returns (m: Mark)
      requires Valid() && board.Valid() && board.boardSize == size
      ensures m == FirstWinnerFrom(board.Grid(), winStreak, 0)
    {
      ghost var g := board.Grid();
      for i := 0 to size
        invariant FirstWinnerFrom(g, winStreak, 0) == FirstWinnerFrom(g, winStreak, i)
      {
        var winMark, count := ScanLine(board, g[i], i, false);
        if count == winStreak {
          return winMark;
        }
      }
      return Blank;
    }

    /** `checkWinCol`: the same over the columns, each read top to bottom. */
    method CheckWinCol(board: Board) returns (m: Mark)
      requires Valid() && board.Valid() && board.boardSize == size
      ensures m == FirstWinnerFrom(Columns(board.Grid(), size), winStreak, 0)
    {
      ghost var cols := Columns(board.Grid(), size);
      for i := 0 to size
        invariant FirstWinnerFrom(cols, winStreak, 0) == FirstWinnerFrom(cols, winStreak, i)
      {
        var winMark, count := ScanLine(board, cols[i], i, true);
        if count == winStreak {
          return winMark;
        }
      }
      return Blank;
    }

    /** `checkRightDiagonal`: the streak of cells from (row, col) down-right all hold its mark. */
    method CheckRightDiagonal(board: Board, ghost g: Grid, row: int, col: int) returns (m: Mark)
      requires Valid() && board.Valid() && board.boardSize == size && board.Grid() == g
      ensures m == DiagAt(g, winStreak, row, col, 1)
    {
      var curMark := board.GetMark(row, col);
      var count := 1;
      var k := 1;
      while k < winStreak
        invariant 1 <= k && (k <= winStreak || winStreak < 1) && count == k
        invariant curMark == At(g, row, col)
        invariant k >= 2 ==> DiagRun(g, k, row, col, 1, curMark)
      {
        var cell := board.GetMark(row + k, col + k);
        if cell != Blank && cell == curMark {
          DiagRunExtend(g, k, row, col, 1, curMark);
          count := count + 1;
        } else {
          DiagRunBreak(g, winStreak, k, row, col, 1, curMark);
          return Blank;
        }
        k := k + 1;
      }
      if count == winStreak {
        DiagAtOne(g, row, col, 1);
        return curMark;
      }
      return Blank;
    }

    /**
     * `checkLeftDiagonal`: the streak of cells from (row, col) up-left all hold its mark. Both
     * coordinates step by -1, so this is the down-right diagonal again, not the anti-diagonal.
     */
    method CheckLeftDiagonal(board: Board, ghost g: Grid, row: int, col: int) returns (m: Mark)
      requires Valid() && board.Valid() && board.boardSize == size && board.Grid() == g
      ensures m == DiagAt(g, winStreak, row, col, -1)
    {
      var curMark := board.GetMark(row, col);
      var count := 1;
      var k := 1;
      while k < winStreak
        invariant 1 <= k && (k <= winStreak || winStreak < 1) && count == k
        invariant curMark == At(g, row, col)
        invariant k >= 2 ==> DiagRun(g, k, row, col, -1, curMark)
      {
        var cell := board.GetMark(row - k, col - k);
        if cell != Blank && cell == curMark {
          DiagRunExtend(g, k, row, col, -1, curMark);
          count := count + 1;
        } else {
          DiagRunBreak(g, winStreak, k, row, col, -1, curMark);
          return Blank;
        }
        k := k + 1;
      }
      if count == winStreak {
        DiagAtOne(g, row, col, -1);
        return curMark;
      }
      return Blank;
    }

    /** `checkWinDiagonal`: every cell in row-major order, the down-right check before the up-left. */
    method CheckWinDiagonal(board: Board) returns (m: Mark)
      requires Valid() && board.Valid() && board.boardSize == size
      ensures m == DiagWinnerFrom(board.Grid(), size, winStreak, 0)
    {
      ghost var g := board.Grid();
      for i := 0 to size
        invariant DiagWinnerFrom(g, size, winStreak, 0) == DiagWinnerFrom(g, size, winStreak, i)
      {
        for j := 0 to size
          invariant DiagWinnerInRow(g, size, winStreak, i, 0) == DiagWinnerInRow(g, size, winStreak, i, j)
        {
          var rightDiagonal := CheckRightDiagonal(board, g, i, j);
          if rightDiagonal != Blank {
            return rightDiagonal;
          }
          var leftDiagonal := CheckLeftDiagonal(board, g, i, j);
          if leftDiagonal != Blank {
            return leftDiagonal;
          }
        }
      }
      return Blank;
    }

    /** `checkWin`: the rows, then the columns, then the diagonals. */
    method CheckWin(board: Board) returns (m: Mark)
      requires Valid() && board.Valid() && board.boardSize == size
      ensures m == Winner(board.Grid(), size, winStreak)
    {
      var rowWinner := CheckWinRow(board);
      if rowWinner != Blank {
        return rowWinner;
      }
      var colWinner := CheckWinCol(board);
      if colWinner != Blank {
        return colWinner;
      }
      m := CheckWinDiagonal(board);
    }

    /**
     * After i turns the board holds `cur`, and the game will stop on `end`: the grid
     * `EndGrid` reaches from here.
     */
    ghost predicate OnTrack(cur: Grid, i: nat, choose: Chooser, end: Grid)
    {
      IsSquare(cur, size) && i <= size * size && BlankCount(cur) == size * size - i &&
      ChoosesBlank(choose, size) && end == EndGrid(cur, size, winStreak, playerX, playerO, choose, i)
    }

    /**
     * One pass of the loop of `run`: the player of turn i plays, then the board is checked.
     * A winner is the winner of the grid the game stops on; otherwise the game goes on.
     */
    method PlayRound(board: Board, ghost cur: Grid, i: nat, choose: Chooser, ghost end: Grid) returns (winner: Mark)
      requires Valid() && board.Valid() && board.boardSize == size && board.Grid() == cur
      requires i < size * size && OnTrack(cur, i, choose, end)
      modifies board.boardArr
      ensures winner == Winner(board.Grid(), size, winStreak)
      ensures winner != Blank ==> end == board.Grid()
      ensures winner == Blank ==> OnTrack(board.Grid(), i + 1, choose, end)
    {
      assert PicksBlank(choose, cur, size, TurnMark(i));
      PlayTurn(TurnKind(i, playerX, playerO), board, TurnMark(i), choose);
      ghost var next := board.Grid();
      winner := CheckWin(board);
      assert board.Grid() == next;
    }

    /**
     * `run`: a fresh board, then up to size * size turns, X on the even ones and O on the odd;
     * after each turn the board is checked and a winner ends the game. The result is the
     * winner of the board the game stops on (`Blank` for a tie).
     */
    method Run(choose: Chooser) returns (winner: Mark)
      requires Valid() && ChoosesBlank(choose, size)
      ensures winner == Winner(GameEnd(size, winStreak, playerX, playerO, choose), size, winStreak)
    {
      var board := new Board(size);
      winner := PlayRounds(board, choose);
    }

    /** The turn loop of `run`, on the board it has just made. */
    method PlayRounds(board: Board, choose: Chooser) returns (winner: Mark)
      requires Valid() && board.Valid() && board.boardSize == size && board.Grid() == EmptyGrid(size)
      requires ChoosesBlank(choose, size)
      modifies board.boardArr
      ensures winner == Winner(GameEnd(size, winStreak, playerX, playerO, choose), size, winStreak)
    {
      EmptyGridCounts(size);
      ghost var end := GameEnd(size, winStreak, playerX, playerO, choose);
      ghost var cur := board.Grid();
      var i := 0;
      while i < size * size
        invariant board.Valid() && board.boardSize == size && board.Grid() == cur
        invariant OnTrack(cur, i, choose, end)
      {
        winner := PlayRound(board, cur, i, choose, end);
        if winner != Blank {
          return;
        }
        cur := board.Grid();
        i := i + 1;
      }
      winner := CheckWin(board);
    }
  }

  /** With a streak of 1, a one-cell line's winner is its cell, blank or not. */
  lemma SingleCellWinner(line: seq<Mark>)
    requires |line| == 1
    ensures LineWinner(line, 1) == line[0]
  {
    assert LineWinnerFrom(line, 1, 1) == Blank;
    assert HasRunAt(line, 1, 0, line[0]) <==> line[0] != Blank;
  }
}
