/**
 * The clever computer player (Ex02-TicTacToe/CleverPlayer.java): extend a run of its own mark
 * along a row, else fall back to a chosen cell.
 *
 * A "spot" in a line is a blank cell right after a cell holding the mark; `fillLines` fills
 * the first spot of the first row that has one.
 */
module CleverPlayers {
  import opened Wrappers
  import opened Boards
  import opened Moves

  /** Position q of `line` is blank and follows a cell holding `mark`. */
  predicate IsSpot(line: seq<Mark>, mark: Mark, q: int)
  {
    1 <= q < |line| && line[q - 1] == mark && line[q] == Blank
  }

  /** The first spot of `line` at position q or later. */
  function FirstSpotInLine(line: seq<Mark>, mark: Mark, q: nat): (r: Option<nat>)
    ensures r.Some? ==> q <= r.value && IsSpot(line, mark, r.value)
    decreases |line| - q
  {
    if q >= |line| then None
    else if IsSpot(line, mark, q) then Some(q)
    else FirstSpotInLine(line, mark, q + 1)
  }

  /** The first spot, as (line index, position), of the lines from index i on. */
  function FirstSpot(lines: seq<seq<Mark>>, mark: Mark, i: nat): (r: Option<(nat, nat)>)
    ensures r.Some? ==> i <= r.value.0 < |lines| && IsSpot(lines[r.value.0], mark, r.value.1)
    decreases |lines| - i
  {
    if i >= |lines| then None
    else match FirstSpotInLine(lines[i], mark, 1)
      case Some(q) => Some((i, q))
      case None => FirstSpot(lines, mark, i + 1)
  }

  lemma {:induction false} FirstSpotInLineIsFirst(line: seq<Mark>, mark: Mark, q0: nat)
    ensures FirstSpotInLine(line, mark, q0).Some? ==>
              var q := FirstSpotInLine(line, mark, q0).value;
              q0 <= q && IsSpot(line, mark, q) && forall p :: q0 <= p < q ==> !IsSpot(line, mark, p)
    ensures FirstSpotInLine(line, mark, q0).None? ==> forall p :: q0 <= p ==> !IsSpot(line, mark, p)
    decreases |line| - q0
  {
    if q0 < |line| && !IsSpot(line, mark, q0) {
      FirstSpotInLineIsFirst(line, mark, q0 + 1);
    }
  }

  /**
   * The spot `fillLines` fills is the first in row-major order: every line before it, and every
   * earlier position of its own line, has none. When there is no spot, no line has one.
   */
  lemma {:induction false} FirstSpotIsFirst(lines: seq<seq<Mark>>, mark: Mark, i0: nat)
    ensures FirstSpot(lines, mark, i0).Some? ==>
              var (i, q) := FirstSpot(lines, mark, i0).value;
              i0 <= i < |lines| && IsSpot(lines[i], mark, q) &&
              (forall p :: 1 <= p < q ==> !IsSpot(lines[i], mark, p)) &&
              (forall r, p :: i0 <= r < i ==> !IsSpot(lines[r], mark, p))
    ensures FirstSpot(lines, mark, i0).None? ==>
              forall r, p :: i0 <= r < |lines| ==> !IsSpot(lines[r], mark, p)
    decreases |lines| - i0
  {
    if i0 < |lines| {
      FirstSpotInLineIsFirst(lines[i0], mark, 1);
      FirstSpotIsFirst(lines, mark, i0 + 1);
    }
  }

  /**
   * `fillLines`: scans the rows in order; in each row the inner `while` walks along a run of
   * `mark` and stops at the first spot after it, where `putMark` is called and its result
   * returned. Succeeds exactly when some row has a spot; then the first one, and nothing else,
   * now holds `mark`. Otherwise nothing changes.
   */
  method FillLines(board: Board, mark: Mark) returns (ok: bool)
    requires board.Valid() && mark != Blank
    modifies board.boardArr
    ensures ok <==> FirstSpot(old(board.Grid()), mark, 0).Some?
    ensures ok ==> board.Grid() == Set(old(board.Grid()), FirstSpot(old(board.Grid()), mark, 0).value.0,
                                       FirstSpot(old(board.Grid()), mark, 0).value.1, mark)
    ensures !ok ==> board.Grid() == old(board.Grid())
  {
    var n := board.boardSize;
    ghost var g := board.Grid();
    var found, row, col := false, 0, 0;
    label scan:
    for i := 0 to n
      modifies {}
      invariant !found
      invariant FirstSpot(g, mark, 0) == FirstSpot(g, mark, i)
    {
      var j := 0;
      while j < n
        modifies {}
        invariant 0 <= j <= n + 1 && !found
        invariant FirstSpotInLine(g[i], mark, 1) == FirstSpotInLine(g[i], mark, j + 1)
      {
        while board.GetMark(i, j) == mark
          modifies {}
          invariant 0 <= j <= n && !found
          invariant FirstSpotInLine(g[i], mark, 1) == FirstSpotInLine(g[i], mark, j + 1)
          decreases n - j
        {
          j := j + 1;
          if j < n && board.GetMark(i, j) == Blank {
            found, row, col := true, i, j;
            assert FirstSpot(g, mark, i) == Some((row, col));
            break scan;
          }
        }
        j := j + 1;
      }
    }
    if found {
      ok := board.PutMark(mark, row, col);
    } else {
      ok := false;
    }
  }

  /** The cell a clever player's turn fills: the first row spot, else the chosen cell. */
  function CleverMove(g: Grid, n: nat, mark: Mark, choose: Chooser): (cell: (int, int))
    requires IsSquare(g, n) && PicksBlank(choose, g, n, mark)
    ensures InRange(n, cell.0, cell.1) && At(g, cell.0, cell.1) == Blank
    ensures FirstSpot(g, mark, 0).Some? ==> IsSpot(g[cell.0], mark, cell.1)
  {
    match FirstSpot(g, mark, 0)
    case Some(spot) => spot
    case None => choose(g, mark)
  }

  /**
   * `playTurn`: the chosen cell is used only when `fillLines` fails. Exactly one blank cell,
   * the one `CleverMove` names, now holds `mark`.
   */
  method PlayTurn(board: Board, mark: Mark, choose: Chooser)
    requires board.Valid() && mark != Blank
    requires PicksBlank(choose, board.Grid(), board.boardSize, mark)
    modifies board.boardArr
    ensures board.Grid() == Set(old(board.Grid()), CleverMove(old(board.Grid()), board.boardSize, mark, choose).0,
                                CleverMove(old(board.Grid()), board.boardSize, mark, choose).1, mark)
  {
    var filled := FillLines(board, mark);
    if !filled {
      ChosenTurn(board, mark, choose);
    }
  }
}
