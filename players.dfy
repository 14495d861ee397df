/**
 * The players (Ex02-TicTacToe/Player.java and its four implementations): the kinds a
 * tournament can build, and `playTurn` dispatched on the kind.
 */
module Players {
  import opened Boards
  import opened Moves
  import CleverPlayers
  import GeniusPlayers

  datatype PlayerKind = Human | Clever | Whatever | Genius

  /**
   * The cell a player of kind `kind` fills on its turn. Human and whatever players take the
   * chosen cell; the computer players compute theirs and use the chosen one only as a fallback.
   */
  function Move(kind: PlayerKind, g: Grid, n: nat, mark: Mark, choose: Chooser): (cell: (int, int))
    requires IsSquare(g, n) && mark != Blank && PicksBlank(choose, g, n, mark)
    ensures InRange(n, cell.0, cell.1) && At(g, cell.0, cell.1) == Blank
  {
    match kind
    case Human => choose(g, mark)
    case Whatever => choose(g, mark)
    case Clever => CleverPlayers.CleverMove(g, n, mark, choose)
    case Genius => GeniusPlayers.GeniusMove(g, n, mark, choose)
  }

  /**
   * The grid after a turn of a player of kind `kind`: exactly one cell changed, a blank one,
   * which now holds `mark`; so there is one blank fewer, one `mark` more, and as many of the
   * other mark as before.
   */
  function Turn(kind: PlayerKind, g: Grid, n: nat, mark: Mark, choose: Chooser): (h: Grid)
    requires IsSquare(g, n) && mark != Blank && PicksBlank(choose, g, n, mark)
    ensures IsSquare(h, n)
    ensures forall r, c :: At(h, r, c) == At(g, r, c) || (At(g, r, c) == Blank && At(h, r, c) == mark)
    ensures BlankCount(h) + 1 == BlankCount(g)
    ensures MarkCount(h, mark) == MarkCount(g, mark) + 1
    ensures forall k :: k != mark && k != Blank ==> MarkCount(h, k) == MarkCount(g, k)
  {
    var cell := Move(kind, g, n, mark, choose);
    MarkCountSet(g, cell.0, cell.1, mark, Blank);
    MarkCountSet(g, cell.0, cell.1, mark, mark);
    forall k | k != mark && k != Blank
      ensures MarkCount(Set(g, cell.0, cell.1, mark), k) == MarkCount(g, k)
    {
      MarkCountSet(g, cell.0, cell.1, mark, k);
    }
    Set(g, cell.0, cell.1, mark)
  }

  /** `player.playTurn(board, mark)`: the board now holds the grid `Turn` describes. */
  method PlayTurn(kind: PlayerKind, board: Board, mark: Mark, choose: Chooser)
    requires board.Valid() && mark != Blank
    requires PicksBlank(choose, board.Grid(), board.boardSize, mark)
    modifies board.boardArr
    ensures board.Grid() == Turn(kind, old(board.Grid()), board.boardSize, mark, choose)
  {
    match kind
    case Human => ChosenTurn(board, mark, choose);
    case Whatever => ChosenTurn(board, mark, choose);
    case Clever => CleverPlayers.PlayTurn(board, mark, choose);
    case Genius => GeniusPlayers.PlayTurn(board, mark, choose);
  }
}
