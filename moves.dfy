/**
 * Moves that are not computed by the engine (Ex02-TicTacToe/WhateverPlayer.java,
 * Ex02-TicTacToe/HumanPlayer.java and the random fallbacks of the computer players).
 *
 * Each of these repeats "get a cell, try `putMark`" until `putMark` succeeds: the cell comes
 * from `java.util.Random` or from the console. A `Chooser` stands for that source: it names
 * the cell the repetition ends on, so it must name a blank cell of the board.
 */
module Moves {
  import opened Boards

  /** The cell (row, col) an outside source settles on for `mark` on grid `g`. */
  type Chooser = (Grid, Mark) -> (int, int)

  /** On grid `g` the chooser names a blank cell of the n-by-n board. */
  predicate PicksBlank(choose: Chooser, g: Grid, n: nat, mark: Mark)
  {
    InRange(n, choose(g, mark).0, choose(g, mark).1) &&
    At(g, choose(g, mark).0, choose(g, mark).1) == Blank
  }

  /** On every n-by-n grid that still has a blank cell, the chooser names one. */
  ghost predicate ChoosesBlank(choose: Chooser, n: nat)
  {
    forall g, mark :: IsSquare(g, n) && BlankCount(g) > 0 ==> PicksBlank(choose, g, n, mark)
  }

  /**
   * `playTurn` of a player whose cell comes from outside: the retry loop ends on the chosen
   * cell, which then holds `mark`; nothing else changes.
   */
  method ChosenTurn(board: Board, mark: Mark, choose: Chooser)
    requires board.Valid() && PicksBlank(choose, board.Grid(), board.boardSize, mark)
    modifies board.boardArr
    ensures board.Grid() == Set(old(board.Grid()), choose(old(board.Grid()), mark).0,
                                choose(old(board.Grid()), mark).1, mark)
  {
    var cell := choose(board.Grid(), mark);
    var played := board.PutMark(mark, cell.0, cell.1);
  }

  /** A board with a blank cell left has some chooser that always names a blank cell. */
  function FirstBlank(g: Grid, mark: Mark): (cell: (int, int))
    ensures BlankCount(g) > 0 ==> 0 <= cell.0 < |g| && 0 <= cell.1 < |g[cell.0]| &&
                                  g[cell.0][cell.1] == Blank
    decreases |g|
  {
    if g == [] then (0, 0)
    else if RowCount(g[0], Blank) > 0 then (0, FirstBlankInRow(g[0]))
    else var cell := FirstBlank(g[1..], mark); (cell.0 + 1, cell.1)
  }

  function FirstBlankInRow(row: seq<Mark>): (c: nat)
    ensures RowCount(row, Blank) > 0 ==> c < |row| && row[c] == Blank
  {
    if row == [] || row[0] == Blank then 0 else FirstBlankInRow(row[1..]) + 1
  }

  /** The requirement on choosers can be met: the first blank cell is always a valid choice. */
  lemma FirstBlankChoosesBlank(n: nat)
    ensures ChoosesBlank(FirstBlank, n)
  {
  }
}
