/**
 * The tic-tac-toe board (Ex02-TicTacToe/Board.java): a square grid of marks that is
 * bounds-checked on every access and updated in place by `PutMark`.
 *
 * The board's contents are given to specifications as a `Grid` value, a sequence of rows;
 * `At` reads a grid the way `getMark` reads the board (out-of-range cells are `Blank`).
 */
module Boards {

  datatype Mark = Blank | X | O

  type Grid = seq<seq<Mark>>

  /** `g` is an `n`-by-`n` grid. */
  ghost predicate IsSquare(g: Grid, n: nat)
  {
    |g| == n && forall r :: 0 <= r < n ==> |g[r]| == n
  }

  predicate InRange(n: nat, row: int, col: int)
  {
    0 <= row < n && 0 <= col < n
  }

  /** The mark at (row, col), `Blank` for every coordinate outside the grid. */
  function At(g: Grid, row: int, col: int): Mark
  {
    if 0 <= row < |g| && 0 <= col < |g[row]| then g[row][col] else Blank
  }

  /** `g` with the single cell (row, col) replaced by `m`. */
  function Set(g: Grid, row: int, col: int, m: Mark): (h: Grid)
    requires 0 <= row < |g| && 0 <= col < |g[row]|
    ensures |h| == |g| && forall r :: 0 <= r < |g| ==> |h[r]| == |g[r]|
    ensures forall r, c :: At(h, r, c) == if r == row && c == col then m else At(g, r, c)
  {
    g[row := g[row][col := m]]
  }

  /** The grid of a freshly built board: every one of the n*n cells is `Blank`. */
  function EmptyGrid(n: nat): (g: Grid)
    ensures IsSquare(g, n)
  {
    seq(n, _ => seq(n, _ => Blank))
  }

  /** The columns of an n-by-n grid, each read from the top row down. */
  function Columns(g: Grid, n: nat): (t: Grid)
    ensures IsSquare(t, n)
    ensures forall c, r :: 0 <= c < n && 0 <= r < n ==> t[c][r] == At(g, r, c)
  {
    seq(n, c => seq(n, r => At(g, r, c)))
  }

  /** The number of cells of `row` holding `m`. */
  function RowCount(row: seq<Mark>, m: Mark): nat
  {
    if row == [] then 0 else (if row[0] == m then 1 else 0) + RowCount(row[1..], m)
  }

  /** The number of cells of `g` holding `m`. */
  function MarkCount(g: Grid, m: Mark): nat
  {
    if g == [] then 0 else RowCount(g[0], m) + MarkCount(g[1..], m)
  }

  function BlankCount(g: Grid): nat
  {
    MarkCount(g, Blank)
  }

  lemma {:induction false} RowCountUpdate(row: seq<Mark>, c: nat, m: Mark, k: Mark)
    requires c < |row|
    ensures RowCount(row[c := m], k) + (if row[c] == k then 1 else 0) == RowCount(row, k) + (if m == k then 1 else 0)
  {
    if c > 0 {
      assert row[c := m][1..] == row[1..][c - 1 := m];
      RowCountUpdate(row[1..], c - 1, m, k);
    } else {
      assert row[c := m][1..] == row[1..];
    }
  }

  /** Writing m over one cell moves that cell from its old mark's count to m's count. */
  lemma {:induction false} MarkCountSet(g: Grid, row: nat, col: nat, m: Mark, k: Mark)
    requires row < |g| && col < |g[row]|
    ensures MarkCount(Set(g, row, col, m), k) + (if g[row][col] == k then 1 else 0) ==
            MarkCount(g, k) + (if m == k then 1 else 0)
  {
    var h := Set(g, row, col, m);
    if row == 0 {
      assert h[1..] == g[1..];
      RowCountUpdate(g[0], col, m, k);
    } else {
      assert h[1..] == Set(g[1..], row - 1, col, m);
      MarkCountSet(g[1..], row - 1, col, m, k);
    }
  }

  /** Turning one blank cell into a mark removes exactly one blank from the grid. */
  lemma BlankCountSet(g: Grid, row: nat, col: nat, m: Mark)
    requires row < |g| && col < |g[row]| && g[row][col] == Blank && m != Blank
    ensures BlankCount(Set(g, row, col, m)) + 1 == BlankCount(g)
  {
    MarkCountSet(g, row, col, m, Blank);
  }

  lemma {:induction false} RowCountUniform(row: seq<Mark>, m: Mark, k: Mark)
    requires forall c :: 0 <= c < |row| ==> row[c] == m
    ensures RowCount(row, k) == if m == k then |row| else 0
  {
    if row != [] {
      RowCountUniform(row[1..], m, k);
    }
  }

  lemma {:induction false} MarkCountUniform(g: Grid, n: nat, m: Mark, k: Mark)
    requires forall r :: 0 <= r < |g| ==> |g[r]| == n && forall c :: 0 <= c < n ==> g[r][c] == m
    ensures MarkCount(g, k) == if m == k then |g| * n else 0
  {
    if g != [] {
      RowCountUniform(g[0], m, k);
      MarkCountUniform(g[1..], n, m, k);
    }
  }

  /** A new n-by-n board has n*n blank cells and no X or O. */
  lemma EmptyGridCounts(n: nat)
    ensures BlankCount(EmptyGrid(n)) == n * n
    ensures MarkCount(EmptyGrid(n), X) == 0 && MarkCount(EmptyGrid(n), O) == 0
  {
    MarkCountUniform(EmptyGrid(n), n, Blank, Blank);
    MarkCountUniform(EmptyGrid(n), n, Blank, X);
    MarkCountUniform(EmptyGrid(n), n, Blank, O);
  }

  /**
   * The board: `boardArr` is the n-by-n array of marks, `boardSize` its side, fixed for the
   * board's lifetime (so `getSize` is this constant).
   */
  class Board {
    const boardSize: nat
    const boardArr: array2<Mark>

    ghost predicate Valid()
      reads this
    {
      boardArr.Length0 == boardSize && boardArr.Length1 == boardSize
    }

    /** The contents of the board as a grid value. */
    function Grid(): (g: Grid)
      reads this, boardArr
      requires Valid()
      ensures IsSquare(g, boardSize)
      ensures forall r, c :: 0 <= r < boardSize && 0 <= c < boardSize ==> g[r][c] == boardArr[r, c]
    {
      seq(boardSize, r requires 0 <= r < boardSize reads boardArr =>
        seq(boardSize, c requires 0 <= c < boardSize reads boardArr => boardArr[r, c]))
    }

    /** Board(size): an all-blank size-by-size board. */
    constructor (size: nat)
      ensures Valid() && fresh(boardArr)
      ensures boardSize == size && Grid() == EmptyGrid(size)
    {
      boardArr := new Mark[size, size];
      boardSize := size;
      new;
      InitializeBoard(boardArr, size);
      assert forall r :: 0 <= r < size ==> Grid()[r] == EmptyGrid(size)[r];
    }

    /** Board(): the default 4-by-4 board. */
    constructor Default()
      ensures Valid() && fresh(boardArr)
      ensures boardSize == 4 && Grid() == EmptyGrid(4)
    {
      boardArr := new Mark[4, 4];
      boardSize := 4;
      new;
      InitializeBoard(boardArr, 4);
      assert forall r :: 0 <= r < 4 ==> Grid()[r] == EmptyGrid(4)[r];
    }

    /** Sets every cell of the size-by-size array to `Blank`. */
    static method InitializeBoard(arr: array2<Mark>, size: nat)
      requires arr.Length0 == size && arr.Length1 == size
      modifies arr
      ensures forall r, c :: 0 <= r < size && 0 <= c < size ==> arr[r, c] == Blank
    {
      for i := 0 to size
        invariant forall r, c :: 0 <= r < i && 0 <= c < size ==> arr[r, c] == Blank
      {
        for j := 0 to size
          invariant forall r, c :: 0 <= r < i && 0 <= c < size ==> arr[r, c] == Blank
          invariant forall c :: 0 <= c < j ==> arr[i, c] == Blank
        {
          arr[i, j] := Blank;
        }
      }
    }

    /** The mark at (row, col); `Blank` when the coordinates are off the board. */
    function GetMark(row: int, col: int): (m: Mark)
      reads this, boardArr
      requires Valid()
      ensures m == At(Grid(), row, col)
      ensures !InRange(boardSize, row, col) ==> m == Blank
    {
      if row < 0 || row >= boardSize || col < 0 || col >= boardSize then Blank
      else boardArr[row, col]
    }

    /**
     * Puts `mark` at (row, col). Succeeds exactly when the cell is on the board and blank;
     * then that one cell, and no other, holds `mark`. On failure nothing changes.
     */
    method PutMark(mark: Mark, row: int, col: int) returns (ok: bool)
      requires Valid()
      modifies boardArr
      ensures ok <==> InRange(boardSize, row, col) && At(old(Grid()), row, col) == Blank
      ensures ok ==> Grid() == Set(old(Grid()), row, col, mark)
      ensures !ok ==> Grid() == old(Grid())
    {
      if row < 0 || row >= boardSize || col < 0 || col >= boardSize {
        return false;
      }
      if boardArr[row, col] == Blank {
        ghost var g := Grid();
        boardArr[row, col] := mark;
        ghost var h := Set(g, row, col, mark);
        assert forall r :: 0 <= r < boardSize ==> Grid()[r] == h[r];
        return true;
      }
      return false;
    }
  }
}
