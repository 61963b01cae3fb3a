/** The puzzle grid as a value: a height, a width and the rows of integer cells
    (the board is an integer array in the application; a cell is filled exactly
    when it holds 1). Snapshot turns the mutable two-dimensional array the
    application edits into such a value, so that functions and lemmas can talk
    about it. */
module Grids {

  datatype Grid = Grid(height: nat, width: nat, cells: seq<seq<int>>) {

    /** The rows really form a height-by-width rectangle. */
    predicate Valid() {
      |cells| == height && forall i :: 0 <= i < height ==> |cells[i]| == width
    }

    /** Row i, left to right (board[i, :]). */
    function Row(i: nat): (r: seq<int>)
      requires Valid() && i < height
      ensures |r| == width
    {
      cells[i]
    }

    /** Column j, top to bottom (board[:, j]). */
    function Column(j: nat): (c: seq<int>)
      requires Valid() && j < width
      ensures |c| == height
      ensures forall i :: 0 <= i < height ==> c[i] == cells[i][j]
    {
      seq(height, i requires 0 <= i < height => cells[i][j])
    }
  }

  /** A cell is filled when it holds exactly 1. */
  predicate Filled(c: int) {
    c == 1
  }

  /** Every cell is 0 or 1. */
  predicate Binary(g: Grid)
    requires g.Valid()
  {
    forall i, j :: 0 <= i < g.height && 0 <= j < g.width ==> g.cells[i][j] == 0 || g.cells[i][j] == 1
  }

  /** The coordinates of the filled cells. */
  function FilledSet(g: Grid): set<(int, int)>
    requires g.Valid()
  {
    set i, j | 0 <= i < g.height && 0 <= j < g.width && g.cells[i][j] == 1 :: (i, j)
  }

  /** The number of filled cells. */
  function FilledCount(g: Grid): nat
    requires g.Valid()
  {
    |FilledSet(g)|
  }

  /** The all-empty grid of the given shape (np.zeros). */
  function Zeros(height: nat, width: nat): (g: Grid)
    ensures g.Valid() && g.height == height && g.width == width
    ensures forall i, j :: 0 <= i < height && 0 <= j < width ==> g.cells[i][j] == 0
  {
    Grid(height, width, seq(height, _ => seq(width, _ => 0)))
  }

  /** The current contents of a two-dimensional integer array. */
  function Snapshot(board: array2<int>): (g: Grid)
    reads board
    ensures g.Valid() && g.height == board.Length0 && g.width == board.Length1
    ensures forall i, j :: 0 <= i < board.Length0 && 0 <= j < board.Length1 ==> g.cells[i][j] == board[i, j]
  {
    Grid(board.Length0, board.Length1,
         seq(board.Length0, i requires 0 <= i < board.Length0 reads board =>
           seq(board.Length1, j requires 0 <= j < board.Length1 reads board => board[i, j])))
  }

  /** An array and a grid value with the same shape and the same cells: the
      array's snapshot is that grid. */
  lemma SnapshotIs(board: array2<int>, g: Grid)
    requires g.Valid() && g.height == board.Length0 && g.width == board.Length1
    requires forall i, j :: 0 <= i < board.Length0 && 0 <= j < board.Length1 ==> board[i, j] == g.cells[i][j]
    ensures Snapshot(board) == g
  {
    var h := Snapshot(board);
    forall i | 0 <= i < g.height ensures h.cells[i] == g.cells[i] {
    }
  }
}
