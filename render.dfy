/** The layout of the exported picture (save_image): a canvas with a 50-unit
    margin on every side of the grid, one 30-unit square per cell, the row
    clues in the left margin and the column clues stacked in the top margin.
    Only the coordinates, colours and label texts are modelled; the drawing
    itself and the PNG encoding are not. */
module Render {
  import opened Grids
  import opened Clues
  import opened Decimal
  import opened Texts

  const CellSize: nat := 30

  /** Canvas width: cols * cell_size + 100. */
  function CanvasWidth(cols: nat): nat {
    cols * CellSize + 100
  }

  /** Canvas height: rows * cell_size + 100. */
  function CanvasHeight(rows: nat): nat {
    rows * CellSize + 100
  }

  datatype Color = Black | White

  /** draw.rectangle([x0, y0, x1, y1], fill, outline="black"): both corners
      are inside the rectangle. */
  datatype Rect = Rect(x0: int, y0: int, x1: int, y1: int, fill: Color)

  /** draw.text((x, y), text, fill="black") */
  datatype Label = Label(x: int, y: int, text: string)

  /** What save_image draws, in drawing order: the cells row by row, then one
      label per row clue list, then per column its clue values top to bottom. */
  datatype Picture = Picture(width: nat, height: nat,
                             cells: seq<seq<Rect>>,
                             rowLabels: seq<Label>,
                             colLabels: seq<seq<Label>>)

  /** The square of cell (i, j), anchored at (j * 30 + 50, i * 30 + 50). */
  function CellRect(i: nat, j: nat, fill: Color): Rect {
    Rect(j * CellSize + 50, i * CellSize + 50, j * CellSize + 50 + CellSize, i * CellSize + 50 + CellSize, fill)
  }

  /** The label of row i: its clue values joined by spaces, at (10, i * 30 + 55). */
  function RowLabel(i: nat, clue: seq<int>): Label {
    Label(10, i * CellSize + 55, Join(Strings(clue), " "))
  }

  /** The k-th value of column j's clue, at (j * 30 + 55, 10 + k * 10). */
  function ColumnLabel(j: nat, k: nat, value: int): Label {
    Label(j * CellSize + 55, 10 + k * 10, IntToString(value))
  }

  /** The square of every cell, black for a filled cell and white otherwise. */
  function CellSquares(g: Grid): (cs: seq<seq<Rect>>)
    requires g.Valid()
    ensures |cs| == g.height && forall i :: 0 <= i < g.height ==> |cs[i]| == g.width
    ensures forall i, j :: 0 <= i < g.height && 0 <= j < g.width ==>
      InCanvas(cs[i][j], CanvasWidth(g.width), CanvasHeight(g.height)) && (cs[i][j].fill == Black <==> Filled(g.cells[i][j]))
  {
    seq(g.height, i requires 0 <= i < g.height =>
      seq(g.width, j requires 0 <= j < g.width =>
        CellRect(i, j, if g.cells[i][j] == 1 then Black else White)))
  }

  /** The picture save_image draws: the canvas, one square per cell, black
      exactly when the cell is filled and every one on the canvas, one label
      per row clue and one per value of each column clue. */
  function SaveImage(g: Grid, clues: ClueSet): (p: Picture)
    requires g.Valid()
    ensures p.width == CanvasWidth(g.width) && p.height == CanvasHeight(g.height)
    ensures |p.cells| == g.height && forall i :: 0 <= i < g.height ==> |p.cells[i]| == g.width
    ensures forall i, j :: 0 <= i < g.height && 0 <= j < g.width ==>
      InCanvas(p.cells[i][j], p.width, p.height) && (p.cells[i][j].fill == Black <==> Filled(g.cells[i][j]))
    ensures |p.rowLabels| == |clues.rows| && |p.colLabels| == |clues.cols|
    ensures forall j :: 0 <= j < |clues.cols| ==> |p.colLabels[j]| == |clues.cols[j]|
    ensures forall i :: 0 <= i < |clues.rows| ==> p.rowLabels[i] == RowLabel(i, clues.rows[i])
    ensures forall j, k :: 0 <= j < |clues.cols| && 0 <= k < |clues.cols[j]| ==>
      p.colLabels[j][k] == ColumnLabel(j, k, clues.cols[j][k])
  {
    Picture(CanvasWidth(g.width), CanvasHeight(g.height), CellSquares(g),
            seq(|clues.rows|, i requires 0 <= i < |clues.rows| => RowLabel(i, clues.rows[i])),
            seq(|clues.cols|, j requires 0 <= j < |clues.cols| =>
              seq(|clues.cols[j]|, k requires 0 <= k < |clues.cols[j]| => ColumnLabel(j, k, clues.cols[j][k]))))
  }

  /** The pixels of the canvas are 0 .. width - 1 by 0 .. height - 1. */
  predicate InCanvas(r: Rect, width: nat, height: nat) {
    0 <= r.x0 < r.x1 < width && 0 <= r.y0 < r.y1 < height
  }

  /** The two rectangles share at most boundary pixels: their interiors are apart. */
  predicate InteriorsDisjoint(a: Rect, b: Rect) {
    a.x1 <= b.x0 || b.x1 <= a.x0 || a.y1 <= b.y0 || b.y1 <= a.y0
  }

  /** Every cell square lies on the canvas, 50 units clear of each edge. */
  lemma CellRectInCanvas(rows: nat, cols: nat, i: nat, j: nat, fill: Color)
    requires i < rows && j < cols
    ensures InCanvas(CellRect(i, j, fill), CanvasWidth(cols), CanvasHeight(rows))
    ensures CellRect(i, j, fill).x0 >= 50 && CellRect(i, j, fill).x1 + 50 <= CanvasWidth(cols)
    ensures CellRect(i, j, fill).y0 >= 50 && CellRect(i, j, fill).y1 + 50 <= CanvasHeight(rows)
  {
  }

  /** Squares of different cells overlap at most on their shared border, and
      neighbours do share it. */
  lemma CellRectsTile(i: nat, j: nat, i': nat, j': nat, f: Color, f': Color)
    ensures (i, j) != (i', j') ==> InteriorsDisjoint(CellRect(i, j, f), CellRect(i', j', f'))
    ensures CellRect(i, j, f).x1 == CellRect(i, j + 1, f').x0
    ensures CellRect(i, j, f).y1 == CellRect(i + 1, j, f').y0
  {
  }

  /** A row label starts in the left margin, inside that row's band. */
  lemma RowLabelPlacement(i: nat, clue: seq<int>)
    ensures RowLabel(i, clue).x < 50
    ensures CellRect(i, 0, White).y0 < RowLabel(i, clue).y < CellRect(i, 0, White).y1
  {
  }

  /** A column label starts inside that column's band; it is above the grid
      exactly for the first four values of the column's clue. */
  lemma ColumnLabelPlacement(j: nat, k: nat, value: int)
    ensures CellRect(0, j, White).x0 < ColumnLabel(j, k, value).x < CellRect(0, j, White).x1
    ensures ColumnLabel(j, k, value).y < 50 <==> k < 4
  {
  }

  /** The layout of the whole picture: the squares of two different cells
      overlap at most on a border; each row label starts in the left margin
      inside its row's band; each column label starts inside its column's
      band, above the grid exactly for the first four values. */
  lemma SaveImageLayout(g: Grid, clues: ClueSet)
    requires g.Valid()
    ensures var p := SaveImage(g, clues);
      forall i, j, i', j' ::
        0 <= i < g.height && 0 <= j < g.width && 0 <= i' < g.height && 0 <= j' < g.width && (i, j) != (i', j') ==>
          InteriorsDisjoint(p.cells[i][j], p.cells[i'][j'])
    ensures var p := SaveImage(g, clues);
      forall i :: 0 <= i < |clues.rows| ==>
        p.rowLabels[i].x < 50 && i * CellSize + 50 < p.rowLabels[i].y < i * CellSize + 80
    ensures var p := SaveImage(g, clues);
      forall j, k :: 0 <= j < |clues.cols| && 0 <= k < |clues.cols[j]| ==>
        j * CellSize + 50 < p.colLabels[j][k].x < j * CellSize + 80 && (p.colLabels[j][k].y < 50 <==> k < 4)
  {
    var p := SaveImage(g, clues);
    forall i, j, i', j' |
        0 <= i < g.height && 0 <= j < g.width && 0 <= i' < g.height && 0 <= j' < g.width && (i, j) != (i', j')
      ensures InteriorsDisjoint(p.cells[i][j], p.cells[i'][j'])
    {
      CellRectsTile(i, j, i', j', p.cells[i][j].fill, p.cells[i'][j'].fill);
    }
    forall i | 0 <= i < |clues.rows|
      ensures p.rowLabels[i].x < 50 && i * CellSize + 50 < p.rowLabels[i].y < i * CellSize + 80
    {
      RowLabelPlacement(i, clues.rows[i]);
    }
    forall j, k | 0 <= j < |clues.cols| && 0 <= k < |clues.cols[j]|
      ensures j * CellSize + 50 < p.colLabels[j][k].x < j * CellSize + 80 && (p.colLabels[j][k].y < 50 <==> k < 4)
    {
      ColumnLabelPlacement(j, k, clues.cols[j][k]);
    }
  }
}
