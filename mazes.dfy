/**
 * The maze grid: `num_cols` columns of `num_rows` fully walled cells, each
 * drawn once, column by column, in the box its column and row give it.
 */
module Mazes {
  import opened Geometry
  import opened Display
  import opened Cells
  import opened Sequences

  /** A grid position: column i, row j (the indices of `_cells[i][j]`). */
  datatype Pos = Pos(col: int, row: int)

  /** How many indices `range(n)` yields: none when n is negative. */
  function Span(n: int): nat
  {
    if n < 0 then 0 else n
  }

  /** Where the grid sits on the canvas and how large each cell is, in pixels. */
  datatype Layout = Layout(x1: int, y1: int, cellSizeX: int, cellSizeY: int)
  {
    /** Top-left corner of the box of cell (i, j). */
    function TopLeft(i: int, j: int): (tl: Point)
      ensures i == 0 && j == 0 ==> tl == Point(x1, y1)
    {
      Point(x1 + cellSizeX * i, y1 + cellSizeY * j)
    }

    /** Bottom-right corner of the box of cell (i, j): one cell size beyond its top-left. */
    function BottomRight(i: int, j: int): (br: Point)
      ensures br.x - TopLeft(i, j).x == cellSizeX
      ensures br.y - TopLeft(i, j).y == cellSizeY
    {
      Point(x1 + cellSizeX * (i + 1), y1 + cellSizeY * (j + 1))
    }

    /** The pixel p lies in the half-open box of cell (i, j). */
    predicate Covers(i: int, j: int, p: Point)
    {
      TopLeft(i, j).x <= p.x < BottomRight(i, j).x && TopLeft(i, j).y <= p.y < BottomRight(i, j).y
    }

    /** The strokes a fully walled cell at p leaves on the window when drawn. */
    function Outline(p: Pos): (r: seq<Stroke>)
      ensures |r| == 4
      {
      WallStrokes(AllWalls, TopLeft(p.col, p.row), BottomRight(p.col, p.row))
    }

    /** The strokes left by drawing fully walled cells at the positions ps, in that order. */
    function Strokes(ps: seq<Pos>): (r: seq<Stroke>)
      ensures |r| == 4 * |ps|
    {
      if ps == [] then [] else Strokes(ps[..|ps| - 1]) + Outline(ps[|ps| - 1])
    }
  }

  /** Cells side by side share the edge between them, in both directions. */
  lemma AdjacentCellsShareEdges(lay: Layout, i: int, j: int)
    ensures lay.BottomRight(i, j).x == lay.TopLeft(i + 1, j).x
    ensures lay.TopLeft(i, j).y == lay.TopLeft(i + 1, j).y && lay.BottomRight(i, j).y == lay.BottomRight(i + 1, j).y
    ensures lay.BottomRight(i, j).y == lay.TopLeft(i, j + 1).y
    ensures lay.TopLeft(i, j).x == lay.TopLeft(i, j + 1).x && lay.BottomRight(i, j).x == lay.BottomRight(i, j + 1).x
  {
  }

  /** s * a <= s * b for a non-negative s and a <= b. */
  lemma MulMonotone(s: int, a: int, b: int)
    requires s >= 0 && a <= b
    ensures s * a <= s * b
  {
    assert s * b - s * a == s * (b - a);
  }

  /** The row (or column) index whose band [s*k, s*(k+1)) holds d, for a positive size s. */
  lemma BandIndex(s: int, d: int, n: int)
    requires s > 0 && 0 <= d < s * n
    ensures 0 <= d / s < n
    ensures s * (d / s) <= d < s * (d / s + 1)
    ensures forall k :: s * k <= d < s * (k + 1) ==> k == d / s
  {
    var q := d / s;
    assert s * q + d % s == d;
    if q >= n {
      MulMonotone(s, n, q);
    }
    if q < 0 {
      MulMonotone(s, q + 1, 0);
    }
    forall k | s * k <= d < s * (k + 1)
      ensures k == q
    {
      if k < q {
        MulMonotone(s, k + 1, q);
      } else if k > q {
        MulMonotone(s, q + 1, k);
      }
    }
  }

  /**
   * For positive cell sizes the boxes of a cols x rows grid tile its area: every
   * pixel of the area lies in the box of exactly one cell.
   */
  lemma CellsTileTheGrid(lay: Layout, cols: int, rows: int, p: Point)
    requires lay.cellSizeX > 0 && lay.cellSizeY > 0
    requires lay.x1 <= p.x < lay.x1 + lay.cellSizeX * cols
    requires lay.y1 <= p.y < lay.y1 + lay.cellSizeY * rows
    ensures var i, j := (p.x - lay.x1) / lay.cellSizeX, (p.y - lay.y1) / lay.cellSizeY;
      0 <= i < cols && 0 <= j < rows && lay.Covers(i, j, p)
    ensures forall i, j :: lay.Covers(i, j, p) ==>
      i == (p.x - lay.x1) / lay.cellSizeX && j == (p.y - lay.y1) / lay.cellSizeY
  {
    BandIndex(lay.cellSizeX, p.x - lay.x1, cols);
    BandIndex(lay.cellSizeY, p.y - lay.y1, rows);
  }

  /** Rows 0 .. n-1 of column i, top to bottom, built up one row at a time. */
  function ColumnPrefix(i: int, n: nat): (r: seq<Pos>)
    ensures |r| == n
  {
    if n == 0 then [] else ColumnPrefix(i, n - 1) + [Pos(i, n - 1)]
  }

  /** The positions of column i, rows 0 .. rows-1, top to bottom. */
  function Column(i: int, rows: nat): (r: seq<Pos>)
    ensures |r| == rows
  {
    ColumnPrefix(i, rows)
  }

  /** Column i lists rows 0 .. rows-1 of column i, in order. */
  lemma {:induction false} ColumnRows(i: int, rows: nat)
    ensures |Column(i, rows)| == rows
    ensures forall j :: 0 <= j < rows ==> Column(i, rows)[j] == Pos(i, j)
  {
    if rows > 0 {
      ColumnRows(i, rows - 1);
    }
  }

  /** p comes before q in column-major order: an earlier column, or the same column and an earlier row. */
  predicate Precedes(p: Pos, q: Pos)
  {
    p.col < q.col || (p.col == q.col && p.row < q.row)
  }

  /**
   * The positions of a cols x rows grid in column-major order:
   * (0, 0), (0, 1), ..., (0, rows-1), (1, 0), ...
   */
  function ColumnMajor(cols: nat, rows: nat): seq<Pos>
  {
    ColumnsPrefix(cols, rows)
  }

  /** Columns 0 .. n-1 of a grid with the given number of rows, built up one column at a time. */
  function ColumnsPrefix(n: nat, rows: nat): seq<Pos>
  {
    if n == 0 then [] else ColumnsPrefix(n - 1, rows) + Column(n - 1, rows)
  }

  /**
   * Column-major order lists cols * rows positions, all inside the grid, each
   * strictly after the one before it (so none twice).
   */
  lemma {:induction false} ColumnMajorOrdered(cols: nat, rows: nat)
    ensures |ColumnMajor(cols, rows)| == cols * rows
    ensures forall k :: 0 <= k < |ColumnMajor(cols, rows)| ==>
      0 <= ColumnMajor(cols, rows)[k].col < cols && 0 <= ColumnMajor(cols, rows)[k].row < rows
    ensures forall k, l :: 0 <= k < l < |ColumnMajor(cols, rows)| ==>
      Precedes(ColumnMajor(cols, rows)[k], ColumnMajor(cols, rows)[l])
  {
    if cols > 0 {
      ColumnMajorOrdered(cols - 1, rows);
      ColumnRows(cols - 1, rows);
    }
  }

  /** Cell (i, j) is visited at step i * rows + j. */
  lemma {:induction false} ColumnMajorAt(cols: nat, rows: nat, i: int, j: int)
    requires 0 <= i < cols && 0 <= j < rows
    ensures i * rows + j < |ColumnMajor(cols, rows)|
    ensures ColumnMajor(cols, rows)[i * rows + j] == Pos(i, j)
  {
    var prefix := ColumnMajor(cols - 1, rows);
    ColumnMajorOrdered(cols - 1, rows);
    ColumnRows(cols - 1, rows);
    if i < cols - 1 {
      ColumnMajorAt(cols - 1, rows, i, j);
      MulMonotone(rows, i + 1, cols - 1);
    } else {
      assert |prefix| == i * rows;
    }
  }

  /** Every cell of the grid is visited, exactly once, at step i * rows + j; nothing outside it is. */
  lemma ColumnMajorVisitsOnce(cols: nat, rows: nat, i: int, j: int)
    ensures Pos(i, j) in ColumnMajor(cols, rows) <==> 0 <= i < cols && 0 <= j < rows
    ensures forall k :: 0 <= k < |ColumnMajor(cols, rows)| && ColumnMajor(cols, rows)[k] == Pos(i, j) ==>
      k == i * rows + j
  {
    var ps := ColumnMajor(cols, rows);
    ColumnMajorOrdered(cols, rows);
    if 0 <= i < cols && 0 <= j < rows {
      ColumnMajorAt(cols, rows, i, j);
      forall k | 0 <= k < |ps| && k != i * rows + j
        ensures ps[k] != Pos(i, j)
      {
        assert Precedes(ps[k], ps[i * rows + j]) || Precedes(ps[i * rows + j], ps[k]);
      }
    }
  }

  /** Drawing one more cell appends its outline. */
  lemma StrokesSnoc(lay: Layout, ps: seq<Pos>, p: Pos)
    ensures lay.Strokes(ps + [p]) == lay.Strokes(ps) + lay.Outline(p)
  {
    assert (ps + [p])[..|ps|] == ps;
  }

  /** Drawing the cells of ps and then those of qs leaves the strokes of both, in that order. */
  lemma {:induction false} StrokesAppend(lay: Layout, ps: seq<Pos>, qs: seq<Pos>)
    ensures lay.Strokes(ps + qs) == lay.Strokes(ps) + lay.Strokes(qs)
  {
    if qs != [] {
      var init := qs[..|qs| - 1];
      StrokesAppend(lay, ps, init);
      assert (ps + qs)[..|ps + qs| - 1] == ps + init;
    } else {
      assert ps + qs == ps;
    }
  }

  /**
   * The window holds four strokes per cell drawn, and strokes 4k .. 4k+3 are
   * the outline of the k-th cell drawn.
   */
  lemma {:induction false} StrokesAt(lay: Layout, ps: seq<Pos>, k: nat)
    requires k < |ps|
    ensures |lay.Strokes(ps)| == 4 * |ps|
    ensures lay.Strokes(ps)[4 * k .. 4 * k + 4] == lay.Outline(ps[k])
  {
    var init := ps[..|ps| - 1];
    if k < |ps| - 1 {
      StrokesAt(lay, init, k);
      assert lay.Strokes(ps)[4 * k .. 4 * k + 4] == lay.Strokes(init)[4 * k .. 4 * k + 4];
    } else if init != [] {
      StrokesAt(lay, init, 0);
    }
  }

  // Loop steps: each lemma below takes a ghost accumulator equal to the value
  // for the first k steps and gives the value for k + 1 steps, in the form the
  // drawing loops' invariants need.

  /** Extending the first rows of column i by row j gives its first j + 1 rows. */
  lemma ColumnStep(i: int, j: nat, sofar: seq<Pos>)
    requires sofar == Column(i, j)
    ensures sofar + [Pos(i, j)] == Column(i, j + 1)
  {
  }

  /** Appending column i to the first i columns gives the first i + 1 columns. */
  lemma ColumnMajorStep(i: nat, rows: nat, order: seq<Pos>)
    requires order == ColumnMajor(i, rows)
    ensures order + Column(i, rows) == ColumnMajor(i + 1, rows)
  {
  }

  /** The strokes of ps followed by the outline of p are the strokes of ps + [p]. */
  lemma StrokesStep(lay: Layout, ps: seq<Pos>, p: Pos, out: seq<Stroke>)
    requires out == lay.Strokes(ps)
    ensures out + lay.Outline(p) == lay.Strokes(ps + [p])
  {
    StrokesSnoc(lay, ps, p);
  }

  /** No cell appears twice anywhere in the grid g. */
  ghost predicate AllDistinct(g: seq<seq<Cell>>)
  {
    forall a, b, c, d :: 0 <= a < |g| && 0 <= b < |g[a]| && 0 <= c < |g| && 0 <= d < |g[c]| && (a != c || b != d) ==>
      g[a][b] != g[c][d]
  }

  /** Every cell of g is filed in slot under its own position. */
  ghost predicate Indexed(g: seq<seq<Cell>>, slot: map<Cell, Pos>)
  {
    forall a, b :: 0 <= a < |g| && 0 <= b < |g[a]| ==> g[a][b] in slot && slot[g[a][b]] == Pos(a, b)
  }

  /** A grid whose cells are filed under their own positions has no repeats. */
  lemma IndexedDistinct(g: seq<seq<Cell>>, slot: map<Cell, Pos>)
    requires Indexed(g, slot)
    ensures AllDistinct(g)
  {
  }

  class Maze {
    const x1: int
    const y1: int
    const numRows: int
    const numCols: int
    const cellSizeX: int
    const cellSizeY: int
    const win: Window?

    /** The grid, column by column: `cells[i][j]` is column i, row j. */
    var cells: seq<seq<Cell>>

    /** The positions handed to `DrawCell` so far, in call order. */
    ghost var drawn: seq<Pos>

    /** The position of every cell this maze created. */
    ghost var slot: map<Cell, Pos>

    /** The maze's origin and cell sizes. */
    function Placement(): Layout
    {
      Layout(x1, y1, cellSizeX, cellSizeY)
    }

    /** numCols columns of numRows cells each (none when a count is negative). */
    ghost predicate Shaped()
      reads this
    {
      |cells| == Span(numCols) && forall i :: 0 <= i < |cells| ==> |cells[i]| == Span(numRows)
    }

    constructor (x1: int, y1: int, numRows: int, numCols: int, cellSizeX: int, cellSizeY: int,
                 win: Window? := null)
      modifies win
      ensures this.x1 == x1 && this.y1 == y1 && this.numRows == numRows && this.numCols == numCols
      ensures this.cellSizeX == cellSizeX && this.cellSizeY == cellSizeY && this.win == win
      ensures Shaped() && AllDistinct(cells)
      ensures forall i, j :: 0 <= i < |cells| && 0 <= j < |cells[i]| ==>
        && fresh(cells[i][j])
        && cells[i][j].win == win
        && cells[i][j].WallFlags() == AllWalls
        && cells[i][j].PlacedAt(Placement().TopLeft(i, j), Placement().BottomRight(i, j))
      ensures drawn == ColumnMajor(Span(numCols), Span(numRows))
      ensures win != null ==> win.strokes == old(win.strokes) + Placement().Strokes(drawn)
    {
      this.x1 := x1;
      this.y1 := y1;
      this.numRows := numRows;
      this.numCols := numCols;
      this.cellSizeX := cellSizeX;
      this.cellSizeY := cellSizeY;
      this.win := win;
      cells := [];
      drawn := [];
      slot := map[];
      new;
      CreateCells();
    }

    /** Creates the cells of column i, rows 0 .. numRows-1, each filed in slot under its position. */
    method BuildColumn(i: int) returns (col: seq<Cell>)
      modifies this`slot
      ensures |col| == Span(numRows)
      ensures forall c :: c in old(slot) ==> c in slot && slot[c] == old(slot)[c]
      ensures forall c :: c in slot ==> c in old(slot) || fresh(c)
      ensures forall b :: 0 <= b < |col| ==> col[b] in slot && slot[col[b]] == Pos(i, b)
      ensures forall b :: 0 <= b < |col| ==>
        && fresh(col[b])
        && col[b].win == win
        && col[b].WallFlags() == AllWalls
        && col[b].Unplaced()
    {
      col := [];
      var j := 0;
      while j < numRows
        invariant 0 <= j <= Span(numRows)
        invariant |col| == j
        invariant forall c :: c in old(slot) ==> c in slot && slot[c] == old(slot)[c]
        invariant forall c :: c in slot ==> c in old(slot) || fresh(c)
        invariant forall b :: 0 <= b < |col| ==> col[b] in slot && slot[col[b]] == Pos(i, b)
        invariant forall b :: 0 <= b < |col| ==>
          && fresh(col[b])
          && col[b].win == win
          && col[b].WallFlags() == AllWalls
          && col[b].Unplaced()
      {
        var cell := new Cell(win);
        col := col + [cell];
        slot := slot[cell := Pos(i, j)];
        j := j + 1;
      }
    }

    /**
     * Builds the grid of fresh, fully walled cells, then draws every cell once,
     * column by column, each in its box.
     */
    method CreateCells()
      modifies this`cells, this`drawn, this`slot, win
      ensures Shaped() && AllDistinct(cells)
      ensures forall i, j :: 0 <= i < |cells| && 0 <= j < |cells[i]| ==>
        && fresh(cells[i][j])
        && cells[i][j].win == win
        && cells[i][j].WallFlags() == AllWalls
        && cells[i][j].PlacedAt(Placement().TopLeft(i, j), Placement().BottomRight(i, j))
      ensures drawn == old(drawn) + ColumnMajor(Span(numCols), Span(numRows))
      ensures win != null ==>
        win.strokes == old(win.strokes) + Placement().Strokes(ColumnMajor(Span(numCols), Span(numRows)))
    {
      BuildCells();
      IndexedDistinct(cells, slot);
      DrawCells();
    }

    /** The first half of `CreateCells`: numCols columns of numRows new, fully walled cells. */
    method BuildCells()
      modifies this`cells, this`slot
      ensures Shaped() && Indexed(cells, slot)
      ensures forall c :: c in slot ==> fresh(c)
      ensures forall i, j :: 0 <= i < |cells| && 0 <= j < |cells[i]| ==>
        && fresh(cells[i][j])
        && cells[i][j].win == win
        && cells[i][j].WallFlags() == AllWalls
        && cells[i][j].Unplaced()
    {
      var rows := Span(numRows);
      cells := [];
      slot := map[];
      var i := 0;
      while i < numCols
        invariant 0 <= i <= Span(numCols)
        invariant |cells| == i && forall a :: 0 <= a < i ==> |cells[a]| == rows
        invariant Indexed(cells, slot)
        invariant forall c :: c in slot ==> fresh(c)
        invariant forall a, b :: 0 <= a < |cells| && 0 <= b < |cells[a]| ==>
          && fresh(cells[a][b])
          && cells[a][b].win == win
          && cells[a][b].WallFlags() == AllWalls
          && cells[a][b].Unplaced()
      {
        var col := BuildColumn(i);
        cells := cells + [col];
        i := i + 1;
      }
    }

    /** The second half of `CreateCells`: every cell drawn once, in column-major order. */
    method DrawCells()
      requires Shaped() && Indexed(cells, slot)
      requires forall i, j :: 0 <= i < |cells| && 0 <= j < |cells[i]| ==>
        cells[i][j].win == win && cells[i][j].WallFlags() == AllWalls
      modifies this`drawn, win, slot.Keys
      ensures forall i, j :: 0 <= i < |cells| && 0 <= j < |cells[i]| ==>
        && cells[i][j].WallFlags() == AllWalls
        && cells[i][j].PlacedAt(Placement().TopLeft(i, j), Placement().BottomRight(i, j))
      ensures drawn == old(drawn) + ColumnMajor(Span(numCols), Span(numRows))
      ensures win != null ==>
        win.strokes == old(win.strokes) + Placement().Strokes(ColumnMajor(Span(numCols), Span(numRows)))
    {
      ghost var g: seq<seq<Cell>> := cells;
      ghost var sl: map<Cell, Pos> := slot;
      ghost var lay := Placement();
      ghost var order: seq<Pos> := [];
      var i := 0;
      while i < numCols
        invariant 0 <= i <= Span(numCols)
        invariant order == ColumnMajor(i, Span(numRows))
        invariant drawn == old(drawn) + order
        invariant win != null ==> win.strokes == old(win.strokes) + lay.Strokes(order)
        invariant forall a, b :: 0 <= a < |g| && 0 <= b < |g[a]| ==> g[a][b].WallFlags() == AllWalls
        invariant forall a, b :: 0 <= a < i && 0 <= b < |g[a]| ==> g[a][b].PlacedAt(lay.TopLeft(a, b), lay.BottomRight(a, b))
      {
        ghost var column := Column(i, Span(numRows));
        ghost var prevDrawn := drawn;
        ghost var prev := if win != null then win.strokes else [];
        DrawColumn(i, g, sl);
        Extend(old(drawn), order, column, prevDrawn, drawn);
        if win != null {
          Extend(old(win.strokes), lay.Strokes(order), lay.Strokes(column), prev, win.strokes);
        }
        StrokesAppend(lay, order, column);
        ColumnMajorStep(i, Span(numRows), order);
        order := order + column;
        i := i + 1;
      }
      assert i == Span(numCols);
    }

    /** One pass of the outer loop of `DrawCells`: the cells of column i, top to bottom. */
    method DrawColumn(i: int, ghost g: seq<seq<Cell>>, ghost sl: map<Cell, Pos>)
      requires g == cells && Indexed(g, sl)
      requires 0 <= i < |g| && |g[i]| == Span(numRows)
      requires forall a, b :: 0 <= a < |g| && 0 <= b < |g[a]| ==> g[a][b].win == win
      requires forall a, b :: 0 <= a < |g| && 0 <= b < |g[a]| ==> g[a][b].WallFlags() == AllWalls
      requires forall a, b :: 0 <= a < i && 0 <= b < |g[a]| ==> g[a][b].PlacedAt(Placement().TopLeft(a, b), Placement().BottomRight(a, b))
      modifies this`drawn, win, sl.Keys
      ensures forall a, b :: 0 <= a < |g| && 0 <= b < |g[a]| ==> g[a][b].WallFlags() == AllWalls
      ensures forall a, b :: 0 <= a <= i && 0 <= b < |g[a]| ==> g[a][b].PlacedAt(Placement().TopLeft(a, b), Placement().BottomRight(a, b))
      ensures drawn == old(drawn) + Column(i, Span(numRows))
      ensures win != null ==>
        win.strokes == old(win.strokes) + Placement().Strokes(Column(i, Span(numRows)))
    {
      ghost var lay := Placement();
      ghost var drawnBase := drawn;
      ghost var strokesBase := if win != null then win.strokes else [];
      ghost var sofar: seq<Pos> := [];
      ghost var emitted: seq<Stroke> := [];
      var j := 0;
      while j < numRows
        invariant 0 <= j <= Span(numRows)
        invariant sofar == Column(i, j)
        invariant emitted == lay.Strokes(sofar)
        invariant drawn == drawnBase + sofar
        invariant win != null ==> win.strokes == strokesBase + emitted
        invariant forall a, b :: 0 <= a < |g| && 0 <= b < |g[a]| ==> g[a][b].WallFlags() == AllWalls
        invariant forall a, b :: (0 <= a < i || (a == i && b < j)) && 0 <= a < |g| && 0 <= b < |g[a]| ==>
          g[a][b].PlacedAt(lay.TopLeft(a, b), lay.BottomRight(a, b))
      {
        DrawNext(i, j, g, sl, drawnBase, strokesBase, sofar, emitted);
        ColumnStep(i, j, sofar);
        StrokesStep(lay, sofar, Pos(i, j), emitted);
        sofar := sofar + [Pos(i, j)];
        emitted := emitted + lay.Outline(Pos(i, j));
        j := j + 1;
      }
      assert j == Span(numRows);
    }

    /**
     * Draws cell (i, j) of a grid whose cells are all walled and whose cells before (i, j) in
     * column-major order are placed; the draw log and the window grow by that one cell.
     */
    method DrawNext(i: int, j: int, ghost g: seq<seq<Cell>>, ghost sl: map<Cell, Pos>,
                    ghost drawnBase: seq<Pos>, ghost strokesBase: seq<Stroke>,
                    ghost sofar: seq<Pos>, ghost emitted: seq<Stroke>)
      requires g == cells && Indexed(g, sl)
      requires 0 <= i < |g| && 0 <= j < |g[i]|
      requires forall a, b :: 0 <= a < |g| && 0 <= b < |g[a]| ==> g[a][b].win == win
      requires drawn == drawnBase + sofar
      requires win != null ==> win.strokes == strokesBase + emitted
      requires forall a, b :: 0 <= a < |g| && 0 <= b < |g[a]| ==> g[a][b].WallFlags() == AllWalls
      requires forall a, b :: (0 <= a < i || (a == i && b < j)) && 0 <= a < |g| && 0 <= b < |g[a]| ==>
        g[a][b].PlacedAt(Placement().TopLeft(a, b), Placement().BottomRight(a, b))
      modifies this`drawn, win, sl.Keys
      ensures drawn == drawnBase + (sofar + [Pos(i, j)])
      ensures win != null ==> win.strokes == strokesBase + (emitted + Placement().Outline(Pos(i, j)))
      ensures forall a, b :: 0 <= a < |g| && 0 <= b < |g[a]| ==> g[a][b].WallFlags() == AllWalls
      ensures forall a, b :: (0 <= a < i || (a == i && b < j + 1)) && 0 <= a < |g| && 0 <= b < |g[a]| ==>
        g[a][b].PlacedAt(Placement().TopLeft(a, b), Placement().BottomRight(a, b))
    {
      ghost var prevDrawn := drawn;
      ghost var prev := if win != null then win.strokes else [];
      DrawCell(i, j, g, sl);
      Extend(drawnBase, sofar, [Pos(i, j)], prevDrawn, drawn);
      if win != null {
        Extend(strokesBase, emitted, Placement().Outline(Pos(i, j)), prev, win.strokes);
      }
    }

    /** Draws cell (i, j) in its box: column i, row j of the grid. */
    method DrawCell(i: int, j: int, ghost g: seq<seq<Cell>>, ghost sl: map<Cell, Pos>)
      requires 0 <= i < |cells| && 0 <= j < |cells[i]|
      requires g == cells && Indexed(g, sl)
      modifies this`drawn, cells[i][j], cells[i][j].win
      ensures forall a, b :: 0 <= a < |g| && 0 <= b < |g[a]| && (a != i || b != j) ==> unchanged(g[a][b])
      ensures drawn == old(drawn) + [Pos(i, j)]
      ensures cells[i][j].PlacedAt(Placement().TopLeft(i, j), Placement().BottomRight(i, j))
      ensures cells[i][j].WallFlags() == old(cells[i][j].WallFlags())
      ensures cells[i][j].win != null ==>
        cells[i][j].win.strokes == old(cells[i][j].win.strokes) + WallStrokes(cells[i][j].WallFlags(), Placement().TopLeft(i, j), Placement().BottomRight(i, j))
    {
      var cell := cells[i][j];
      var topLeft := Point(x1 + cellSizeX * i, y1 + cellSizeY * j);
      var bottomRight := Point(x1 + cellSizeX * (i + 1), y1 + cellSizeY * (j + 1));
      cell.Draw(topLeft, bottomRight);
      drawn := drawn + [Pos(i, j)];
    }
  }
}
