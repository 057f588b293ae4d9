# Maze grid model

This project models the grid core of the maze program in `src/maze.py`. It covers four things:

- the `Cell` class: four wall flags, a pixel box that stays unset (`None`) until the cell is drawn, and an optional window;
- `Cell.draw`: records the box, then emits one black segment per wall present, in the order left, right, top, bottom;
- the `Maze` constructor: builds `num_cols` columns of `num_rows` fully walled cells, then draws every cell once in column-major order;
- the arithmetic that places cell (i, j) on the canvas.

The window is a sink. It records every `draw_line` call as a `Stroke` (a segment plus its fill colour). A cell or maze without a window emits nothing.

Modules:

- `Geometry` (`geometry.dfy`): `Point`, `Line`, and `Coord`, the optionally-unset coordinate.
- `Display` (`display.dfy`): the recording `Window`.
- `Sequences` (`sequences.dfy`): two facts about sequence concatenation that the drawing logs rely on.
- `Cells` (`cells.dfy`):
  - the pure rule `WallStrokes`, which gives the strokes a cell with given flags leaves when drawn in a given box, with its lemmas;
  - the `Cell` class, whose `Draw` method is proved against `WallStrokes`.
- `Mazes` (`mazes.dfy`):
  - the `Layout` of the grid (`TopLeft`, `BottomRight`), with the tiling lemmas;
  - the column-major visiting order `ColumnMajor`, with its lemmas;
  - `Layout.Strokes`, which gives the strokes left by drawing fully walled cells in a given order;
  - the `Maze` class.

  The `Maze` class has two ghost fields. `drawn` logs the positions handed to `_draw_cell`, in call order. `slot` maps each cell the maze created to its position. The constructor's contract says three things:
  - the grid has the right shape and no cell appears twice;
  - every cell is fresh, fully walled, on the maze's window and placed in its own box;
  - `drawn == ColumnMajor(cols, rows)`, and the window received exactly `Strokes(ColumnMajor(cols, rows))`.

Facts about `src/maze.py` that shape the model:

- `Cell.draw` calls `draw_line` once per wall present (src/maze.py:75-90), so every cell of a new maze leaves four segments on the window. `Layout.Outline`, `Layout.Strokes` and `StrokesAt` state this.
- `range(n)` yields nothing for a negative `n` (src/maze.py:126, 128, 131, 132), so the model accepts any integer count and uses `Span(n)` (0 for a negative `n`) columns or rows.
- Every cell is created before any is drawn: `_create_cells` runs two separate double loops (src/maze.py:126-130, then 131-133). The model does the same, with `BuildCells` followed by `DrawCells`.
- No code clears a wall and `Cell` has no `visited` field, so every cell of a maze keeps all four walls.

## Model

| member | source | states |
|---|---|---|
| Display.Window.DrawLine | src/maze.py:44-45 | drawing a segment appends exactly that segment and its fill colour to the window's record, and nothing else changes |
| Cells.Cell.constructor | src/maze.py:49-67 | the four coordinates start unset (`None`), the window is the one passed, and each flag is the argument given (all `True` by default) |
| Cells.Cell.Draw | src/maze.py:69-90 | afterwards the cell's box is exactly top_left..bot_right; the wall flags are unchanged; a window gains exactly `WallStrokes(flags, box)` |
| Cells.Cell.DrawSide | src/maze.py:75-90 | one guarded `draw_line` call: the window gains the black segment only when the wall is present and the cell has a window |
| Cells.Segment | src/maze.py:76-88 | each side's segment joins two corners of the box and is axis-aligned; in a box of non-zero width and height its ends differ |
| Cells.SegmentsDistinct | src/maze.py:76-88 | in a box of non-zero width and height the four sides are four different segments |
| Cells.WallStrokesCount | src/maze.py:75-90 | `draw` emits exactly as many segments as walls present |
| Cells.WallStrokesAt | src/maze.py:75-90 | the segment of a present wall comes right after those of the present walls before it, in the order left, right, top, bottom |
| Cells.WallStrokesPresence | src/maze.py:75-90 | in a box of non-zero width and height, a side's black segment is emitted if and only if that wall is present |
| Mazes.Layout.TopLeft | src/maze.py:137-139 | the top-left corner of cell (i, j) is the origin shifted by i cell widths and j cell heights; cell (0, 0) starts exactly at the maze's origin (x1, y1) |
| Cells.WallStrokes | src/maze.py:75-90 | the emission rule: the segments `draw` sends to the window for given flags and box, one per wall present, left, right, top, bottom (its properties are `WallStrokesCount`, `WallStrokesAt`, `WallStrokesPresence`) |
| Mazes.Layout.BottomRight | src/maze.py:140-143 | the bottom-right corner lies exactly one cell size beyond the top-left corner on each axis |
| Mazes.AdjacentCellsShareEdges | src/maze.py:137-143 | the right edge of cell (i, j) is the left edge of cell (i+1, j), and its bottom edge is the top edge of cell (i, j+1); neighbours also line up on the other axis |
| Mazes.CellsTileTheGrid | src/maze.py:137-143 | for positive cell sizes, every pixel of the grid's area lies in the box of exactly one cell, found by integer division |
| Mazes.BandIndex | src/maze.py:137-143 | for a positive size s, the offset d lies in band d / s and in no other band |
| Mazes.ColumnMajor | src/maze.py:131-133 | the order of the `_draw_cell` calls: column by column, rows top to bottom within a column (its properties are `ColumnMajorOrdered`, `ColumnMajorAt`, `ColumnMajorVisitsOnce`) |
| Mazes.ColumnRows | src/maze.py:132-133 | the inner drawing loop visits rows 0 .. rows-1 of column i in order |
| Mazes.ColumnMajorOrdered | src/maze.py:131-133 | the drawing loop visits cols * rows positions, all inside the grid, each strictly after the previous one in column-major order |
| Mazes.ColumnMajorAt | src/maze.py:131-133 | cell (i, j) is drawn at step i * rows + j |
| Mazes.ColumnMajorVisitsOnce | src/maze.py:131-133 | a position is visited if and only if it lies inside the grid, and then at only one step |
| Mazes.Layout.Outline | src/maze.py:129 | a cell created with default flags leaves exactly four segments when drawn: its whole outline |
| Mazes.Layout.Strokes | src/maze.py:131-133 | the strokes left by drawing fully walled cells in a given order: four per cell drawn, for every order, including none |
| Mazes.StrokesSnoc | src/maze.py:133 | drawing one more cell appends that cell's outline to the window |
| Mazes.StrokesAppend | src/maze.py:131-133 | drawing one run of cells and then another leaves both runs' strokes, in that order |
| Mazes.StrokesAt | src/maze.py:131-133 | the window holds four segments per cell drawn, and segments 4k .. 4k+3 outline the k-th cell drawn |
| Mazes.IndexedDistinct | src/maze.py:127-130 | cells filed under their own positions never repeat: every `Cell(...)` call makes a new object |
| Mazes.Maze.constructor | src/maze.py:107-121 | the maze keeps its six parameters and its window, and ends as `_create_cells` leaves it (see `CreateCells`) |
| Mazes.Maze.CreateCells | src/maze.py:123-133 | the grid has `num_cols` columns of `num_rows` distinct, fresh, fully walled cells on the maze's window; each cell is placed in its own box; cells are drawn once each in column-major order, and the window gains exactly their outlines in that order |
| Mazes.Maze.BuildCells | src/maze.py:124-130 | the first double loop: a grid of the right shape whose cells are new, on the maze's window, fully walled and not yet placed |
| Mazes.Maze.BuildColumn | src/maze.py:127-129 | one column: `num_rows` new, fully walled, unplaced cells, each filed under (i, row) |
| Mazes.Maze.DrawCells | src/maze.py:131-133 | the second double loop: every cell is placed in its own box with its walls untouched; the draw log grows by `ColumnMajor` and the window by `Strokes(ColumnMajor)` |
| Mazes.Maze.DrawColumn | src/maze.py:132-133 | the inner drawing loop for column i: rows 0 .. rows-1 are drawn in order, and the window gains their outlines |
| Mazes.Maze.DrawNext | src/maze.py:133 | one pass of the inner drawing loop: the logs grow by exactly cell (i, j) and its outline, and cell (i, j) joins the placed cells |
| Mazes.Maze.DrawCell | src/maze.py:135-145 | cell (i, j) is placed at the `TopLeft`/`BottomRight` arithmetic; its flags are unchanged; its window gains its wall segments; no other cell changes |

## Left out

- `Window`'s Tk set-up, `redraw`, `wait_for_close` and `close`, and `Line.draw` (src/maze.py:11-42): these are GUI plumbing and an event loop. The window is a record of the `draw_line` calls (fill colour kept; the fixed width 2 is not modelled).
- `Maze._animate` (src/maze.py:147-150): it only redraws the window and sleeps. This is I/O and timing, so `DrawCell` leaves out the call.
- `Cell.draw_move` (src/maze.py:92-103): it computes centres with Python's float division `/`. Floating point is not modelled.
- `src/main.py`, the entry point that opens a window and builds a maze, is not part of this model.
- Carving, entrance/exit openings, the `visited` flag and its reset: the code has none of them. The tests in `src/tests.py` that expect opened walls and cleared `visited` flags do not correspond to any code, so they are not properties here.
- Randomness and seeding: the code uses none.
- Python attributes are untyped. The model gives the coordinates, sizes and counts the type `int`, and the unset coordinates the type `Coord.None`. Non-integer arguments are not modelled.
- Python's negative list indices are never used, because the loops only index within `range`. `DrawCell` requires an in-range (i, j), which is all `_create_cells` passes.
- Mazes.Maze.BuildColumn, Mazes.Maze.DrawColumn, Mazes.Maze.DrawNext and Cells.Cell.DrawSide are the bodies of the source's loops and of its `if` blocks, written as methods so that each proof stays small. They have the same effects in the same order.
- Cells.Cell.Draw builds the four segments right after recording the box, instead of inside each `if`. The segments are the same, because the coordinates do not change in between.
- The `drawn` log and the `slot` map are ghost bookkeeping with no counterpart in the source. They let the contracts state drawing order and cell identity.
