/**
 * One square of the maze: four wall flags, the pixel box it was last drawn in,
 * and the window (if any) it draws itself on.
 */
module Cells {
  import opened Geometry
  import opened Display
  import opened Sequences

  /** The four sides of a cell, in the order `Cell.draw` considers them. */
  datatype Wall = Left | Right | Top | Bottom

  /** Position of a side in the drawing order left, right, top, bottom. */
  function Rank(w: Wall): nat
  {
    match w
    case Left => 0
    case Right => 1
    case Top => 2
    case Bottom => 3
  }

  /** The wall flags of a cell, as one value. */
  datatype Walls = Walls(left: bool, right: bool, top: bool, bottom: bool)
  {
    /** The flag of side w is set. */
    predicate Has(w: Wall)
    {
      match w
      case Left => left
      case Right => right
      case Top => top
      case Bottom => bottom
    }

    /** Number of walls present. */
    function Count(): nat
    {
      (if left then 1 else 0) + (if right then 1 else 0) + (if top then 1 else 0) + (if bottom then 1 else 0)
    }

    /** Number of walls present that come before side w in the drawing order. */
    function CountBefore(w: Wall): nat
    {
      (if left && Rank(w) > 0 then 1 else 0)
      + (if right && Rank(w) > 1 then 1 else 0)
      + (if top && Rank(w) > 2 then 1 else 0)
    }
  }

  /** A fully enclosed cell: the default of every flag. */
  const AllWalls := Walls(true, true, true, true)

  /** The colour walls are drawn in. */
  const WallColor := "black"

  /** The box has a positive extent along both axes (as it does for positive cell sizes). */
  predicate Proper(tl: Point, br: Point)
  {
    tl.x != br.x && tl.y != br.y
  }

  /** The segment that draws side w of the box with top-left tl and bottom-right br. */
  function Segment(w: Wall, tl: Point, br: Point): (l: Line)
    ensures IsCorner(l.p1, tl, br) && IsCorner(l.p2, tl, br) && AxisAligned(l)
    ensures Proper(tl, br) ==> l.p1 != l.p2
  {
    match w
    case Left => Line(Point(tl.x, tl.y), Point(tl.x, br.y))
    case Right => Line(Point(br.x, tl.y), Point(br.x, br.y))
    case Top => Line(Point(tl.x, tl.y), Point(br.x, tl.y))
    case Bottom => Line(Point(tl.x, br.y), Point(br.x, br.y))
  }

  /** Side w of the box tl..br drawn in the wall colour. */
  function WallStroke(w: Wall, tl: Point, br: Point): Stroke
  {
    Stroke(Segment(w, tl, br), WallColor)
  }

  /**
   * The strokes `Cell.draw` emits for a cell with flags ws drawn in the box
   * tl..br: one per wall present, left, right, top, bottom.
   */
  function WallStrokes(ws: Walls, tl: Point, br: Point): seq<Stroke>
  {
    (if ws.left then [WallStroke(Left, tl, br)] else [])
    + (if ws.right then [WallStroke(Right, tl, br)] else [])
    + (if ws.top then [WallStroke(Top, tl, br)] else [])
    + (if ws.bottom then [WallStroke(Bottom, tl, br)] else [])
  }

  /** WallStrokes, accumulated side by side from no strokes at all. */
  lemma WallStrokesFromEmpty(ws: Walls, tl: Point, br: Point)
    ensures [] + (if ws.left then [WallStroke(Left, tl, br)] else [])
      + (if ws.right then [WallStroke(Right, tl, br)] else [])
      + (if ws.top then [WallStroke(Top, tl, br)] else [])
      + (if ws.bottom then [WallStroke(Bottom, tl, br)] else [])
      == WallStrokes(ws, tl, br)
  {
    var a := if ws.left then [WallStroke(Left, tl, br)] else [];
    assert [] + a == a;
  }

  /** Exactly one segment per wall present. */
  lemma WallStrokesCount(ws: Walls, tl: Point, br: Point)
    ensures |WallStrokes(ws, tl, br)| == ws.Count()
  {
  }

  /**
   * The segment of a present wall w sits right after those of the present
   * walls before it in the order left, right, top, bottom.
   */
  lemma WallStrokesAt(ws: Walls, tl: Point, br: Point, w: Wall)
    requires ws.Has(w)
    ensures ws.CountBefore(w) < |WallStrokes(ws, tl, br)|
    ensures WallStrokes(ws, tl, br)[ws.CountBefore(w)] == WallStroke(w, tl, br)
  {
  }

  /** In a proper box the four sides are four different segments. */
  lemma SegmentsDistinct(v: Wall, w: Wall, tl: Point, br: Point)
    requires Proper(tl, br) && v != w
    ensures Segment(v, tl, br) != Segment(w, tl, br)
  {
  }

  /** In a proper box, side w is drawn if and only if wall w is present. */
  lemma WallStrokesPresence(ws: Walls, tl: Point, br: Point, w: Wall)
    requires Proper(tl, br)
    ensures WallStroke(w, tl, br) in WallStrokes(ws, tl, br) <==> ws.Has(w)
  {
    if WallStroke(w, tl, br) in WallStrokes(ws, tl, br) {
      var k :| 0 <= k < |WallStrokes(ws, tl, br)| && WallStrokes(ws, tl, br)[k] == WallStroke(w, tl, br);
      forall v | v != w
        ensures Segment(v, tl, br) != Segment(w, tl, br)
      {
        SegmentsDistinct(v, w, tl, br);
      }
    } else if ws.Has(w) {
      WallStrokesAt(ws, tl, br, w);
    }
  }

  class Cell {
    var x1: Coord
    var y1: Coord
    var x2: Coord
    var y2: Coord

    const win: Window?

    var hasLeftWall: bool
    var hasRightWall: bool
    var hasBottomWall: bool
    var hasTopWall: bool

    /** The four wall flags. */
    function WallFlags(): Walls
      reads this
    {
      Walls(hasLeftWall, hasRightWall, hasTopWall, hasBottomWall)
    }

    /** The cell has not been drawn yet: no box is recorded. */
    predicate Unplaced()
      reads this
    {
      x1 == None && y1 == None && x2 == None && y2 == None
    }

    /** The box recorded by the last draw is tl..br. */
    predicate PlacedAt(tl: Point, br: Point)
      reads this
    {
      x1 == Some(tl.x) && y1 == Some(tl.y) && x2 == Some(br.x) && y2 == Some(br.y)
    }

    constructor (window: Window? := null, hasLeftWall: bool := true, hasRightWall: bool := true,
                 hasTopWall: bool := true, hasBottomWall: bool := true)
      ensures win == window
      ensures WallFlags() == Walls(hasLeftWall, hasRightWall, hasTopWall, hasBottomWall)
      ensures Unplaced()
    {
      x1, y1, x2, y2 := None, None, None, None;
      win := window;
      this.hasLeftWall := hasLeftWall;
      this.hasRightWall := hasRightWall;
      this.hasBottomWall := hasBottomWall;
      this.hasTopWall := hasTopWall;
    }

    /**
     * Draws line in the wall colour on the cell's window when the wall is present and
     * the cell has a window. The window's strokes, base + sofar so far, gain that stroke.
     */
    method DrawSide(present: bool, line: Line, ghost base: seq<Stroke>, ghost sofar: seq<Stroke>)
      requires win != null ==> win.strokes == base + sofar
      modifies win
      ensures win != null ==>
        win.strokes == base + (sofar + if present then [Stroke(line, WallColor)] else [])
    {
      if present && win != null {
        win.DrawLine(line, WallColor);
        AppendAssociates(base, sofar, [Stroke(line, WallColor)]);
      }
    }

    /**
     * Records the box topLeft..botRight and, when the cell has a window,
     * draws one black segment per wall present. The flags are not touched.
     */
    method Draw(topLeft: Point, botRight: Point)
      modifies this, win
      ensures PlacedAt(topLeft, botRight)
      ensures WallFlags() == old(WallFlags())
      ensures win != null ==> win.strokes == old(win.strokes) + WallStrokes(WallFlags(), topLeft, botRight)
    {
      ghost var ws := WallFlags();
      ghost var base: seq<Stroke> := if win != null then win.strokes else [];
      x1 := Some(topLeft.x);
      y1 := Some(topLeft.y);
      x2 := Some(botRight.x);
      y2 := Some(botRight.y);

      var left := Line(Point(x1.value, y1.value), Point(x1.value, y2.value));
      var right := Line(Point(x2.value, y1.value), Point(x2.value, y2.value));
      var top := Line(Point(x1.value, y1.value), Point(x2.value, y1.value));
      var bottom := Line(Point(x1.value, y2.value), Point(x2.value, y2.value));
      DrawSide(hasLeftWall, left, base, []);
      ghost var out := [] + if ws.left then [WallStroke(Left, topLeft, botRight)] else [];
      DrawSide(hasRightWall, right, base, out);
      out := out + if ws.right then [WallStroke(Right, topLeft, botRight)] else [];
      DrawSide(hasTopWall, top, base, out);
      out := out + if ws.top then [WallStroke(Top, topLeft, botRight)] else [];
      DrawSide(hasBottomWall, bottom, base, out);
      out := out + if ws.bottom then [WallStroke(Bottom, topLeft, botRight)] else [];
      WallStrokesFromEmpty(ws, topLeft, botRight);
    }
  }
}
