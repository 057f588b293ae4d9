/** Pixel coordinates and the straight segments drawn between them. */
module Geometry {

  /** A pixel position on the canvas. */
  datatype Point = Point(x: int, y: int)

  /** A segment from p1 to p2. */
  datatype Line = Line(p1: Point, p2: Point)

  /** An attribute that may still be unset (Python's None). */
  datatype Coord = None | Some(value: int)

  /** p is one of the four corners of the box with corners tl and br. */
  predicate IsCorner(p: Point, tl: Point, br: Point)
  {
    (p.x == tl.x || p.x == br.x) && (p.y == tl.y || p.y == br.y)
  }

  /** The segment runs parallel to one of the two axes. */
  predicate AxisAligned(l: Line)
  {
    l.p1.x == l.p2.x || l.p1.y == l.p2.y
  }
}
