/** The drawing surface, reduced to the record of what has been drawn on it. */
module Display {
  import opened Geometry

  /** One call of `draw_line`: the segment and its fill colour. */
  datatype Stroke = Stroke(line: Line, fill: string)

  /** A window seen only through the strokes drawn on it, in drawing order. */
  class Window {
    var strokes: seq<Stroke>

    constructor ()
      ensures strokes == []
    {
      strokes := [];
    }

    /** Draws one segment: the stroke is appended to the record. */
    method DrawLine(line: Line, fillColor: string)
      modifies this
      ensures strokes == old(strokes) + [Stroke(line, fillColor)]
    {
      strokes := strokes + [Stroke(line, fillColor)];
    }
  }
}
