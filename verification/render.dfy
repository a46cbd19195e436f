/** The draw primitives the scene hands to the renderer, in painting order. */
module Render {
  import opened Points

  /** The colours the scene paints with; their RGB values are configuration. */
  datatype Color = Black | Yellow | Red

  /** One call into the renderer. Edges and rectangle outlines are black; a
      polygon is either filled with its colour or outlined (one pixel wide). */
  datatype Prim =
    | Line(from: Point, to: Point)
    | Polygon(points: seq<Point>, color: Color, filled: bool)
    | Rect(topLeft: Point, size: int, filled: bool)
}
