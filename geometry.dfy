/**
 * The few libdraw primitives the viewer relies on: points, rectangles,
 * Rect, Dx, Dy, insetrect and ptinrect. Coordinates are C `int`s; the
 * model uses unbounded integers.
 */
module Geometry {

  datatype Point = Point(x: int, y: int)

  /** A rectangle by its two corners; `max` is exclusive, as in libdraw. */
  datatype Rectangle = Rectangle(min: Point, max: Point)

  /** The all-zero rectangle a zero-filled allocation leaves in a node. */
  const ZeroRect: Rectangle := Rectangle(Point(0, 0), Point(0, 0))

  /** Rect(x0, y0, x1, y1): min is (x0, y0), max is (x1, y1). */
  function Rect(x0: int, y0: int, x1: int, y1: int): Rectangle
  {
    Rectangle(Point(x0, y0), Point(x1, y1))
  }

  /** Width of a rectangle; negative when the rectangle is inverted. */
  function Dx(r: Rectangle): int
  {
    r.max.x - r.min.x
  }

  /** Height of a rectangle; negative when the rectangle is inverted. */
  function Dy(r: Rectangle): int
  {
    r.max.y - r.min.y
  }

  /** insetrect(r, n): both corners move inwards by n. */
  function InsetRect(r: Rectangle, n: int): Rectangle
  {
    Rectangle(Point(r.min.x + n, r.min.y + n), Point(r.max.x - n, r.max.y - n))
  }

  /** ptinrect(p, r): half-open containment. */
  predicate PtInRect(p: Point, r: Rectangle)
  {
    r.min.x <= p.x < r.max.x && r.min.y <= p.y < r.max.y
  }
}
