/**
 Integer rectangles and points, the shapes every sprite of the game is
 tested with. A rectangle's left/top corner is (x, y); it covers the
 half-open ranges [x, x + w) and [y, y + h), as a pygame Rect does.
 */
module Geometry {

  datatype Point = Point(x: int, y: int)

  datatype Rect = Rect(x: int, y: int, w: int, h: int) {

    /** The first column to the right of the rectangle. */
    function Right(): int { x + w }

    /** The first row below the rectangle. */
    function Bottom(): int { y + h }

    /** A rectangle with no area never collides with anything. */
    predicate HasArea() { w != 0 && h != 0 }
  }

  /** `Rect.colliderect`: both rectangles have area and their interiors meet. */
  predicate Overlaps(a: Rect, b: Rect) {
    && a.HasArea() && b.HasArea()
    && a.x < b.Right() && b.x < a.Right()
    && a.y < b.Bottom() && b.y < a.Bottom()
  }

  /** `Rect.collidepoint`: the point lies in the half-open area of the rectangle. */
  predicate ContainsPoint(r: Rect, p: Point) {
    r.x <= p.x < r.Right() && r.y <= p.y < r.Bottom()
  }
}
