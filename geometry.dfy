/**
 * The integer points and rectangles the widgets lay out with (Go's `image.Point` and
 * `image.Rectangle`). A rectangle holds the points with Min.X <= x < Max.X and
 * Min.Y <= y < Max.Y; it is empty when either extent is not positive.
 */
module Geometry {
  datatype Point = Point(x: int, y: int)
  {
    function Add(q: Point): Point { Point(x + q.x, y + q.y) }
    function Sub(q: Point): Point { Point(x - q.x, y - q.y) }
  }

  datatype Rect = Rect(min: Point, max: Point)

  /** image.ZR, what an empty intersection becomes. */
  const ZeroRect := Rect(Point(0, 0), Point(0, 0))

  function MaxPoint(a: Point, b: Point): (r: Point)
    ensures r.x >= a.x && r.x >= b.x && (r.x == a.x || r.x == b.x)
    ensures r.y >= a.y && r.y >= b.y && (r.y == a.y || r.y == b.y)
  {
    Point(if a.x >= b.x then a.x else b.x, if a.y >= b.y then a.y else b.y)
  }

  function MinPoint(a: Point, b: Point): (r: Point)
    ensures r.x <= a.x && r.x <= b.x && (r.x == a.x || r.x == b.x)
    ensures r.y <= a.y && r.y <= b.y && (r.y == a.y || r.y == b.y)
  {
    Point(if a.x <= b.x then a.x else b.x, if a.y <= b.y then a.y else b.y)
  }

  predicate Empty(r: Rect)
  {
    r.min.x >= r.max.x || r.min.y >= r.max.y
  }

  /** Point.In: the point lies inside the rectangle. */
  predicate PointIn(q: Point, r: Rect)
  {
    r.min.x <= q.x < r.max.x && r.min.y <= q.y < r.max.y
  }

  /** Rectangle.In: every point of `r` is in `s` (an empty rectangle is in every rectangle). */
  predicate RectIn(r: Rect, s: Rect)
  {
    Empty(r) ||
    (s.min.x <= r.min.x && r.max.x <= s.max.x && s.min.y <= r.min.y && r.max.y <= s.max.y)
  }

  /** Rectangle.Intersect: the largest rectangle inside both, or the zero rectangle. */
  function Intersect(r: Rect, s: Rect): (u: Rect)
    ensures Empty(u) ==> u == ZeroRect
    ensures RectIn(u, r) && RectIn(u, s)
  {
    var lo := MaxPoint(r.min, s.min);
    var hi := MinPoint(r.max, s.max);
    if Empty(Rect(lo, hi)) then ZeroRect else Rect(lo, hi)
  }

  /** The intersection holds exactly the points that lie in both rectangles. */
  lemma IntersectPoints(r: Rect, s: Rect, q: Point)
    ensures PointIn(q, Intersect(r, s)) <==> PointIn(q, r) && PointIn(q, s)
  {
    var lo := MaxPoint(r.min, s.min);
    var hi := MinPoint(r.max, s.max);
    if PointIn(q, r) && PointIn(q, s) {
      assert lo.x <= q.x < hi.x && lo.y <= q.y < hi.y;
    }
  }
}
