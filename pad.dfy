/**
 * The padding widget (`widget.Pad`): a node with one child, four padding widths and an optional
 * colour. It measures its child with a hint reduced by the padding, places the child in its own
 * bounds inset by the padding, and paints the four border strips when a colour is set.
 */
module Pad {
  import opened Wrappers
  import opened Geometry

  /** An RGBA colour, kept as a value. */
  datatype Color = Color(r: nat, g: nat, b: nat, a: nat)

  /** The four padding widths in the order the source declares them. */
  datatype Sides = Sides(top: int, right: int, bottom: int, left: int)

  /** The bounds a child gets: the pad's bounds inset by the padding, clipped to those bounds. */
  function ChildBounds(b: Rect, s: Sides): (u: Rect)
    ensures RectIn(u, b)
  {
    Intersect(Rect(b.min.Add(Point(s.left, s.top)), b.max.Sub(Point(s.right, s.bottom))), b)
  }

  /** A point is in the child's bounds exactly when it is in the pad and clear of every side. */
  lemma ChildBoundsPoints(b: Rect, s: Sides, q: Point)
    ensures PointIn(q, ChildBounds(b, s)) <==>
      PointIn(q, b) &&
      b.min.x + s.left <= q.x < b.max.x - s.right &&
      b.min.y + s.top <= q.y < b.max.y - s.bottom
  {
    IntersectPoints(Rect(b.min.Add(Point(s.left, s.top)), b.max.Sub(Point(s.right, s.bottom))), b, q);
  }

  /** The strip along the top edge, `top` high. */
  function TopStrip(b: Rect, s: Sides): (u: Rect)
    ensures RectIn(u, b)
  {
    Intersect(Rect(b.min, Point(b.max.x, b.min.y + s.top)), b)
  }

  /** The strip along the bottom edge, `bottom` high. */
  function BottomStrip(b: Rect, s: Sides): (u: Rect)
    ensures RectIn(u, b)
  {
    Intersect(Rect(Point(b.min.x, b.max.y - s.bottom), b.max), b)
  }

  /** The strip along the right edge, `right` wide. */
  function RightStrip(b: Rect, s: Sides): (u: Rect)
    ensures RectIn(u, b)
  {
    Intersect(Rect(Point(b.max.x - s.right, b.min.y), b.max), b)
  }

  /** The strip along the left edge, `left` wide. */
  function LeftStrip(b: Rect, s: Sides): (u: Rect)
    ensures RectIn(u, b)
  {
    Intersect(Rect(b.min, Point(b.min.x + s.left, b.max.y)), b)
  }

  /** The border strips Paint fills, in its order: top, bottom, right, left. */
  function Strips(b: Rect, s: Sides): (r: seq<Rect>)
    ensures |r| == 4 && forall i :: 0 <= i < 4 ==> RectIn(r[i], b)
  {
    [TopStrip(b, s), BottomStrip(b, s), RightStrip(b, s), LeftStrip(b, s)]
  }

  lemma TopStripPoints(b: Rect, s: Sides, q: Point)
    ensures PointIn(q, TopStrip(b, s)) <==> PointIn(q, b) && q.y < b.min.y + s.top
  {
    IntersectPoints(Rect(b.min, Point(b.max.x, b.min.y + s.top)), b, q);
  }

  lemma BottomStripPoints(b: Rect, s: Sides, q: Point)
    ensures PointIn(q, BottomStrip(b, s)) <==> PointIn(q, b) && q.y >= b.max.y - s.bottom
  {
    IntersectPoints(Rect(Point(b.min.x, b.max.y - s.bottom), b.max), b, q);
  }

  lemma RightStripPoints(b: Rect, s: Sides, q: Point)
    ensures PointIn(q, RightStrip(b, s)) <==> PointIn(q, b) && q.x >= b.max.x - s.right
  {
    IntersectPoints(Rect(Point(b.max.x - s.right, b.min.y), b.max), b, q);
  }

  lemma LeftStripPoints(b: Rect, s: Sides, q: Point)
    ensures PointIn(q, LeftStrip(b, s)) <==> PointIn(q, b) && q.x < b.min.x + s.left
  {
    IntersectPoints(Rect(b.min, Point(b.min.x + s.left, b.max.y)), b, q);
  }

  /** Each strip holds the points of the bounds within that side's width of its edge. */
  lemma StripPoints(b: Rect, s: Sides, q: Point)
    ensures PointIn(q, Strips(b, s)[0]) <==> PointIn(q, b) && q.y < b.min.y + s.top
    ensures PointIn(q, Strips(b, s)[1]) <==> PointIn(q, b) && q.y >= b.max.y - s.bottom
    ensures PointIn(q, Strips(b, s)[2]) <==> PointIn(q, b) && q.x >= b.max.x - s.right
    ensures PointIn(q, Strips(b, s)[3]) <==> PointIn(q, b) && q.x < b.min.x + s.left
  {
    TopStripPoints(b, s, q);
    BottomStripPoints(b, s, q);
    RightStripPoints(b, s, q);
    LeftStripPoints(b, s, q);
  }

  /** Border and child together cover the bounds: every point is in the child or in a strip. */
  lemma BorderCovers(b: Rect, s: Sides, q: Point)
    requires PointIn(q, b)
    ensures PointIn(q, ChildBounds(b, s)) || exists i :: 0 <= i < 4 && PointIn(q, Strips(b, s)[i])
  {
    ChildBoundsPoints(b, s, q);
    StripPoints(b, s, q);
  }

  /** The border never paints over the child: no point of the child's bounds lies in a strip. */
  lemma BorderMissesChild(b: Rect, s: Sides, q: Point)
    requires PointIn(q, ChildBounds(b, s))
    ensures forall i :: 0 <= i < 4 ==> !PointIn(q, Strips(b, s)[i])
  {
    ChildBoundsPoints(b, s, q);
    StripPoints(b, s, q);
  }

  /** The widget the pad wraps, with the bounds its parent assigns. */
  class Node {
    var bounds: Rect

    constructor ()
      ensures bounds == ZeroRect
    {
      bounds := ZeroRect;
    }
  }

  class Pad {
    var top: int
    var right: int
    var bottom: int
    var left: int
    var color: Option<Color>
    var bounds: Rect
    var childs: seq<Node>

    /** NewPad: zero padding, no colour, wrapping the one child. */
    constructor (child: Node)
      ensures top == 0 && right == 0 && bottom == 0 && left == 0
      ensures color == None && bounds == ZeroRect && childs == [child]
    {
      top, right, bottom, left := 0, 0, 0, 0;
      color := None;
      bounds := ZeroRect;
      childs := [child];
    }

    function Widths(): Sides
      reads this
    {
      Sides(top, right, bottom, left)
    }

    /** Set: every side gets the same width. */
    method Set(v: int)
      modifies this`top, this`right, this`bottom, this`left
      ensures top == v && right == v && bottom == v && left == v
    {
      top := v;
      right := v;
      bottom := v;
      left := v;
    }

    /** The hint the child is measured with: the pad's hint less the padding, never negative. */
    function ChildHint(hint: Point): (h: Point)
      reads this
      ensures h.x >= 0 && h.y >= 0
      ensures hint.x - (right + left) >= 0 ==> h.x == hint.x - (right + left)
      ensures hint.x - (right + left) < 0 ==> h.x == 0
      ensures hint.y - (top + bottom) >= 0 ==> h.y == hint.y - (top + bottom)
      ensures hint.y - (top + bottom) < 0 ==> h.y == 0
    {
      MaxPoint(hint.Sub(Point(right + left, top + bottom)), Point(0, 0))
    }

    /**
     * Measure: the child's size plus the padding, cut down to the hint where it exceeds it.
     * `measureChild` is the wrapped node's own measure.
     */
    function Measure(hint: Point, measureChild: Point -> Point): (r: Point)
      reads this
      ensures r.x <= hint.x && r.y <= hint.y
      ensures var c := measureChild(ChildHint(hint));
        (c.x + right + left <= hint.x ==> r.x == c.x + right + left) &&
        (c.y + top + bottom <= hint.y ==> r.y == c.y + top + bottom) &&
        (r.x < hint.x ==> r.x == c.x + right + left) &&
        (r.y < hint.y ==> r.y == c.y + top + bottom)
    {
      var m := measureChild(ChildHint(hint));
      MinPoint(m.Add(Point(right + left, top + bottom)), hint)
    }

    /** CalcChildsBounds: every child is given the inset bounds. */
    method CalcChildsBounds()
      modifies childs`bounds
      ensures forall c :: c in childs ==> c.bounds == ChildBounds(bounds, Widths())
      ensures forall c :: c in childs ==> RectIn(c.bounds, bounds)
    {
      var u := ChildBounds(bounds, Widths());
      for i := 0 to |childs|
        invariant forall k :: 0 <= k < i ==> childs[k].bounds == u
      {
        childs[i].bounds := u;
      }
    }

    /** The rectangles Paint fills: none without a colour, otherwise the four border strips. */
    function PaintRects(): (r: seq<Rect>)
      reads this
      ensures color.None? ==> r == []
      ensures color.Some? ==> |r| == 4 && forall i :: 0 <= i < |r| ==> RectIn(r[i], bounds)
    {
      if color.None? then [] else Strips(bounds, Widths())
    }
  }

  /**
   * With non-negative padding, a hint that holds the padding and a child that keeps within its
   * own hint, the pad measures exactly the child plus the padding: nothing is cut.
   */
  lemma MeasureFits(p: Pad, hint: Point, measureChild: Point -> Point)
    requires 0 <= p.top && 0 <= p.right && 0 <= p.bottom && 0 <= p.left
    requires p.right + p.left <= hint.x && p.top + p.bottom <= hint.y
    requires measureChild(p.ChildHint(hint)).x <= p.ChildHint(hint).x
    requires measureChild(p.ChildHint(hint)).y <= p.ChildHint(hint).y
    ensures p.Measure(hint, measureChild) ==
      measureChild(p.ChildHint(hint)).Add(Point(p.right + p.left, p.top + p.bottom))
  {
  }

  /** With non-negative padding the child is never offered more than the pad was. */
  lemma ChildHintWithin(p: Pad, hint: Point)
    requires 0 <= p.top && 0 <= p.right && 0 <= p.bottom && 0 <= p.left
    requires 0 <= hint.x && 0 <= hint.y
    ensures p.ChildHint(hint).x <= hint.x && p.ChildHint(hint).y <= hint.y
  {
  }
}
