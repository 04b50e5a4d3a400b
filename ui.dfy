/**
 * Warping the pointer into a rectangle (`UI.WarpPointerToRectanglePad`): each coordinate of
 * the pointer is moved to keep a margin of five pixels from the rectangle's edges, or to the
 * middle of an extent too narrow for two margins.
 */
module PointerWarp {
  import opened Wrappers
  import opened Geometry

  /** The margin kept from each edge. */
  const PadSize := 5

  /** Go's `d / 2` on ints, which truncates toward zero. */
  function Half(d: int): (r: int)
    ensures d >= 0 ==> 0 <= d - 2 * r <= 1
    ensures d < 0 ==> -1 <= d - 2 * r <= 0
  {
    if d >= 0 then d / 2 else -((-d) / 2)
  }

  /**
   * What the `set` closure leaves in a coordinate `v` for the extent [lo, hi): the middle of a
   * narrow extent, otherwise `v` moved into [lo + PadSize, hi - PadSize] only when outside it.
   */
  ghost predicate PadClamped(v: int, lo: int, hi: int, w: int)
  {
    if hi - lo < 2 * PadSize then w == lo + Half(hi - lo)
    else
      lo + PadSize <= w <= hi - PadSize &&
      (lo + PadSize <= v <= hi - PadSize ==> w == v) &&
      (v < lo + PadSize ==> w == lo + PadSize) &&
      (v > hi - PadSize ==> w == hi - PadSize)
  }

  /** The `set` closure: the new value it stores through its pointer. */
  method Set(v: int, lo: int, hi: int) returns (w: int)
    ensures PadClamped(v, lo, hi, w)
  {
    w := v;
    if hi - lo < PadSize * 2 {
      w := lo + Half(hi - lo);
    } else {
      if w < lo + PadSize {
        w := lo + PadSize;
      } else if w > hi - PadSize {
        w := hi - PadSize;
      }
    }
  }

  /**
   * The queried pointer position (None when the query fails) and the position warped to, if
   * any: each coordinate is clamped independently against the rectangle's extent on its axis.
   */
  method WarpPointerToRectanglePad(r: Rect, query: Option<Point>) returns (warp: Option<Point>)
    ensures query.None? <==> warp.None?
    ensures query.Some? ==>
      PadClamped(query.value.x, r.min.x, r.max.x, warp.value.x) &&
      PadClamped(query.value.y, r.min.y, r.max.y, warp.value.y)
  {
    if query.None? {
      return None;
    }
    var p := query.value;
    var x := Set(p.x, r.min.x, r.max.x);
    p := p.(x := x);
    var y := Set(p.y, r.min.y, r.max.y);
    p := p.(y := y);
    warp := Some(p);
  }

  function Abs(d: int): nat { if d < 0 then -d else d }

  /** The clamp determines one coordinate for every input. */
  lemma PadClampedUnique(v: int, lo: int, hi: int, w1: int, w2: int)
    requires PadClamped(v, lo, hi, w1) && PadClamped(v, lo, hi, w2)
    ensures w1 == w2
  {
  }

  /** Clamping a clamped coordinate again leaves it where it is. */
  lemma PadClampedIdempotent(v: int, lo: int, hi: int, w: int)
    requires PadClamped(v, lo, hi, w)
    ensures PadClamped(w, lo, hi, w)
  {
  }

  /** In a wide extent the coordinate moves to the nearest point of the margin-free range. */
  lemma PadClampedNearest(v: int, lo: int, hi: int, w: int, u: int)
    requires hi - lo >= 2 * PadSize && PadClamped(v, lo, hi, w)
    requires lo + PadSize <= u <= hi - PadSize
    ensures Abs(v - w) <= Abs(v - u)
  {
  }

  /** In a narrow extent the coordinate lands between the two edges, whichever way round. */
  lemma PadClampedNarrow(v: int, lo: int, hi: int, w: int)
    requires hi - lo < 2 * PadSize && PadClamped(v, lo, hi, w)
    ensures lo <= hi ==> lo <= w <= hi
    ensures hi < lo ==> hi <= w <= lo
  {
  }
}
