/** Points and rectangles in pixel coordinates, with the two rectangle
    operations the widgets rely on: point containment and clamping. */
module Geometry {

  datatype Point = Point(x: int, y: int)

  /** A rectangle: top-left corner and size. */
  datatype Rect = Rect(x: int, y: int, w: int, h: int)
  {
    function Bottom(): int { y + h }
  }

  /** Point containment with half-open edges: the right and bottom edges are
      outside, so a rect of zero or negative size contains nothing. */
  predicate Contains(r: Rect, p: Point)
  {
    r.x <= p.x < r.x + r.w && r.y <= p.y < r.y + r.h
  }

  /** A hit test does not depend on the frame it is done in: moving the
      rect and the point by the same amount keeps the answer. A rect of
      zero or negative size is never hit. */
  lemma ContainsShifted(r: Rect, p: Point, d: Point)
    ensures Contains(MovedBy(r, d), Point(p.x + d.x, p.y + d.y)) <==> Contains(r, p)
    ensures r.w <= 0 || r.h <= 0 ==> !Contains(r, p)
  {
  }

  /** `inner` lies wholly inside `outer`. */
  predicate Inside(inner: Rect, outer: Rect)
  {
    outer.x <= inner.x && inner.x + inner.w <= outer.x + outer.w &&
    outer.y <= inner.y && inner.y + inner.h <= outer.y + outer.h
  }

  function MovedBy(r: Rect, d: Point): (m: Rect)
    ensures m.w == r.w && m.h == r.h
    ensures m.x - r.x == d.x && m.y - r.y == d.y
  {
    Rect(r.x + d.x, r.y + d.y, r.w, r.h)
  }

  /** Halving with C integer division, which rounds toward zero. */
  function HalfTowardZero(n: int): (q: int)
    ensures n >= 0 ==> 0 <= q && 2 * q <= n < 2 * q + 2
    ensures n < 0 ==> q <= 0 && 2 * q - 2 < n <= 2 * q
  {
    if n >= 0 then n / 2 else -((-n) / 2)
  }

  /** Clamping along one axis: a segment [pos, pos+size) is placed inside
      [lo, lo+extent). A segment at least as long as the bounds is centred
      on them; otherwise it is pushed in from whichever side it sticks out. */
  function ClampAxis(pos: int, size: int, lo: int, extent: int): (p: int)
    ensures size <= extent ==> lo <= p && p + size <= lo + extent
    ensures lo <= pos && pos + size <= lo + extent ==> p == pos
    ensures size >= extent ==> p == lo + HalfTowardZero(extent) - HalfTowardZero(size)
    ensures size < extent && pos < lo ==> p == lo
    ensures size < extent && pos + size > lo + extent ==> p == lo + extent - size
  {
    if size >= extent then lo + HalfTowardZero(extent) - HalfTowardZero(size)
    else if pos < lo then lo
    else if pos + size > lo + extent then lo + extent - size
    else pos
  }

  /** Move `r` (keeping its size) so that it lies inside `bounds`, axis by axis. */
  function Clamp(r: Rect, bounds: Rect): (c: Rect)
    ensures c.w == r.w && c.h == r.h
    ensures r.w <= bounds.w && r.h <= bounds.h ==> Inside(c, bounds)
    ensures Inside(r, bounds) ==> c == r
  {
    Rect(ClampAxis(r.x, r.w, bounds.x, bounds.w),
         ClampAxis(r.y, r.h, bounds.y, bounds.h), r.w, r.h)
  }

  /** Clamping twice is clamping once. */
  lemma ClampIdempotent(r: Rect, bounds: Rect)
    ensures Clamp(Clamp(r, bounds), bounds) == Clamp(r, bounds)
  {
  }
}
