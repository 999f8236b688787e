/** The value types of the windowing framework that the cropper computes with
    (Point, Size, Rect) and the framework's own Rect operations it relies on:
    the two-corner constructor, Intersect and Union.  Coordinates are exact reals. */
module Geometry {

  /** Tolerance used by every epsilon-tolerant comparison of the cropper. */
  const Tolerance: real := 0.001

  datatype Option<T> = None | Some(value: T)

  datatype Point = Point(x: real, y: real)

  datatype Size = Size(width: real, height: real)

  /** A rectangle is either the framework's Empty sentinel or a box.  The framework's
      constructors refuse negative extents, hence the subset type. */
  datatype RectValue = Empty | Box(x: real, y: real, width: real, height: real)

  type Rect = r: RectValue | r.Empty? || (r.width >= 0.0 && r.height >= 0.0) witness Empty

  /** The eight handles of the selection. */
  datatype DragPosition = Top | Bottom | Left | Right | UpperLeft | UpperRight | LowerLeft | LowerRight

  function Min(a: real, b: real): real { if a <= b then a else b }

  function Max(a: real, b: real): real { if a >= b then a else b }

  function RightEdge(r: Rect): real
    requires r.Box?
  {
    r.x + r.width
  }

  function BottomEdge(r: Rect): real
    requires r.Box?
  {
    r.y + r.height
  }

  function TopLeft(r: Rect): Point
    requires r.Box?
  {
    Point(r.x, r.y)
  }

  function BottomRight(r: Rect): Point
    requires r.Box?
  {
    Point(r.x + r.width, r.y + r.height)
  }

  /** Closed point-in-rect test (the framework's Rect.Contains(Point)). */
  predicate InRect(r: Rect, p: Point) {
    r.Box? && r.x <= p.x <= RightEdge(r) && r.y <= p.y <= BottomEdge(r)
  }

  /** A box `ratio` times as wide as it is tall. */
  predicate HasAspect(r: Rect, ratio: real) {
    r.Box? && r.width == ratio * r.height
  }

  /** `outer` covers `inner`; the Empty rect is covered by every rect. */
  predicate Contains(outer: Rect, inner: Rect) {
    inner.Empty? ||
    (outer.Box? && outer.x <= inner.x && RightEdge(inner) <= RightEdge(outer)
                && outer.y <= inner.y && BottomEdge(inner) <= BottomEdge(outer))
  }

  /** The framework's Rect(Point, Point): the smallest box with both points as corners. */
  function FromCorners(p: Point, q: Point): (r: Rect)
    ensures r.Box?
    ensures r.x == Min(p.x, q.x) && RightEdge(r) == Max(p.x, q.x)
    ensures r.y == Min(p.y, q.y) && BottomEdge(r) == Max(p.y, q.y)
    ensures p.x <= q.x && p.y <= q.y ==> TopLeft(r) == p && BottomRight(r) == q
  {
    Box(Min(p.x, q.x), Min(p.y, q.y), Max(p.x, q.x) - Min(p.x, q.x), Max(p.y, q.y) - Min(p.y, q.y))
  }

  /** The framework's IntersectsWith: both boxes, touching counts. */
  predicate IntersectsWith(a: Rect, b: Rect) {
    a.Box? && b.Box? && b.x <= RightEdge(a) && RightEdge(b) >= a.x && b.y <= BottomEdge(a) && BottomEdge(b) >= a.y
  }

  /** The framework's Rect.Intersect: Empty when the rects are disjoint. */
  function Intersect(a: Rect, b: Rect): (r: Rect)
    ensures r.Box? <==> IntersectsWith(a, b)
    ensures Contains(a, r) && Contains(b, r)
    ensures Contains(b, a) ==> r == a
  {
    if !IntersectsWith(a, b) then Empty
    else
      var left := Max(a.x, b.x);
      var top := Max(a.y, b.y);
      Box(left, top, Max(Min(RightEdge(a), RightEdge(b)) - left, 0.0), Max(Min(BottomEdge(a), BottomEdge(b)) - top, 0.0))
  }

  /** The framework's Rect.Union. */
  function Union(a: Rect, b: Rect): (r: Rect)
    ensures Contains(r, a) && Contains(r, b)
    ensures b.Box? ==> (r == b <==> Contains(b, a))
  {
    if a.Empty? then b
    else if b.Empty? then a
    else
      var left := Min(a.x, b.x);
      var top := Min(a.y, b.y);
      Box(left, top, Max(RightEdge(a), RightEdge(b)) - left, Max(BottomEdge(a), BottomEdge(b)) - top)
  }

  /** A point lies in the intersection exactly when it lies in both rects. */
  lemma IntersectIsMeet(a: Rect, b: Rect, p: Point)
    ensures InRect(Intersect(a, b), p) <==> InRect(a, p) && InRect(b, p)
  {
  }

  /** Containment is transitive. */
  lemma ContainsTransitive(a: Rect, b: Rect, c: Rect)
    requires Contains(a, b) && Contains(b, c)
    ensures Contains(a, c)
  {
  }
}
