/** The older, pure copies of the rect utilities (Helpers/RectExtensions.cs):
    clamping a point into a rect and the largest centred rect of an aspect ratio. */
module RectHelpers {
  import opened Geometry

  /** Clamp of one coordinate into [lo, hi]: raised to lo first, then lowered to hi. */
  function ClampAxis(v: real, lo: real, hi: real): real {
    var raised := if v < lo then lo else v;
    if raised > hi then hi else raised
  }

  /** GetSafePoint: each coordinate clamped into the rect's closed extent. */
  function GetSafePoint(target: Rect, p: Point): (q: Point)
    requires target.Box?
    ensures InRect(target, q)
    ensures target.x <= p.x <= RightEdge(target) ==> q.x == p.x
    ensures target.y <= p.y <= BottomEdge(target) ==> q.y == p.y
  {
    Point(ClampAxis(p.x, target.x, RightEdge(target)), ClampAxis(p.y, target.y, BottomEdge(target)))
  }

  /** A point already in the rect is returned unchanged, so clamping twice is clamping once. */
  lemma SafePointIdempotent(target: Rect, p: Point)
    requires target.Box?
    ensures InRect(target, p) ==> GetSafePoint(target, p) == p
    ensures GetSafePoint(target, GetSafePoint(target, p)) == GetSafePoint(target, p)
  {
  }

  /** Per axis, no point of the rect is closer to p than the clamped point. */
  lemma SafePointIsClosest(target: Rect, p: Point, q: Point)
    requires target.Box? && InRect(target, q)
    ensures Abs(p.x - GetSafePoint(target, p).x) <= Abs(p.x - q.x)
    ensures Abs(p.y - GetSafePoint(target, p).y) <= Abs(p.y - q.y)
  {
  }

  function Abs(v: real): real { if v < 0.0 then -v else v }

  /** GetUniformRect: the largest rect of width/height `aspect` centred in `target`.
      A zero-height target has an infinite ratio in the source, so the width branch
      is never taken for it. */
  function GetUniformRect(target: Rect, aspect: real): (u: Rect)
    requires target.Box? && aspect >= 0.0
    ensures u.Box?
    ensures u.width == aspect * u.height
    ensures u.x + u.width / 2.0 == target.x + target.width / 2.0
    ensures u.y + u.height / 2.0 == target.y + target.height / 2.0
  {
    var cx := target.x + target.width / 2.0;
    var cy := target.y + target.height / 2.0;
    if target.height > 0.0 && aspect > target.width / target.height then
      var height := target.width / aspect;
      Box(cx - target.width / 2.0, cy - height / 2.0, target.width, height)
    else
      Box(cx - target.height * aspect / 2.0, cy - target.height / 2.0, target.height * aspect, target.height)
  }
}
