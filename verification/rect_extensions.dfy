/** The current rect utilities of the cropper (Extensions/RectExtensions.cs). */
module RectExtensions {
  import opened Geometry
  import RectHelpers

  /** GetSafePoint: the local copy of the point is pulled into the rect one bound at a
      time; the result is the older pure clamp of Helpers/RectExtensions.cs. */
  method GetSafePoint(target: Rect, point: Point) returns (safe: Point)
    requires target.Box?
    ensures safe == RectHelpers.GetSafePoint(target, point)
  {
    safe := point;
    if safe.x < target.x {
      safe := safe.(x := target.x);
    }
    if safe.x > target.x + target.width {
      safe := safe.(x := target.x + target.width);
    }
    if safe.y < target.y {
      safe := safe.(y := target.y);
    }
    if safe.y > target.y + target.height {
      safe := safe.(y := target.y + target.height);
    }
  }

  /** IsSafePoint: the closed rect test with a Tolerance of slack on every side.  The
      Empty rect (infinite origin) admits no point. */
  predicate IsSafePoint(target: Rect, p: Point) {
    target.Box? &&
    !(p.x - target.x < -Tolerance) && !(p.x - (target.x + target.width) > Tolerance) &&
    !(p.y - target.y < -Tolerance) && !(p.y - (target.y + target.height) > Tolerance)
  }

  /** A point is safe exactly when it lies within Tolerance of its clamp on each axis. */
  lemma SafePointNearClamp(target: Rect, p: Point)
    requires target.Box?
    ensures IsSafePoint(target, p) <==>
      (RectHelpers.Abs(p.x - RectHelpers.GetSafePoint(target, p).x) <= Tolerance &&
       RectHelpers.Abs(p.y - RectHelpers.GetSafePoint(target, p).y) <= Tolerance)
    ensures InRect(target, p) ==> IsSafePoint(target, p)
  {
  }

  /** IsSafeRect: the corners are at least the minimum size apart, up to Tolerance. */
  predicate IsSafeRect(start: Point, end: Point, minSize: Size) {
    (start.x + minSize.width) - end.x < Tolerance && (start.y + minSize.height) - end.y < Tolerance
  }

  /** Which corner coordinates a handle owns. */
  predicate MovesStartX(pos: DragPosition) { pos == Left || pos == UpperLeft || pos == LowerLeft }
  predicate MovesEndX(pos: DragPosition) { pos == Right || pos == UpperRight || pos == LowerRight }
  predicate MovesStartY(pos: DragPosition) { pos == Top || pos == UpperLeft || pos == UpperRight }
  predicate MovesEndY(pos: DragPosition) { pos == Bottom || pos == LowerLeft || pos == LowerRight }

  /** The corners GetSafeRect settles on: every axis the handle owns that is shorter
      than the minimum is pushed out to exactly the minimum, moving the owned edge. */
  function SafeCorners(start: Point, end: Point, minSize: Size, pos: DragPosition): (Point, Point) {
    var shortX := start.x + minSize.width > end.x;
    var shortY := start.y + minSize.height > end.y;
    (Point(if shortX && MovesStartX(pos) then end.x - minSize.width else start.x,
           if shortY && MovesStartY(pos) then end.y - minSize.height else start.y),
     Point(if shortX && MovesEndX(pos) then start.x + minSize.width else end.x,
           if shortY && MovesEndY(pos) then start.y + minSize.height else end.y))
  }

  /** GetSafeRect: the handle switch of the source, each case reassigning the corner
      coordinates it owns. */
  method GetSafeRect(start: Point, end: Point, minSize: Size, pos: DragPosition) returns (r: Rect)
    ensures r == FromCorners(SafeCorners(start, end, minSize, pos).0, SafeCorners(start, end, minSize, pos).1)
  {
    var s, e := start, end;
    var checkPoint := Point(s.x + minSize.width, s.y + minSize.height);
    match pos {
      case Top =>
        if checkPoint.y > e.y { s := s.(y := e.y - minSize.height); }
      case Bottom =>
        if checkPoint.y > e.y { e := e.(y := s.y + minSize.height); }
      case Left =>
        if checkPoint.x > e.x { s := s.(x := e.x - minSize.width); }
      case Right =>
        if checkPoint.x > e.x { e := e.(x := s.x + minSize.width); }
      case UpperLeft =>
        if checkPoint.x > e.x { s := s.(x := e.x - minSize.width); }
        if checkPoint.y > e.y { s := s.(y := e.y - minSize.height); }
      case UpperRight =>
        if checkPoint.x > e.x { e := e.(x := s.x + minSize.width); }
        if checkPoint.y > e.y { s := s.(y := e.y - minSize.height); }
      case LowerLeft =>
        if checkPoint.x > e.x { s := s.(x := e.x - minSize.width); }
        if checkPoint.y > e.y { e := e.(y := s.y + minSize.height); }
      case LowerRight =>
        if checkPoint.x > e.x { e := e.(x := s.x + minSize.width); }
        if checkPoint.y > e.y { e := e.(y := s.y + minSize.height); }
    }
    assert (s, e) == SafeCorners(start, end, minSize, pos);
    r := FromCorners(s, e);
  }

  /** The repair moves only what the handle owns: the opposite edge of an owned axis
      stays put, an owned axis that was too short ends exactly the minimum long, one
      that was long enough is untouched, and unowned axes are untouched. */
  lemma SafeCornersRepair(start: Point, end: Point, minSize: Size, pos: DragPosition)
    ensures var (s, e) := SafeCorners(start, end, minSize, pos);
      (MovesStartX(pos) ==> e.x == end.x) && (MovesEndX(pos) ==> s.x == start.x) &&
      (MovesStartY(pos) ==> e.y == end.y) && (MovesEndY(pos) ==> s.y == start.y) &&
      (!MovesStartX(pos) && !MovesEndX(pos) ==> s.x == start.x && e.x == end.x) &&
      (!MovesStartY(pos) && !MovesEndY(pos) ==> s.y == start.y && e.y == end.y) &&
      (start.x + minSize.width <= end.x ==> s.x == start.x && e.x == end.x) &&
      (start.y + minSize.height <= end.y ==> s.y == start.y && e.y == end.y) &&
      (start.x + minSize.width > end.x && (MovesStartX(pos) || MovesEndX(pos)) ==> e.x - s.x == minSize.width) &&
      (start.y + minSize.height > end.y && (MovesStartY(pos) || MovesEndY(pos)) ==> e.y - s.y == minSize.height)
  {
  }

  /** A corner handle owns both axes, so its repaired corners always pass IsSafeRect,
      and for a non-negative minimum they are in order. */
  lemma CornerRepairIsSafe(start: Point, end: Point, minSize: Size, pos: DragPosition)
    requires pos in {UpperLeft, UpperRight, LowerLeft, LowerRight}
    requires minSize.width >= 0.0 && minSize.height >= 0.0
    ensures var (s, e) := SafeCorners(start, end, minSize, pos);
      IsSafeRect(s, e, minSize) && s.x <= e.x && s.y <= e.y
  {
    SafeCornersRepair(start, end, minSize, pos);
  }

  /** IsValid: a non-empty rect of positive area. */
  predicate IsValid(r: Rect) {
    r.Box? && r.width > 0.0 && r.height > 0.0
  }

  /** GetUniformRect: the largest rect of width/height `aspect` centred in the target. */
  function GetUniformRect(target: Rect, aspect: real): (u: Rect)
    requires target.Box? && aspect >= 0.0
    ensures u.Box? && u.width == aspect * u.height
    ensures u.x + u.width / 2.0 == target.x + target.width / 2.0
    ensures u.y + u.height / 2.0 == target.y + target.height / 2.0
  {
    var ratio := if target.height > 0.0 then target.width / target.height else 0.0;
    var cx := target.x + target.width / 2.0;
    var cy := target.y + target.height / 2.0;
    var (width, height) :=
      if target.height > 0.0 && aspect > ratio then (target.width, target.width / aspect)
      else (target.height * aspect, target.height);
    Box(cx - width / 2.0, cy - height / 2.0, width, height)
  }

  /** The uniform rect fits in the target and touches it on one pair of sides. */
  lemma UniformRectFits(target: Rect, aspect: real)
    requires target.Box? && aspect >= 0.0
    ensures var u := GetUniformRect(target, aspect);
      Contains(target, u) && (u.width == target.width || u.height == target.height)
  {
    var u := GetUniformRect(target, aspect);
    if target.height > 0.0 && aspect > target.width / target.height {
      assert u.height * aspect == target.width;
      assert target.width < aspect * target.height by {
        assert target.width / target.height * target.height == target.width;
      }
      ScaleCompare(u.height, target.height, aspect);
    } else if target.height > 0.0 {
      assert target.height * aspect <= target.width by {
        assert target.width / target.height * target.height == target.width;
        assert aspect * target.height <= target.width / target.height * target.height;
      }
    }
  }

  /** Cancelling a positive factor from a strict comparison. */
  lemma ScaleCompare(a: real, b: real, k: real)
    requires k > 0.0 && a * k < b * k
    ensures a < b
  {
  }

  /** No rect of the same ratio that fits in the target is taller (hence wider). */
  lemma UniformRectLargest(target: Rect, aspect: real, w: real, h: real)
    requires target.Box? && aspect > 0.0
    requires 0.0 <= h && w == aspect * h && w <= target.width && h <= target.height
    ensures h <= GetUniformRect(target, aspect).height
  {
    var u := GetUniformRect(target, aspect);
    if target.height > 0.0 && aspect > target.width / target.height {
      assert u.height * aspect == target.width;
      if h > u.height {
        assert h * aspect > u.height * aspect;
      }
    }
  }

  /** The older copy of GetUniformRect computes the same rect. */
  lemma UniformRectsAgree(target: Rect, aspect: real)
    requires target.Box? && aspect >= 0.0
    ensures RectHelpers.GetUniformRect(target, aspect) == GetUniformRect(target, aspect)
  {
  }

  /** CanContains: the target is at least as large as the test rect, up to Tolerance.
      Rect.Empty has sizes of minus infinity, so every box can contain it, while an
      Empty target can contain nothing (minus infinity, or NaN, fails the test). */
  predicate CanContains(target: Rect, test: Rect) {
    target.Box? &&
    (test.Empty? || (target.width - test.width > -Tolerance && target.height - test.height > -Tolerance))
  }

  /** The shift both GetContainsRect and the aspect-ratio change apply: moved right/down
      onto the target's left/top edge, then left/up onto its right/bottom edge.  The size
      is kept; a rect that fits ends inside, and one already inside does not move. */
  function ShiftInside(target: Rect, r: Rect): (s: Rect)
    requires target.Box? && r.Box?
    ensures s.Box? && s.width == r.width && s.height == r.height
    ensures RightEdge(s) <= RightEdge(target) && BottomEdge(s) <= BottomEdge(target)
    ensures s.x >= target.x - Max(r.width - target.width, 0.0)
    ensures s.y >= target.y - Max(r.height - target.height, 0.0)
    ensures r.width <= target.width && r.height <= target.height ==> Contains(target, s)
    ensures Contains(target, r) ==> s == r
  {
    var x1 := if target.x > r.x then target.x else r.x;
    var y1 := if target.y > r.y then target.y else r.y;
    var x2 := if RightEdge(target) < x1 + r.width then RightEdge(target) - r.width else x1;
    var y2 := if BottomEdge(target) < y1 + r.height then BottomEdge(target) - r.height else y1;
    Box(x2, y2, r.width, r.height)
  }

  /** GetContainsRect: the `ref` rect is returned as `shifted`; it is shifted inside the
      target one bound at a time when the target can contain it.  An Empty test rect is
      accepted and left as it is: its left and top edges are plus infinity and its right
      and bottom edges minus infinity, so none of the four shifts applies. */
  method GetContainsRect(target: Rect, test: Rect) returns (contained: bool, shifted: Rect)
    ensures contained == CanContains(target, test)
    ensures contained <==> target.Box? && (test.Empty? || (test.width < target.width + Tolerance &&
                                                          test.height < target.height + Tolerance))
    ensures !contained || test.Empty? ==> shifted == test
    ensures contained && test.Box? ==> shifted == ShiftInside(target, test)
  {
    if !CanContains(target, test) {
      return false, test;
    }
    if test.Empty? {
      return true, test;
    }
    shifted := ShiftRectInside(target, test);
    contained := true;
  }

  /** The four bound-by-bound shifts GetContainsRect and the aspect-ratio change apply
      to a rect in place. */
  method ShiftRectInside(target: Rect, r: Rect) returns (shifted: Rect)
    requires target.Box? && r.Box?
    ensures shifted == ShiftInside(target, r)
  {
    shifted := r;
    if target.x > shifted.x {
      shifted := shifted.(x := shifted.x + (target.x - shifted.x));
    }
    if target.y > shifted.y {
      shifted := shifted.(y := shifted.y + (target.y - shifted.y));
    }
    if RightEdge(target) < RightEdge(shifted) {
      shifted := shifted.(x := shifted.x + (RightEdge(target) - RightEdge(shifted)));
    }
    if BottomEdge(target) < BottomEdge(shifted) {
      shifted := shifted.(y := shifted.y + (BottomEdge(target) - BottomEdge(shifted)));
    }
  }

  /** A rect GetContainsRect accepts ends inside the target up to Tolerance: it may stick
      out past the left/top edge only by its excess size, which CanContains bounds. */
  lemma ContainsRectWithinTolerance(target: Rect, test: Rect)
    requires test.Box? && CanContains(target, test)
    ensures var s := ShiftInside(target, test);
      s.x > target.x - Tolerance && s.y > target.y - Tolerance &&
      RightEdge(s) <= RightEdge(target) && BottomEdge(s) <= BottomEdge(target)
  {
  }

  /** The most each dimension may grow from a handle before the selection leaves the
      target, per handle. */
  function MaxSizeChange(target: Rect, pos: DragPosition, selected: Rect): (m: Point)
    requires target.Box? && selected.Box?
  {
    Point(if MovesStartX(pos) then selected.x - target.x
          else if MovesEndX(pos) then RightEdge(target) - RightEdge(selected)
          else target.width - selected.width,
          if MovesStartY(pos) then selected.y - target.y
          else if MovesEndY(pos) then BottomEdge(target) - BottomEdge(selected)
          else target.height - selected.height)
  }

  /** GetSafeSizeChangeWhenKeepAspectRatio: a requested growth over the width cap is cut
      to the cap with the height following the ratio; then a growth over the height cap
      is cut to the cap with the width following the ratio. */
  method GetSafeSizeChangeWhenKeepAspectRatio(target: Rect, pos: DragPosition, selected: Rect,
                                              origin: Point, aspect: real)
    returns (change: Point)
    requires target.Box? && selected.Box? && aspect != 0.0
    ensures change == CappedSizeChange(origin, MaxSizeChange(target, pos, selected), aspect)
  {
    var maxWidthChange, maxHeightChange := 0.0, 0.0;
    match pos {
      case Top =>
        maxWidthChange := target.width - selected.width;
        maxHeightChange := selected.y - target.y;
      case Bottom =>
        maxWidthChange := target.width - selected.width;
        maxHeightChange := BottomEdge(target) - BottomEdge(selected);
      case Left =>
        maxWidthChange := selected.x - target.x;
        maxHeightChange := target.height - selected.height;
      case Right =>
        maxWidthChange := RightEdge(target) - RightEdge(selected);
        maxHeightChange := target.height - selected.height;
      case UpperLeft =>
        maxWidthChange := selected.x - target.x;
        maxHeightChange := selected.y - target.y;
      case UpperRight =>
        maxWidthChange := RightEdge(target) - RightEdge(selected);
        maxHeightChange := selected.y - target.y;
      case LowerLeft =>
        maxWidthChange := selected.x - target.x;
        maxHeightChange := BottomEdge(target) - BottomEdge(selected);
      case LowerRight =>
        maxWidthChange := RightEdge(target) - RightEdge(selected);
        maxHeightChange := BottomEdge(target) - BottomEdge(selected);
    }
    assert Point(maxWidthChange, maxHeightChange) == MaxSizeChange(target, pos, selected);
    change := CapSizeChange(origin, maxWidthChange, maxHeightChange, aspect);
  }

  /** The two caps of GetSafeSizeChangeWhenKeepAspectRatio on the local size change,
      width first, then height. */
  method CapSizeChange(origin: Point, maxWidthChange: real, maxHeightChange: real, aspect: real)
    returns (change: Point)
    requires aspect != 0.0
    ensures change == CappedSizeChange(origin, Point(maxWidthChange, maxHeightChange), aspect)
  {
    var safeWidthChange, safeHeightChange := origin.x, origin.y;
    if origin.x > maxWidthChange {
      safeWidthChange := maxWidthChange;
      safeHeightChange := safeWidthChange / aspect;
    }
    if origin.y > maxHeightChange {
      safeHeightChange := maxHeightChange;
      safeWidthChange := safeHeightChange * aspect;
    }
    change := Point(safeWidthChange, safeHeightChange);
  }

  /** The size change GetSafeSizeChangeWhenKeepAspectRatio settles on for the caps
      `maxChange`: a growth over the width cap is cut to it with the height following
      the ratio, then a growth over the height cap is cut to it with the width
      following the ratio. */
  function CappedSizeChange(origin: Point, maxChange: Point, aspect: real): (change: Point)
    requires aspect != 0.0
    ensures origin.x <= maxChange.x && origin.y <= maxChange.y ==> change == origin
    ensures origin.y > maxChange.y ==> change.y == maxChange.y && change.x == maxChange.y * aspect
    ensures origin.x > maxChange.x && origin.y <= maxChange.y ==>
      change.x == maxChange.x && change.x == change.y * aspect
  {
    if origin.y > maxChange.y then Point(maxChange.y * aspect, maxChange.y)
    else if origin.x > maxChange.x then
      DivideThenMultiply(maxChange.x, aspect);
      Point(maxChange.x, maxChange.x / aspect)
    else origin
  }

  /** Dividing by a non-zero factor and multiplying back gives the value again. */
  lemma DivideThenMultiply(a: real, k: real)
    requires k != 0.0
    ensures a / k * k == a
  {
  }
}
