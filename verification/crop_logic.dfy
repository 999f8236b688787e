/** The decisions the cropper takes on a handle drag and on an aspect-ratio change
    (ImageCropper.Logic.cs), written as functions of the selection, so that the stateful
    methods of the control can be specified by them. */
module CropLogic {
  import opened Geometry
  import opened RectExtensions
  import Sizing
  import Transforms

  predicate IsCorner(pos: DragPosition) {
    pos == UpperLeft || pos == UpperRight || pos == LowerLeft || pos == LowerRight
  }

  /** The diagonal a corner handle slides along under a locked ratio k is (σk, 1):
      σ = 1 for the upper-left and lower-right handles, -1 for the other two. */
  function DiagonalSign(pos: DragPosition): real {
    if pos == UpperLeft || pos == LowerRight then 1.0 else -1.0
  }

  /** The delta a corner handle actually moves by under a locked ratio.  The source
      turns (dx, dy) into the length dy / cos φ · cos(φ - r) with r = atan k and
      φ = ±atan(dx / dy), and moves along (σ sin r, cos r); since tan φ = ±dx / dy
      this is c·(σk, 1) with c = (dy + σk·dx) / (1 + k²).  A purely horizontal drag
      (dy = 0) has length 0 / cos(π/2) = 0. */
  function CornerDelta(pos: DragPosition, diff: Point, ratio: real): (d: Point)
    requires ratio > 0.0
    ensures d.x == DiagonalSign(pos) * ratio * d.y
    ensures diff.y == 0.0 ==> d == Point(0.0, 0.0)
  {
    if diff.y == 0.0 then Point(0.0, 0.0)
    else
      var c := (diff.y + DiagonalSign(pos) * ratio * diff.x) / (1.0 + ratio * ratio);
      Point(DiagonalSign(pos) * ratio * c, c)
  }

  /** Off the horizontal, the corner delta is the orthogonal projection of the drag onto
      the handle's diagonal: what is dropped is perpendicular to it. */
  lemma CornerDeltaIsProjection(pos: DragPosition, diff: Point, ratio: real)
    requires ratio > 0.0 && diff.y != 0.0
    ensures var d := CornerDelta(pos, diff, ratio);
      (diff.x - d.x) * (DiagonalSign(pos) * ratio) + (diff.y - d.y) == 0.0
  {
    ProjectionResidual(DiagonalSign(pos), ratio, diff.x, diff.y);
  }

  /** The residual of the projection of (dx, dy) onto the line through (sigma·k, 1) is
      orthogonal to it, for a unit sign sigma. */
  lemma ProjectionResidual(sigma: real, k: real, dx: real, dy: real)
    requires sigma == 1.0 || sigma == -1.0
    requires k > 0.0
    ensures var c := (dy + sigma * k * dx) / (1.0 + k * k);
      (dx - sigma * k * c) * (sigma * k) + (dy - c) == 0.0
  {
    var c := (dy + sigma * k * dx) / (1.0 + k * k);
    assert c * (1.0 + k * k) == dy + sigma * k * dx;
    assert sigma * sigma == 1.0;
    calc {
      (dx - sigma * k * c) * (sigma * k) + (dy - c);
      sigma * k * dx + dy - c * (sigma * sigma * k * k + 1.0);
      sigma * k * dx + dy - c * (1.0 + k * k);
      0.0;
    }
  }

  function HandleDelta(pos: DragPosition, diff: Point, keep: bool, ratio: real): (d: Point)
    requires keep ==> ratio > 0.0
    ensures !(keep && IsCorner(pos)) ==> d == diff
    ensures keep && IsCorner(pos) ==> d.x == DiagonalSign(pos) * ratio * d.y
  {
    if keep && IsCorner(pos) then CornerDelta(pos, diff, ratio) else diff
  }

  /** The corners after the handle `pos` moves by `diff`, handle by handle.  A locked
      edge drag also moves both ends of the perpendicular axis by half the change times
      the ratio (divided by it for a horizontal drag), in opposite directions. */
  function MovedCorners(start: Point, end: Point, pos: DragPosition, diff: Point,
                        keep: bool, ratio: real): (Point, Point)
    requires keep ==> ratio > 0.0
  {
    match pos
    case Top =>
      var d := diff;
      var s := start.(y := start.y + d.y);
      if keep then (s.(x := s.x + d.y * ratio / 2.0), end.(x := end.x - d.y * ratio / 2.0)) else (s, end)
    case Bottom =>
      var d := diff;
      var e := end.(y := end.y + d.y);
      if keep then (start.(x := start.x - d.y * ratio / 2.0), e.(x := e.x + d.y * ratio / 2.0)) else (start, e)
    case Left =>
      var d := diff;
      var s := start.(x := start.x + d.x);
      if keep then (s.(y := s.y + d.x / ratio / 2.0), end.(y := end.y - d.x / ratio / 2.0)) else (s, end)
    case Right =>
      var d := diff;
      var e := end.(x := end.x + d.x);
      if keep then (start.(y := start.y - d.x / ratio / 2.0), e.(y := e.y + d.x / ratio / 2.0)) else (start, e)
    case UpperLeft =>
      var d := HandleDelta(pos, diff, keep, ratio);
      (Point(start.x + d.x, start.y + d.y), end)
    case UpperRight =>
      var d := HandleDelta(pos, diff, keep, ratio);
      (start.(y := start.y + d.y), end.(x := end.x + d.x))
    case LowerLeft =>
      var d := HandleDelta(pos, diff, keep, ratio);
      (start.(x := start.x + d.x), end.(y := end.y + d.y))
    case LowerRight =>
      var d := HandleDelta(pos, diff, keep, ratio);
      (start, Point(end.x + d.x, end.y + d.y))
  }

  /** The handle switch of UpdateCroppedRectWithAspectRatio, reassigning the two local
      corners case by case. */
  method MoveCorners(start: Point, end: Point, pos: DragPosition, diff: Point, keep: bool, ratio: real)
    returns (s: Point, e: Point)
    requires keep ==> ratio > 0.0
    ensures (s, e) == MovedCorners(start, end, pos, diff, keep, ratio)
  {
    s, e := start, end;
    var d := diff;
    match pos {
      case Top =>
        s := s.(y := s.y + d.y);
        if keep {
          var changeX := d.y * ratio;
          s := s.(x := s.x + changeX / 2.0);
          e := e.(x := e.x - changeX / 2.0);
        }
        assert s.x == MovedCorners(start, end, pos, diff, keep, ratio).0.x;
      case Bottom =>
        e := e.(y := e.y + d.y);
        if keep {
          var changeX := d.y * ratio;
          s := s.(x := s.x - changeX / 2.0);
          e := e.(x := e.x + changeX / 2.0);
        }
        assert s.x == MovedCorners(start, end, pos, diff, keep, ratio).0.x;
      case Left =>
        s := s.(x := s.x + d.x);
        if keep {
          var changeY := d.x / ratio;
          s := s.(y := s.y + changeY / 2.0);
          e := e.(y := e.y - changeY / 2.0);
        }
      case Right =>
        e := e.(x := e.x + d.x);
        if keep {
          var changeY := d.x / ratio;
          s := s.(y := s.y - changeY / 2.0);
          e := e.(y := e.y + changeY / 2.0);
        }
      case UpperLeft =>
        if keep { d := CornerDelta(pos, d, ratio); }
        s := Point(s.x + d.x, s.y + d.y);
      case UpperRight =>
        if keep { d := CornerDelta(pos, d, ratio); }
        e := e.(x := e.x + d.x);
        s := s.(y := s.y + d.y);
      case LowerLeft =>
        if keep { d := CornerDelta(pos, d, ratio); }
        s := s.(x := s.x + d.x);
        e := e.(y := e.y + d.y);
      case LowerRight =>
        if keep { d := CornerDelta(pos, d, ratio); }
        e := Point(e.x + d.x, e.y + d.y);
    }
  }

  /** Under a locked ratio every handle keeps width = ratio · height when it held. */
  lemma LockedDragKeepsRatio(start: Point, end: Point, pos: DragPosition, diff: Point, ratio: real,
                             moved: (Point, Point))
    requires ratio > 0.0 && HasRatio(start, end, ratio)
    requires moved == MovedCorners(start, end, pos, diff, true, ratio)
    ensures HasRatio(moved.0, moved.1, ratio)
  {
    if IsCorner(pos) {
      LockedCornerKeepsRatio(start, end, pos, diff, ratio, moved);
    } else if pos == Left || pos == Right {
      HalfChangeCancels(diff.x, ratio);
    }
  }

  /** The corner case of LockedDragKeepsRatio: the corner delta lies on the diagonal. */
  lemma LockedCornerKeepsRatio(start: Point, end: Point, pos: DragPosition, diff: Point, ratio: real,
                               moved: (Point, Point))
    requires ratio > 0.0 && IsCorner(pos) && HasRatio(start, end, ratio)
    requires moved == MovedCorners(start, end, pos, diff, true, ratio)
    ensures HasRatio(moved.0, moved.1, ratio)
  {
    var d := HandleDelta(pos, diff, true, ratio);
    var w, h := end.x - start.x, end.y - start.y;
    if pos == UpperLeft || pos == LowerRight {
      assert d.x == ratio * d.y;
      if pos == UpperLeft {
        assert moved.1.x - moved.0.x == w - d.x && moved.1.y - moved.0.y == h - d.y;
        assert w - d.x == ratio * (h - d.y);
      } else {
        assert moved.1.x - moved.0.x == w + d.x && moved.1.y - moved.0.y == h + d.y;
        assert w + d.x == ratio * (h + d.y);
      }
    } else {
      assert d.x == -ratio * d.y;
      if pos == UpperRight {
        assert moved.1.x - moved.0.x == w + d.x && moved.1.y - moved.0.y == h - d.y;
        assert w + d.x == ratio * (h - d.y);
      } else {
        assert moved.1.x - moved.0.x == w - d.x && moved.1.y - moved.0.y == h + d.y;
        assert w - d.x == ratio * (h + d.y);
      }
    }
  }

  /** Half of dx / k at each end makes up dx / k, which is dx again once times k. */
  lemma HalfChangeCancels(dx: real, ratio: real)
    requires ratio > 0.0
    ensures ratio * (dx / ratio / 2.0 + dx / ratio / 2.0) == dx
  {
  }

  /** A locked edge drag keeps the centre of the perpendicular axis. */
  lemma LockedEdgeDragKeepsCentre(start: Point, end: Point, pos: DragPosition, diff: Point, ratio: real)
    requires ratio > 0.0
    ensures var (s, e) := MovedCorners(start, end, pos, diff, true, ratio);
      ((pos == Top || pos == Bottom) ==> s.x + e.x == start.x + end.x) &&
      ((pos == Left || pos == Right) ==> s.y + e.y == start.y + end.y)
  {
  }

  /** With a free ratio a handle moves exactly the coordinates it owns by the drag. */
  lemma FreeDragMovesOwnedEdges(start: Point, end: Point, pos: DragPosition, diff: Point)
    ensures var (s, e) := MovedCorners(start, end, pos, diff, false, 0.0);
      s.x == start.x + (if MovesStartX(pos) then diff.x else 0.0) &&
      s.y == start.y + (if MovesStartY(pos) then diff.y else 0.0) &&
      e.x == end.x + (if MovesEndX(pos) then diff.x else 0.0) &&
      e.y == end.y + (if MovesEndY(pos) then diff.y else 0.0)
  {
  }

  /** Handling of a candidate below the minimum selection size: under a locked ratio it
      is kept only if it shrinks neither axis; with a free ratio the owned edges are
      pushed out to the minimum and the result cut to the selectable area.  An empty cut
      has an infinite origin in the source, which the selectable-area test then refuses. */
  function RepairedCorners(s: Point, e: Point, start: Point, end: Point, pos: DragPosition,
                           rs: Rect, minSize: Size, keep: bool): Option<(Point, Point)>
  {
    if IsSafeRect(s, e, minSize) then Some((s, e))
    else if keep then
      if e.y - s.y < end.y - start.y || e.x - s.x < end.x - start.x then None else Some((s, e))
    else
      var (s1, e1) := SafeCorners(s, e, minSize, pos);
      var safe := Intersect(FromCorners(s1, e1), rs);
      if safe.Empty? then None else Some((TopLeft(safe), BottomRight(safe)))
  }

  /** The outcome of a drag: ignored, settled inside the canvas (only the selection
      moves), or refitted (the crop rect and the layout are recomputed). */
  datatype DragDecision = Ignored | Settle(start: Point, end: Point) | Refit(start: Point, end: Point)

  /** The handle drag of UpdateCroppedRectWithAspectRatio: ignored for a zero drag or
      an invalid canvas, otherwise decided on the moved corners. */
  function DecideDrag(start: Point, end: Point, pos: DragPosition, diff: Point, canvas: Rect,
                      rs: Rect, minSize: Size, keep: bool, ratio: real): DragDecision
    requires keep ==> ratio > 0.0
  {
    if diff == Point(0.0, 0.0) || !IsValid(canvas) then Ignored
    else DecideMoved(MovedCorners(start, end, pos, diff, keep, ratio), start, end, pos, canvas, rs, minSize, keep)
  }

  /** The second half of the drag: repair the moved corners, refuse them unless both are
      in the selectable area, then settle or refit depending on whether the new selection
      stays inside the canvas. */
  function DecideMoved(moved: (Point, Point), start: Point, end: Point, pos: DragPosition, canvas: Rect,
                       rs: Rect, minSize: Size, keep: bool): DragDecision
  {
    match RepairedCorners(moved.0, moved.1, start, end, pos, rs, minSize, keep)
    case None => Ignored
    case Some(corners) =>
      if !(IsSafePoint(rs, corners.0) && IsSafePoint(rs, corners.1)) then Ignored
      else if Union(FromCorners(corners.0, corners.1), canvas) == canvas then Settle(corners.0, corners.1)
      else Refit(corners.0, corners.1)
  }

  /** The candidate computation of UpdateCroppedRectWithAspectRatio on two local
      corners: move the handle, repair or refuse a selection below the minimum size,
      refuse one outside the selectable area, and tell a selection that stays in the
      canvas from one that leaves it. */
  method DragSelection(start: Point, end: Point, pos: DragPosition, diff: Point, canvas: Rect,
                       rs: Rect, minSize: Size, keep: bool, ratio: real) returns (d: DragDecision)
    requires keep ==> ratio > 0.0
    ensures d == DecideDrag(start, end, pos, diff, canvas, rs, minSize, keep, ratio)
  {
    if diff == Point(0.0, 0.0) || !IsValid(canvas) {
      return Ignored;
    }
    d := MoveAndResolve(start, end, pos, diff, canvas, rs, minSize, keep, ratio);
  }

  /** The unguarded body of DragSelection: move the handle, then repair, refuse, settle
      or refit the moved corners. */
  method MoveAndResolve(start: Point, end: Point, pos: DragPosition, diff: Point, canvas: Rect,
                        rs: Rect, minSize: Size, keep: bool, ratio: real) returns (d: DragDecision)
    requires keep ==> ratio > 0.0
    ensures d == DecideMoved(MovedCorners(start, end, pos, diff, keep, ratio), start, end, pos, canvas, rs,
                             minSize, keep)
  {
    var startPoint, endPoint := MoveCorners(start, end, pos, diff, keep, ratio);
    d := ResolveMoved(startPoint, endPoint, start, end, pos, canvas, rs, minSize, keep);
  }

  /** The second half of DragSelection: repair or refuse the moved corners, refuse them
      outside the selectable area, and settle or refit. */
  method ResolveMoved(s: Point, e: Point, start: Point, end: Point, pos: DragPosition, canvas: Rect,
                      rs: Rect, minSize: Size, keep: bool) returns (d: DragDecision)
    ensures d == DecideMoved((s, e), start, end, pos, canvas, rs, minSize, keep)
  {
    var repaired := RepairMoved(s, e, start, end, pos, rs, minSize, keep);
    if repaired.None? {
      return Ignored;
    }
    var (startPoint, endPoint) := repaired.value;
    var isEffectiveRegion := IsSafePoint(rs, startPoint) && IsSafePoint(rs, endPoint);
    if !isEffectiveRegion {
      return Ignored;
    }
    var selectedRect := Union(FromCorners(startPoint, endPoint), canvas);
    if selectedRect != canvas {
      d := Refit(startPoint, endPoint);
    } else {
      d := Settle(startPoint, endPoint);
    }
  }

  /** The repair step of the drag: a candidate below the minimum size is refused or, with
      a free ratio, pushed out to the minimum and cut to the selectable area. */
  method RepairMoved(s: Point, e: Point, start: Point, end: Point, pos: DragPosition,
                     rs: Rect, minSize: Size, keep: bool) returns (r: Option<(Point, Point)>)
    ensures r == RepairedCorners(s, e, start, end, pos, rs, minSize, keep)
  {
    if IsSafeRect(s, e, minSize) {
      return Some((s, e));
    }
    if keep {
      if e.y - s.y < end.y - start.y || e.x - s.x < end.x - start.x {
        return None;
      }
      return Some((s, e));
    }
    var safeRect := GetSafeRect(s, e, minSize, pos);
    safeRect := Intersect(safeRect, rs);
    if safeRect.Empty? {
      return None;
    }
    r := Some((TopLeft(safeRect), BottomRight(safeRect)));
  }

  /** Under a locked ratio an accepted selection is the moved one. */
  lemma LockedDecisionKeepsMoved(moved: (Point, Point), start: Point, end: Point, pos: DragPosition, canvas: Rect,
                                 rs: Rect, minSize: Size)
    ensures var d := DecideMoved(moved, start, end, pos, canvas, rs, minSize, true);
      !d.Ignored? ==> (d.start, d.end) == moved
  {
  }

  /** An accepted drag has both corners in the selectable area (within Tolerance), and
      it settles exactly when the new selection lies inside the canvas. */
  lemma AcceptedDragIsSafe(start: Point, end: Point, pos: DragPosition, diff: Point, canvas: Rect,
                           rs: Rect, minSize: Size, keep: bool, ratio: real)
    requires keep ==> ratio > 0.0
    ensures var d := DecideDrag(start, end, pos, diff, canvas, rs, minSize, keep, ratio);
      (diff == Point(0.0, 0.0) || !IsValid(canvas) || rs.Empty? ==> d.Ignored?) &&
      (!d.Ignored? ==> IsSafePoint(rs, d.start) && IsSafePoint(rs, d.end)) &&
      (d.Settle? ==> Contains(canvas, FromCorners(d.start, d.end))) &&
      (d.Refit? ==> !Contains(canvas, FromCorners(d.start, d.end)))
  {
  }

  /** An accepted drag keeps the corners in order, given a minimum selection size of at
      least Tolerance and ordered corners before. */
  lemma AcceptedDragOrdered(start: Point, end: Point, pos: DragPosition, diff: Point, canvas: Rect,
                            rs: Rect, minSize: Size, keep: bool, ratio: real)
    requires keep ==> ratio > 0.0
    requires minSize.width >= Tolerance && minSize.height >= Tolerance
    requires start.x <= end.x && start.y <= end.y
    ensures var d := DecideDrag(start, end, pos, diff, canvas, rs, minSize, keep, ratio);
      !d.Ignored? ==> d.start.x <= d.end.x && d.start.y <= d.end.y
  {
    MovedDecisionOrdered(start, end, pos, diff, canvas, rs, minSize, keep, ratio);
  }

  /** The same holds for the moved corners decided without the zero-drag and canvas guard. */
  lemma MovedDecisionOrdered(start: Point, end: Point, pos: DragPosition, diff: Point, canvas: Rect,
                             rs: Rect, minSize: Size, keep: bool, ratio: real)
    requires keep ==> ratio > 0.0
    requires minSize.width >= Tolerance && minSize.height >= Tolerance
    requires start.x <= end.x && start.y <= end.y
    ensures var d := DecideMoved(MovedCorners(start, end, pos, diff, keep, ratio), start, end, pos, canvas, rs,
                                 minSize, keep);
      !d.Ignored? ==> d.start.x <= d.end.x && d.start.y <= d.end.y
  {
  }

  /** Under a locked ratio an accepted drag keeps width = ratio · height when it held. */
  lemma LockedAcceptedDragKeepsRatio(start: Point, end: Point, pos: DragPosition, diff: Point, canvas: Rect,
                                     rs: Rect, minSize: Size, ratio: real)
    requires ratio > 0.0 && HasRatio(start, end, ratio)
    ensures var d := DecideDrag(start, end, pos, diff, canvas, rs, minSize, true, ratio);
      !d.Ignored? ==> HasRatio(d.start, d.end, ratio)
  {
    var moved := MovedCorners(start, end, pos, diff, true, ratio);
    LockedDecisionKeepsMoved(moved, start, end, pos, canvas, rs, minSize);
    LockedDragKeepsRatio(start, end, pos, diff, ratio, moved);
  }

  /** The selection spanned by two corners is `ratio` times as wide as it is tall. */
  predicate HasRatio(start: Point, end: Point, ratio: real) {
    end.x - start.x == ratio * (end.y - start.y)
  }

  /** With a free ratio, a candidate that was below the minimum size and is accepted has
      been cut to the selectable area. */
  lemma FreeRepairInsideSelectable(start: Point, end: Point, pos: DragPosition, diff: Point, canvas: Rect,
                                   rs: Rect, minSize: Size)
    ensures var (s, e) := MovedCorners(start, end, pos, diff, false, 0.0);
      var d := DecideDrag(start, end, pos, diff, canvas, rs, minSize, false, 0.0);
      !d.Ignored? && !IsSafeRect(s, e, minSize) ==> InRect(rs, d.start) && InRect(rs, d.end)
  {
  }

  /** The anchor of each handle: corners at the selection corners, edge handles at the
      middle of their edge. */
  function HandleAnchors(start: Point, end: Point): (m: map<DragPosition, Point>)
    ensures m.Keys == {Top, Bottom, Left, Right, UpperLeft, UpperRight, LowerLeft, LowerRight}
  {
    var centerX := (end.x - start.x) / 2.0 + start.x;
    var centerY := (end.y - start.y) / 2.0 + start.y;
    map[Top := Point(centerX, start.y), Bottom := Point(centerX, end.y),
        Left := Point(start.x, centerY), Right := Point(end.x, centerY),
        UpperLeft := start, UpperRight := Point(end.x, start.y),
        LowerLeft := Point(start.x, end.y), LowerRight := end]
  }

  /** Each edge handle sits halfway between the two corner handles of its edge. */
  lemma EdgeAnchorsAreMidpoints(start: Point, end: Point)
    ensures var m := HandleAnchors(start, end);
      Midpoint(m[UpperLeft], m[UpperRight]) == m[Top] && Midpoint(m[LowerLeft], m[LowerRight]) == m[Bottom] &&
      Midpoint(m[UpperLeft], m[LowerLeft]) == m[Left] && Midpoint(m[UpperRight], m[LowerRight]) == m[Right]
  {
  }

  function Midpoint(p: Point, q: Point): Point {
    Point((p.x + q.x) / 2.0, (p.y + q.y) / 2.0)
  }

  /** Where the pointer is during a handle manipulation: the handle's canvas position,
      plus the pointer position inside the handle and the delta translation, less half
      the handle's size. */
  function PointerPosition(button: Point, position: Point, translation: Point, buttonSize: Size): Point {
    Point(button.x + position.x + translation.x - buttonSize.width / 2.0,
          button.y + position.y + translation.y - buttonSize.height / 2.0)
  }

  /** The drag delta a handle manipulation asks for: from the handle's position to the
      pointer clamped into the selectable area. */
  function PointerDelta(rs: Rect, button: Point, pointer: Point): Point
    requires rs.Box?
  {
    var safe := RectHelpers.GetSafePoint(rs, pointer);
    Point(safe.x - button.x, safe.y - button.y)
  }

  /** The delta moves the handle into the selectable area, and exactly onto the pointer
      when the pointer is inside it. */
  lemma PointerDeltaSafe(rs: Rect, button: Point, pointer: Point)
    requires rs.Box?
    ensures var d := PointerDelta(rs, button, pointer);
      InRect(rs, Point(button.x + d.x, button.y + d.y)) &&
      (InRect(rs, pointer) ==> Point(button.x + d.x, button.y + d.y) == pointer)
  {
    RectHelpers.SafePointIdempotent(rs, pointer);
  }

  /** The selection a pan by `delta` proposes (SourceImage_ManipulationDelta): both corners
      move by -delta; it is refused when either corner leaves the selectable area (with
      Tolerance of slack) or when the selection is below the minimum size by more than
      Tolerance. */
  function PannedSelection(start: Point, end: Point, delta: Point, rs: Rect, minSize: Size): Option<Rect>
  {
    var s := Point(start.x - delta.x, start.y - delta.y);
    var e := Point(end.x - delta.x, end.y - delta.y);
    if !(IsSafePoint(rs, s) && IsSafePoint(rs, e)) then None
    else
      var selected := FromCorners(s, e);
      if selected.width - minSize.width < -Tolerance || selected.height - minSize.height < -Tolerance then None
      else Some(selected)
  }

  /** The pan of SourceImage_ManipulationDelta on the two corners, step by step. */
  method PanSelection(start: Point, end: Point, delta: Point, rs: Rect, minSize: Size) returns (sel: Option<Rect>)
    ensures sel == PannedSelection(start, end, delta, rs, minSize)
  {
    var startPoint := Point(start.x - delta.x, start.y - delta.y);
    var endPoint := Point(end.x - delta.x, end.y - delta.y);
    if !(IsSafePoint(rs, startPoint) && IsSafePoint(rs, endPoint)) {
      return None;
    }
    var selectedRect := FromCorners(startPoint, endPoint);
    if selectedRect.width - minSize.width < -Tolerance || selectedRect.height - minSize.height < -Tolerance {
      return None;
    }
    sel := Some(selectedRect);
  }

  /** A pan of an ordered selection is a translation: an accepted pan is the current
      selection moved by -delta, with both corners in the selectable area; and it is
      refused exactly when a moved corner leaves that area or the current selection is
      already below the minimum size, whatever the delta. */
  lemma PanIsTranslation(start: Point, end: Point, delta: Point, rs: Rect, minSize: Size)
    requires start.x <= end.x && start.y <= end.y
    ensures var p := PannedSelection(start, end, delta, rs, minSize);
      var s := Point(start.x - delta.x, start.y - delta.y);
      var e := Point(end.x - delta.x, end.y - delta.y);
      (p.Some? ==> p.value == Box(s.x, s.y, end.x - start.x, end.y - start.y) &&
                   IsSafePoint(rs, TopLeft(p.value)) && IsSafePoint(rs, BottomRight(p.value))) &&
      (p.None? <==> !(IsSafePoint(rs, s) && IsSafePoint(rs, e)) ||
                    (end.x - start.x) - minSize.width < -Tolerance || (end.y - start.y) - minSize.height < -Tolerance)
  {
    var s := Point(start.x - delta.x, start.y - delta.y);
    var e := Point(end.x - delta.x, end.y - delta.y);
    var selected := FromCorners(s, e);
    assert selected.width == end.x - start.x && selected.height == end.y - start.y;
  }

  /** The outcome of an aspect-ratio change: a new selection, a fallback to the free
      ratio when a minimum-size rect of the ratio cannot fit, or the degenerate case of a
      point selection.  The current control scales that zero size by an infinite factor,
      and the NaN rect it gets misses the image bounds in the final cut, so the crop
      becomes Empty; the older control commits the NaN rect uncut, where its model also
      leaves an Empty crop. */
  datatype AspectOutcome = Fitted(selection: Rect) | FallBackToFree | Degenerate

  /** The square of side max(width, height) centred on the selection. */
  function ViewSquare(start: Point, end: Point): (v: Rect)
    requires start.x <= end.x && start.y <= end.y
    ensures v.Box? && v.width == v.height == Max(end.x - start.x, end.y - start.y)
    ensures v.x + v.width / 2.0 == (start.x + end.x) / 2.0 && v.y + v.height / 2.0 == (start.y + end.y) / 2.0
  {
    var centerX := (end.x - start.x) / 2.0 + start.x;
    var centerY := (end.y - start.y) / 2.0 + start.y;
    var length := Max(end.x - start.x, end.y - start.y);
    Box(centerX - length / 2.0, centerY - length / 2.0, length, length)
  }

  /** The first candidate of UpdateAspectRatio: the uniform rect of the square around
      the current selection, or of the selectable area when that one is wider or taller
      than the selectable area. */
  function UniformCandidate(start: Point, end: Point, rs: Rect, ratio: real): (u: Rect)
    requires rs.Box? && ratio > 0.0 && start.x <= end.x && start.y <= end.y
    ensures u.Box?
  {
    var u0 := GetUniformRect(ViewSquare(start, end), ratio);
    if u0.width > rs.width || u0.height > rs.height then GetUniformRect(rs, ratio) else u0
  }

  /** The candidate has the ratio and is never wider or taller than the selectable area. */
  lemma UniformCandidateSettleable(start: Point, end: Point, rs: Rect, ratio: real)
    requires rs.Box? && ratio > 0.0 && start.x <= end.x && start.y <= end.y
    ensures Settleable(UniformCandidate(start, end, rs, ratio), rs, ratio)
  {
    var view := ViewSquare(start, end);
    var u0 := GetUniformRect(view, ratio);
    if u0.width > rs.width || u0.height > rs.height {
      UniformRectFits(rs, ratio);
      UniformSettleable(rs, rs, ratio);
    } else {
      UniformSettleable(view, rs, ratio);
    }
  }

  /** A uniform rect no wider and no taller than the selectable area is settleable. */
  lemma UniformSettleable(target: Rect, rs: Rect, ratio: real)
    requires target.Box? && rs.Box? && ratio > 0.0
    requires GetUniformRect(target, ratio).width <= rs.width && GetUniformRect(target, ratio).height <= rs.height
    ensures Settleable(GetUniformRect(target, ratio), rs, ratio)
  {
  }

  /** For a valid selectable area the candidate has a zero side only for a point
      selection. */
  lemma UniformCandidateDegenerate(start: Point, end: Point, rs: Rect, ratio: real)
    requires IsValid(rs) && ratio > 0.0 && start.x <= end.x && start.y <= end.y
    ensures var u := UniformCandidate(start, end, rs, ratio);
      Min(u.width, u.height) == 0.0 ==> start == end
  {
    var view := ViewSquare(start, end);
    var u0 := GetUniformRect(view, ratio);
    if u0.width > rs.width || u0.height > rs.height {
      UniformPositive(rs, ratio);
    } else if view.width > 0.0 {
      UniformPositive(view, ratio);
    }
  }

  /** A candidate UpdateAspectRatio can settle: a rect of the ratio no wider and no
      taller than the selectable area. */
  predicate Settleable(u: Rect, rs: Rect, ratio: real) {
    u.Box? && rs.Box? && ratio > 0.0 && u.width == ratio * u.height && u.width <= rs.width && u.height <= rs.height
  }

  /** A rect scaled about its origin so that its shorter side becomes `length`. */
  function ScaledUp(u: Rect, length: real): (v: Rect)
    requires u.Box? && Min(u.width, u.height) > 0.0 && length >= 0.0
    ensures v.Box? && v.x == u.x && v.y == u.y
  {
    var scale := length / Min(u.width, u.height);
    Box(u.x, u.y, u.width * scale, u.height * scale)
  }

  /** The selection UpdateAspectRatio settles on: the first candidate, scaled up to the
      minimum length if it is shorter, then shifted inside the selectable area; or the
      fallback when the scaled rect does not fit. */
  function AspectSelection(start: Point, end: Point, rs: Rect, ratio: real, minLength: real): AspectOutcome
    requires IsValid(rs) && ratio > 0.0 && start.x <= end.x && start.y <= end.y && minLength >= 0.0
  {
    SettleCandidate(UniformCandidate(start, end, rs, ratio), rs, minLength)
  }

  /** What UpdateAspectRatio does with its first candidate `u`. */
  function SettleCandidate(u: Rect, rs: Rect, minLength: real): AspectOutcome
    requires rs.Box? && u.Box? && minLength >= 0.0
  {
    if u.width < minLength || u.height < minLength then
      if Min(u.width, u.height) == 0.0 then Degenerate
      else
        var scaled := ScaledUp(u, minLength);
        if scaled.width > rs.width || scaled.height > rs.height then FallBackToFree
        else Fitted(ShiftInside(rs, scaled))
    else Fitted(ShiftInside(rs, u))
  }

  /** The selection computation of UpdateAspectRatio on a local rect: the uniform rect
      of the square around the selection (or of the selectable area), scaled up to the
      minimum length, then shifted inside the selectable area one bound at a time. */
  method SelectAspectRect(start: Point, end: Point, rs: Rect, ratio: real, minLength: real)
    returns (o: AspectOutcome)
    requires IsValid(rs) && ratio > 0.0 && start.x <= end.x && start.y <= end.y && minLength >= 0.0
    ensures o == AspectSelection(start, end, rs, ratio, minLength)
  {
    var viewRect := ViewSquare(start, end);
    var uniformSelectedRect := GetUniformRect(viewRect, ratio);
    if uniformSelectedRect.width > rs.width || uniformSelectedRect.height > rs.height {
      uniformSelectedRect := GetUniformRect(rs, ratio);
    }
    assert uniformSelectedRect == UniformCandidate(start, end, rs, ratio);
    if uniformSelectedRect.width < minLength || uniformSelectedRect.height < minLength {
      if Min(uniformSelectedRect.width, uniformSelectedRect.height) == 0.0 {
        return Degenerate;
      }
      uniformSelectedRect := ScaledUp(uniformSelectedRect, minLength);
      if uniformSelectedRect.width > rs.width || uniformSelectedRect.height > rs.height {
        return FallBackToFree;
      }
    }
    var shifted := ShiftRectInside(rs, uniformSelectedRect);
    o := Fitted(shifted);
  }

  /** What the aspect-ratio change promises: a fitted selection has the ratio, lies in
      the selectable area and is at least the minimum length on both sides; the ratio
      falls back only when the smallest rect of the ratio does not fit in the selectable
      area. */
  predicate SoundOutcome(o: AspectOutcome, rs: Rect, ratio: real, minLength: real)
    requires rs.Box? && ratio > 0.0
  {
    (o.Fitted? ==>
      (HasAspect(o.selection, ratio) &&
       Contains(rs, o.selection) && Min(o.selection.width, o.selection.height) >= minLength)) &&
    (o.FallBackToFree? ==>
      (Sizing.StretchedSquare(minLength, ratio).width > rs.width ||
       Sizing.StretchedSquare(minLength, ratio).height > rs.height))
  }

  /** Settling a settleable candidate is sound, and degenerate only for a candidate
      with a zero side. */
  lemma SettleCandidateSound(u: Rect, rs: Rect, ratio: real, minLength: real)
    requires Settleable(u, rs, ratio) && minLength >= 0.0
    ensures SoundOutcome(SettleCandidate(u, rs, minLength), rs, ratio, minLength)
    ensures SettleCandidate(u, rs, minLength).Degenerate? ==> Min(u.width, u.height) == 0.0
  {
    if u.width < minLength || u.height < minLength {
      if Min(u.width, u.height) != 0.0 {
        var scaled := ScaledUp(u, minLength);
        ScaledCandidateSound(u, rs, ratio, minLength);
        if scaled.width > rs.width || scaled.height > rs.height {
          assert SettleCandidate(u, rs, minLength) == FallBackToFree;
        } else {
          assert SettleCandidate(u, rs, minLength) == Fitted(ShiftInside(rs, scaled));
        }
      }
    } else {
      assert SettleCandidate(u, rs, minLength) == Fitted(ShiftInside(rs, u));
    }
  }

  /** The aspect-ratio change is sound, and degenerate only for a point selection. */
  lemma AspectSelectionSound(start: Point, end: Point, rs: Rect, ratio: real, minLength: real)
    requires IsValid(rs) && ratio > 0.0 && start.x <= end.x && start.y <= end.y && minLength >= 0.0
    ensures SoundOutcome(AspectSelection(start, end, rs, ratio, minLength), rs, ratio, minLength)
    ensures AspectSelection(start, end, rs, ratio, minLength).Degenerate? ==> start == end
  {
    var u := UniformCandidate(start, end, rs, ratio);
    UniformCandidateSettleable(start, end, rs, ratio);
    UniformCandidateDegenerate(start, end, rs, ratio);
    SettleCandidateSound(u, rs, ratio, minLength);
  }

  /** The candidate scaled up to the minimum length is the stretched square of that
      length; shifted inside the selectable area when it fits, it has the ratio and lies
      in the area. */
  lemma ScaledCandidateSound(u: Rect, rs: Rect, ratio: real, minLength: real)
    requires u.Box? && rs.Box? && ratio > 0.0 && u.width == ratio * u.height && minLength >= 0.0
    requires Min(u.width, u.height) > 0.0
    ensures var v := ScaledUp(u, minLength);
      var least := Sizing.StretchedSquare(minLength, ratio);
      v.width == least.width && v.height == least.height &&
      (v.width <= rs.width && v.height <= rs.height ==>
        var w := ShiftInside(rs, v);
        w.width == ratio * w.height && Contains(rs, w) && Min(w.width, w.height) == minLength)
  {
    ScaledToMinimum(u, ratio, minLength);
  }

  /** A rect of a positive ratio scaled so that its shorter side is `length` keeps the
      ratio and becomes the stretched square of that length. */
  lemma ScaledToMinimum(u: Rect, ratio: real, length: real)
    requires u.Box? && ratio > 0.0 && u.width == ratio * u.height && u.height > 0.0 && length >= 0.0
    ensures var v := ScaledUp(u, length);
      v.width == ratio * v.height &&
      v.width == Sizing.StretchedSquare(length, ratio).width &&
      v.height == Sizing.StretchedSquare(length, ratio).height
  {
    var v := ScaledUp(u, length);
    var m := Min(u.width, u.height);
    var scale := length / m;
    assert m > 0.0 by { assert u.width > 0.0 by { assert ratio * u.height > 0.0; } }
    assert v.width == ratio * v.height by {
      assert u.width * scale == ratio * (u.height * scale);
    }
    assert Min(v.width, v.height) == length by {
      assert m * scale == length;
      MinScaled(u.width, u.height, scale);
    }
    var st := Sizing.StretchedSquare(length, ratio);
    SameRatioSameSize(v.width, v.height, st.width, st.height, ratio);
  }

  /** Scaling by a non-negative factor commutes with Min. */
  lemma MinScaled(a: real, b: real, scale: real)
    requires scale >= 0.0
    ensures Min(a * scale, b * scale) == Min(a, b) * scale
  {
    if a <= b {
      assert a * scale <= b * scale by { Transforms.ScaleMonotone(a, b, scale); }
    } else {
      assert b * scale <= a * scale by { Transforms.ScaleMonotone(b, a, scale); }
    }
  }

  /** Two sizes of the same positive ratio with the same shorter side are equal. */
  lemma SameRatioSameSize(w1: real, h1: real, w2: real, h2: real, ratio: real)
    requires ratio > 0.0 && w1 == ratio * h1 && w2 == ratio * h2
    requires h1 >= 0.0 && h2 >= 0.0 && Min(w1, h1) == Min(w2, h2)
    ensures w1 == w2 && h1 == h2
  {
    if ratio >= 1.0 {
      assert w1 >= h1 by { assert ratio * h1 >= 1.0 * h1; }
      assert w2 >= h2 by { assert ratio * h2 >= 1.0 * h2; }
    } else {
      assert w1 <= h1 by { assert ratio * h1 <= 1.0 * h1; }
      assert w2 <= h2 by { assert ratio * h2 <= 1.0 * h2; }
      assert (h1 - h2) * ratio == 0.0;
    }
  }

  /** The uniform rect of a valid target and a positive ratio is itself valid. */
  lemma UniformPositive(target: Rect, ratio: real)
    requires IsValid(target) && ratio > 0.0
    ensures IsValid(GetUniformRect(target, ratio))
  {
    if target.height > 0.0 && ratio > target.width / target.height {
      assert target.width / ratio > 0.0;
    }
  }

  /** A double as far as the older control's locked corner drag needs one: a finite
      value, or NaN. */
  datatype Double = Num(v: real) | NaN

  /** Subtraction in double arithmetic: NaN stays NaN. */
  function Minus(a: Double, b: real): Double {
    if a.NaN? then NaN else Num(a.v - b)
  }

  /** The comparisons `a < b` and `a > b` in double arithmetic: false for NaN. */
  predicate Below(a: Double, b: real) {
    a.Num? && a.v < b
  }

  predicate Above(a: Double, b: real) {
    a.Num? && a.v > b
  }

  /** IsSafePoint on double coordinates.  Each of its four early returns is taken on a
      comparison, so a NaN coordinate never triggers one.  Rect.Empty has left and top
      edges of plus infinity and sizes of minus infinity, so a finite coordinate fails
      it on the first test of its axis, and a NaN one passes. */
  predicate LegacyIsSafePoint(rs: Rect, x: Double, y: Double) {
    if rs.Empty? then x.NaN? && y.NaN?
    else
      !Below(Minus(x, rs.x), -Tolerance) && !Above(Minus(x, RightEdge(rs)), Tolerance) &&
      !Below(Minus(y, rs.y), -Tolerance) && !Above(Minus(y, BottomEdge(rs)), Tolerance)
  }

  /** On finite coordinates the double region test is IsSafePoint; a NaN point passes it. */
  lemma LegacyIsSafePointAgrees(rs: Rect, p: Point)
    ensures LegacyIsSafePoint(rs, Num(p.x), Num(p.y)) <==> IsSafePoint(rs, p)
    ensures LegacyIsSafePoint(rs, NaN, NaN)
  {
  }

  /** How a locked corner drag ends in the older control (ImageCropper.cs): decided as
      the model decides a drag, or a refit around NaN corners. */
  datatype LegacyCornerDrag = Decided(decision: DragDecision) | NaNRefit

  /** `a + b` and `a - b` in double arithmetic: NaN stays NaN. */
  function Plus(a: Double, b: real): Double {
    if a.NaN? then NaN else Num(a.v + b)
  }

  function Difference(a: Double, b: Double): Double {
    if a.NaN? || b.NaN? then NaN else Num(a.v - b.v)
  }

  /** A point with double coordinates. */
  datatype DoublePoint = DoublePoint(x: Double, y: Double)

  /** The corners a locked corner drag of (0, 0) leaves in the older control.  The
      direction atan(0 / 0) is NaN, so the length and the delta are NaN, and each
      switch case adds that delta to the two coordinates its handle owns; the other
      two keep their values. */
  function ZeroDragCorners(start: Point, end: Point, pos: DragPosition): (c: (DoublePoint, DoublePoint))
    requires IsCorner(pos)
    ensures c.0.x.NaN? <==> MovesStartX(pos)
    ensures c.1.x.NaN? <==> MovesEndX(pos)
    ensures c.0.y.NaN? <==> MovesStartY(pos)
    ensures c.1.y.NaN? <==> MovesEndY(pos)
    ensures c.0.x.Num? ==> c.0.x.v == start.x
    ensures c.1.x.Num? ==> c.1.x.v == end.x
    ensures c.0.y.Num? ==> c.0.y.v == start.y
    ensures c.1.y.Num? ==> c.1.y.v == end.y
  {
    match pos
    case UpperLeft => (DoublePoint(NaN, NaN), DoublePoint(Num(end.x), Num(end.y)))
    case UpperRight => (DoublePoint(Num(start.x), NaN), DoublePoint(NaN, Num(end.y)))
    case LowerLeft => (DoublePoint(NaN, Num(start.y)), DoublePoint(Num(end.x), NaN))
    case LowerRight => (DoublePoint(Num(start.x), Num(start.y)), DoublePoint(NaN, NaN))
  }

  /** The corner a corner handle drags against: the coordinates it does not own. */
  function OppositeCorner(start: Point, end: Point, pos: DragPosition): Point {
    Point(if MovesStartX(pos) then end.x else start.x, if MovesStartY(pos) then end.y else start.y)
  }

  /** The older control's locked corner drag, which has no zero-drag guard.  A drag of
      (0, 0) leaves the ZeroDragCorners.  Every axis then has one NaN end, so the size
      check fails, and the only refusal it leads to compares the new extents with the
      old ones, which is false for NaN.  The region test passes the NaN coordinates
      and tests the finite ones; when they pass, the union of the NaN selection with
      the canvas is not the canvas, so the drag reaches the refit.  Any other drag
      moves by CornerDelta and is decided as DecideMoved decides it. */
  function LegacyLockedCornerDrag(start: Point, end: Point, pos: DragPosition, diff: Point, canvas: Rect,
                                  rs: Rect, minSize: Size, ratio: real): (r: LegacyCornerDrag)
    requires IsCorner(pos) && ratio > 0.0
    ensures r.NaNRefit? ==> diff == Point(0.0, 0.0)
    ensures diff == Point(0.0, 0.0) ==> r == NaNRefit || r == Decided(Ignored)
  {
    if diff.x == 0.0 && diff.y == 0.0 then
      var (s, e) := ZeroDragCorners(start, end, pos);
      var safeRect := Below(Difference(Plus(s.x, minSize.width), e.x), Tolerance) &&
                      Below(Difference(Plus(s.y, minSize.height), e.y), Tolerance);
      var shrinks := Below(Difference(e.y, s.y), end.y - start.y) || Below(Difference(e.x, s.x), end.x - start.x);
      if !safeRect && shrinks then Decided(Ignored)
      else if !(LegacyIsSafePoint(rs, s.x, s.y) && LegacyIsSafePoint(rs, e.x, e.y)) then Decided(Ignored)
      else NaNRefit
    else Decided(DecideMoved(MovedCorners(start, end, pos, diff, true, ratio), start, end, pos, canvas, rs,
                             minSize, true))
  }

  /** The guarded drag is the older drag with its one discrepancy removed: on a valid
      canvas they decide every locked corner drag alike except a drag of (0, 0).  The
      guard ignores it; the older control refuses it only when the corner the handle
      drags against is outside the selectable area, and otherwise refits around NaN
      corners.  The selection's own corners always lie in that area, and a pointer
      clamped back onto its own handle gives such a drag: a corner handle on the
      corner of the selectable area, dragged further out. */
  lemma LegacyZeroCornerDragDiffers(start: Point, end: Point, pos: DragPosition, diff: Point, canvas: Rect,
                                    rs: Rect, minSize: Size, ratio: real)
    requires IsCorner(pos) && ratio > 0.0 && IsValid(canvas)
    ensures diff == Point(0.0, 0.0) ==>
      DecideDrag(start, end, pos, diff, canvas, rs, minSize, true, ratio) == Ignored &&
      (LegacyLockedCornerDrag(start, end, pos, diff, canvas, rs, minSize, ratio) == NaNRefit <==>
       IsSafePoint(rs, OppositeCorner(start, end, pos))) &&
      (LegacyLockedCornerDrag(start, end, pos, diff, canvas, rs, minSize, ratio) != NaNRefit ==>
       LegacyLockedCornerDrag(start, end, pos, diff, canvas, rs, minSize, ratio) == Decided(Ignored))
    ensures diff == Point(0.0, 0.0) && IsSafePoint(rs, start) && IsSafePoint(rs, end) ==>
      LegacyLockedCornerDrag(start, end, pos, diff, canvas, rs, minSize, ratio) == NaNRefit
    ensures diff != Point(0.0, 0.0) ==>
      LegacyLockedCornerDrag(start, end, pos, diff, canvas, rs, minSize, ratio) ==
      Decided(DecideDrag(start, end, pos, diff, canvas, rs, minSize, true, ratio))
  {
  }
}
