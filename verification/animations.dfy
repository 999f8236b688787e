/** The discrete keyframes of the selection-rectangle animation
    (GetKeyframe and GetProgressPoint in ImageCropper.Animations.cs). */
module Animations {
  import opened Geometry

  /** The 10 ms keyframe step, in 100 ns ticks. */
  const StepTicks: int := 100000

  datatype Keyframe = Keyframe(keyTime: int, value: Rect)

  /** GetProgressPoint: linear interpolation from `from` to `to`, per axis. */
  function GetProgressPoint(progress: real, from: Point, to: Point): (p: Point)
    ensures progress == 0.0 ==> p == from
    ensures progress == 1.0 ==> p == to
    ensures 0.0 <= progress <= 1.0 ==> Min(from.x, to.x) <= p.x <= Max(from.x, to.x)
    ensures 0.0 <= progress <= 1.0 ==> Min(from.y, to.y) <= p.y <= Max(from.y, to.y)
  {
    var p := Point(from.x + progress * (to.x - from.x), from.y + progress * (to.y - from.y));
    assert 0.0 <= progress <= 1.0 ==> Min(from.x, to.x) <= p.x <= Max(from.x, to.x) by {
      if 0.0 <= progress <= 1.0 { Between(from.x, to.x, progress); }
    }
    assert 0.0 <= progress <= 1.0 ==> Min(from.y, to.y) <= p.y <= Max(from.y, to.y) by {
      if 0.0 <= progress <= 1.0 { Between(from.y, to.y, progress); }
    }
    p
  }

  lemma Between(a: real, b: real, t: real)
    requires 0.0 <= t <= 1.0
    ensures Min(a, b) <= a + t * (b - a) <= Max(a, b)
  {
    if a <= b {
      ProductNonNegative(1.0 - t, b - a);
      ProductNonNegative(t, b - a);
    } else {
      ProductNonNegative(1.0 - t, a - b);
      ProductNonNegative(t, a - b);
    }
  }

  lemma ProductNonNegative(x: real, y: real)
    requires x >= 0.0 && y >= 0.0
    ensures x * y >= 0.0
  {
  }

  /** The rect shown at `ticks` into an animation of `duration` ticks: each corner at the
      same progress between the corresponding corners of `from` and `to`. */
  function FrameAt(from: Rect, to: Rect, duration: int, ticks: int): Rect
    requires from.Box? && to.Box? && duration > 0
  {
    var progress := ticks as real / duration as real;
    FromCorners(GetProgressPoint(progress, TopLeft(from), TopLeft(to)),
                GetProgressPoint(progress, BottomRight(from), BottomRight(to)))
  }

  /** The animation starts on `from`, and every intermediate frame lies in the bounding
      box of the two end rects. */
  lemma FramesStayBetween(from: Rect, to: Rect, duration: int, ticks: int)
    requires from.Box? && to.Box? && duration > 0 && 0 <= ticks <= duration
    ensures ticks == 0 ==> FrameAt(from, to, duration, ticks) == from
    ensures Contains(Union(from, to), FrameAt(from, to, duration, ticks))
  {
    var progress := ticks as real / duration as real;
    assert 0.0 <= progress <= 1.0;
    var f := FrameAt(from, to, duration, ticks);
    if ticks == 0 {
      assert progress == 0.0;
    }
  }

  /** The number of loop keyframes: one per step strictly before the duration. */
  function LoopFrames(duration: int): (n: nat)
    ensures duration > 0 ==> (n - 1) * StepTicks < duration <= n * StepTicks
    ensures duration <= 0 ==> n == 0
  {
    if duration <= 0 then 0 else (duration + StepTicks - 1) / StepTicks
  }

  /** GetKeyframe: keyframes every 10 ms strictly before the duration, then one at the
      duration holding exactly `to`. */
  method GetKeyframe(from: Rect, to: Rect, duration: int) returns (list: seq<Keyframe>)
    requires from.Box? && to.Box?
    ensures |list| == LoopFrames(duration) + 1
    ensures list[|list| - 1] == Keyframe(duration, to)
    ensures forall k :: 0 <= k < |list| - 1 ==>
      list[k].keyTime == k * StepTicks && list[k].keyTime < duration &&
      list[k].value == FrameAt(from, to, duration, list[k].keyTime)
  {
    list := [];
    var i := 0;
    while i < duration
      invariant i == |list| * StepTicks
      invariant |list| > 0 ==> (|list| - 1) * StepTicks < duration
      invariant forall k :: 0 <= k < |list| ==>
        list[k].keyTime == k * StepTicks && list[k].keyTime < duration &&
        list[k].value == FrameAt(from, to, duration, list[k].keyTime)
      decreases duration - i
    {
      var progress := i as real / duration as real;
      list := list + [Keyframe(i, FromCorners(GetProgressPoint(progress, TopLeft(from), TopLeft(to)),
                                             GetProgressPoint(progress, BottomRight(from), BottomRight(to))))];
      i := i + StepTicks;
    }
    assert |list| == LoopFrames(duration);
    list := list + [Keyframe(duration, to)];
  }

  /** Keyframe times strictly increase along the list. */
  lemma KeyTimesIncrease(list: seq<Keyframe>, duration: int)
    requires |list| >= 1 && list[|list| - 1].keyTime == duration
    requires forall k :: 0 <= k < |list| - 1 ==> list[k].keyTime == k * StepTicks && list[k].keyTime < duration
    ensures forall j, k :: 0 <= j < k < |list| ==> list[j].keyTime < list[k].keyTime
  {
  }
}
