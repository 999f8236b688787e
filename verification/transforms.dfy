/** The image transform of the cropper: a uniform scale followed by a translation
    (a CompositeTransform whose ScaleX and ScaleY are always set together), its
    inverse, and the transform that fits an image-space rect onto a viewport. */
module Transforms {
  import opened Geometry

  datatype Similarity = Similarity(scale: real, translateX: real, translateY: real)

  /** A freshly created CompositeTransform. */
  const Identity: Similarity := Similarity(1.0, 0.0, 0.0)

  function Apply(t: Similarity, p: Point): Point {
    Point(p.x * t.scale + t.translateX, p.y * t.scale + t.translateY)
  }

  /** TransformBounds: the bounding box of the transformed corners; for a
      non-negative scale the corners keep their order. */
  function TransformBounds(t: Similarity, r: Rect): (b: Rect)
    ensures b.Empty? <==> r.Empty?
    ensures r.Box? && t.scale >= 0.0 ==>
      b == Box(r.x * t.scale + t.translateX, r.y * t.scale + t.translateY, r.width * t.scale, r.height * t.scale)
  {
    if r.Empty? then Empty
    else if t.scale >= 0.0 then
      ScaleMonotone(r.x, r.x + r.width, t.scale);
      ScaleMonotone(r.y, r.y + r.height, t.scale);
      ScaleMonotone(0.0, r.width, t.scale);
      ScaleMonotone(0.0, r.height, t.scale);
      Box(r.x * t.scale + t.translateX, r.y * t.scale + t.translateY, r.width * t.scale, r.height * t.scale)
    else
      FromCorners(Apply(t, TopLeft(r)), Apply(t, BottomRight(r)))
  }

  /** The inverse transform; a transform of scale 0 has none. */
  function Inverse(t: Similarity): (r: Option<Similarity>)
    ensures r.Some? <==> t.scale != 0.0
    ensures r.Some? ==> r.value.scale * t.scale == 1.0
    ensures t.scale > 0.0 ==> r.Some? && r.value.scale > 0.0
  {
    if t.scale == 0.0 then None
    else Some(Similarity(1.0 / t.scale, -t.translateX / t.scale, -t.translateY / t.scale))
  }

  /** The inverse undoes the transform, and the transform undoes the inverse. */
  lemma InverseUndoes(t: Similarity, p: Point)
    requires t.scale != 0.0
    ensures Apply(Inverse(t).value, Apply(t, p)) == p
    ensures Apply(t, Apply(Inverse(t).value, p)) == p
  {
    var s := t.scale;
    var i := Inverse(t).value;
    calc {
      (p.x * s + t.translateX) * (1.0 / s) + (-t.translateX / s);
      p.x * (s * (1.0 / s)) + t.translateX / s - t.translateX / s;
      p.x;
    }
    calc {
      (p.y * s + t.translateY) * (1.0 / s) + (-t.translateY / s);
      p.y * (s * (1.0 / s)) + t.translateY / s - t.translateY / s;
      p.y;
    }
    calc {
      (p.x * (1.0 / s) + -t.translateX / s) * s + t.translateX;
      p.x * ((1.0 / s) * s) - (t.translateX / s) * s + t.translateX;
      p.x;
    }
    calc {
      (p.y * (1.0 / s) + -t.translateY / s) * s + t.translateY;
      p.y * ((1.0 / s) * s) - (t.translateY / s) * s + t.translateY;
      p.y;
    }
  }

  /** For a positive scale, mapping a rect to the canvas and back gives the rect again. */
  lemma {:induction false} BoundsRoundTrip(t: Similarity, r: Rect)
    requires t.scale > 0.0
    ensures TransformBounds(Inverse(t).value, TransformBounds(t, r)) == r
  {
    if r.Box? {
      var i := Inverse(t).value;
      var b := TransformBounds(t, r);
      assert i.scale > 0.0;
      InverseUndoes(t, TopLeft(r));
      assert b.x * i.scale + i.translateX == r.x && b.y * i.scale + i.translateY == r.y;
      assert b.width * i.scale == r.width by {
        assert (r.width * t.scale) * i.scale == r.width * (t.scale * i.scale);
      }
      assert b.height * i.scale == r.height by {
        assert (r.height * t.scale) * i.scale == r.height * (t.scale * i.scale);
      }
    }
  }

  /** A transform of positive scale preserves containment. */
  lemma TransformKeepsContainment(t: Similarity, outer: Rect, inner: Rect)
    requires t.scale > 0.0
    requires Contains(outer, inner)
    ensures Contains(TransformBounds(t, outer), TransformBounds(t, inner))
  {
    if inner.Box? {
      IntervalScaled(outer.x, outer.width, inner.x, inner.width, t.scale, t.translateX);
      IntervalScaled(outer.y, outer.height, inner.y, inner.height, t.scale, t.translateY);
    }
  }

  /** A transform of positive scale maps a valid rect to a valid rect. */
  lemma TransformKeepsValid(t: Similarity, r: Rect)
    requires t.scale > 0.0 && r.Box? && r.width > 0.0 && r.height > 0.0
    ensures var b := TransformBounds(t, r); b.Box? && b.width > 0.0 && b.height > 0.0
  {
  }

  /** One axis of TransformKeepsContainment: [a, a + w] inside [b, b + v] stays so
      under v |-> v * s + c. */
  lemma IntervalScaled(b: real, v: real, a: real, w: real, s: real, c: real)
    requires b <= a && a + w <= b + v && s >= 0.0
    ensures b * s + c <= a * s + c
    ensures a * s + c + w * s <= b * s + c + v * s
  {
    ScaleMonotone(b, a, s);
    ScaleMonotone(a + w, b + v, s);
    assert (a + w) * s == a * s + w * s;
    assert (b + v) * s == b * s + v * s;
  }

  lemma ScaleMonotone(a: real, b: real, s: real)
    requires a <= b && s >= 0.0
    ensures a * s <= b * s
  {
  }

  /** The transform UpdateImageLayoutWithViewport installs: scale viewport.Width /
      imageRect.Width, translation moving imageRect's origin onto viewport's origin. */
  function FitTransform(viewport: Rect, imageRect: Rect): (t: Similarity)
    requires viewport.Box? && imageRect.Box? && imageRect.width > 0.0
    ensures t.scale >= 0.0
    ensures t.scale > 0.0 <==> viewport.width > 0.0
    ensures Apply(t, TopLeft(imageRect)) == TopLeft(viewport)
    ensures imageRect.width * t.scale == viewport.width
  {
    var scale := viewport.width / imageRect.width;
    Similarity(scale, viewport.x - imageRect.x * scale, viewport.y - imageRect.y * scale)
  }

  /** Two boxes of the same aspect ratio, stated without division. */
  predicate SameShape(a: Rect, b: Rect) {
    a.Box? && b.Box? && a.width * b.height == a.height * b.width
  }

  /** When viewport and image rect have the same aspect ratio the fitted transform
      maps the image rect exactly onto the viewport. */
  lemma FitMapsOnto(viewport: Rect, imageRect: Rect)
    requires viewport.Box? && imageRect.Box? && imageRect.width > 0.0 && imageRect.height > 0.0
    requires viewport.width > 0.0 && viewport.height > 0.0
    requires SameShape(viewport, imageRect)
    ensures TransformBounds(FitTransform(viewport, imageRect), imageRect) == viewport
  {
    var t := FitTransform(viewport, imageRect);
    var s := t.scale;
    assert (imageRect.height * s) * imageRect.width == viewport.height * imageRect.width by {
      assert (imageRect.height * s) * imageRect.width == imageRect.height * (imageRect.width * s);
    }
    CancelFactor(imageRect.height * s, viewport.height, imageRect.width);
  }

  /** Cancelling a non-zero factor. */
  lemma CancelFactor(a: real, b: real, w: real)
    requires w != 0.0 && a * w == b * w
    ensures a == b
  {
    assert (a - b) * w == 0.0;
  }
}
