/** The geometry of a relayout (ImageCropper.Logic.cs): the crop a new image starts
    with, the viewport a rect is fitted into, the selection a fitted transform shows,
    and how the inverse transform brings a selection back into the image. */
module Layout {
  import opened Geometry
  import opened Transforms
  import opened RectExtensions
  import RectHelpers
  import CropLogic

  /** The image bounds of a bitmap: the origin-anchored rect of its pixel size. */
  function ImageBounds(pixelWidth: nat, pixelHeight: nat): (r: Rect)
    ensures r.Box? && TopLeft(r) == Point(0.0, 0.0)
    ensures IsValid(r) <==> pixelWidth > 0 && pixelHeight > 0
  {
    Box(0.0, 0.0, pixelWidth as real, pixelHeight as real)
  }

  /** The crop a freshly loaded image starts with: the whole image, or its largest
      centred rect of the locked ratio. */
  function InitialCrop(bounds: Rect, keep: bool, ratio: real): (c: Rect)
    requires bounds.Box? && (keep ==> ratio > 0.0)
    ensures Contains(bounds, c)
    ensures IsValid(bounds) ==> IsValid(c)
    ensures keep ==> c.Box? && c.width == ratio * c.height
    ensures !keep ==> c == bounds
  {
    if keep then
      UniformRectFits(bounds, ratio);
      UniformValidWhen(bounds, ratio);
      GetUniformRect(bounds, ratio)
    else bounds
  }

  /** Under a locked ratio no rect of that ratio inside the image is taller (hence
      wider) than the initial crop. */
  lemma InitialCropLargest(bounds: Rect, ratio: real, w: real, h: real)
    requires bounds.Box? && ratio > 0.0
    requires 0.0 <= h && w == ratio * h && w <= bounds.width && h <= bounds.height
    ensures h <= InitialCrop(bounds, true, ratio).height
  {
    UniformRectLargest(bounds, ratio, w, h);
  }

  /** The viewport a rect is fitted into: the largest rect of the rect's aspect ratio
      centred in the canvas.  It has an area exactly when the canvas has one; a canvas
      without area gives a viewport of zero width. */
  function FitViewport(canvas: Rect, r: Rect): (v: Rect)
    requires canvas.Box? && IsValid(r)
    ensures Contains(canvas, v) && SameShape(v, r)
    ensures IsValid(v) <==> IsValid(canvas)
    ensures !IsValid(canvas) ==> v.width == 0.0
  {
    var ratio := r.width / r.height;
    UniformRectFits(canvas, ratio);
    UniformArea(canvas, ratio);
    var v := GetUniformRect(canvas, ratio);
    assert v.width * r.height == v.height * r.width by {
      assert v.width * r.height == v.height * (ratio * r.height);
      assert ratio * r.height == r.width;
    }
    v
  }

  /** The uniform rect of a target has an area exactly when the target has one, and
      neither width nor height when it has none. */
  lemma UniformArea(target: Rect, ratio: real)
    requires target.Box? && ratio > 0.0
    ensures var u := GetUniformRect(target, ratio);
      (IsValid(u) <==> IsValid(target)) && (!IsValid(target) ==> u.width == 0.0 && u.height == 0.0)
  {
    if IsValid(target) {
      CropLogic.UniformPositive(target, ratio);
    }
  }

  /** The uniform rect of a valid target is valid. */
  lemma UniformValidWhen(target: Rect, ratio: real)
    requires target.Box? && ratio > 0.0
    ensures IsValid(target) ==> IsValid(GetUniformRect(target, ratio))
  {
    if IsValid(target) {
      CropLogic.UniformPositive(target, ratio);
    }
  }

  /** The selection corners a transform shows for a crop: the transformed crop's
      corners, each clamped into the transformed image bounds. */
  function ShownCorners(t: Similarity, crop: Rect, bounds: Rect): (c: (Point, Point))
    requires t.scale >= 0.0 && crop.Box? && bounds.Box?
    ensures InRect(TransformBounds(t, bounds), c.0) && InRect(TransformBounds(t, bounds), c.1)
    ensures c.0.x <= c.1.x && c.0.y <= c.1.y
  {
    var rs := TransformBounds(t, bounds);
    var sel := TransformBounds(t, crop);
    ClampOrdered(sel.x, RightEdge(sel), rs.x, RightEdge(rs));
    ClampOrdered(sel.y, BottomEdge(sel), rs.y, BottomEdge(rs));
    (RectHelpers.GetSafePoint(rs, TopLeft(sel)), RectHelpers.GetSafePoint(rs, BottomRight(sel)))
  }

  /** Clamping into one interval keeps the order of two values. */
  lemma ClampOrdered(a: real, b: real, lo: real, hi: real)
    requires a <= b && lo <= hi
    ensures RectHelpers.ClampAxis(a, lo, hi) <= RectHelpers.ClampAxis(b, lo, hi)
  {
  }

  /** A relayout around a crop inside the image shows exactly the viewport: the fitted
      transform maps the crop onto it, and no clamp moves its corners. */
  lemma RelayoutShowsViewport(canvas: Rect, crop: Rect, bounds: Rect)
    requires IsValid(canvas) && IsValid(crop) && bounds.Box? && Contains(bounds, crop)
    ensures var v := FitViewport(canvas, crop);
      ShownCorners(FitTransform(v, crop), crop, bounds) == (TopLeft(v), BottomRight(v))
  {
    var v := FitViewport(canvas, crop);
    var t := FitTransform(v, crop);
    FitMapsOnto(v, crop);
    TransformKeepsContainment(t, bounds, crop);
    var rs := TransformBounds(t, bounds);
    assert InRect(rs, TopLeft(v)) && InRect(rs, BottomRight(v));
    RectHelpers.SafePointIdempotent(rs, TopLeft(v));
    RectHelpers.SafePointIdempotent(rs, BottomRight(v));
  }

  /** Right after a relayout the selection shows the viewport, and taken back through the
      inverse transform it is the crop rect again: committing an untouched selection
      gives back the crop it shows. */
  lemma RelayoutCommitsSameCrop(canvas: Rect, crop: Rect, bounds: Rect)
    requires IsValid(canvas) && IsValid(crop) && bounds.Box? && Contains(bounds, crop)
    ensures var v := FitViewport(canvas, crop);
      var t := FitTransform(v, crop);
      var shown := ShownCorners(t, crop, bounds);
      TransformBounds(Inverse(t).value, FromCorners(shown.0, shown.1)) == crop
  {
    var v := FitViewport(canvas, crop);
    var t := FitTransform(v, crop);
    RelayoutShowsViewport(canvas, crop, bounds);
    FitMapsOnto(v, crop);
    BoundsRoundTrip(t, crop);
    assert FromCorners(TopLeft(v), BottomRight(v)) == v;
  }

  /** A selection inside the transformed image bounds comes back inside the image. */
  lemma InverseBackInside(t: Similarity, bounds: Rect, sel: Rect)
    requires t.scale > 0.0 && Contains(TransformBounds(t, bounds), sel)
    ensures Contains(bounds, TransformBounds(Inverse(t).value, sel))
  {
    var i := Inverse(t).value;
    assert i.scale > 0.0;
    TransformKeepsContainment(i, TransformBounds(t, bounds), sel);
    BoundsRoundTrip(t, bounds);
  }

  /** Mapping back through the inverse keeps a selection's width-to-height ratio. */
  lemma InverseKeepsRatio(t: Similarity, sel: Rect, ratio: real)
    requires t.scale > 0.0 && sel.Box? && sel.width == ratio * sel.height
    ensures var c := TransformBounds(Inverse(t).value, sel);
      c.Box? && c.width == ratio * c.height
  {
    var i := Inverse(t).value;
    assert i.scale > 0.0;
    assert (ratio * sel.height) * i.scale == ratio * (sel.height * i.scale);
  }

  /** A selection of the locked ratio inside the selectable area needs no cut when it is
      taken back into image space, and it keeps the ratio there. */
  lemma AspectCropExact(t: Similarity, bounds: Rect, sel: Rect, ratio: real)
    requires t.scale > 0.0 && bounds.Box? && Contains(TransformBounds(t, bounds), sel)
    requires HasAspect(sel, ratio)
    ensures var c := TransformBounds(Inverse(t).value, sel);
      Intersect(c, bounds) == c && HasAspect(c, ratio)
  {
    InverseBackInside(t, bounds, sel);
    InverseKeepsRatio(t, sel, ratio);
  }

  /** The transform a drag that leaves the canvas installs: the union of the new
      selection with the canvas is mapped back through the inverse transform and fitted
      onto the canvas's centred rect of the union's aspect ratio. */
  function RefitTransform(canvas: Rect, inverse: Similarity, selection: Rect): (t: Similarity)
    requires IsValid(canvas) && inverse.scale > 0.0 && selection.Box?
    ensures t.scale > 0.0
  {
    var u := Union(selection, canvas);
    FitTransform(FitViewport(canvas, u), TransformBounds(inverse, u))
  }

  /** After such a refit the union of selection and canvas, taken back into image space,
      is shown exactly on the centred viewport, which lies in the canvas: the view zooms
      out until the whole dragged selection is visible. */
  lemma RefitShowsUnion(canvas: Rect, inverse: Similarity, selection: Rect)
    requires IsValid(canvas) && inverse.scale > 0.0 && selection.Box?
    ensures var u := Union(selection, canvas);
      var v := FitViewport(canvas, u);
      TransformBounds(RefitTransform(canvas, inverse, selection), TransformBounds(inverse, u)) == v &&
      Contains(canvas, v)
  {
    var u := Union(selection, canvas);
    assert IsValid(u);
    FitScaledOnto(FitViewport(canvas, u), u, inverse);
  }

  /** A viewport of the same ratio as `u` shows `u`, mapped by any transform of positive
      scale, exactly, under the transform fitted onto it. */
  lemma FitScaledOnto(v: Rect, u: Rect, inverse: Similarity)
    requires IsValid(v) && IsValid(u) && inverse.scale > 0.0
    requires SameShape(v, u)
    ensures TransformBounds(FitTransform(v, TransformBounds(inverse, u)), TransformBounds(inverse, u)) == v
  {
    var r := TransformBounds(inverse, u);
    RatioScaled(v.width, v.height, u.width, u.height, inverse.scale);
    FitMapsOnto(v, r);
  }

  /** Scaling the second rect of an equal-ratio pair keeps the ratios equal. */
  lemma RatioScaled(vw: real, vh: real, uw: real, uh: real, i: real)
    requires vw * uh == vh * uw
    ensures vw * (uh * i) == vh * (uw * i)
  {
    calc {
      vw * (uh * i);
      (vw * uh) * i;
      (vh * uw) * i;
      vh * (uw * i);
    }
  }
}
