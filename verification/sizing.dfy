/** The derived sizes of the cropper (ImageCropper.cs): the aspect ratio in use,
    whether it is locked, and the minimum crop (image pixels) and selection
    (canvas units) sizes. */
module Sizing {
  import opened Geometry
  import opened Transforms

  /** RoundedCrop forces a square crop; otherwise the AspectRatio property is used. */
  function UsedAspectRatio(roundedCrop: bool, aspectRatio: real): (used: real)
    ensures roundedCrop ==> used == 1.0
    ensures !roundedCrop ==> used == aspectRatio
  {
    if roundedCrop then 1.0 else aspectRatio
  }

  /** The aspect ratio is locked exactly when the ratio in use is positive. */
  predicate KeepAspectRatio(roundedCrop: bool, aspectRatio: real) {
    UsedAspectRatio(roundedCrop, aspectRatio) > 0.0
  }

  /** The ratio the minimum sizes are shaped to: the used ratio when locked, else 1. */
  function ShapeRatio(roundedCrop: bool, aspectRatio: real): (r: real)
    ensures r > 0.0
    ensures KeepAspectRatio(roundedCrop, aspectRatio) ==> r == UsedAspectRatio(roundedCrop, aspectRatio)
  {
    if KeepAspectRatio(roundedCrop, aspectRatio) then UsedAspectRatio(roundedCrop, aspectRatio) else 1.0
  }

  /** A size `ratio` times as wide as it is tall. */
  predicate HasShape(s: Size, ratio: real) {
    s.width == ratio * s.height
  }

  /** A length-by-length square with its longer side stretched to the ratio. */
  function StretchedSquare(length: real, ratio: real): (s: Size)
    requires ratio > 0.0
    ensures HasShape(s, ratio)
    ensures length >= 0.0 ==> Min(s.width, s.height) == length
  {
    if ratio >= 1.0 then Size(length * ratio, length)
    else
      var height := length / ratio;
      assert length >= 0.0 ==> length <= height by {
        if length >= 0.0 { assert height * ratio == length; }
      }
      Size(length, height)
  }

  /** MinCropSize: the smallest crop in image pixels. */
  function MinCropSize(minCroppedPixelLength: real, roundedCrop: bool, aspectRatio: real): (s: Size)
    ensures HasShape(s, ShapeRatio(roundedCrop, aspectRatio))
    ensures minCroppedPixelLength >= 0.0 ==> Min(s.width, s.height) == minCroppedPixelLength
  {
    StretchedSquare(minCroppedPixelLength, ShapeRatio(roundedCrop, aspectRatio))
  }

  /** MinSelectSize: the minimum crop size seen through the image transform, unless its
      shorter side is below MinSelectedLength, in which case a MinSelectedLength square
      stretched to the ratio. */
  function MinSelectSize(t: Similarity, minCroppedPixelLength: real, minSelectedLength: real,
                         roundedCrop: bool, aspectRatio: real): (s: Size)
    requires minCroppedPixelLength >= 0.0
    ensures minSelectedLength >= 0.0 ==> Min(s.width, s.height) >= minSelectedLength
    ensures t.scale >= 0.0 && Scaled(minCroppedPixelLength, t.scale) < minSelectedLength ==>
      s == StretchedSquare(minSelectedLength, ShapeRatio(roundedCrop, aspectRatio)) &&
      (minSelectedLength >= 0.0 ==> Min(s.width, s.height) == minSelectedLength)
    ensures t.scale >= 0.0 && Scaled(minCroppedPixelLength, t.scale) >= minSelectedLength ==>
      s == ScaledSize(MinCropSize(minCroppedPixelLength, roundedCrop, aspectRatio), t.scale) &&
      Min(s.width, s.height) == Scaled(minCroppedPixelLength, t.scale)
  {
    var crop := MinCropSize(minCroppedPixelLength, roundedCrop, aspectRatio);
    var seen := TransformBounds(t, Box(0.0, 0.0, crop.width, crop.height));
    assert t.scale >= 0.0 ==>
      Size(seen.width, seen.height) == ScaledSize(crop, t.scale) &&
      Min(seen.width, seen.height) == Scaled(minCroppedPixelLength, t.scale) by {
      if t.scale >= 0.0 {
        ShorterSideScaled(crop.width, crop.height, t.scale);
      }
    }
    if Min(seen.width, seen.height) < minSelectedLength then
      StretchedSquare(minSelectedLength, ShapeRatio(roundedCrop, aspectRatio))
    else Size(seen.width, seen.height)
  }

  /** A length seen through a transform of scale `k`. */
  function Scaled(length: real, k: real): real {
    length * k
  }

  /** A size seen through a transform of scale `k`. */
  function ScaledSize(s: Size, k: real): Size {
    Size(s.width * k, s.height * k)
  }

  /** Scaling both sides by a non-negative factor scales the shorter side by it. */
  lemma ShorterSideScaled(a: real, b: real, k: real)
    ensures k >= 0.0 ==> Min(a * k, b * k) == Min(a, b) * k
  {
    if k >= 0.0 {
      if a <= b {
        assert a * k <= b * k by { ScaleMonotone(a, b, k); }
      } else {
        assert b * k <= a * k by { ScaleMonotone(b, a, k); }
      }
    }
  }

  /** For a transform of non-negative scale MinSelectSize has the shape ratio. */
  lemma MinSelectSizeShape(t: Similarity, minCroppedPixelLength: real, minSelectedLength: real,
                           roundedCrop: bool, aspectRatio: real)
    requires minCroppedPixelLength >= 0.0 && t.scale >= 0.0
    ensures HasShape(MinSelectSize(t, minCroppedPixelLength, minSelectedLength, roundedCrop, aspectRatio),
                     ShapeRatio(roundedCrop, aspectRatio))
  {
    if Scaled(minCroppedPixelLength, t.scale) >= minSelectedLength {
      ScaledShape(MinCropSize(minCroppedPixelLength, roundedCrop, aspectRatio), ShapeRatio(roundedCrop, aspectRatio),
                  t.scale);
    }
  }

  /** Scaling both sides by the same factor keeps the shape. */
  lemma ScaledShape(s: Size, ratio: real, k: real)
    requires HasShape(s, ratio)
    ensures HasShape(ScaledSize(s, k), ratio)
  {
    assert (ratio * s.height) * k == ratio * (s.height * k);
  }

  /** The image-load guard: a bitmap is accepted only when strictly larger than the
      minimum crop size on both axes. */
  predicate ImageLargeEnough(pixelWidth: nat, pixelHeight: nat, minCrop: Size) {
    pixelWidth as real > minCrop.width && pixelHeight as real > minCrop.height
  }
}
