/** The older snapshot of the cropper (ImageCropper.cs): the same selection, crop rect,
    image bounds and selectable area, but no inverse transform kept beside the image
    transform.  A relayout onto a canvas without area installs a transform of scale 0,
    which has no inverse; the handle drag and the aspect-ratio change then give up.
    The handle placement, the gesture handlers and the property hooks are those of the
    current control (module Cropper). */
module LegacyCropper {
  import opened Geometry
  import opened Transforms
  import opened RectExtensions
  import Sizing
  import CropLogic
  import Layout
  import Cropper

  class LegacyImageCropper {
    var startX: real
    var startY: real
    var endX: real
    var endY: real
    var imageTransform: Similarity
    var currentCroppedRect: Rect
    var restrictedCropRect: Rect
    var restrictedSelectRect: Rect
    var sourceImage: Option<Cropper.Bitmap>
    var aspectRatio: real
    var roundedCrop: bool
    /** SecondaryControlButtonVisibility is Visible. */
    var secondaryButtonsVisible: bool
    var canvasWidth: Cropper.Length
    var canvasHeight: Cropper.Length
    var cornerButtonsVisible: bool
    var edgeButtonsVisible: bool
    /** The settable MinCroppedPixelLength and MinSelectedLength. */
    var minCroppedPixelLength: Cropper.Length
    var minSelectedLength: Cropper.SelectableLength

    /** What every operation keeps: corners in order, a transform of non-negative scale,
        the selectable area equal to the image bounds seen through the transform, valid
        image bounds once an image is set, and the crop rect inside them. */
    predicate Valid()
      reads this`startX, this`startY, this`endX, this`endY, this`imageTransform, this`restrictedSelectRect
      reads this`restrictedCropRect, this`currentCroppedRect, this`sourceImage
    {
      startX <= endX && startY <= endY && imageTransform.scale >= 0.0 &&
      restrictedSelectRect == TransformBounds(imageTransform, restrictedCropRect) && CropInside()
    }

    /** The image-space part of Valid: valid image bounds once an image is set, and the
        crop rect inside them. */
    predicate CropInside()
      reads this`restrictedCropRect, this`currentCroppedRect, this`sourceImage
    {
      (sourceImage.Some? ==> IsValid(restrictedCropRect)) &&
      (IsValid(restrictedCropRect) ==> Contains(restrictedCropRect, currentCroppedRect))
    }

    function Start(): Point
      reads this`startX, this`startY
    {
      Point(startX, startY)
    }

    function End(): Point
      reads this`endX, this`endY
    {
      Point(endX, endY)
    }

    function CanvasRect(): Rect
      reads this`canvasWidth, this`canvasHeight
    {
      Box(0.0, 0.0, canvasWidth, canvasHeight)
    }

    function UsedAspectRatio(): real
      reads this`roundedCrop, this`aspectRatio
    {
      Sizing.UsedAspectRatio(roundedCrop, aspectRatio)
    }

    predicate KeepAspectRatio()
      reads this`roundedCrop, this`aspectRatio
    {
      Sizing.KeepAspectRatio(roundedCrop, aspectRatio)
    }

    function MinSelectSize(): Size
      reads this`imageTransform, this`minCroppedPixelLength, this`minSelectedLength, this`roundedCrop, this`aspectRatio
    {
      Sizing.MinSelectSize(imageTransform, minCroppedPixelLength, minSelectedLength, roundedCrop, aspectRatio)
    }

    /** The state a relayout by `t` leaves: `t` installed, the image bounds seen through
        it as the selectable area, and the selection at the crop's corners seen through
        it, clamped into that area. */
    predicate LaidOut(t: Similarity)
      reads this`imageTransform, this`restrictedSelectRect, this`restrictedCropRect, this`currentCroppedRect
      reads this`startX, this`startY, this`endX, this`endY
    {
      t.scale >= 0.0 && currentCroppedRect.Box? && restrictedCropRect.Box? &&
      imageTransform == t && restrictedSelectRect == TransformBounds(t, restrictedCropRect) &&
      (Start(), End()) == Layout.ShownCorners(t, currentCroppedRect, restrictedCropRect)
    }

    constructor ()
      ensures Valid()
      ensures Start() == Point(0.0, 0.0) && End() == Point(20.0, 20.0)
      ensures currentCroppedRect == Empty && restrictedCropRect == Empty && restrictedSelectRect == Empty
      ensures imageTransform == Identity && sourceImage.None? && aspectRatio == Cropper.FreeAspectRatio
      ensures minCroppedPixelLength == Cropper.DefaultMinCroppedPixelLength
      ensures minSelectedLength == Cropper.DefaultMinSelectedLength
    {
      startX, startY, endX, endY := 0.0, 0.0, 20.0, 20.0;
      imageTransform := Identity;
      currentCroppedRect, restrictedCropRect, restrictedSelectRect := Empty, Empty, Empty;
      sourceImage := None;
      aspectRatio := Cropper.FreeAspectRatio;
      roundedCrop, secondaryButtonsVisible := false, false;
      canvasWidth, canvasHeight := 0.0, 0.0;
      cornerButtonsVisible, edgeButtonsVisible := true, true;
      minCroppedPixelLength, minSelectedLength := Cropper.DefaultMinCroppedPixelLength, Cropper.DefaultMinSelectedLength;
    }

    /** UpdateSelectedRect: store the corners (the handles are placed as in the current
        control). */
    method UpdateSelectedRect(startPoint: Point, endPoint: Point)
      modifies this`startX, this`startY, this`endX, this`endY
      ensures Start() == startPoint && End() == endPoint
    {
      startX := startPoint.x;
      startY := startPoint.y;
      endX := endPoint.x;
      endY := endPoint.y;
    }

    /** UpdateControlButtonVisibility of this snapshot: corner handles unless the crop is
        rounded, edge handles when it is rounded or the secondary handles are visible,
        none without an image. */
    method UpdateControlButtonVisibility()
      modifies this`cornerButtonsVisible, this`edgeButtonsVisible
      ensures cornerButtonsVisible <==> sourceImage.Some? && !roundedCrop
      ensures edgeButtonsVisible <==> sourceImage.Some? && (roundedCrop || secondaryButtonsVisible)
    {
      var cornerVisible := !roundedCrop;
      var otherVisible := roundedCrop || secondaryButtonsVisible;
      if sourceImage.None? {
        cornerVisible, otherVisible := false, false;
      }
      cornerButtonsVisible := cornerVisible;
      edgeButtonsVisible := otherVisible;
    }

    /** UpdateImageLayoutWithViewport of this snapshot: no validity guard, so a viewport
        of zero width installs a transform of scale 0, one without an inverse. */
    method UpdateImageLayoutWithViewport(viewport: Rect, viewportImgRect: Rect)
      requires CropInside() && viewport.Box? && IsValid(viewportImgRect)
      requires currentCroppedRect.Box? && restrictedCropRect.Box?
      modifies this`imageTransform, this`restrictedSelectRect, this`startX, this`startY, this`endX, this`endY
      ensures Valid()
      ensures LaidOut(FitTransform(viewport, viewportImgRect))
      ensures Inverse(imageTransform).None? <==> viewport.width == 0.0
    {
      var t := FitTransform(viewport, viewportImgRect);
      imageTransform := t;
      var selectedRect := TransformBounds(imageTransform, currentCroppedRect);
      restrictedSelectRect := TransformBounds(imageTransform, restrictedCropRect);
      var startPoint := RectExtensions.GetSafePoint(restrictedSelectRect, TopLeft(selectedRect));
      var endPoint := RectExtensions.GetSafePoint(restrictedSelectRect, BottomRight(selectedRect));
      ghost var shown := Layout.ShownCorners(t, currentCroppedRect, restrictedCropRect);
      assert (startPoint, endPoint) == shown;
      UpdateSelectedRect(startPoint, endPoint);
    }

    /** UpdateImageLayout of this snapshot: fit the crop into the canvas with no guard on
        the canvas, so the transform has an inverse exactly when the canvas has an area. */
    method UpdateImageLayout()
      requires CropInside() && sourceImage.Some?
      modifies this`imageTransform, this`restrictedSelectRect, this`startX, this`startY, this`endX, this`endY
      ensures old(Valid()) ==> Valid()
      ensures !IsValid(currentCroppedRect) ==> unchanged(this)
      ensures IsValid(currentCroppedRect) ==>
        Valid() && LaidOut(FitTransform(Layout.FitViewport(CanvasRect(), currentCroppedRect), currentCroppedRect)) &&
        (Inverse(imageTransform).Some? <==> IsValid(CanvasRect()))
    {
      if !IsValid(currentCroppedRect) {
        return;
      }
      var uniformSelectedRect := Layout.FitViewport(CanvasRect(), currentCroppedRect);
      UpdateImageLayoutWithViewport(uniformSelectedRect, currentCroppedRect);
    }

    /** InitImageLayout of this snapshot: no null and no validity check (its only caller
        sets an image larger than the minimum crop size first); the whole image, or its
        largest rect of the locked ratio, is laid out and the handles shown. */
    method InitImageLayout()
      requires sourceImage.Some? && sourceImage.value.pixelWidth > 0 && sourceImage.value.pixelHeight > 0
      modifies this`currentCroppedRect, this`restrictedCropRect
      modifies this`imageTransform, this`restrictedSelectRect, this`startX, this`startY, this`endX, this`endY
      modifies this`cornerButtonsVisible, this`edgeButtonsVisible
      ensures Valid() && ImageLaidOut()
      ensures cornerButtonsVisible <==> !roundedCrop
      ensures edgeButtonsVisible <==> roundedCrop || secondaryButtonsVisible
    {
      LayOutImage();
      UpdateControlButtonVisibility();
    }

    /** The layout InitImageLayout leaves: the bitmap's bounds as image bounds, the
        initial crop inside them, laid out in the canvas, with a transform that has an
        inverse exactly when the canvas has an area. */
    predicate ImageLaidOut()
      reads this
    {
      sourceImage.Some? &&
      restrictedCropRect == Layout.ImageBounds(sourceImage.value.pixelWidth, sourceImage.value.pixelHeight) &&
      IsValid(restrictedCropRect) &&
      currentCroppedRect == Layout.InitialCrop(restrictedCropRect, KeepAspectRatio(), UsedAspectRatio()) &&
      LaidOut(FitTransform(Layout.FitViewport(CanvasRect(), currentCroppedRect), currentCroppedRect)) &&
      (Inverse(imageTransform).Some? <==> IsValid(CanvasRect()))
    }

    /** The crop part of InitImageLayout. */
    method LayOutImage()
      requires sourceImage.Some? && sourceImage.value.pixelWidth > 0 && sourceImage.value.pixelHeight > 0
      modifies this`currentCroppedRect, this`restrictedCropRect
      modifies this`imageTransform, this`restrictedSelectRect, this`startX, this`startY, this`endX, this`endY
      ensures Valid() && ImageLaidOut()
    {
      restrictedCropRect := Layout.ImageBounds(sourceImage.value.pixelWidth, sourceImage.value.pixelHeight);
      currentCroppedRect := Layout.InitialCrop(restrictedCropRect, KeepAspectRatio(), UsedAspectRatio());
      UpdateImageLayout();
    }

    /** What a drag of handle `pos` by `diff` decides: the moved corners, with no guard
        against a zero drag or a canvas without area. */
    function DragDecision(pos: DragPosition, diff: Point): CropLogic.DragDecision
      reads this`startX, this`startY, this`endX, this`endY, this`canvasWidth, this`canvasHeight
      reads this`restrictedSelectRect, this`imageTransform, this`roundedCrop, this`aspectRatio
      reads this`minCroppedPixelLength, this`minSelectedLength
    {
      CropLogic.DecideMoved(CropLogic.MovedCorners(Start(), End(), pos, diff, KeepAspectRatio(), UsedAspectRatio()),
                            Start(), End(), pos, CanvasRect(), restrictedSelectRect, MinSelectSize(),
                            KeepAspectRatio())
    }

    /** The crop a refit from `s` to `e` takes through inverse `inverse`: the selection in
        image space, cut to the image bounds. */
    function RefitCrop(inverse: Similarity, s: Point, e: Point): Rect
      reads this`restrictedCropRect
    {
      Intersect(TransformBounds(inverse, FromCorners(s, e)), restrictedCropRect)
    }

    /** The effect of a refit: nothing without an inverse or when the selection misses the
        image; otherwise the cut becomes the crop rect and, when the union of selection
        and canvas has an area, the layout is fitted around that union; without one the
        transform, the selectable area and the corners stay. */
    twostate predicate Refitted(s: Point, e: Point)
      requires old(imageTransform).scale >= 0.0
      reads this
    {
      var inverse := old(Inverse(imageTransform));
      if inverse.None? || old(RefitCrop(inverse.value, s, e)).Empty? then unchanged(this)
      else
        var u := Union(FromCorners(s, e), CanvasRect());
        currentCroppedRect == old(RefitCrop(inverse.value, s, e)) &&
        if IsValid(u) then
          LaidOut(FitTransform(Layout.FitViewport(CanvasRect(), u), TransformBounds(inverse.value, u)))
        else
          imageTransform == old(imageTransform) && restrictedSelectRect == old(restrictedSelectRect) &&
          Start() == old(Start()) && End() == old(End())
    }

    /** The effect of a drag decision. */
    twostate predicate DragApplied(d: CropLogic.DragDecision)
      reads this
    {
      match d
      case Ignored => unchanged(this)
      case Settle(s, e) =>
        Start() == s && End() == e && currentCroppedRect == old(currentCroppedRect) &&
        imageTransform == old(imageTransform) && restrictedSelectRect == old(restrictedSelectRect)
      case Refit(s, e) => old(imageTransform).scale >= 0.0 && Refitted(s, e)
    }

    /** UpdateCroppedRectWithAspectRatio of this snapshot: decide the drag on the moved
        corners; a refit gives up, changing nothing, when the transform has no inverse. */
    method UpdateCroppedRectWithAspectRatio(dragPosition: DragPosition, diffPos: Point)
      requires Valid()
      modifies this`currentCroppedRect
      modifies this`imageTransform, this`restrictedSelectRect, this`startX, this`startY, this`endX, this`endY
      ensures Valid()
      ensures DragApplied(old(DragDecision(dragPosition, diffPos)))
      ensures old(DragDecision(dragPosition, diffPos)).Refit? && old(Inverse(imageTransform)).None? ==>
        unchanged(this)
    {
      CropLogic.MovedDecisionOrdered(Start(), End(), dragPosition, diffPos, CanvasRect(), restrictedSelectRect,
        MinSelectSize(), KeepAspectRatio(), UsedAspectRatio());
      var decision := CropLogic.MoveAndResolve(Start(), End(), dragPosition, diffPos, CanvasRect(),
        restrictedSelectRect, MinSelectSize(), KeepAspectRatio(), UsedAspectRatio());
      ApplyDrag(decision);
    }

    /** The end of UpdateCroppedRectWithAspectRatio: carry out a decision. */
    method ApplyDrag(decision: CropLogic.DragDecision)
      requires Valid()
      requires decision.Settle? ==> decision.start.x <= decision.end.x && decision.start.y <= decision.end.y
      modifies this`currentCroppedRect
      modifies this`imageTransform, this`restrictedSelectRect, this`startX, this`startY, this`endX, this`endY
      ensures Valid()
      ensures DragApplied(decision)
    {
      match decision
      case Ignored =>
      case Settle(startPoint, endPoint) =>
        UpdateSelectedRect(startPoint, endPoint);
      case Refit(startPoint, endPoint) =>
        RefitSelection(startPoint, endPoint);
    }

    /** The refitting branch: the inverse is taken here, and its absence ends the drag. */
    method RefitSelection(startPoint: Point, endPoint: Point)
      requires Valid()
      modifies this`currentCroppedRect
      modifies this`imageTransform, this`restrictedSelectRect, this`startX, this`startY, this`endX, this`endY
      ensures Valid()
      ensures Refitted(startPoint, endPoint)
    {
      var selectedRect := Union(FromCorners(startPoint, endPoint), CanvasRect());
      var inverseImageTransform := Inverse(imageTransform);
      if inverseImageTransform.None? {
        return;
      }
      var croppedRect := Intersect(TransformBounds(inverseImageTransform.value, FromCorners(startPoint, endPoint)),
                                   restrictedCropRect);
      if croppedRect.Empty? {
        return;
      }
      currentCroppedRect := croppedRect;
      if !IsValid(selectedRect) {
        return;
      }
      FitAroundSelection(inverseImageTransform.value, selectedRect);
    }

    /** The relayout of a refit around the union `selectedRect` of selection and canvas. */
    method FitAroundSelection(inverse: Similarity, selectedRect: Rect)
      requires Valid() && currentCroppedRect.Box? && restrictedCropRect.Box?
      requires inverse.scale > 0.0 && IsValid(selectedRect)
      modifies this`imageTransform, this`restrictedSelectRect, this`startX, this`startY, this`endX, this`endY
      ensures Valid()
      ensures LaidOut(FitTransform(Layout.FitViewport(CanvasRect(), selectedRect),
                                   TransformBounds(inverse, selectedRect)))
    {
      var viewportRect := Layout.FitViewport(CanvasRect(), selectedRect);
      var viewportImgRect := TransformBounds(inverse, selectedRect);
      TransformKeepsValid(inverse, selectedRect);
      UpdateImageLayoutWithViewport(viewportRect, viewportImgRect);
    }

    /** The guard of this snapshot's UpdateAspectRatio: a locked ratio, an image, and an
        image transform with an inverse. */
    predicate CanChangeAspect()
      reads this`roundedCrop, this`aspectRatio, this`sourceImage, this`imageTransform
    {
      KeepAspectRatio() && sourceImage.Some? && Inverse(imageTransform).Some?
    }

    /** What an aspect-ratio change computes in the current state. */
    function AspectOutcome(): CropLogic.AspectOutcome
      requires Valid() && CanChangeAspect()
      reads this`startX, this`startY, this`endX, this`endY, this`imageTransform, this`restrictedSelectRect
      reads this`restrictedCropRect, this`currentCroppedRect, this`sourceImage, this`roundedCrop, this`aspectRatio
      reads this`minCroppedPixelLength
    {
      TransformKeepsValid(imageTransform, restrictedCropRect);
      CropLogic.AspectSelection(Start(), End(), restrictedSelectRect, UsedAspectRatio(),
                                minCroppedPixelLength * imageTransform.scale)
    }

    /** The effect of an outcome taken through inverse `inverse`: a fallback frees the
        ratio and nothing else; a degenerate selection leaves an Empty crop; a fitted one,
        taken back into image space without a cut, becomes the crop rect and is laid out. */
    twostate predicate AspectApplied(o: CropLogic.AspectOutcome, inverse: Similarity)
      reads this
    {
      var layoutKept := imageTransform == old(imageTransform) && restrictedSelectRect == old(restrictedSelectRect) &&
        Start() == old(Start()) && End() == old(End());
      match o
      case FallBackToFree =>
        aspectRatio == Cropper.FreeAspectRatio && currentCroppedRect == old(currentCroppedRect) && layoutKept
      case Degenerate =>
        aspectRatio == old(aspectRatio) && currentCroppedRect == Empty && layoutKept
      case Fitted(sel) =>
        aspectRatio == old(aspectRatio) && currentCroppedRect == TransformBounds(inverse, sel) &&
        if IsValid(currentCroppedRect) then
          LaidOut(FitTransform(Layout.FitViewport(CanvasRect(), currentCroppedRect), currentCroppedRect))
        else layoutKept
    }

    /** UpdateAspectRatio of this snapshot: as the current one, but guarded by the inverse
        instead of the selectable area, and with the new selection taken back into image
        space without a cut to the image bounds.  It needs none: the crop it commits lies
        in the image and has the locked ratio. */
    method UpdateAspectRatio()
      requires Valid()
      modifies this`currentCroppedRect, this`aspectRatio
      modifies this`imageTransform, this`restrictedSelectRect, this`startX, this`startY, this`endX, this`endY
      ensures Valid()
      ensures !old(CanChangeAspect()) ==> unchanged(this)
      ensures old(CanChangeAspect()) ==> AspectApplied(old(AspectOutcome()), old(Inverse(imageTransform)).value)
      ensures old(CanChangeAspect()) && old(AspectOutcome()).Fitted? ==>
        Contains(restrictedCropRect, currentCroppedRect) && HasAspect(currentCroppedRect, UsedAspectRatio())
    {
      if !(KeepAspectRatio() && sourceImage.Some?) {
        return;
      }
      var inverseImageTransform := Inverse(imageTransform);
      if inverseImageTransform.None? {
        return;
      }
      TransformKeepsValid(imageTransform, restrictedCropRect);
      var minLength := minCroppedPixelLength * imageTransform.scale;
      var outcome := CropLogic.SelectAspectRect(Start(), End(), restrictedSelectRect, UsedAspectRatio(), minLength);
      CropLogic.AspectSelectionSound(Start(), End(), restrictedSelectRect, UsedAspectRatio(), minLength);
      if outcome.Fitted? {
        Layout.AspectCropExact(imageTransform, restrictedCropRect, outcome.selection, UsedAspectRatio());
      }
      ApplyAspect(outcome, inverseImageTransform.value);
    }

    /** The end of UpdateAspectRatio: carry out its outcome. */
    method ApplyAspect(outcome: CropLogic.AspectOutcome, inverse: Similarity)
      requires Valid() && sourceImage.Some?
      requires outcome.Fitted? ==> Contains(restrictedCropRect, TransformBounds(inverse, outcome.selection))
      modifies this`currentCroppedRect, this`aspectRatio
      modifies this`imageTransform, this`restrictedSelectRect, this`startX, this`startY, this`endX, this`endY
      ensures Valid()
      ensures AspectApplied(outcome, inverse)
    {
      match outcome
      case FallBackToFree =>
        aspectRatio := Cropper.FreeAspectRatio;
      case Degenerate =>
        currentCroppedRect := Empty;
        UpdateImageLayout();
      case Fitted(selection) =>
        currentCroppedRect := TransformBounds(inverse, selection);
        UpdateImageLayout();
    }
  }
}
