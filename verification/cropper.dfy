/** The cropper control (ImageCropper.Logic.cs with the gesture handlers of
    ImageCropper.Events.cs and the change hooks of ImageCropper.Properties.cs): the
    selection corners in canvas space, the crop rect and the image bounds in image
    space, the selectable area, the image transform and its inverse, and the handlers
    that move them. */
module Cropper {
  import opened Geometry
  import opened Transforms
  import opened RectExtensions
  import RectHelpers
  import Sizing
  import Keys
  import CropLogic
  import Layout

  /** A decoded bitmap: its pixel size, and an identity standing for the object
      reference the property system compares. */
  datatype Bitmap = Bitmap(id: nat, pixelWidth: nat, pixelHeight: nat)

  /** The defaults of MinCroppedPixelLength (image pixels) and MinSelectedLength
      (canvas units). */
  const DefaultMinCroppedPixelLength: real := 40.0
  const DefaultMinSelectedLength: real := 40.0

  /** The default AspectRatio; any ratio that is not positive means a free ratio. */
  const FreeAspectRatio: real := -1.0

  /** The message of the ArgumentException a too small bitmap raises. */
  const ImageTooSmall: string := "Image size is too small!"

  /** An actual width or height of a framework element. */
  type Length = r: real | r >= 0.0

  /** A MinSelectedLength the size checks can rely on: at least Tolerance, so that a
      selection passing IsSafeRect keeps its corners in order. */
  type SelectableLength = r: real | r >= Tolerance witness DefaultMinSelectedLength

  class ImageCropper {
    var startX: real
    var startY: real
    var endX: real
    var endY: real
    var imageTransform: Similarity
    var inverseImageTransform: Similarity
    var currentCroppedRect: Rect
    var restrictedCropRect: Rect
    var restrictedSelectRect: Rect
    var sourceImage: Option<Bitmap>
    var aspectRatio: real
    var roundedCrop: bool
    var circularCrop: bool
    var isSecondaryControlButtonVisible: bool
    var canvasWidth: Length
    var canvasHeight: Length
    /** Where each handle is placed on the canvas. */
    var thumbPositions: map<DragPosition, Point>
    var cornerButtonsVisible: bool
    var edgeButtonsVisible: bool
    /** The settable MinCroppedPixelLength and MinSelectedLength. */
    var minCroppedPixelLength: Length
    var minSelectedLength: SelectableLength

    /** The state every handler keeps: a transform of positive scale with its inverse
        beside it, corners in order, and a crop rect inside the image bounds. */
    predicate Valid()
      reads this`imageTransform, this`inverseImageTransform, this`startX, this`startY, this`endX, this`endY,
        this`restrictedCropRect, this`currentCroppedRect
    {
      imageTransform.scale > 0.0 &&
      inverseImageTransform == Inverse(imageTransform).value &&
      startX <= endX && startY <= endY &&
      (restrictedCropRect.Empty? ==> currentCroppedRect.Empty?) &&
      (IsValid(restrictedCropRect) ==> Contains(restrictedCropRect, currentCroppedRect))
    }

    function Start(): Point
      reads this`startX, this`startY
    {
      Point(startX, startY)
    }

    function End(): Point
      reads this`endX, this`endY
    {
      Point(endX, endY)
    }

    function CanvasRect(): (r: Rect)
      reads this`canvasWidth, this`canvasHeight
    {
      Box(0.0, 0.0, canvasWidth, canvasHeight)
    }

    function UsedAspectRatio(): real
      reads this`roundedCrop, this`aspectRatio
    {
      Sizing.UsedAspectRatio(roundedCrop, aspectRatio)
    }

    predicate KeepAspectRatio()
      reads this`roundedCrop, this`aspectRatio
    {
      Sizing.KeepAspectRatio(roundedCrop, aspectRatio)
    }

    function MinCropSize(): Size
      reads this`minCroppedPixelLength, this`roundedCrop, this`aspectRatio
    {
      Sizing.MinCropSize(minCroppedPixelLength, roundedCrop, aspectRatio)
    }

    function MinSelectSize(): Size
      reads this`imageTransform, this`minCroppedPixelLength, this`minSelectedLength, this`roundedCrop, this`aspectRatio
    {
      Sizing.MinSelectSize(imageTransform, minCroppedPixelLength, minSelectedLength, roundedCrop, aspectRatio)
    }

    /** The state a relayout by transform `t` leaves: `t` and its inverse installed,
        the image bounds seen through `t` as the selectable area, and the selection at
        the crop's corners seen through `t`, clamped into that area. */
    predicate LaidOut(t: Similarity)
      reads this`currentCroppedRect, this`restrictedCropRect, this`imageTransform, this`inverseImageTransform,
        this`restrictedSelectRect, this`startX, this`startY, this`endX, this`endY, this`thumbPositions
    {
      t.scale > 0.0 && currentCroppedRect.Box? && restrictedCropRect.Box? &&
      imageTransform == t && inverseImageTransform == Inverse(t).value &&
      restrictedSelectRect == TransformBounds(t, restrictedCropRect) &&
      (Start(), End()) == Layout.ShownCorners(t, currentCroppedRect, restrictedCropRect) &&
      thumbPositions == CropLogic.HandleAnchors(Start(), End())
    }

    constructor ()
      ensures Valid()
      ensures Start() == Point(0.0, 0.0) && End() == Point(20.0, 20.0)
      ensures currentCroppedRect == Empty && restrictedCropRect == Empty && restrictedSelectRect == Empty
      ensures imageTransform == Identity && sourceImage.None?
      ensures aspectRatio == FreeAspectRatio && !roundedCrop && !KeepAspectRatio()
      ensures minCroppedPixelLength == DefaultMinCroppedPixelLength && minSelectedLength == DefaultMinSelectedLength
    {
      startX, startY, endX, endY := 0.0, 0.0, 20.0, 20.0;
      imageTransform := Identity;
      inverseImageTransform := Identity;
      currentCroppedRect, restrictedCropRect, restrictedSelectRect := Empty, Empty, Empty;
      sourceImage := None;
      aspectRatio := FreeAspectRatio;
      roundedCrop, circularCrop, isSecondaryControlButtonVisible := false, false, false;
      canvasWidth, canvasHeight := 0.0, 0.0;
      thumbPositions := map[];
      cornerButtonsVisible, edgeButtonsVisible := true, true;
      minCroppedPixelLength, minSelectedLength := DefaultMinCroppedPixelLength, DefaultMinSelectedLength;
    }

    /** UpdateSelectedRect: store the corners and place the eight handles. */
    method UpdateSelectedRect(startPoint: Point, endPoint: Point)
      modifies this`startX, this`startY, this`endX, this`endY, this`thumbPositions
      ensures Start() == startPoint && End() == endPoint
      ensures thumbPositions == CropLogic.HandleAnchors(startPoint, endPoint)
    {
      startX := startPoint.x;
      startY := startPoint.y;
      endX := endPoint.x;
      endY := endPoint.y;
      var centerX := (endX - startX) / 2.0 + startX;
      var centerY := (endY - startY) / 2.0 + startY;
      var positions: map<DragPosition, Point> := map[];
      positions := positions[Top := Point(centerX, startY)];
      positions := positions[Bottom := Point(centerX, endY)];
      positions := positions[Left := Point(startX, centerY)];
      positions := positions[Right := Point(endX, centerY)];
      positions := positions[UpperLeft := Point(startX, startY)];
      positions := positions[UpperRight := Point(endX, startY)];
      positions := positions[LowerLeft := Point(startX, endY)];
      positions := positions[LowerRight := Point(endX, endY)];
      thumbPositions := positions;
    }

    /** UpdateControlButtonVisibility: corner handles unless the crop is circular, edge
        handles when it is circular or the secondary handles are asked for, none
        without an image. */
    method UpdateControlButtonVisibility()
      modifies this`cornerButtonsVisible, this`edgeButtonsVisible
      ensures cornerButtonsVisible <==> sourceImage.Some? && !circularCrop
      ensures edgeButtonsVisible <==> sourceImage.Some? && (circularCrop || isSecondaryControlButtonVisible)
    {
      var cornerVisible := !circularCrop;
      var otherVisible := circularCrop || isSecondaryControlButtonVisible;
      if sourceImage.None? {
        cornerVisible, otherVisible := false, false;
      }
      cornerButtonsVisible := cornerVisible;
      edgeButtonsVisible := otherVisible;
    }

    /** UpdateImageLayoutWithViewport: install the transform that maps the image-space
        rect onto the viewport, and show the crop through it.  Nothing happens unless
        both rects are valid.  A crop rect is always a box when this is reached. */
    method UpdateImageLayoutWithViewport(viewport: Rect, viewportImageRect: Rect)
      requires Valid() && currentCroppedRect.Box?
      modifies this`imageTransform, this`inverseImageTransform, this`restrictedSelectRect
      modifies this`startX, this`startY, this`endX, this`endY, this`thumbPositions
      ensures Valid()
      ensures !(IsValid(viewport) && IsValid(viewportImageRect)) ==> unchanged(this)
      ensures IsValid(viewport) && IsValid(viewportImageRect) ==>
        LaidOut(FitTransform(viewport, viewportImageRect)) &&
        InRect(restrictedSelectRect, Start()) && InRect(restrictedSelectRect, End())
    {
      if !IsValid(viewport) || !IsValid(viewportImageRect) {
        return;
      }
      var t := FitTransform(viewport, viewportImageRect);
      imageTransform := t;
      inverseImageTransform := Inverse(t).value;
      var selectedRect := TransformBounds(imageTransform, currentCroppedRect);
      restrictedSelectRect := TransformBounds(imageTransform, restrictedCropRect);
      var startPoint := RectExtensions.GetSafePoint(restrictedSelectRect, TopLeft(selectedRect));
      var endPoint := RectExtensions.GetSafePoint(restrictedSelectRect, BottomRight(selectedRect));
      ghost var shown := Layout.ShownCorners(t, currentCroppedRect, restrictedCropRect);
      assert (startPoint, endPoint) == shown;
      UpdateSelectedRect(startPoint, endPoint);
    }

    /** What UpdateImageLayout needs to act: an image, a valid canvas and a valid crop
        rect (an Empty or flat crop has no aspect ratio to fit). */
    predicate CanRelayout()
      reads this`sourceImage, this`canvasWidth, this`canvasHeight, this`currentCroppedRect
    {
      sourceImage.Some? && IsValid(CanvasRect()) && IsValid(currentCroppedRect)
    }

    /** UpdateImageLayout: fit the crop rect into the canvas at its own aspect ratio. */
    method UpdateImageLayout()
      requires Valid()
      modifies this`imageTransform, this`inverseImageTransform, this`restrictedSelectRect
      modifies this`startX, this`startY, this`endX, this`endY, this`thumbPositions
      ensures Valid()
      ensures !CanRelayout() ==> unchanged(this)
      ensures CanRelayout() ==>
        LaidOut(FitTransform(Layout.FitViewport(CanvasRect(), currentCroppedRect), currentCroppedRect))
      ensures CanRelayout() && Contains(restrictedCropRect, currentCroppedRect) ==>
        Start() == TopLeft(Layout.FitViewport(CanvasRect(), currentCroppedRect)) &&
        End() == BottomRight(Layout.FitViewport(CanvasRect(), currentCroppedRect))
    {
      if sourceImage.Some? && IsValid(CanvasRect()) && IsValid(currentCroppedRect) {
        var uniformSelectedRect := Layout.FitViewport(CanvasRect(), currentCroppedRect);
        UpdateImageLayoutWithViewport(uniformSelectedRect, currentCroppedRect);
        if Contains(restrictedCropRect, currentCroppedRect) {
          Layout.RelayoutShowsViewport(CanvasRect(), currentCroppedRect, restrictedCropRect);
        }
      }
    }

    /** The effect of InitImageLayout on the crop and the layout.  Without an image the
        crop rect, the image bounds and the selectable area become Empty.  With one, the
        image bounds become the bitmap's; when they are valid the crop starts as the
        initial crop and, when the canvas is valid, is laid out in the canvas's centred
        rect of the crop's ratio. */
    twostate predicate ImageBoundsLoaded()
      reads this`sourceImage, this`roundedCrop, this`aspectRatio, this`canvasWidth, this`canvasHeight
      reads this`currentCroppedRect, this`restrictedCropRect, this`restrictedSelectRect
      reads this`imageTransform, this`inverseImageTransform, this`startX, this`startY, this`endX, this`endY
      reads this`thumbPositions
    {
      var kept := Start() == old(Start()) && End() == old(End()) && thumbPositions == old(thumbPositions) &&
        imageTransform == old(imageTransform) && inverseImageTransform == old(inverseImageTransform);
      match sourceImage
      case None =>
        currentCroppedRect == Empty && restrictedCropRect == Empty && restrictedSelectRect == Empty && kept
      case Some(image) =>
        restrictedCropRect == Layout.ImageBounds(image.pixelWidth, image.pixelHeight) &&
        if !IsValid(restrictedCropRect) then
          currentCroppedRect == old(currentCroppedRect) && restrictedSelectRect == old(restrictedSelectRect) && kept
        else
          currentCroppedRect == Layout.InitialCrop(restrictedCropRect, KeepAspectRatio(), UsedAspectRatio()) &&
          if IsValid(CanvasRect()) then
            LaidOut(FitTransform(Layout.FitViewport(CanvasRect(), currentCroppedRect), currentCroppedRect))
          else restrictedSelectRect == old(restrictedSelectRect) && kept
    }

    /** InitImageLayout: take the image bounds, start from the whole image (or its
        largest rect of the locked ratio) and lay it out; without an image everything
        is Empty.  The handles are shown or hidden in both cases. */
    method InitImageLayout()
      requires Valid()
      modifies this`currentCroppedRect, this`restrictedCropRect
      modifies this`imageTransform, this`inverseImageTransform, this`restrictedSelectRect
      modifies this`startX, this`startY, this`endX, this`endY, this`thumbPositions
      modifies this`cornerButtonsVisible, this`edgeButtonsVisible
      ensures Valid()
      ensures cornerButtonsVisible <==> sourceImage.Some? && !circularCrop
      ensures edgeButtonsVisible <==> sourceImage.Some? && (circularCrop || isSecondaryControlButtonVisible)
      ensures ImageBoundsLoaded()
    {
      LoadImageBounds();
      UpdateControlButtonVisibility();
    }

    /** The crop part of InitImageLayout, before the handles are shown or hidden. */
    method LoadImageBounds()
      requires Valid()
      modifies this`currentCroppedRect, this`restrictedCropRect
      modifies this`imageTransform, this`inverseImageTransform, this`restrictedSelectRect
      modifies this`startX, this`startY, this`endX, this`endY, this`thumbPositions
      ensures Valid()
      ensures ImageBoundsLoaded()
    {
      if sourceImage.Some? {
        var bounds := Layout.ImageBounds(sourceImage.value.pixelWidth, sourceImage.value.pixelHeight);
        if IsValid(bounds) {
          LayOutInitialCrop(bounds);
        } else {
          restrictedCropRect := bounds;
        }
      } else {
        currentCroppedRect := Empty;
        restrictedCropRect := Empty;
        restrictedSelectRect := Empty;
      }
    }

    /** The valid-image branch of InitImageLayout: the image bounds and the initial crop,
        laid out when the canvas is valid. */
    method LayOutInitialCrop(bounds: Rect)
      requires imageTransform.scale > 0.0 && inverseImageTransform == Inverse(imageTransform).value
      requires startX <= endX && startY <= endY && sourceImage.Some?
      requires bounds == Layout.ImageBounds(sourceImage.value.pixelWidth, sourceImage.value.pixelHeight)
      requires IsValid(bounds)
      modifies this`currentCroppedRect, this`restrictedCropRect
      modifies this`imageTransform, this`inverseImageTransform, this`restrictedSelectRect
      modifies this`startX, this`startY, this`endX, this`endY, this`thumbPositions
      ensures Valid()
      ensures ImageBoundsLoaded()
    {
      restrictedCropRect := bounds;
      currentCroppedRect := Layout.InitialCrop(bounds, KeepAspectRatio(), UsedAspectRatio());
      UpdateImageLayout();
    }

    /** The guard of UpdateAspectRatio under RoundedCrop `rounded` and AspectRatio
        `ratio`: a locked ratio, an image and a valid selectable area. */
    predicate CanChangeAspect(rounded: bool, ratio: real)
      reads this`sourceImage, this`restrictedSelectRect
    {
      Sizing.KeepAspectRatio(rounded, ratio) && sourceImage.Some? && IsValid(restrictedSelectRect)
    }

    /** MinCroppedPixelLength seen through the image transform. */
    function RestrictedMinLength(): real
      reads this`imageTransform, this`minCroppedPixelLength
    {
      minCroppedPixelLength * imageTransform.scale
    }

    /** What an aspect-ratio change under `rounded` and `ratio` computes in the current
        state. */
    function AspectOutcome(rounded: bool, ratio: real): CropLogic.AspectOutcome
      requires Valid() && CanChangeAspect(rounded, ratio)
      reads this`imageTransform, this`inverseImageTransform, this`startX, this`startY, this`endX, this`endY
      reads this`restrictedCropRect, this`currentCroppedRect, this`sourceImage, this`restrictedSelectRect
      reads this`minCroppedPixelLength
    {
      CropLogic.AspectSelection(Start(), End(), restrictedSelectRect, Sizing.UsedAspectRatio(rounded, ratio),
                                RestrictedMinLength())
    }

    /** The effect of an aspect-ratio outcome, AspectRatio `ratio` having been stored: a
        fallback frees the ratio; a degenerate selection leaves an Empty crop and the
        layout as it was; a fitted selection, taken back into image space and cut to the
        image bounds, becomes the crop rect, laid out again when the canvas is valid. */
    twostate predicate AspectApplied(o: CropLogic.AspectOutcome, ratio: real)
      reads this
    {
      var layoutKept := imageTransform == old(imageTransform) && inverseImageTransform == old(inverseImageTransform) &&
        restrictedSelectRect == old(restrictedSelectRect) &&
        Start() == old(Start()) && End() == old(End()) && thumbPositions == old(thumbPositions);
      match o
      case FallBackToFree =>
        aspectRatio == FreeAspectRatio && currentCroppedRect == old(currentCroppedRect) && layoutKept
      case Degenerate =>
        aspectRatio == ratio && currentCroppedRect == Empty && layoutKept
      case Fitted(sel) =>
        aspectRatio == ratio &&
        currentCroppedRect == Intersect(TransformBounds(old(inverseImageTransform), sel), restrictedCropRect) &&
        if CanRelayout() then
          LaidOut(FitTransform(Layout.FitViewport(CanvasRect(), currentCroppedRect), currentCroppedRect))
        else layoutKept
    }

    /** The effect of storing RoundedCrop `rounded` and AspectRatio `ratio` and running
        UpdateAspectRatio: the outcome applied when the guard holds, otherwise only the
        stored values differ. */
    twostate predicate AspectUpdated(rounded: bool, ratio: real)
      reads this
    {
      roundedCrop == rounded &&
      if old(Valid()) && old(CanChangeAspect(rounded, ratio)) then
        AspectApplied(old(AspectOutcome(rounded, ratio)), ratio)
      else
        aspectRatio == ratio && currentCroppedRect == old(currentCroppedRect) &&
        imageTransform == old(imageTransform) && inverseImageTransform == old(inverseImageTransform) &&
        restrictedSelectRect == old(restrictedSelectRect) &&
        Start() == old(Start()) && End() == old(End()) && thumbPositions == old(thumbPositions)
    }

    /** UpdateAspectRatio: under a locked ratio, replace the selection by one of that
        ratio around its centre, grown to the minimum length and shifted into the
        selectable area, or fall back to a free ratio when that cannot fit. */
    method UpdateAspectRatio()
      requires Valid()
      modifies this`currentCroppedRect, this`aspectRatio
      modifies this`imageTransform, this`inverseImageTransform, this`restrictedSelectRect
      modifies this`startX, this`startY, this`endX, this`endY, this`thumbPositions
      ensures Valid()
      ensures !old(CanChangeAspect(roundedCrop, aspectRatio)) ==> unchanged(this)
      ensures AspectUpdated(old(roundedCrop), old(aspectRatio))
      ensures (old(CanChangeAspect(roundedCrop, aspectRatio) &&
                   restrictedSelectRect == TransformBounds(imageTransform, restrictedCropRect)) &&
               old(AspectOutcome(roundedCrop, aspectRatio)).Fitted?) ==>
        HasAspect(currentCroppedRect, UsedAspectRatio())
    {
      if !(KeepAspectRatio() && sourceImage.Some? && IsValid(restrictedSelectRect)) {
        return;
      }
      ChangeAspect();
    }

    /** UpdateAspectRatio past its guard: select the new selection and apply it. */
    method ChangeAspect()
      requires Valid() && CanChangeAspect(roundedCrop, aspectRatio)
      modifies this`currentCroppedRect, this`aspectRatio
      modifies this`imageTransform, this`inverseImageTransform, this`restrictedSelectRect
      modifies this`startX, this`startY, this`endX, this`endY, this`thumbPositions
      ensures Valid()
      ensures AspectApplied(old(AspectOutcome(roundedCrop, aspectRatio)), old(aspectRatio))
      ensures (old(restrictedSelectRect == TransformBounds(imageTransform, restrictedCropRect)) &&
               old(AspectOutcome(roundedCrop, aspectRatio)).Fitted?) ==>
        HasAspect(currentCroppedRect, UsedAspectRatio())
    {
      var outcome := CropLogic.SelectAspectRect(Start(), End(), restrictedSelectRect, UsedAspectRatio(),
                                                RestrictedMinLength());
      CropLogic.AspectSelectionSound(Start(), End(), restrictedSelectRect, UsedAspectRatio(), RestrictedMinLength());
      if outcome.Fitted? && restrictedSelectRect == TransformBounds(imageTransform, restrictedCropRect) {
        Layout.AspectCropExact(imageTransform, restrictedCropRect, outcome.selection, UsedAspectRatio());
      }
      ApplyAspect(outcome);
    }

    /** The end of UpdateAspectRatio: carry out its outcome. */
    method ApplyAspect(outcome: CropLogic.AspectOutcome)
      requires Valid()
      modifies this`currentCroppedRect, this`aspectRatio
      modifies this`imageTransform, this`inverseImageTransform, this`restrictedSelectRect
      modifies this`startX, this`startY, this`endX, this`endY, this`thumbPositions
      ensures Valid()
      ensures AspectApplied(outcome, old(aspectRatio))
    {
      match outcome
      case FallBackToFree =>
        aspectRatio := FreeAspectRatio;
      case Degenerate =>
        currentCroppedRect := Empty;
        UpdateImageLayout();
      case Fitted(selection) =>
        currentCroppedRect := Intersect(TransformBounds(inverseImageTransform, selection), restrictedCropRect);
        UpdateImageLayout();
    }

    /** What a drag of handle `pos` by `diff` decides in the current state. */
    function DragDecision(pos: DragPosition, diff: Point): CropLogic.DragDecision
      reads this`startX, this`startY, this`endX, this`endY, this`canvasWidth, this`canvasHeight
      reads this`restrictedSelectRect, this`imageTransform, this`roundedCrop, this`aspectRatio
      reads this`minCroppedPixelLength, this`minSelectedLength
    {
      CropLogic.DecideDrag(Start(), End(), pos, diff, CanvasRect(), restrictedSelectRect, MinSelectSize(),
                           KeepAspectRatio(), UsedAspectRatio())
    }

    /** The crop rect a refitting selection from `s` to `e` gives: the selection taken
        back into image space, cut to the image bounds. */
    function RefitCrop(s: Point, e: Point): Rect
      reads this`inverseImageTransform, this`restrictedCropRect
    {
      Intersect(TransformBounds(inverseImageTransform, FromCorners(s, e)), restrictedCropRect)
    }

    /** The effect of a refit from `s` to `e`: nothing when the selection taken back into
        image space misses the image; otherwise that cut becomes the crop rect and the
        layout is refitted around the union of the selection and the canvas. */
    twostate predicate Refitted(s: Point, e: Point)
      requires IsValid(CanvasRect()) && old(inverseImageTransform).scale > 0.0
      reads this
    {
      if old(RefitCrop(s, e)).Empty? then unchanged(this)
      else
        currentCroppedRect == old(RefitCrop(s, e)) &&
        LaidOut(Layout.RefitTransform(CanvasRect(), old(inverseImageTransform), FromCorners(s, e)))
    }

    /** The effect of a drag decision: an ignored drag changes nothing, a settled one
        moves only the selection and its handles, a refit is Refitted. */
    twostate predicate DragApplied(d: CropLogic.DragDecision)
      reads this
    {
      match d
      case Ignored => unchanged(this)
      case Settle(s, e) =>
        Start() == s && End() == e && thumbPositions == CropLogic.HandleAnchors(s, e) &&
        currentCroppedRect == old(currentCroppedRect) && imageTransform == old(imageTransform) &&
        restrictedSelectRect == old(restrictedSelectRect)
      case Refit(s, e) =>
        IsValid(CanvasRect()) && old(inverseImageTransform).scale > 0.0 && Refitted(s, e)
    }

    /** The refitting branch of UpdateCroppedRectWithAspectRatio: the selection, taken back
        into image space and cut to the image bounds, becomes the crop rect, and the
        layout is fitted around the union of the selection and the canvas. */
    method RefitSelection(startPoint: Point, endPoint: Point)
      requires Valid() && IsValid(CanvasRect())
      modifies this`currentCroppedRect
      modifies this`imageTransform, this`inverseImageTransform, this`restrictedSelectRect
      modifies this`startX, this`startY, this`endX, this`endY, this`thumbPositions
      ensures Valid()
      ensures Refitted(startPoint, endPoint)
    {
      var selectedRect := Union(FromCorners(startPoint, endPoint), CanvasRect());
      var croppedRect := Intersect(TransformBounds(inverseImageTransform, FromCorners(startPoint, endPoint)),
                                   restrictedCropRect);
      if croppedRect.Empty? {
        return;
      }
      currentCroppedRect := croppedRect;
      FitAroundSelection(startPoint, endPoint, selectedRect);
    }

    /** The relayout of a refit: the union of the selection and the canvas, taken back
        into image space, is fitted onto the canvas's centred rect of its ratio. */
    method FitAroundSelection(startPoint: Point, endPoint: Point, selectedRect: Rect)
      requires Valid() && IsValid(CanvasRect()) && currentCroppedRect.Box?
      requires selectedRect == Union(FromCorners(startPoint, endPoint), CanvasRect())
      modifies this`imageTransform, this`inverseImageTransform, this`restrictedSelectRect
      modifies this`startX, this`startY, this`endX, this`endY, this`thumbPositions
      ensures Valid()
      ensures LaidOut(Layout.RefitTransform(CanvasRect(), old(inverseImageTransform), FromCorners(startPoint, endPoint)))
    {
      assert IsValid(selectedRect);
      var viewportRect := Layout.FitViewport(CanvasRect(), selectedRect);
      var viewportImgRect := TransformBounds(inverseImageTransform, selectedRect);
      TransformKeepsValid(inverseImageTransform, selectedRect);
      ghost var t := Layout.RefitTransform(CanvasRect(), inverseImageTransform, FromCorners(startPoint, endPoint));
      assert t == FitTransform(viewportRect, viewportImgRect);
      UpdateImageLayoutWithViewport(viewportRect, viewportImgRect);
    }

    /** The end of UpdateCroppedRectWithAspectRatio: carry out an accepted decision. */
    method ApplyDrag(decision: CropLogic.DragDecision)
      requires Valid()
      requires decision.Settle? ==> decision.start.x <= decision.end.x && decision.start.y <= decision.end.y
      requires decision.Refit? ==> IsValid(CanvasRect())
      modifies this`currentCroppedRect
      modifies this`imageTransform, this`inverseImageTransform, this`restrictedSelectRect
      modifies this`startX, this`startY, this`endX, this`endY, this`thumbPositions
      ensures Valid()
      ensures DragApplied(decision)
    {
      match decision
      case Ignored =>
      case Settle(startPoint, endPoint) =>
        UpdateSelectedRect(startPoint, endPoint);
      case Refit(startPoint, endPoint) =>
        RefitSelection(startPoint, endPoint);
    }

    /** UpdateCroppedRectWithAspectRatio: decide the drag on the current corners, then
        either move only the selection (it stays in the canvas) or refit. */
    method UpdateCroppedRectWithAspectRatio(dragPosition: DragPosition, diffPos: Point)
      requires Valid()
      modifies this`currentCroppedRect
      modifies this`imageTransform, this`inverseImageTransform, this`restrictedSelectRect
      modifies this`startX, this`startY, this`endX, this`endY, this`thumbPositions
      ensures Valid()
      ensures DragApplied(old(DragDecision(dragPosition, diffPos)))
    {
      CropLogic.AcceptedDragOrdered(Start(), End(), dragPosition, diffPos, CanvasRect(),
        restrictedSelectRect, MinSelectSize(), KeepAspectRatio(), UsedAspectRatio());
      var decision := CropLogic.DragSelection(Start(), End(), dragPosition, diffPos, CanvasRect(),
        restrictedSelectRect, MinSelectSize(), KeepAspectRatio(), UsedAspectRatio());
      ApplyDrag(decision);
    }

    /** The effect of an UpdateImageLayout call at the end of a handler: with an image,
        a valid canvas and a valid crop the crop is laid out in the canvas's centred
        rect of its ratio; otherwise the layout is left as it was. */
    twostate predicate LayoutRefreshed()
      reads this
    {
      if CanRelayout() then
        LaidOut(FitTransform(Layout.FitViewport(CanvasRect(), currentCroppedRect), currentCroppedRect))
      else
        imageTransform == old(imageTransform) && inverseImageTransform == old(inverseImageTransform) &&
        restrictedSelectRect == old(restrictedSelectRect) && Start() == old(Start()) && End() == old(End()) &&
        thumbPositions == old(thumbPositions)
    }

    /** ControlButton_KeyDown: an arrow press on a handle whose tag names a position
        drags that handle by the nudge; any other key, or a handle without such a tag,
        does nothing. */
    method ControlButtonKeyDown(key: Keys.VirtualKey, held: Keys.HeldArrows, tag: Option<DragPosition>)
      requires Valid()
      modifies this`currentCroppedRect
      modifies this`imageTransform, this`inverseImageTransform, this`restrictedSelectRect
      modifies this`startX, this`startY, this`endX, this`endY, this`thumbPositions
      ensures Valid()
      ensures !(Keys.IsArrow(key) && tag.Some?) ==> unchanged(this)
      ensures Keys.IsArrow(key) && tag.Some? ==> DragApplied(old(DragDecision(tag.value, Keys.Nudge(key, held))))
    {
      var changed, diffPos := Keys.ArrowKeyDelta(key, held);
      if changed && tag.Some? {
        UpdateCroppedRectWithAspectRatio(tag.value, diffPos);
      }
    }

    /** The crop rect a gesture end commits: the selection taken back into image space
        and cut to the image bounds when it is strictly larger than the minimum crop size
        on both axes; otherwise the crop rect as it is. */
    function CommittedCrop(): Rect
      reads this`startX, this`startY, this`endX, this`endY, this`inverseImageTransform
      reads this`roundedCrop, this`aspectRatio, this`restrictedCropRect, this`currentCroppedRect
      reads this`minCroppedPixelLength
    {
      var croppedRect := TransformBounds(inverseImageTransform, FromCorners(Start(), End()));
      if croppedRect.width > MinCropSize().width && croppedRect.height > MinCropSize().height then
        Intersect(croppedRect, restrictedCropRect)
      else currentCroppedRect
    }

    /** ControlButton_KeyUp and ControlButton_ManipulationCompleted: commit the selection
        as the crop rect when it is large enough, then lay the crop out again. */
    method CommitSelection()
      requires Valid()
      modifies this`currentCroppedRect
      modifies this`imageTransform, this`inverseImageTransform, this`restrictedSelectRect
      modifies this`startX, this`startY, this`endX, this`endY, this`thumbPositions
      ensures Valid()
      ensures currentCroppedRect == old(CommittedCrop())
      ensures LayoutRefreshed()
    {
      var selectedRect := FromCorners(Start(), End());
      var croppedRect := TransformBounds(inverseImageTransform, selectedRect);
      if croppedRect.width > MinCropSize().width && croppedRect.height > MinCropSize().height {
        currentCroppedRect := Intersect(croppedRect, restrictedCropRect);
      }
      UpdateImageLayout();
    }

    /** ControlButton_ManipulationDelta: the pointer is clamped into the selectable area
        and the tagged handle dragged there.  An Empty selectable area or a handle
        without a tag does nothing. */
    method ControlButtonManipulationDelta(buttonPosition: Point, position: Point, translation: Point,
                                          buttonSize: Size, tag: Option<DragPosition>)
      requires Valid()
      modifies this`currentCroppedRect
      modifies this`imageTransform, this`inverseImageTransform, this`restrictedSelectRect
      modifies this`startX, this`startY, this`endX, this`endY, this`thumbPositions
      ensures Valid()
      ensures old(restrictedSelectRect).Empty? || tag.None? ==> unchanged(this)
      ensures old(restrictedSelectRect).Box? && tag.Some? ==>
        DragApplied(old(DragDecision(tag.value, CropLogic.PointerDelta(restrictedSelectRect, buttonPosition,
          CropLogic.PointerPosition(buttonPosition, position, translation, buttonSize)))))
    {
      if restrictedSelectRect.Empty? || tag.None? {
        return;
      }
      var currentPointerPosition := CropLogic.PointerPosition(buttonPosition, position, translation, buttonSize);
      var safeDiffPoint := CropLogic.PointerDelta(restrictedSelectRect, buttonPosition, currentPointerPosition);
      UpdateCroppedRectWithAspectRatio(tag.value, safeDiffPoint);
    }

    /** What a pan by `delta` proposes in the current state. */
    function PanProposal(delta: Point): Option<Rect>
      reads this`startX, this`startY, this`endX, this`endY, this`restrictedSelectRect
      reads this`imageTransform, this`roundedCrop, this`aspectRatio, this`minCroppedPixelLength, this`minSelectedLength
    {
      CropLogic.PannedSelection(Start(), End(), delta, restrictedSelectRect, MinSelectSize())
    }

    /** SourceImage_ManipulationDelta: pan the selection by -delta; an accepted pan, taken
        back into image space and cut to the image bounds, becomes the crop rect, laid
        out again.  A refused pan changes nothing. */
    method SourceImageManipulationDelta(delta: Point)
      requires Valid()
      modifies this`currentCroppedRect
      modifies this`imageTransform, this`inverseImageTransform, this`restrictedSelectRect
      modifies this`startX, this`startY, this`endX, this`endY, this`thumbPositions
      ensures Valid()
      ensures old(PanProposal(delta)).None? ==> unchanged(this)
      ensures old(PanProposal(delta)).Some? ==>
        currentCroppedRect ==
          Intersect(TransformBounds(old(inverseImageTransform), old(PanProposal(delta)).value), restrictedCropRect) &&
        LayoutRefreshed()
    {
      var selected := CropLogic.PanSelection(Start(), End(), delta, restrictedSelectRect, MinSelectSize());
      if selected.None? {
        return;
      }
      currentCroppedRect := Intersect(TransformBounds(inverseImageTransform, selected.value), restrictedCropRect);
      UpdateImageLayout();
    }

    /** ImageCanvas_SizeChanged: the canvas takes its new size; with an image the crop
        is laid out again in it. */
    method ImageCanvasSizeChanged(width: Length, height: Length)
      requires Valid()
      modifies this`canvasWidth, this`canvasHeight
      modifies this`imageTransform, this`inverseImageTransform, this`restrictedSelectRect
      modifies this`startX, this`startY, this`endX, this`endY, this`thumbPositions
      ensures Valid()
      ensures CanvasRect() == Box(0.0, 0.0, width, height)
      ensures sourceImage.None? ==>
        imageTransform == old(imageTransform) && restrictedSelectRect == old(restrictedSelectRect) &&
        Start() == old(Start()) && End() == old(End())
      ensures LayoutRefreshed()
    {
      canvasWidth, canvasHeight := width, height;
      if sourceImage.None? {
        return;
      }
      UpdateImageLayout();
    }

    /** Setting SourceImage.  The value is stored first; a new bitmap is then laid out
        when it is strictly larger than the minimum crop size on both axes, and refused
        with the ArgumentException message otherwise (the value stays stored).  Storing
        the same value, or no image, runs no layout. */
    method SetSourceImage(image: Option<Bitmap>) returns (error: Option<string>)
      requires Valid()
      modifies this`sourceImage, this`currentCroppedRect, this`restrictedCropRect
      modifies this`imageTransform, this`inverseImageTransform, this`restrictedSelectRect
      modifies this`startX, this`startY, this`endX, this`endY, this`thumbPositions
      modifies this`cornerButtonsVisible, this`edgeButtonsVisible
      ensures Valid() && sourceImage == image
      ensures error.Some? <==>
        image != old(sourceImage) && image.Some? &&
        !Sizing.ImageLargeEnough(image.value.pixelWidth, image.value.pixelHeight, MinCropSize())
      ensures error.Some? ==> error.value == ImageTooSmall
      ensures (image == old(sourceImage) || image.None? || error.Some?) ==>
        currentCroppedRect == old(currentCroppedRect) && restrictedCropRect == old(restrictedCropRect) &&
        imageTransform == old(imageTransform) && inverseImageTransform == old(inverseImageTransform) &&
        restrictedSelectRect == old(restrictedSelectRect) && Start() == old(Start()) && End() == old(End()) &&
        thumbPositions == old(thumbPositions) &&
        cornerButtonsVisible == old(cornerButtonsVisible) && edgeButtonsVisible == old(edgeButtonsVisible)
      ensures image != old(sourceImage) && image.Some? && error.None? ==> ImageBoundsLoaded()
      ensures image != old(sourceImage) && image.Some? && error.None? ==>
        (cornerButtonsVisible <==> !circularCrop) &&
        (edgeButtonsVisible <==> circularCrop || isSecondaryControlButtonVisible)
    {
      var changed := image != sourceImage;
      sourceImage := image;
      error := None;
      if changed && image.Some? {
        if Sizing.ImageLargeEnough(image.value.pixelWidth, image.value.pixelHeight, MinCropSize()) {
          InitImageLayout();
        } else {
          error := Some(ImageTooSmall);
        }
      }
    }

    /** Setting AspectRatio: a changed value is stored and UpdateAspectRatio runs. */
    method SetAspectRatio(ratio: real)
      requires Valid()
      modifies this`currentCroppedRect, this`aspectRatio
      modifies this`imageTransform, this`inverseImageTransform, this`restrictedSelectRect
      modifies this`startX, this`startY, this`endX, this`endY, this`thumbPositions
      ensures Valid()
      ensures ratio == old(aspectRatio) ==> unchanged(this)
      ensures ratio != old(aspectRatio) ==> AspectUpdated(old(roundedCrop), ratio)
    {
      if ratio == aspectRatio {
        return;
      }
      aspectRatio := ratio;
      UpdateAspectRatio();
    }

    /** Setting RoundedCrop: a changed value is stored and UpdateAspectRatio runs. */
    method SetRoundedCrop(rounded: bool)
      requires Valid()
      modifies this`currentCroppedRect, this`aspectRatio, this`roundedCrop
      modifies this`imageTransform, this`inverseImageTransform, this`restrictedSelectRect
      modifies this`startX, this`startY, this`endX, this`endY, this`thumbPositions
      ensures Valid() && roundedCrop == rounded
      ensures rounded == old(roundedCrop) ==> unchanged(this)
      ensures rounded != old(roundedCrop) ==> AspectUpdated(rounded, old(aspectRatio))
    {
      if rounded == roundedCrop {
        return;
      }
      roundedCrop := rounded;
      UpdateAspectRatio();
    }
  }
}
