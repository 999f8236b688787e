# ImageCropper geometry engine in Dafny

This project models the geometric core of the ImageCropper UWP control. The control
shows a bitmap on a canvas, with a selection rectangle that has eight drag handles.
The user drags a handle or the image, presses arrow keys, or changes the aspect ratio.
The control then keeps three rectangles consistent:

- the crop rect, in image pixels;
- the image bounds;
- the selectable area, which is the image bounds seen through the image transform.

It also keeps a uniform scale-and-translate transform between image and canvas. All
coordinates are exact reals. The 0.001 slack of the source's tolerant comparisons is
the named constant `Geometry.Tolerance`.

Modules, one per file:

- `Geometry` (geometry.dfy): the framework value types Point, Size and Rect. Rect is
  the Empty sentinel or a box of non-negative extent. It also defines the framework
  operations the control relies on: the two-corner Rect constructor, `Intersect`, which
  is Empty for disjoint rects, and `Union`.
- `Transforms` (transforms.dfy): the image transform, its inverse (none for scale 0),
  `TransformBounds`, and the transform that fits an image rect onto a viewport.
- `RectExtensions` (rect_extensions.dfy): the current rect utilities. The ones the
  source writes as step-by-step reassignments are methods proved equal to a
  specification function: GetSafePoint, GetSafeRect, GetContainsRect and
  GetSafeSizeChangeWhenKeepAspectRatio.
- `RectHelpers` (rect_helpers.dfy): the older pure copies, proved to agree with the
  current ones.
- `Sizing` (sizing.dfy): the derived getters UsedAspectRatio, KeepAspectRatio,
  MinCropSize and MinSelectSize, and the image-size guard.
- `Keys` (keys.dfy): the arrow-key delta of a handle key press.
- `Animations` (animations.dfy): the keyframe list of the selection animation.
- `Layout` (layout.dfy): the geometry of a relayout.
- `CropLogic` (crop_logic.dfy): the decisions of a handle drag, a pan and an
  aspect-ratio change. Each is a function of the selection, computed by a method,
  with the properties of the decision proved as lemmas.
- `Cropper` (cropper.dfy): class `ImageCropper`, the control as in
  ImageCropper.Logic.cs. Its fields are those the source updates. Its methods are the
  layout operations, the gesture handlers of ImageCropper.Events.cs and the property
  hooks of ImageCropper.Properties.cs. Each method states its whole new state through
  the functions of `CropLogic` and `Layout`, and keeps the invariant `Valid()`:
  - corners in order;
  - a positive scale with its inverse stored beside it;
  - the crop rect inside the image bounds.
- `LegacyCropper` (legacy_cropper.dfy): class `LegacyImageCropper`, the older layout,
  drag and aspect-ratio code of ImageCropper.cs. It keeps no inverse, and it has no
  validity guards. On a canvas without area it installs a transform of scale 0, and
  the drag and the aspect-ratio change then give up.

A few points where the model takes a position:

- The four trigonometric lines of a locked corner drag are reduced algebraically.
  Since tan φ = ±dx/dy, dy / cos φ · cos(φ - atan k) moved along (sin r, cos r) is the
  orthogonal projection of (dx, dy) onto the handle's diagonal (σk, 1). For dy = 0 and
  dx ≠ 0 the source's length is 0 / cos(π/2) in double arithmetic, which is 0.
  `CropLogic.CornerDelta` is that projection, and `CornerDeltaIsProjection` proves it
  orthogonal. For dx = dy = 0 the source's direction is atan(0 / 0), which is NaN. The
  current control never gets there, because it ignores a zero drag. The older control
  does get there; see "## Findings".
- A fallback to the free ratio assigns AspectRatio = -1. That assignment re-enters
  UpdateAspectRatio through the change hook:
  - without RoundedCrop the ratio is no longer locked and the re-entry does nothing;
  - with RoundedCrop it computes the same fallback, and assigning -1 again raises no
    change.

  The model therefore sets the ratio and changes nothing else.
- The ArgumentException of a bitmap that is too small is returned as an error value.
  The property value stays stored, as it does in the property system.

## Model

| member | source | states |
|---|---|---|
| Geometry.FromCorners | ImageCropper.UWP/ImageCropper.Logic.cs:221 | Rect(Point, Point) is the smallest box with both points as corners; for ordered points its corners are the points themselves |
| Geometry.Intersect | ImageCropper.UWP/ImageCropper.Logic.cs:227 | the intersection is a box exactly when the rects touch, lies in both, and is the first rect when the second covers it |
| Geometry.IntersectIsMeet | ImageCropper.UWP/ImageCropper.Logic.cs:227 | a point lies in the intersection iff it lies in both rects |
| Geometry.Union | ImageCropper.UWP/ImageCropper.Logic.cs:222-223 | the union covers both rects, and equals the canvas exactly when the canvas already covers the selection (the settle/refit test) |
| Transforms.TransformBounds | ImageCropper.UWP/ImageCropper.Logic.cs:68-69 | for a non-negative scale each coordinate is scaled and translated, and the extents are scaled; Empty stays Empty |
| Transforms.Inverse | ImageCropper.UWP/ImageCropper.Logic.cs:65-67 | the inverse exists iff the scale is non-zero; its scale is the reciprocal, positive for a positive scale |
| Transforms.InverseUndoes | ImageCropper.UWP/ImageCropper.Logic.cs:61-67 | transform and inverse compose to the identity in both orders |
| Transforms.BoundsRoundTrip | ImageCropper.UWP/ImageCropper.Logic.cs:61-69 | for a positive scale, a rect taken to the canvas and back through the inverse is the rect again |
| Transforms.TransformKeepsContainment | ImageCropper.UWP/ImageCropper.Logic.cs:68-69 | a positive-scale transform keeps one rect inside another |
| Transforms.TransformKeepsValid | ImageCropper.UWP/ImageCropper.Logic.cs:229-231 | a positive-scale transform maps a rect of positive area to one of positive area |
| Transforms.FitTransform | ImageCropper.UWP/ImageCropper.Logic.cs:61-64 | scale is viewport width over image-rect width (positive iff the viewport has width), and the image rect's origin goes to the viewport's origin |
| Transforms.FitMapsOnto | ImageCropper.UWP/ImageCropper.Logic.cs:57-64 | for equal aspect ratios the fitted transform maps the image rect exactly onto the viewport |
| RectExtensions.GetSafePoint | ImageCropper.UWP/Extensions/RectExtensions.cs:21-33 | the four conditional reassignments compute the per-axis clamp of the older helper |
| RectExtensions.SafePointNearClamp | ImageCropper.UWP/Extensions/RectExtensions.cs:42-53 | IsSafePoint holds iff the point is within Tolerance of its clamp on each axis; every point of the closed rect is safe |
| RectExtensions.GetSafeRect | ImageCropper.UWP/Extensions/RectExtensions.cs:76-112 | the handle switch yields the rect spanned by SafeCorners |
| RectExtensions.SafeCornersRepair | ImageCropper.UWP/Extensions/RectExtensions.cs:76-112 | only the coordinates the handle owns move; the opposite edge stays; a too-short owned axis ends exactly the minimum long; an axis long enough is untouched |
| RectExtensions.CornerRepairIsSafe | ImageCropper.UWP/Extensions/RectExtensions.cs:62-112 | a corner handle's repair always passes IsSafeRect and keeps the corners ordered |
| RectExtensions.GetUniformRect | ImageCropper.UWP/Extensions/RectExtensions.cs:120-138 | the result has width = aspect · height and the target's centre |
| RectExtensions.UniformRectFits | ImageCropper.UWP/Extensions/RectExtensions.cs:120-138 | the uniform rect lies in the target and matches its width or its height |
| RectExtensions.UniformRectLargest | ImageCropper.UWP/Extensions/RectExtensions.cs:120-138 | no rect of the same ratio that fits in the target is taller |
| RectExtensions.UniformRectsAgree | ImageCropper.UWP/Helpers/RectExtensions.cs:26-44 | the older GetUniformRect equals the current one for every input |
| RectExtensions.ShiftInside | ImageCropper.UWP/Extensions/RectExtensions.cs:156-171 | the shift keeps the size, ends inside the target when the rect fits, and leaves a rect already inside where it is |
| RectExtensions.GetContainsRect | ImageCropper.UWP/Extensions/RectExtensions.cs:145-173 | true iff the target is a box at most Tolerance smaller than the test rect on each axis, or the test rect is Empty; a refused or Empty rect comes back unchanged, an accepted box comes back shifted inside |
| RectExtensions.ShiftRectInside | ImageCropper.UWP/Extensions/RectExtensions.cs:156-171 | the four in-place shifts compute ShiftInside |
| RectExtensions.ContainsRectWithinTolerance | ImageCropper.UWP/Extensions/RectExtensions.cs:145-173 | an accepted rect ends inside the target up to Tolerance on the left and top |
| RectExtensions.GetSafeSizeChangeWhenKeepAspectRatio | ImageCropper.UWP/Extensions/RectExtensions.cs:174-226 | the per-handle caps and the two cuts yield CappedSizeChange of MaxSizeChange |
| RectExtensions.CapSizeChange | ImageCropper.UWP/Extensions/RectExtensions.cs:215-225 | the two conditional cuts compute CappedSizeChange |
| RectExtensions.CappedSizeChange | ImageCropper.UWP/Extensions/RectExtensions.cs:215-225 | an uncapped change is returned as is; a height cap sets the height change to the cap with the width following the ratio; a width cap alone keeps the ratio |
| RectHelpers.GetSafePoint | ImageCropper.UWP/Helpers/RectExtensions.cs:12-24 | the result lies in the rect and keeps each coordinate already inside it |
| RectHelpers.SafePointIdempotent | ImageCropper.UWP/Helpers/RectExtensions.cs:14-23 | a point inside is returned unchanged, so clamping twice is clamping once |
| RectHelpers.SafePointIsClosest | ImageCropper.UWP/Helpers/RectExtensions.cs:12-24 | per axis no point of the rect is closer than the clamp |
| RectHelpers.GetUniformRect | ImageCropper.UWP/Helpers/RectExtensions.cs:26-44 | the older uniform rect has the requested ratio and the target's centre |
| Sizing.UsedAspectRatio | ImageCropper.UWP/ImageCropper.cs:61 | RoundedCrop forces ratio 1, otherwise AspectRatio is used |
| Sizing.ShapeRatio | ImageCropper.UWP/ImageCropper.cs:67 | the ratio sizes are shaped to is positive: the used ratio when locked, else 1 |
| Sizing.StretchedSquare | ImageCropper.UWP/ImageCropper.cs:68-72 | a length square stretched to the ratio has that ratio and that shorter side |
| Sizing.MinCropSize | ImageCropper.UWP/ImageCropper.cs:63-75 | the minimum crop has the shape ratio and MinCroppedPixelLength as its shorter side |
| Sizing.MinSelectSize | ImageCropper.UWP/ImageCropper.cs:77-96 | the shorter side is never below MinSelectedLength; for a non-negative scale, when the minimum crop length seen at that scale is below MinSelectedLength the result is the MinSelectedLength square stretched to the ratio (shorter side exactly MinSelectedLength), and otherwise it is the minimum crop size seen at that scale (shorter side exactly the seen length) |
| Sizing.MinSelectSizeShape | ImageCropper.UWP/ImageCropper.cs:77-96 | for a non-negative scale the minimum selection has the shape ratio in both branches |
| Keys.ArrowKeyDelta | ImageCropper.UWP/ImageCropper.Events.cs:16-77 | a key changes the delta iff it is an arrow, and the delta is then the nudge; otherwise it stays zero |
| Keys.NudgeIsUnitStep | ImageCropper.UWP/ImageCropper.Events.cs:18-77 | a nudge is never zero, is at most one unit per axis, and is exactly one unit along the pressed arrow |
| Keys.OppositeNudges | ImageCropper.UWP/ImageCropper.Events.cs:18-77 | opposite arrows nudge oppositely on their axis and alike on the other |
| Keys.BothHeldCancel | ImageCropper.UWP/ImageCropper.Events.cs:18-77 | holding both perpendicular arrows adds nothing on the other axis |
| Animations.GetProgressPoint | ImageCropper.UWP/ImageCropper.Animations.cs:118-125 | progress 0 gives from, progress 1 gives to, and progress in [0, 1] stays between them per axis |
| Animations.FramesStayBetween | ImageCropper.UWP/ImageCropper.Animations.cs:104-109 | the first frame is from, and every frame lies in the bounding box of from and to |
| Animations.LoopFrames | ImageCropper.UWP/ImageCropper.Animations.cs:102 | the loop runs ceil(duration / 10 ms) times |
| Animations.GetKeyframe | ImageCropper.UWP/ImageCropper.Animations.cs:93-117 | ceil(duration / 10 ms) + 1 keyframes; frame k is at k · 10 ms, below the duration, with corners interpolated at that progress; the last is (duration, to) |
| Animations.KeyTimesIncrease | ImageCropper.UWP/ImageCropper.Animations.cs:102-115 | the key times of such a list strictly increase |
| Layout.ImageBounds | ImageCropper.UWP/ImageCropper.Logic.cs:23-24 | the image bounds are anchored at the origin and valid iff both pixel sizes are positive |
| Layout.InitialCrop | ImageCropper.UWP/ImageCropper.Logic.cs:26 | the initial crop lies in the image and is valid with it; it is the whole image when free, and of the locked ratio otherwise |
| Layout.InitialCropLargest | ImageCropper.UWP/ImageCropper.Logic.cs:26 | under a locked ratio no rect of that ratio in the image is taller than the initial crop |
| Layout.FitViewport | ImageCropper.UWP/ImageCropper.Logic.cs:45-47 | the viewport lies in the canvas, has the crop's ratio, and has area iff the canvas has (zero width otherwise) |
| Layout.UniformArea | ImageCropper.UWP/ImageCropper.cs:327 | the canvas's uniform rect has area iff the canvas has, and neither width nor height when it has none |
| Layout.UniformValidWhen | ImageCropper.UWP/ImageCropper.Logic.cs:24-26 | the uniform rect of a valid rect is valid |
| Layout.ShownCorners | ImageCropper.UWP/ImageCropper.Logic.cs:68-72 | the corners shown for a crop lie in the selectable area and are ordered |
| Layout.RelayoutShowsViewport | ImageCropper.UWP/ImageCropper.Logic.cs:45-72 | after a relayout around a crop inside the image, the selection is exactly the viewport |
| Layout.RelayoutCommitsSameCrop | ImageCropper.UWP/ImageCropper.Events.cs:93-98 | committing an untouched selection right after a relayout gives back the crop rect |
| Layout.InverseBackInside | ImageCropper.UWP/ImageCropper.Logic.cs:432-434 | a selection inside the selectable area comes back inside the image bounds |
| Layout.InverseKeepsRatio | ImageCropper.UWP/ImageCropper.Logic.cs:432 | the inverse keeps a selection's width-to-height ratio |
| Layout.AspectCropExact | ImageCropper.UWP/ImageCropper.cs:626 | a selection of the ratio inside the selectable area needs no cut in image space and keeps the ratio |
| Layout.RefitTransform | ImageCropper.UWP/ImageCropper.Logic.cs:229-231 | the refit transform has a positive scale |
| Layout.RefitShowsUnion | ImageCropper.UWP/ImageCropper.Logic.cs:222-231 | after a refit the union of selection and canvas is shown exactly on the centred viewport, which lies in the canvas |
| Layout.FitScaledOnto | ImageCropper.UWP/ImageCropper.Logic.cs:229-231 | a viewport of the union's ratio shows the union, taken through any positive-scale transform, exactly |
| CropLogic.CornerDelta | ImageCropper.UWP/ImageCropper.Logic.cs:150-195 | a locked corner moves along its diagonal (σk, 1), and not at all for a horizontal drag |
| CropLogic.CornerDeltaIsProjection | ImageCropper.UWP/ImageCropper.Logic.cs:150-195 | what the corner drops of the drag is perpendicular to the diagonal |
| CropLogic.HandleDelta | ImageCropper.UWP/ImageCropper.Logic.cs:150-195 | edge handles and free drags use the drag as is; locked corners use the diagonal delta |
| CropLogic.MoveCorners | ImageCropper.UWP/ImageCropper.Logic.cs:106-196 | the handle switch reassigning the two local corners computes MovedCorners |
| CropLogic.LockedDragKeepsRatio | ImageCropper.UWP/ImageCropper.Logic.cs:108-196 | under a locked ratio every handle keeps width = ratio · height when it held |
| CropLogic.LockedCornerKeepsRatio | ImageCropper.UWP/ImageCropper.Logic.cs:150-195 | a locked corner drag keeps the ratio |
| CropLogic.LockedEdgeDragKeepsCentre | ImageCropper.UWP/ImageCropper.Logic.cs:110-149 | a locked edge drag keeps the centre of the perpendicular axis |
| CropLogic.FreeDragMovesOwnedEdges | ImageCropper.UWP/ImageCropper.Logic.cs:108-196 | with a free ratio each handle moves exactly the coordinates it owns, by the drag |
| CropLogic.DragSelection | ImageCropper.UWP/ImageCropper.Logic.cs:94-236 | the candidate computation yields DecideDrag: ignored for a zero drag or an invalid canvas, otherwise decided on the moved corners |
| CropLogic.LegacyIsSafePointAgrees | ImageCropper.UWP/Extensions/RectExtensions.cs:42-53 | on finite coordinates the double-arithmetic region test is IsSafePoint, and a NaN point passes it |
| CropLogic.ZeroDragCorners | ImageCropper.UWP/ImageCropper.cs:398-444 | after a (0, 0) locked corner drag exactly the coordinates the handle owns are NaN, and the others keep their values |
| CropLogic.LegacyLockedCornerDrag | ImageCropper.UWP/ImageCropper.cs:345-487 | the older locked corner drag reaches a refit around NaN corners only for a (0, 0) drag, which otherwise it refuses |
| CropLogic.LegacyZeroCornerDragDiffers | ImageCropper.UWP/ImageCropper.cs:347-470 | on a valid canvas the older locked corner drag decides as the guarded drag for every nonzero drag; a (0, 0) drag, which the guarded drag ignores, reaches a refit around NaN corners exactly when the corner opposite the handle is in the selectable area (always, when the selection's corners are), and is refused otherwise |
| CropLogic.MoveAndResolve | ImageCropper.UWP/ImageCropper.cs:354-485 | moving and resolving yields DecideMoved on MovedCorners (the older drag has no guard) |
| CropLogic.ResolveMoved | ImageCropper.UWP/ImageCropper.Logic.cs:198-236 | repair, the selectable-area test and the settle/refit test yield DecideMoved |
| CropLogic.RepairMoved | ImageCropper.UWP/ImageCropper.Logic.cs:198-216 | the minimum-size repair yields RepairedCorners |
| CropLogic.LockedDecisionKeepsMoved | ImageCropper.UWP/ImageCropper.Logic.cs:198-208 | under a locked ratio an accepted selection is the moved one, unrepaired |
| CropLogic.AcceptedDragIsSafe | ImageCropper.UWP/ImageCropper.Logic.cs:94-236 | zero drags, invalid canvases and Empty selectable areas are ignored; accepted corners are safe points; a drag settles iff its selection lies in the canvas |
| CropLogic.AcceptedDragOrdered | ImageCropper.UWP/ImageCropper.Logic.cs:198-221 | an accepted drag keeps the corners ordered |
| CropLogic.MovedDecisionOrdered | ImageCropper.UWP/ImageCropper.cs:446-469 | the same without the guard |
| CropLogic.LockedAcceptedDragKeepsRatio | ImageCropper.UWP/ImageCropper.Logic.cs:110-206 | under a locked ratio an accepted drag keeps the ratio |
| CropLogic.FreeRepairInsideSelectable | ImageCropper.UWP/ImageCropper.Logic.cs:209-215 | a repaired free selection that is accepted lies in the selectable area |
| CropLogic.HandleAnchors | ImageCropper.UWP/ImageCropper.cs:495-543 | every one of the eight handles has an anchor |
| CropLogic.EdgeAnchorsAreMidpoints | ImageCropper.UWP/ImageCropper.Logic.cs:250-290 | each edge handle sits halfway between the corner handles of its edge |
| CropLogic.PointerDeltaSafe | ImageCropper.UWP/ImageCropper.Events.cs:126-130 | the delta moves the handle into the selectable area, exactly onto the pointer when the pointer is inside |
| CropLogic.PanSelection | ImageCropper.UWP/ImageCropper.Events.cs:142-148 | the step-by-step pan computes PannedSelection |
| CropLogic.PanIsTranslation | ImageCropper.UWP/ImageCropper.Events.cs:142-148 | an accepted pan is the selection moved by -delta with safe corners; a pan is refused iff a moved corner is unsafe or the selection is below the minimum by more than Tolerance |
| CropLogic.ViewSquare | ImageCropper.UWP/ImageCropper.Logic.cs:395-399 | the view square has side max(width, height) and the selection's centre |
| CropLogic.UniformCandidateSettleable | ImageCropper.UWP/ImageCropper.Logic.cs:400-404 | the first candidate has the ratio and is no wider or taller than the selectable area |
| CropLogic.UniformCandidateDegenerate | ImageCropper.UWP/ImageCropper.Logic.cs:400-407 | the candidate has a zero side only for a point selection |
| CropLogic.ScaledUp | ImageCropper.UWP/ImageCropper.Logic.cs:407-409 | scaling keeps the rect's origin |
| CropLogic.SelectAspectRect | ImageCropper.UWP/ImageCropper.Logic.cs:395-431 | the local computation yields AspectSelection |
| CropLogic.SettleCandidateSound | ImageCropper.UWP/ImageCropper.Logic.cs:405-431 | settling a candidate gives a sound outcome, degenerate only for a zero side |
| CropLogic.AspectSelectionSound | ImageCropper.UWP/ImageCropper.Logic.cs:395-431 | a fitted selection has the ratio, lies in the selectable area and meets the minimum length; a fallback happens only when the minimum rect of the ratio cannot fit; degenerate only for a point selection |
| CropLogic.ScaledCandidateSound | ImageCropper.UWP/ImageCropper.Logic.cs:405-414 | the scaled candidate is the stretched square of the minimum length, and shifted in it keeps ratio, containment and minimum |
| CropLogic.ScaledToMinimum | ImageCropper.UWP/ImageCropper.Logic.cs:407-409 | scaling to the minimum length keeps the ratio and gives the stretched square |
| CropLogic.UniformPositive | ImageCropper.UWP/Extensions/RectExtensions.cs:120-138 | the uniform rect of a valid target is valid |
| Cropper.ImageCropper.constructor | ImageCropper.UWP/ImageCropper.cs:44-52 | corners (0,0)-(20,20), Empty rects, the identity transform, no image, the free default ratio, and MinCroppedPixelLength and MinSelectedLength at their default of 40 |
| Cropper.ImageCropper.UpdateSelectedRect | ImageCropper.UWP/ImageCropper.Logic.cs:244-290 | the corners are stored and every handle is placed at its anchor |
| Cropper.ImageCropper.UpdateControlButtonVisibility | ImageCropper.UWP/ImageCropper.Logic.cs:442-467 | corner handles are visible iff there is an image and the crop is not circular; edge handles iff there is an image and the crop is circular or secondary handles are on |
| Cropper.ImageCropper.UpdateImageLayoutWithViewport | ImageCropper.UWP/ImageCropper.Logic.cs:57-85 | nothing happens unless both rects are valid; otherwise the fitted transform and its inverse are installed and the selection shows the crop clamped into the selectable area |
| Cropper.ImageCropper.UpdateImageLayout | ImageCropper.UWP/ImageCropper.Logic.cs:43-50 | with an image and a valid canvas the crop is laid out in the canvas's centred rect of its ratio, the selection being exactly that rect; otherwise nothing changes |
| Cropper.ImageCropper.InitImageLayout | ImageCropper.UWP/ImageCropper.Logic.cs:19-38 | without an image all three rects become Empty; with one the bounds are the bitmap's and a valid image gets the initial crop, laid out on a valid canvas and with the layout (transform, inverse, selectable area, corners and handle positions) kept otherwise; an image without area keeps crop and layout; without an image the layout is kept too; handle visibility follows |
| Cropper.ImageCropper.LoadImageBounds | ImageCropper.UWP/ImageCropper.Logic.cs:21-36 | the crop part of InitImageLayout, as above |
| Cropper.ImageCropper.LayOutInitialCrop | ImageCropper.UWP/ImageCropper.Logic.cs:23-28 | for a bitmap with area, the bounds become the bitmap's and the crop the initial crop, laid out on a valid canvas and with the layout, handle positions included, kept otherwise |
| Cropper.ImageCropper.UpdateAspectRatio | ImageCropper.UWP/ImageCropper.Logic.cs:391-437 | a no-op unless the ratio is locked, an image is set and the selectable area is valid; otherwise the outcome is applied (fallback frees the ratio; a fitted selection becomes the crop, cut to the image, laid out when the canvas allows and with the layout kept otherwise, with the locked ratio) |
| Cropper.ImageCropper.ChangeAspect | ImageCropper.UWP/ImageCropper.Logic.cs:395-435 | past the guard, the state is AspectApplied of the outcome computed on the old state, and a fitted selection inside the selectable area leaves a crop of the locked ratio |
| Cropper.ImageCropper.ApplyAspect | ImageCropper.UWP/ImageCropper.Logic.cs:405-435 | each aspect outcome leaves the state AspectApplied describes; a point selection (Degenerate) leaves an Empty crop and the layout as it was, as the source's NaN candidate, cut to the image at Logic.cs:433, does |
| Cropper.ImageCropper.RefitSelection | ImageCropper.UWP/ImageCropper.Logic.cs:221-232 | the selection in image space, cut to the image, becomes the crop, and the layout is fitted around the union of selection and canvas |
| Cropper.ImageCropper.FitAroundSelection | ImageCropper.UWP/ImageCropper.Logic.cs:229-231 | the refit transform is installed |
| Cropper.ImageCropper.ApplyDrag | ImageCropper.UWP/ImageCropper.Logic.cs:221-236 | an ignored drag changes nothing, a settled one moves only the selection and handles, a refit is carried out |
| Cropper.ImageCropper.UpdateCroppedRectWithAspectRatio | ImageCropper.UWP/ImageCropper.Logic.cs:92-237 | the state after a drag is DragApplied of the decision on the old state, keeping the crop inside the image |
| Cropper.ImageCropper.ControlButtonKeyDown | ImageCropper.UWP/ImageCropper.Events.cs:14-86 | an arrow key on a tagged handle drags it by the nudge; anything else changes nothing |
| Cropper.ImageCropper.CommitSelection | ImageCropper.UWP/ImageCropper.Events.cs:88-120 | the crop becomes the selection in image space cut to the image when it exceeds the minimum crop size on both axes, then the layout is refreshed |
| Cropper.ImageCropper.ControlButtonManipulationDelta | ImageCropper.UWP/ImageCropper.Events.cs:122-134 | the tagged handle is dragged by the delta to the pointer clamped into the selectable area |
| Cropper.ImageCropper.SourceImageManipulationDelta | ImageCropper.UWP/ImageCropper.Events.cs:136-155 | a refused pan changes nothing; an accepted one becomes the crop, cut to the image, and is laid out |
| Cropper.ImageCropper.ImageCanvasSizeChanged | ImageCropper.UWP/ImageCropper.Events.cs:157-163 | the canvas takes the new size; without an image the layout is untouched, with one it is refreshed |
| Cropper.ImageCropper.SetSourceImage | ImageCropper.UWP/ImageCropper.Properties.cs:19-33 | a new bitmap is refused with "Image size is too small!" iff it is not strictly larger than the minimum crop size, leaving the layout; a new accepted one is laid out, and the corner handles are shown iff the crop is not circular, the edge handles iff it is circular or the secondary handles are asked for |
| Cropper.ImageCropper.SetAspectRatio | ImageCropper.UWP/ImageCropper.Properties.cs:35-40 | a changed ratio is stored and UpdateAspectRatio's effect follows; an equal one changes nothing |
| Cropper.ImageCropper.SetRoundedCrop | ImageCropper.UWP/ImageCropper.Properties.cs:42-48 | a changed flag is stored and UpdateAspectRatio's effect follows; an equal one changes nothing |
| LegacyCropper.LegacyImageCropper.constructor | ImageCropper.UWP/ImageCropper.cs:44-52 | the initial field values of the older control |
| LegacyCropper.LegacyImageCropper.UpdateSelectedRect | ImageCropper.UWP/ImageCropper.cs:489-494 | the corners are stored |
| LegacyCropper.LegacyImageCropper.UpdateControlButtonVisibility | ImageCropper.UWP/ImageCropper.cs:632-655 | corner handles visible iff an image and no RoundedCrop; edge handles iff an image and RoundedCrop or secondary visibility |
| LegacyCropper.LegacyImageCropper.UpdateImageLayoutWithViewport | ImageCropper.UWP/ImageCropper.cs:331-343 | the fitted transform is installed unguarded; it has no inverse exactly when the viewport has zero width |
| LegacyCropper.LegacyImageCropper.UpdateImageLayout | ImageCropper.UWP/ImageCropper.cs:325-329 | a valid crop is laid out in the canvas's centred rect of its ratio, with an inverse iff the canvas has area |
| LegacyCropper.LegacyImageCropper.InitImageLayout | ImageCropper.UWP/ImageCropper.cs:316-323 | bounds from the bitmap, the initial crop, laid out, and the handles shown by RoundedCrop and secondary visibility |
| LegacyCropper.LegacyImageCropper.LayOutImage | ImageCropper.UWP/ImageCropper.cs:318-321 | the crop part of InitImageLayout, as above |
| LegacyCropper.LegacyImageCropper.UpdateCroppedRectWithAspectRatio | ImageCropper.UWP/ImageCropper.cs:345-487 | the state after a drag is DragApplied of the unguarded decision; a refit without an inverse changes nothing |
| LegacyCropper.LegacyImageCropper.ApplyDrag | ImageCropper.UWP/ImageCropper.cs:466-486 | each decision leaves the state DragApplied describes |
| LegacyCropper.LegacyImageCropper.RefitSelection | ImageCropper.UWP/ImageCropper.cs:471-481 | without an inverse nothing changes; otherwise the cut becomes the crop and the layout is fitted around the union, or kept (transform, selectable area and corners) when the union has no area |
| LegacyCropper.LegacyImageCropper.FitAroundSelection | ImageCropper.UWP/ImageCropper.cs:479-481 | the transform fitted around the union is installed |
| LegacyCropper.LegacyImageCropper.UpdateAspectRatio | ImageCropper.UWP/ImageCropper.cs:582-630 | a no-op unless locked, with an image and an inverse; a fallback frees the ratio; a fitted selection is committed uncut, yet lies in the image and has the ratio |
| LegacyCropper.LegacyImageCropper.ApplyAspect | ImageCropper.UWP/ImageCropper.cs:599-627 | each aspect outcome leaves the state AspectApplied describes: a fitted selection is laid out when it has area, and the layout is kept otherwise |

## Left out

- IEEE double arithmetic: coordinates are exact reals. Infinities and NaN are not
  modelled, except for the NaN trace of the older corner drag under "## Findings". The
  source reaches them only through Empty rects, zero extents or a zero drag, and the
  branches below say where the model decides those cases directly.
- Composition and storyboard animation: `AnimateUIElementOffset`,
  `AnimateUIElementScale`, the storyboard helpers and the `animate` flag are visual
  only. Every relayout is modelled as immediate.
- UpdateCropShape, UpdateMaskArea, UpdateThumbPosition's Canvas.SetLeft/SetTop calls
  and the clip geometry draw the mask and the handles and change no modelled state.
  The handle positions are kept as a map instead.
- UpdateDragButtonVisibility, called by the RoundedCrop hook, is not modelled: no
  definition of it exists in this snapshot of the control.
- Template and event plumbing (OnApplyTemplate, HookUpEvents, UnhookEvents) and
  bitmap I/O (LoadImageFromFile, GetCroppedBitmapAsync, SaveCroppedBitmapAsync, both
  WriteableBitmapExtensions files, encoder ids): foreign framework calls. A bitmap is
  modelled by its pixel size and an identity.
- BitmapFileFormat.cs, ImageCropper.Constants.cs and the sample page: an enum,
  template part names and a demo page, with no behaviour of the control.
- Window key state: `GetAsyncKeyState` is a foreign query. The held arrows are an
  input of `Keys.ArrowKeyDelta`.
- Cropper.ImageCropper.UpdateImageLayout: the model also requires a crop rect of
  positive area before laying out. For an Empty or flat crop the source's ratio
  width / height is infinite, zero or NaN. The uniform viewport it gets then has no
  positive width or height, and the IsValid guard of UpdateImageLayoutWithViewport
  (ImageCropper.Logic.cs:59-60) returns before anything changes, as in the model.
- Cropper.ImageCropper.RefitSelection: when the selection, taken back into image space,
  misses the image bounds, the model changes nothing. The source stores the Empty crop
  and lays out infinite corners.
- Cropper.ImageCropper.ControlButtonManipulationDelta: an Empty selectable area is a
  no-op in the model. The source clamps the pointer to infinite coordinates, and the
  drag's selectable-area test then refuses it.
- Cropper.ImageCropper.CommitSelection: the no-inverse branch of the gesture-end
  handlers is not modelled. `Valid()` keeps the scale positive, so the inverse always
  exists in the current control.
- LegacyCropper.LegacyImageCropper.RefitSelection: when the union of selection and
  canvas has no area, the model stores the cut crop but does not relayout. The source
  would fit a NaN-ratio viewport. When the selection, taken back into image space,
  misses the image bounds, the model changes nothing. The source stores the Empty crop
  and lays it out.
- LegacyCropper.LegacyImageCropper.UpdateCroppedRectWithAspectRatio and
  CropLogic.MoveAndResolve: a (0, 0) drag of a corner handle under a locked ratio is
  decided on the unmoved corners. The source computes NaN corners there and refits
  around them; `CropLogic.LegacyLockedCornerDrag` models that trace under "## Findings".
- LegacyCropper.LegacyImageCropper.UpdateImageLayout: a crop rect without area leaves
  everything unchanged. The source has no guard there (ImageCropper.cs:325-343). It
  installs whatever its divisions by the crop's extents give:
  - a finite scale for a crop of zero height and positive width on a canvas with area;
  - otherwise an infinite or NaN one.

  The model does not represent these.
- LegacyCropper.LegacyImageCropper.ApplyAspect: a point selection (the Degenerate
  outcome) leaves an Empty crop and the layout as it was. The source commits a NaN rect.
- LegacyCropper.LegacyImageCropper.InitImageLayout: requires positive pixel sizes,
  because its only caller, the image-size guard, admits only bitmaps strictly larger
  than the minimum crop, whose sides are never negative.
- Sizing.MinCropSize and Sizing.MinSelectSize: MinCroppedPixelLength and
  MinSelectedLength are settable fields of both classes, but a MinCroppedPixelLength
  below 0 cannot be stored (type `Cropper.Length`). Neither can a MinSelectedLength
  below Tolerance (type `Cropper.SelectableLength`). For a negative length the source's
  getters throw the ArgumentException of `new Size(...)` (ImageCropper.cs:67-86), which
  the model does not represent. With both lengths below Tolerance, IsSafeRect would
  admit corners crossed by up to Tolerance, and the ordered-corner invariant of the
  classes would no longer hold.
- LegacyCropper.LegacyImageCropper.UpdateSelectedRect: stores only the corners. The
  handle placement of that snapshot is the same as the current one's, which
  `CropLogic.HandleAnchors` and `Cropper.ImageCropper.UpdateSelectedRect` model.
- LegacyCropper.LegacyImageCropper: the gesture handlers and property hooks are
  modelled once, on the current control.

## Findings

| source | as written | input that shows it | evidently intended | confidence | as-written member | corrected member |
|---|---|---|---|---|---|---|
| ImageCropper.UWP/ImageCropper.cs:351 | the older drag computes atan(dx / dy) without a zero-drag guard, so a (0, 0) drag of a corner handle under a locked ratio makes the coordinates the handle owns NaN; the shrink refusal after the failed size test compares with NaN and does not fire, the region test passes them whenever the opposite corner is in the selectable area (as the selection's corners always are), and the drag reaches the refit (ImageCropper.cs:401-403, 446-481) | AspectRatio = 1, the upper-left handle on the top-left corner of the selectable area, and the pointer dragged further up and left: GetSafePoint clamps it back onto the handle (ImageCropper.Events.cs:129-133), so the drag is (0, 0) | a zero drag is ignored, as the current control's guard at ImageCropper.Logic.cs:94 does; `CropLogic.AcceptedDragIsSafe` proves the guarded decision ignores it | high; not executed | CropLogic.LegacyZeroCornerDragDiffers | CropLogic.AcceptedDragIsSafe |
