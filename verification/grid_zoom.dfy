/** The photo grid's pinch gesture. A continuous magnification signal is
    mapped onto steps along the ladder of column counts: pinching in past
    the resting scale adds a column stage, spreading out past the zoom
    factor removes one, and in between the grid only scales elastically.
    Orientation is passed to every handler; the grid width is measured once
    when the grid appears. */
module GridZoom {
  import opened PhotoRecord
  import opened PhotoIndex
  import opened GridGeometry

  /** The elastic limit when pinching in at the last stage. */
  const InLimit: real := 0.95
  /** The elastic limit when spreading out at the first stage. */
  const OutLimit: real := 1.1

  /** The value the gesture's local adjustment ends with: the signal less
      the offset recorded at the last stage change, clamped to an elastic
      limit in the two branches that stretch past the ladder's ends. */
  function LocalAdjustment(state: real, previous: real, scale: real, zoomFactor: real,
                           index: int, stageCount: int): (a: real)
    ensures a == state - previous || (a == InLimit && state - previous <= InLimit) ||
            (a == OutLimit && state - previous >= OutLimit)
    ensures a > 1.0 <==> state - previous > 1.0
  {
    var adj := state - previous;
    if scale <= 1.0 && adj < 1.0 then
      (if index > stageCount - 1 && adj <= InLimit then InLimit else adj)
    else if scale >= zoomFactor && adj > 1.0 then
      (if index == 0 && adj >= OutLimit then OutLimit else adj)
    else adj
  }

  /** The gesture-related part of the grid's state. */
  datatype ZoomState = ZoomState(size: real, index: int, scale: real, scaleFactor: real, zoomFactor: real,
                                 isMagnifying: bool, previous: real, zooming: bool)

  /** What one magnification update does to the gesture state, given the
      signal `state`. Pinching in at rest steps one stage along the ladder
      (smaller items, the scale set so that the items keep their on-screen
      size); past the last stage it only stretches elastically. Spreading
      out beyond the zoom factor steps one stage back (larger items, scale
      back to one); at the first stage it only stretches elastically.
      Otherwise only the scale follows the signal. Every update moves the
      ladder position by at most one and never out of `0..count`. */
  function Changed(z: ZoomState, state: real, gridWidth: real, landscape: bool): (r: ZoomState)
    requires z.size > 0.0 && WidthFits(gridWidth, landscape)
    ensures r.zooming && r.size > 0.0
    ensures -1 <= r.index - z.index <= 1
    ensures z.index >= 0 ==> r.index >= 0
    ensures z.index <= |ZoomStages(landscape)| ==> r.index <= |ZoomStages(landscape)|
  {
    var adj := state - z.previous;
    if z.scale <= 1.0 && adj < 1.0 then
      if z.index > |ZoomStages(landscape)| - 1 then
        z.(isMagnifying := false, zooming := true,
           scale := if adj > InLimit then z.scaleFactor - (1.0 - adj) else z.scale)
      else
        var updated := CalculateUpdatedSize(gridWidth, landscape, z.index + 1);
        UpdatedSizePositive(gridWidth, landscape, z.index + 1);
        z.(isMagnifying := false, zooming := true, previous := state - 1.0,
           zoomFactor := updated / z.size, scaleFactor := z.size / updated, scale := z.size / updated,
           size := updated, index := z.index + 1)
    else if z.scale >= z.zoomFactor && adj > 1.0 then
      if z.index == 0 then
        z.(isMagnifying := true, zooming := true,
           scale := if adj < OutLimit then 1.0 - (1.0 - adj) else z.scale)
      else
        UpdatedSizePositive(gridWidth, landscape, z.index - 1);
        z.(isMagnifying := true, zooming := true, index := z.index - 1, previous := state - 1.0,
           size := CalculateUpdatedSize(gridWidth, landscape, z.index - 1),
           zoomFactor := ZoomFactorAt(gridWidth, landscape, z.index - 1),
           scaleFactor := 1.0, scale := 1.0)
    else
      z.(zooming := true, scale := if z.isMagnifying then 1.0 - (1.0 - adj) else z.scaleFactor - (1.0 - adj))
  }

  /** The size is the one computed for the ladder position. */
  predicate CalibratedAt(z: ZoomState, gridWidth: real, landscape: bool)
  {
    z.size == CalculateUpdatedSize(gridWidth, landscape, z.index)
  }

  /** A step in happens exactly when the grid is at rest or shrunk, the
      signal is below its reference and the position is not past the last
      stage. */
  lemma ChangedStepInWhen(z: ZoomState, state: real, gridWidth: real, landscape: bool)
    requires z.size > 0.0 && WidthFits(gridWidth, landscape)
    ensures Changed(z, state, gridWidth, landscape).index == z.index + 1 <==>
              z.scale <= 1.0 && state - z.previous < 1.0 && z.index <= |ZoomStages(landscape)| - 1
  {
  }

  /** A step in lands on the next position's size, with the scale chosen so
      that the items keep their old on-screen size and the zoom factor its
      inverse; from a calibrated state it never enlarges the items. */
  lemma ChangedStepIn(z: ZoomState, state: real, gridWidth: real, landscape: bool)
    requires z.size > 0.0 && WidthFits(gridWidth, landscape)
    requires z.scale <= 1.0 && state - z.previous < 1.0 && z.index <= |ZoomStages(landscape)| - 1
    ensures var r := Changed(z, state, gridWidth, landscape);
            && CalibratedAt(r, gridWidth, landscape)
            && r.scale * r.size == z.size && r.zoomFactor * z.size == r.size
            && r.scale == r.scaleFactor && r.previous == state - 1.0 && !r.isMagnifying
  {
    var u := CalculateUpdatedSize(gridWidth, landscape, z.index + 1);
    UpdatedSizePositive(gridWidth, landscape, z.index + 1);
    var r := Changed(z, state, gridWidth, landscape);
    assert r.size == u && r.scale == z.size / u && r.zoomFactor == u / z.size;
    DivTimes(z.size, u);
    DivTimes(u, z.size);
  }

  /** From a calibrated state a step in never enlarges the items, so the
      scale that keeps their on-screen size is at least one. */
  lemma ChangedStepInShrinks(z: ZoomState, state: real, gridWidth: real, landscape: bool)
    requires z.size > 0.0 && WidthFits(gridWidth, landscape) && CalibratedAt(z, gridWidth, landscape)
    requires z.scale <= 1.0 && state - z.previous < 1.0 && z.index <= |ZoomStages(landscape)| - 1
    ensures Changed(z, state, gridWidth, landscape).size <= z.size
    ensures Changed(z, state, gridWidth, landscape).scale >= 1.0
  {
    var u := CalculateUpdatedSize(gridWidth, landscape, z.index + 1);
    UpdatedSizePositive(gridWidth, landscape, z.index + 1);
    UpdatedSizeDecreasing(gridWidth, landscape, z.index, z.index + 1);
    RatioAtLeastOne(z.size, u);
  }

  /** A step out happens exactly when the update is not a pinch in, the
      scale has reached the zoom factor, the signal is above its reference
      and an earlier position exists. It lands on the previous position's
      size and zoom factor at scale one, and from a calibrated state it
      never shrinks the items. */
  lemma ChangedStepOut(z: ZoomState, state: real, gridWidth: real, landscape: bool)
    requires z.size > 0.0 && WidthFits(gridWidth, landscape)
    ensures var r := Changed(z, state, gridWidth, landscape);
            var adj := state - z.previous;
            r.index == z.index - 1 <==>
              !(z.scale <= 1.0 && adj < 1.0) && z.scale >= z.zoomFactor && adj > 1.0 && z.index != 0
    ensures var r := Changed(z, state, gridWidth, landscape);
            r.index == z.index - 1 ==>
              && CalibratedAt(r, gridWidth, landscape)
              && r.zoomFactor == ZoomFactorAt(gridWidth, landscape, r.index)
              && r.scale == 1.0 && r.scaleFactor == 1.0 && r.previous == state - 1.0 && r.isMagnifying
    ensures var r := Changed(z, state, gridWidth, landscape);
            r.index == z.index - 1 && CalibratedAt(z, gridWidth, landscape) ==> r.size >= z.size
  {
    var r := Changed(z, state, gridWidth, landscape);
    if r.index == z.index - 1 {
      UpdatedSizeDecreasing(gridWidth, landscape, z.index - 1, z.index);
    }
  }

  /** An update that does not step keeps the size, the factors and the
      reference offset: only the scale (and the gesture flags) move. At the
      ends of the ladder the scale follows the signal only inside the
      elastic limits. */
  lemma ChangedWithoutStep(z: ZoomState, state: real, gridWidth: real, landscape: bool)
    requires z.size > 0.0 && WidthFits(gridWidth, landscape)
    ensures var r := Changed(z, state, gridWidth, landscape);
            r.index == z.index ==>
              && r.size == z.size && r.zoomFactor == z.zoomFactor && r.scaleFactor == z.scaleFactor
              && r.previous == z.previous
    ensures var r := Changed(z, state, gridWidth, landscape);
            var adj := state - z.previous;
            z.scale <= 1.0 && adj < 1.0 && z.index > |ZoomStages(landscape)| - 1 ==>
              r.scale == z.scale || (adj > InLimit && r.scale == z.scaleFactor - (1.0 - adj))
    ensures var r := Changed(z, state, gridWidth, landscape);
            var adj := state - z.previous;
            !(z.scale <= 1.0 && adj < 1.0) && z.scale >= z.zoomFactor && adj > 1.0 && z.index == 0 ==>
              r.scale == z.scale || (adj < OutLimit && r.scale == adj)
  {
  }

  /** A calibrated state stays calibrated through any update. */
  lemma ChangedKeepsCalibrated(z: ZoomState, state: real, gridWidth: real, landscape: bool)
    requires z.size > 0.0 && WidthFits(gridWidth, landscape)
    requires CalibratedAt(z, gridWidth, landscape)
    ensures CalibratedAt(Changed(z, state, gridWidth, landscape), gridWidth, landscape)
  {
    ChangedStepInWhen(z, state, gridWidth, landscape);
    if z.scale <= 1.0 && state - z.previous < 1.0 && z.index <= |ZoomStages(landscape)| - 1 {
      ChangedStepIn(z, state, gridWidth, landscape);
    }
    ChangedStepOut(z, state, gridWidth, landscape);
    ChangedWithoutStep(z, state, gridWidth, landscape);
  }

  class CustomLazyVGridView {
    const env: PhotosImageViewmodel
    var size: real
    var currentZoomStageIndex: int
    var scale: real
    var scaleFactor: real
    var zoomFactor: real
    var isMagnifying: bool
    var previousZoomStageUpdateState: real
    var adjustedState: real
    var gridWidth: real
    var zooming: bool

    /** Items have a positive size and the ladder position is never negative. */
    predicate Valid()
      reads this
    {
      size > 0.0 && currentZoomStageIndex >= 0
    }

    /** The item size is the one computed for the current ladder position. */
    predicate Calibrated(landscape: bool)
      reads this
    {
      size == CalculateUpdatedSize(gridWidth, landscape, currentZoomStageIndex)
    }

    /** The gesture part of the state as a value. */
    function Snapshot(): ZoomState
      reads this
    {
      ZoomState(size, currentZoomStageIndex, scale, scaleFactor, zoomFactor, isMagnifying,
                previousZoomStageUpdateState, zooming)
    }

    /** The stored defaults: 100-point items at ladder position 2, no zoom. */
    constructor (env: PhotosImageViewmodel)
      ensures Valid() && this.env == env
      ensures size == 100.0 && currentZoomStageIndex == 2
      ensures scale == 1.0 && scaleFactor == 1.0 && zoomFactor == 1.0
      ensures !isMagnifying && !zooming && gridWidth == 0.0
      ensures previousZoomStageUpdateState == 0.0 && adjustedState == 0.0
    {
      this.env := env;
      size, currentZoomStageIndex := 100.0, 2;
      scale, scaleFactor, zoomFactor := 1.0, 1.0, 1.0;
      isMagnifying, zooming := false, false;
      previousZoomStageUpdateState, adjustedState, gridWidth := 0.0, 0.0, 0.0;
    }

    /** `calculateZoomFactor`: the size for `index`, and the factor that
        scales it up to the size one stage back. */
    method CalculateZoomFactor(index: int, landscape: bool)
      requires WidthFits(gridWidth, landscape)
      modifies this`zoomFactor, this`size
      ensures size == CalculateUpdatedSize(gridWidth, landscape, index) && size > 0.0
      ensures zoomFactor == ZoomFactorAt(gridWidth, landscape, index)
    {
      var currentSize := CalculateUpdatedSize(gridWidth, landscape, index);
      var magnifiedSize := CalculateUpdatedSize(gridWidth, landscape, index - 1);
      UpdatedSizePositive(gridWidth, landscape, index);
      zoomFactor := magnifiedSize / currentSize;
      size := currentSize;
    }

    /** The grid appears: its width is measured and the size and zoom factor
        are computed for the stored ladder position. */
    method OnAppear(width: real, landscape: bool)
      requires Valid() && WidthFits(width, landscape)
      modifies this`gridWidth, this`zoomFactor, this`size
      ensures Valid() && Calibrated(landscape) && gridWidth == width
      ensures zoomFactor == ZoomFactorAt(width, landscape, currentZoomStageIndex)
    {
      gridWidth := width;
      CalculateZoomFactor(currentZoomStageIndex, landscape);
    }

    /** `resetZoomVariables`: back to rest at the current ladder position. */
    method ResetZoomVariables(landscape: bool)
      requires Valid() && WidthFits(gridWidth, landscape)
      modifies this`zoomFactor, this`size, this`zooming, this`scale, this`scaleFactor,
               this`previousZoomStageUpdateState, this`adjustedState
      ensures Valid() && Calibrated(landscape)
      ensures zoomFactor == ZoomFactorAt(gridWidth, landscape, currentZoomStageIndex)
      ensures !zooming && scale == 1.0 && scaleFactor == 1.0
      ensures previousZoomStageUpdateState == 0.0 && adjustedState == 0.0
    {
      CalculateZoomFactor(currentZoomStageIndex, landscape);
      zooming := false;
      scale := 1.0;
      scaleFactor := 1.0;
      previousZoomStageUpdateState := 0.0;
      adjustedState := 0.0;
    }

    /** The stage change of a pinch in: one position further along, the
        item size for it, and the scale that shows the new items at the old
        size; the signal's reference moves so that the next update starts
        from rest. */
    method StepIn(state: real, landscape: bool)
      requires Valid() && WidthFits(gridWidth, landscape)
      modifies this`scale, this`scaleFactor, this`zoomFactor, this`size, this`currentZoomStageIndex,
               this`previousZoomStageUpdateState
      ensures Valid()
      ensures var updated := CalculateUpdatedSize(gridWidth, landscape, old(currentZoomStageIndex) + 1);
              Snapshot() == old(Snapshot()).(previous := state - 1.0, zoomFactor := updated / old(size),
                                             scaleFactor := old(size) / updated, scale := old(size) / updated,
                                             size := updated, index := old(currentZoomStageIndex) + 1)
    {
      var updatedSize := CalculateUpdatedSize(gridWidth, landscape, currentZoomStageIndex + 1);
      UpdatedSizePositive(gridWidth, landscape, currentZoomStageIndex + 1);
      previousZoomStageUpdateState := state - 1.0;
      zoomFactor := updatedSize / size;
      scaleFactor := size / updatedSize;
      scale := scaleFactor;
      size := updatedSize;
      currentZoomStageIndex := currentZoomStageIndex + 1;
    }

    /** The stage change of a spread: one position back, with the size and
        zoom factor recomputed for it and the scale back to one. */
    method StepOut(state: real, landscape: bool)
      requires Valid() && WidthFits(gridWidth, landscape) && currentZoomStageIndex > 0
      modifies this`scale, this`scaleFactor, this`zoomFactor, this`size, this`currentZoomStageIndex,
               this`previousZoomStageUpdateState
      ensures Valid()
      ensures var i := old(currentZoomStageIndex) - 1;
              Snapshot() == old(Snapshot()).(index := i, previous := state - 1.0,
                                             size := CalculateUpdatedSize(gridWidth, landscape, i),
                                             zoomFactor := ZoomFactorAt(gridWidth, landscape, i),
                                             scaleFactor := 1.0, scale := 1.0)
    {
      currentZoomStageIndex := currentZoomStageIndex - 1;
      previousZoomStageUpdateState := state - 1.0;
      CalculateZoomFactor(currentZoomStageIndex, landscape);
      scaleFactor := 1.0;
      scale := 1.0;
    }

    /** One magnification update, as Changed describes it. The clamped
        adjustment is a local: the stored `adjustedState` is never written. */
    method OnChanged(state: real, landscape: bool)
      requires Valid() && WidthFits(gridWidth, landscape)
      modifies this`scale, this`scaleFactor, this`zoomFactor, this`size, this`currentZoomStageIndex,
               this`previousZoomStageUpdateState, this`isMagnifying, this`zooming
      ensures Valid()
      ensures Snapshot() == Changed(old(Snapshot()), state, gridWidth, landscape)
    {
      var adjusted := state - previousZoomStageUpdateState;
      if scale <= 1.0 && adjusted < 1.0 {
        ChangedInward(state, landscape);
      } else if scale >= zoomFactor && adjusted > 1.0 {
        ChangedOutward(state, landscape);
      } else {
        zooming := true;
        if isMagnifying {
          scale := 1.0 - (1.0 - adjusted);
        } else {
          scale := scaleFactor - (1.0 - adjusted);
        }
      }
    }

    /** The pinch-in branch of an update: a step in, or past the last stage
        an elastic stretch. */
    method ChangedInward(state: real, landscape: bool)
      requires Valid() && WidthFits(gridWidth, landscape)
      requires scale <= 1.0 && state - previousZoomStageUpdateState < 1.0
      modifies this`scale, this`scaleFactor, this`zoomFactor, this`size, this`currentZoomStageIndex,
               this`previousZoomStageUpdateState, this`isMagnifying, this`zooming
      ensures Valid()
      ensures Snapshot() == Changed(old(Snapshot()), state, gridWidth, landscape)
    {
      var adjusted := state - previousZoomStageUpdateState;
      zooming := true;
      isMagnifying := false;
      if currentZoomStageIndex > |ZoomStages(landscape)| - 1 {
        if adjusted > InLimit {
          scale := scaleFactor - (1.0 - adjusted);
        } else {
          // The source clamps the local adjustment here; nothing is stored.
          adjusted := InLimit;
        }
      } else {
        StepIn(state, landscape);
      }
    }

    /** The spread branch of an update: a step out, or at the first stage
        an elastic stretch. */
    method ChangedOutward(state: real, landscape: bool)
      requires Valid() && WidthFits(gridWidth, landscape)
      requires !(scale <= 1.0 && state - previousZoomStageUpdateState < 1.0)
      requires scale >= zoomFactor && state - previousZoomStageUpdateState > 1.0
      modifies this`scale, this`scaleFactor, this`zoomFactor, this`size, this`currentZoomStageIndex,
               this`previousZoomStageUpdateState, this`isMagnifying, this`zooming
      ensures Valid()
      ensures Snapshot() == Changed(old(Snapshot()), state, gridWidth, landscape)
    {
      var adjusted := state - previousZoomStageUpdateState;
      zooming := true;
      isMagnifying := true;
      if currentZoomStageIndex == 0 {
        if adjusted < OutLimit {
          scale := 1.0 - (1.0 - adjusted);
        } else {
          // The source clamps the local adjustment here; nothing is stored.
          adjusted := OutLimit;
        }
      } else {
        StepOut(state, landscape);
      }
    }

    /** The same update with the clamped adjustment stored in the view's
        state, so that the release can see it. */
    method OnChangedRecording(state: real, landscape: bool)
      requires Valid() && WidthFits(gridWidth, landscape)
      modifies this`scale, this`scaleFactor, this`zoomFactor, this`size, this`currentZoomStageIndex,
               this`previousZoomStageUpdateState, this`isMagnifying, this`zooming, this`adjustedState
      ensures Valid()
      ensures Snapshot() == Changed(old(Snapshot()), state, gridWidth, landscape)
      ensures adjustedState == LocalAdjustment(state, old(previousZoomStageUpdateState), old(scale),
                                               old(zoomFactor), old(currentZoomStageIndex),
                                               |ZoomStages(landscape)|)
      ensures adjustedState > 1.0 <==> state - old(previousZoomStageUpdateState) > 1.0
    {
      var recorded := LocalAdjustment(state, previousZoomStageUpdateState, scale, zoomFactor,
                                      currentZoomStageIndex, |ZoomStages(landscape)|);
      OnChanged(state, landscape);
      adjustedState := recorded;
    }

    /** The pinch is released. If the stored adjustment is above one the
        grid settles on the zoom factor and then moves one stage back (when
        there is one); either way every gesture variable is reset at the
        resulting position. */
    method OnEnded(landscape: bool)
      requires Valid() && WidthFits(gridWidth, landscape)
      modifies this`zoomFactor, this`size, this`zooming, this`scale, this`scaleFactor,
               this`previousZoomStageUpdateState, this`adjustedState, this`currentZoomStageIndex
      ensures Valid() && Calibrated(landscape)
      ensures currentZoomStageIndex ==
                if old(adjustedState) > 1.0 && old(currentZoomStageIndex) > 0
                then old(currentZoomStageIndex) - 1 else old(currentZoomStageIndex)
      ensures !zooming && scale == 1.0 && scaleFactor == 1.0
      ensures previousZoomStageUpdateState == 0.0 && adjustedState == 0.0
      ensures zoomFactor == ZoomFactorAt(gridWidth, landscape, currentZoomStageIndex)
    {
      var shouldMagnify := adjustedState > 1.0;
      if shouldMagnify {
        scale := zoomFactor;
      } else {
        ResetZoomVariables(landscape);
      }
      if shouldMagnify {
        if currentZoomStageIndex > 0 {
          currentZoomStageIndex := currentZoomStageIndex - 1;
        }
        ResetZoomVariables(landscape);
      }
    }

    /** `moveScrollToSelectedPhoto`: scroll to the open photo's cell, or,
        when there is nothing to scroll to, open the last photo if none is
        open. */
    method MoveScrollToSelectedPhoto(photosArr: seq<PhotosImage>, selected: Option<PhotosImage>,
                                     landscape: bool) returns (r: ScrollRequest)
      requires Valid()
      modifies env`selected
      ensures r == ScrollTarget(photosArr, selected, landscape, currentZoomStageIndex)
      ensures r.Fallback? ==> env.selected == AutoSelect(old(env.selected), env.photosArr)
      ensures r.ScrollTo? ==> env.selected == old(env.selected)
    {
      r := ScrollTarget(photosArr, selected, landscape, currentZoomStageIndex);
      if r.Fallback? {
        env.InitializeSelectedPhotoInTotal();
      }
    }
  }

  /** As written: on a 390-point portrait grid at the default position, a
      spread of 5% past rest followed by a release leaves the ladder where
      it was, because the release reads a stored adjustment that stays zero. */
  method SmallSpreadReleasedAsWritten(env: PhotosImageViewmodel) returns (before: int, after: int)
    ensures before == 2 && after == 2
  {
    var grid := new CustomLazyVGridView(env);
    grid.OnAppear(390.0, false);
    PortraitSizesAt390();
    before := grid.currentZoomStageIndex;
    grid.OnChanged(1.05, false);
    grid.OnEnded(false);
    after := grid.currentZoomStageIndex;
  }

  /** With the adjustment stored, the same spread and release moves one
      stage back, to larger items. */
  method SmallSpreadReleasedRecorded(env: PhotosImageViewmodel) returns (before: int, after: int)
    ensures before == 2 && after == 1
  {
    var grid := new CustomLazyVGridView(env);
    grid.OnAppear(390.0, false);
    PortraitSizesAt390();
    ZoomFactorAtLeastOne(390.0, false, 2);
    before := grid.currentZoomStageIndex;
    grid.OnChangedRecording(1.05, false);
    grid.OnEnded(false);
    after := grid.currentZoomStageIndex;
  }

  /** Pinching in twice at the last portrait stage walks the index one past
      the ladder's end, where the size stays that of the last stage, and no
      further. */
  method PinchInPastLastStage(env: PhotosImageViewmodel) returns (index: int, size: real)
    ensures index == 3 && size == 76.0
  {
    var grid := new CustomLazyVGridView(env);
    grid.OnAppear(390.0, false);
    PortraitSizesAt390();
    grid.OnChanged(0.9, false);
    grid.OnChanged(0.8, false);
    index, size := grid.currentZoomStageIndex, grid.size;
  }
}
