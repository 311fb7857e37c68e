/** The full-screen pager over the open photo: pinch to scale (never below
    one), drag to pan, a vertical fling to close, a horizontal swipe to the
    neighbouring photo, a double tap between 1x and 2x, and the favourite
    button. The open photo and the photo array belong to the shared photo
    index. Gesture values (translations, touch points, the view's size) are
    parameters. */
module DetailPager {
  import opened PhotoRecord
  import opened PhotoList
  import opened PhotoIndex

  /** A two-dimensional displacement. */
  datatype Offset = Offset(width: real, height: real)

  const Zero: Offset := Offset(0.0, 0.0)

  /** A horizontal swipe must travel more than this many points. */
  const SwipeDistance: real := 50.0

  /** Absolute value of a real. */
  function Abs(x: real): (r: real)
    ensures r >= 0.0 && (r == x || r == -x)
  {
    if x < 0.0 then -x else x
  }

  /** The position a horizontal swipe of `width` moves to from the photo
      with the id: the previous photo for a swipe right, the next for a
      swipe left, nothing at the array's ends, for short swipes or when the
      photo is not in the array. */
  function SwipeTarget(arr: seq<PhotosImage>, id: string, width: real): (r: Option<nat>)
    ensures r.Some? ==> r.value < |arr|
    ensures r.Some? <==>
              HasId(arr, id) &&
              var i := FirstIndexOfId(arr, id).value;
              (width > SwipeDistance && i > 0) || (width <= SwipeDistance && width < -SwipeDistance && i < |arr| - 1)
    ensures r.Some? && width > SwipeDistance ==> r.value + 1 == FirstIndexOfId(arr, id).value
    ensures r.Some? && width <= SwipeDistance ==> r.value == FirstIndexOfId(arr, id).value + 1
  {
    if width > SwipeDistance then
      match FirstIndexOfId(arr, id)
      case Some(i) => if i > 0 then Some(i - 1) else None
      case None => None
    else if width < -SwipeDistance then
      match FirstIndexOfId(arr, id)
      case Some(i) => if i < |arr| - 1 then Some(i + 1) else None
      case None => None
    else None
  }

  /** In an array without duplicate ids a swipe right followed by a swipe
      left (or the other way round) comes back to the photo it started
      from. */
  lemma SwipeBackReturns(arr: seq<PhotosImage>, id: string, width: real, back: real)
    requires IdUnique(arr)
    requires (width > SwipeDistance && back < -SwipeDistance) || (width < -SwipeDistance && back > SwipeDistance)
    requires SwipeTarget(arr, id, width).Some?
    ensures var j := SwipeTarget(arr, id, width).value;
            SwipeTarget(arr, arr[j].id, back) == FirstIndexOfId(arr, id)
  {
    var j := SwipeTarget(arr, id, width).value;
    var k := FirstIndexOfId(arr, arr[j].id);
    assert k == Some(j);
  }

  /** `toggleFavorite` on the array: the first photo with the id has its
      favourite flag flipped; every other element, and that photo's other
      fields, stay as they were. */
  function FlipFavorite(arr: seq<PhotosImage>, id: string): (r: seq<PhotosImage>)
    ensures |r| == |arr|
    ensures forall k :: 0 <= k < |arr| ==>
              r[k].id == arr[k].id && r[k].isSelected == arr[k].isSelected && r[k].creationDate == arr[k].creationDate
    ensures !HasId(arr, id) ==> r == arr
    ensures HasId(arr, id) ==>
              var i := FirstIndexOfId(arr, id).value;
              r[i].isFavorite == !arr[i].isFavorite && r[i] == arr[i].(isFavorite := r[i].isFavorite) &&
              forall k :: 0 <= k < |arr| && k != i ==> r[k] == arr[k]
  {
    match FirstIndexOfId(arr, id)
    case None => arr
    case Some(i) => arr[i := arr[i].(isFavorite := !arr[i].isFavorite)]
  }

  /** Tapping the favourite button twice on the same photo changes nothing. */
  lemma FlipFavoriteTwice(arr: seq<PhotosImage>, id: string)
    ensures FlipFavorite(FlipFavorite(arr, id), id) == arr
  {
    var once := FlipFavorite(arr, id);
    if HasId(arr, id) {
      var i := FirstIndexOfId(arr, id).value;
      assert FirstIndexOfId(once, id) == Some(i);
    } else {
      assert !HasId(once, id);
    }
  }

  /** The open photo and its entry in the array agree. */
  predicate InSync(arr: seq<PhotosImage>, selected: Option<PhotosImage>)
  {
    selected.Some? && HasId(arr, selected.value.id) && arr[FirstIndexOfId(arr, selected.value.id).value] == selected.value
  }

  class PhotosDetailView {
    const env: PhotosImageViewmodel
    var isZoom: bool
    var screenW: real
    var scale: real
    var lastScale: real
    var offset: Offset
    var lastOffset: Offset
    var zooming: bool
    var currentPhotoIndex: int
    var isShowingDetail: bool

    /** The photo is never shown below its fitted size. */
    predicate Valid()
      reads this
    {
      scale >= 1.0 && lastScale >= 1.0
    }

    /** The pager at rest over the shared index, shown or not as the
        presenting view says. */
    constructor (env: PhotosImageViewmodel, showing: bool)
      ensures Valid() && this.env == env && isShowingDetail == showing
      ensures !isZoom && screenW == 0.0 && scale == 1.0 && lastScale == 1.0
      ensures offset == Zero && lastOffset == Zero && !zooming && currentPhotoIndex == 0
    {
      this.env := env;
      isZoom, screenW, scale, lastScale := false, 0.0, 1.0, 1.0;
      offset, lastOffset, zooming, currentPhotoIndex := Zero, Zero, false, 0;
      isShowingDetail := showing;
    }

    /** The pager appears over `photo`: the page index is the photo's
        position in the array, or 0 when it is not there. */
    method OnAppear(photo: PhotosImage, width: real)
      modifies this`screenW, this`currentPhotoIndex
      ensures screenW == width
      ensures HasId(env.photosArr, photo.id) ==>
                && 0 <= currentPhotoIndex < |env.photosArr| && env.photosArr[currentPhotoIndex].id == photo.id
                && forall k :: 0 <= k < currentPhotoIndex ==> env.photosArr[k].id != photo.id
      ensures !HasId(env.photosArr, photo.id) ==> currentPhotoIndex == 0
    {
      screenW := width;
      var found := FirstIndexOfId(env.photosArr, photo.id);
      currentPhotoIndex := if found.Some? then found.value else 0;
    }

    /** Pinch update: the scale follows the pinch relative to where the last
        pinch ended, but never drops below one. */
    method PinchChanged(value: real)
      requires Valid()
      modifies this`zooming, this`scale
      ensures Valid() && zooming
      ensures scale == lastScale * value || (scale == 1.0 && lastScale * value < 1.0)
    {
      zooming := true;
      scale := if lastScale * value > 1.0 then lastScale * value else 1.0;
    }

    /** Pinch end: the scale is kept as the base of the next pinch. */
    method PinchEnded()
      requires Valid()
      modifies this`zooming, this`lastScale
      ensures Valid() && !zooming && lastScale == scale
    {
      zooming := false;
      lastScale := scale;
    }

    /** Drag update: the photo is displaced by the translation from where
        the last drag ended. */
    method DragChanged(translationWidth: real, translationHeight: real)
      modifies this`offset
      ensures offset.width - lastOffset.width == translationWidth
      ensures offset.height - lastOffset.height == translationHeight
    {
      offset := Offset(translationWidth + lastOffset.width, translationHeight + lastOffset.height);
    }

    /** Drag end. The offset reached is kept. Unless a pinch is in progress:
        a vertical travel beyond a third of the view's height closes (or
        reopens) the pager, otherwise the photo snaps back; and a horizontal
        swipe opens the neighbouring photo, if there is one. */
    method DragEnded(translationWidth: real, translationHeight: real, height: real, photo: PhotosImage)
      modifies this`lastOffset, this`isShowingDetail, this`offset, this`currentPhotoIndex, env`selected
      ensures lastOffset == old(offset)
      ensures old(zooming) ==>
                && isShowingDetail == old(isShowingDetail) && offset == old(offset)
                && currentPhotoIndex == old(currentPhotoIndex) && env.selected == old(env.selected)
      ensures !old(zooming) ==>
                && isShowingDetail == (old(isShowingDetail) != (Abs(translationHeight) > height / 3.0))
                && offset == (if Abs(translationHeight) > height / 3.0 then old(offset) else Zero)
      ensures !old(zooming) ==>
                match SwipeTarget(env.photosArr, photo.id, translationWidth)
                case Some(j) => currentPhotoIndex == j && env.selected == Some(env.photosArr[j])
                case None => currentPhotoIndex == old(currentPhotoIndex) && env.selected == old(env.selected)
    {
      lastOffset := offset;
      if !zooming {
        if Abs(translationHeight) > height / 3.0 {
          isShowingDetail := !isShowingDetail;
        } else {
          offset := Zero;
        }
        if translationWidth > SwipeDistance {
          var found := FirstIndexOfId(env.photosArr, photo.id);
          if found.Some? && found.value > 0 {
            env.selected := Some(env.photosArr[found.value - 1]);
            currentPhotoIndex := found.value - 1;
          }
        } else if translationWidth < -SwipeDistance {
          var found := FirstIndexOfId(env.photosArr, photo.id);
          if found.Some? && found.value < |env.photosArr| - 1 {
            env.selected := Some(env.photosArr[found.value + 1]);
            currentPhotoIndex := found.value + 1;
          }
        }
      }
    }

    /** Double tap at (x, y) in a view of the given size: from rest it zooms
        to 2x, offset so that the touched point stays under the finger;
        otherwise it returns to rest. The pinch base follows the scale. */
    method HandleDoubleTap(x: real, y: real, width: real, height: real)
      requires Valid()
      modifies this`zooming, this`isZoom, this`scale, this`offset, this`lastScale
      ensures Valid() && zooming == !old(zooming) && lastScale == scale
      ensures old(scale) == 1.0 ==> isZoom && scale == 2.0
      ensures old(scale) == 1.0 ==>
                && width / 2.0 + scale * (x - width / 2.0) + offset.width == x
                && height / 2.0 + scale * (y - height / 2.0) + offset.height == y
      ensures old(scale) != 1.0 ==> !isZoom && scale == 1.0 && offset == Zero
    {
      var centerX := width / 2.0;
      var centerY := height / 2.0;
      zooming := !zooming;
      if scale == 1.0 {
        isZoom := true;
        scale := 2.0;
        offset := Offset((centerX - x) * (scale - 1.0), (centerY - y) * (scale - 1.0));
      } else {
        isZoom := false;
        scale := 1.0;
        offset := Zero;
      }
      lastScale := scale;
    }

    /** `toggleFavorite`: flips the favourite flag of the open photo's entry
        in the array; nothing happens when no photo is open or it is not in
        the array. The index's invariants are kept. */
    method ToggleFavorite(selected: Option<PhotosImage>)
      requires env.Valid()
      modifies env`photosArr
      ensures env.Valid()
      ensures env.photosArr == if selected.Some? then FlipFavorite(old(env.photosArr), selected.value.id)
                               else old(env.photosArr)
      ensures old(env.SelectionInStep()) ==> env.SelectionInStep()
      ensures old(env.Filed()) ==> env.Filed()
    {
      if selected.None? {
        return;
      }
      var photo := selected.value;
      var found := FirstIndexOfId(env.photosArr, photo.id);
      if found.Some? {
        var idx := found.value;
        env.photosArr := env.photosArr[idx := env.photosArr[idx].(isFavorite := !env.photosArr[idx].isFavorite)];
        SameIdsKeep(old(env.photosArr), env.photosArr, env.selectedPhotos, env.yearsDicts, env.monthDicts);
      }
    }

    /** The favourite button: the array entry and the open photo's own copy
        are both flipped, so a copy in step with its entry stays in step. */
    method FavoriteButton()
      requires env.Valid()
      modifies env`photosArr, env`selected
      ensures env.Valid()
      ensures env.photosArr == if old(env.selected).Some? then FlipFavorite(old(env.photosArr), old(env.selected).value.id)
                               else old(env.photosArr)
      ensures env.selected == if old(env.selected).Some?
                              then Some(old(env.selected).value.(isFavorite := !old(env.selected).value.isFavorite))
                              else None
      ensures InSync(old(env.photosArr), old(env.selected)) ==> InSync(env.photosArr, env.selected)
      ensures old(env.SelectionInStep()) ==> env.SelectionInStep()
      ensures old(env.Filed()) ==> env.Filed()
    {
      ToggleFavorite(env.selected);
      if env.selected.Some? {
        env.selected := Some(env.selected.value.(isFavorite := !env.selected.value.isFavorite));
      }
      if InSync(old(env.photosArr), old(env.selected)) {
        var id := old(env.selected).value.id;
        assert FirstIndexOfId(env.photosArr, id) == FirstIndexOfId(old(env.photosArr), id);
      }
    }

    /** The close button flips the shown flag. */
    method CloseButton()
      modifies this`isShowingDetail
      ensures isShowingDetail == !old(isShowingDetail)
    {
      isShowingDetail := !isShowingDetail;
    }

    /** When the array becomes empty the pager's shown flag is flipped, which
        closes it. */
    method PhotosArrChanged()
      modifies this`isShowingDetail
      ensures isShowingDetail == (old(isShowingDetail) != (|env.photosArr| == 0))
    {
      if |env.photosArr| == 0 {
        isShowingDetail := !isShowingDetail;
      }
    }
  }

  /** Two double taps in a row, wherever they land, bring a pager at rest
      back to rest. */
  method DoubleTapTwiceRestores(env: PhotosImageViewmodel, x1: real, y1: real, x2: real, y2: real,
                                width: real, height: real) returns (view: PhotosDetailView)
    ensures view.scale == 1.0 && view.lastScale == 1.0 && view.offset == Zero
    ensures !view.isZoom && !view.zooming
  {
    view := new PhotosDetailView(env, true);
    view.HandleDoubleTap(x1, y1, width, height);
    view.HandleDoubleTap(x2, y2, width, height);
  }
}
