/** The photo record of the gallery (`PhotosImage`) and the orientation-dependent
    ladder of grid column counts ("zoom stages") that the grid and its pinch
    gesture step through. Everything here is a value: no state. */
module PhotoRecord {

  datatype Option<T> = None | Some(value: T)

  /** The part of a creation date the core uses: calendar year and month. */
  datatype YearMonth = YearMonth(year: int, month: int)

  /** Opaque handle of a decoded thumbnail; never inspected by the core. */
  datatype ImageHandle = ImageHandle(handle: nat)

  /** Opaque geocoordinate; stored and copied, never interpreted. */
  datatype Location = Location(latitude: real, longitude: real)

  /** One photo. Its eight-argument initialiser is this constructor itself. */
  datatype PhotosImage = PhotosImage(
    id: string,
    image: ImageHandle,
    creationDate: Option<YearMonth>,
    location: Option<Location>,
    pixelWidth: real,
    pixelHeight: real,
    isFavorite: bool,
    isSelected: bool)

  /** The seven-argument initialiser: every argument is copied, and the photo
      starts out not selected. */
  function NewPhoto(id: string, image: ImageHandle, creationDate: Option<YearMonth>,
                    location: Option<Location>, pixelWidth: real, pixelHeight: real,
                    isFavorite: bool): (p: PhotosImage)
    ensures p.id == id && p.image == image
    ensures p.creationDate == creationDate && p.location == location
    ensures p.pixelWidth == pixelWidth && p.pixelHeight == pixelHeight
    ensures p.isFavorite == isFavorite && !p.isSelected
  {
    PhotosImage(id, image, creationDate, location, pixelWidth, pixelHeight, isFavorite, false)
  }

  /** The record's `==`: two photos are the same photo when their ids agree. */
  predicate Equal(a: PhotosImage, b: PhotosImage): (same: bool)
    ensures same <==> a.(image := b.image, creationDate := b.creationDate, location := b.location,
                         pixelWidth := b.pixelWidth, pixelHeight := b.pixelHeight,
                         isFavorite := b.isFavorite, isSelected := b.isSelected) == b
  {
    a.id == b.id
  }

  /** `==` is an equivalence that looks at the id alone: flags, date, place,
      size and image never make two photos with one id different. */
  lemma EqualIsIdentityById(a: PhotosImage, b: PhotosImage, c: PhotosImage)
    ensures Equal(a, b) <==> a.id == b.id
    ensures Equal(a, a) && (Equal(a, b) ==> Equal(b, a))
    ensures Equal(a, b) && Equal(b, c) ==> Equal(a, c)
    ensures var b' := b.(image := c.image, creationDate := c.creationDate, location := c.location,
                         pixelWidth := c.pixelWidth, pixelHeight := c.pixelHeight,
                         isFavorite := c.isFavorite, isSelected := c.isSelected);
            Equal(a, b') <==> Equal(a, b)
  {
  }

  /** Column counts per row, fewest (largest items) first: `[4, 6, 8, 9]` in
      landscape and `[1, 3, 5]` otherwise. */
  function ZoomStages(landscape: bool): (stages: seq<int>)
    ensures |stages| >= 3
    ensures forall i :: 0 <= i < |stages| ==> stages[i] >= 1
    ensures forall i, j :: 0 <= i < j < |stages| ==> stages[i] < stages[j]
    ensures stages[|stages| - 1] <= 9
  {
    if landscape then [4, 6, 8, 9] else [1, 3, 5]
  }

  /** The stage at a ladder position, clamped: an index past the end gives
      the last stage and a negative index gives the first. */
  function GetZoomStage(landscape: bool, index: int): (n: int)
    ensures n in ZoomStages(landscape) && n >= 1
    ensures 0 <= index < |ZoomStages(landscape)| ==> n == ZoomStages(landscape)[index]
    ensures index >= |ZoomStages(landscape)| ==> n == ZoomStages(landscape)[|ZoomStages(landscape)| - 1]
    ensures index < 0 ==> n == ZoomStages(landscape)[0]
  {
    var stages := ZoomStages(landscape);
    if index >= |stages| then
      stages[|stages| - 1]
    else if index < 0 then
      stages[0]
    else
      stages[index]
  }

  /** The largest valid ladder position; every position from it on looks up
      the same (last) stage. */
  function GetMaxZoomStageIndex(landscape: bool): (m: int)
    ensures 0 <= m && m + 1 == |ZoomStages(landscape)|
    ensures forall i :: i >= m ==> GetZoomStage(landscape, i) == GetZoomStage(landscape, m)
  {
    |ZoomStages(landscape)| - 1
  }

  /** Looking further along the ladder never gives fewer columns, and inside
      the ladder it gives strictly more. */
  lemma GetZoomStageMonotone(landscape: bool, i: int, j: int)
    requires i <= j
    ensures GetZoomStage(landscape, i) <= GetZoomStage(landscape, j)
    ensures 0 <= i < j < |ZoomStages(landscape)| ==> GetZoomStage(landscape, i) < GetZoomStage(landscape, j)
  {
  }
}
