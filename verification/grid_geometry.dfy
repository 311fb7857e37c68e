/** The arithmetic of the photo grid: the item size for a number of columns,
    the padding cells that fill the first row, the row count, and where the
    grid scrolls to show the open photo. Sizes are `real`; counts are `int`,
    whose `/` agrees with the source's truncating division here because every
    dividend is non-negative. */
module GridGeometry {
  import opened PhotoRecord
  import opened PhotoList

  /** `calculateUpdatedSize`: the item size when the ladder position `index`
      is shown. Its `n` items, each with 2 points of spacing, exactly fill
      the grid width. */
  function CalculateUpdatedSize(gridWidth: real, landscape: bool, index: int): (size: real)
    ensures var n := GetZoomStage(landscape, index) as real;
            size * n + 2.0 * n == gridWidth
  {
    var n := GetZoomStage(landscape, index) as real;
    (gridWidth - 2.0 * n) / n
  }

  /** A grid wide enough for every stage of the ladder to have items of
      positive size. */
  predicate WidthFits(gridWidth: real, landscape: bool)
  {
    var stages := ZoomStages(landscape);
    gridWidth > 2.0 * (stages[|stages| - 1] as real)
  }

  /** Dividing a positive width among more columns gives less to each. */
  lemma DivDecreasing(w: real, a: real, b: real)
    requires w > 0.0 && 0.0 < a < b
    ensures w / a > w / b
  {
    var q := w / b;
    assert q * b == w;
    assert q * a < q * b;
    assert (w / a) * a == w;
  }

  /** For a positive width the item size falls strictly as the column count
      rises: moving along the ladder never gives larger items, and inside
      the ladder it gives strictly smaller ones. */
  lemma {:induction false} UpdatedSizeDecreasing(gridWidth: real, landscape: bool, i: int, j: int)
    requires gridWidth > 0.0 && i <= j
    ensures CalculateUpdatedSize(gridWidth, landscape, i) >= CalculateUpdatedSize(gridWidth, landscape, j)
    ensures 0 <= i < j < |ZoomStages(landscape)| ==>
              CalculateUpdatedSize(gridWidth, landscape, i) > CalculateUpdatedSize(gridWidth, landscape, j)
  {
    var a := GetZoomStage(landscape, i) as real;
    var b := GetZoomStage(landscape, j) as real;
    GetZoomStageMonotone(landscape, i, j);
    assert CalculateUpdatedSize(gridWidth, landscape, i) == gridWidth / a - 2.0;
    assert CalculateUpdatedSize(gridWidth, landscape, j) == gridWidth / b - 2.0;
    if a < b {
      DivDecreasing(gridWidth, a, b);
    }
  }

  /** Beyond either end of the ladder the size no longer changes. */
  lemma UpdatedSizeClamps(gridWidth: real, landscape: bool, index: int)
    ensures index >= |ZoomStages(landscape)| ==>
              CalculateUpdatedSize(gridWidth, landscape, index) ==
              CalculateUpdatedSize(gridWidth, landscape, |ZoomStages(landscape)| - 1)
    ensures index < 0 ==> CalculateUpdatedSize(gridWidth, landscape, index) == CalculateUpdatedSize(gridWidth, landscape, 0)
  {
  }

  /** In a grid that fits, every item size is positive. */
  lemma UpdatedSizePositive(gridWidth: real, landscape: bool, index: int)
    requires WidthFits(gridWidth, landscape)
    ensures CalculateUpdatedSize(gridWidth, landscape, index) > 0.0
  {
    var n := GetZoomStage(landscape, index) as real;
    var size := CalculateUpdatedSize(gridWidth, landscape, index);
    assert size * n == gridWidth - 2.0 * n;
    assert gridWidth - 2.0 * n > 0.0;
  }

  /** A portrait grid 390 points wide: one column of 388, three of 128,
      five of 76. */
  lemma PortraitSizesAt390()
    ensures CalculateUpdatedSize(390.0, false, 0) == 388.0
    ensures CalculateUpdatedSize(390.0, false, 1) == 128.0
    ensures CalculateUpdatedSize(390.0, false, 2) == 76.0
  {
  }

  /** A quotient times its divisor gives back the dividend. */
  lemma DivTimes(a: real, b: real)
    requires b != 0.0
    ensures (a / b) * b == a
  {
  }

  /** A positive ratio is at least one exactly when its numerator is at
      least its denominator. */
  lemma RatioAtLeastOne(a: real, b: real)
    requires a >= b > 0.0
    ensures (a / b) * b == a
    ensures a / b >= 1.0
    ensures a / b > 1.0 <==> a > b
  {
    assert (a / b) * b == a;
  }

  /** The factor that scales items of the size at `index` up to the size
      one ladder position back. */
  function ZoomFactorAt(gridWidth: real, landscape: bool, index: int): (f: real)
    requires WidthFits(gridWidth, landscape)
    ensures f * CalculateUpdatedSize(gridWidth, landscape, index) == CalculateUpdatedSize(gridWidth, landscape, index - 1)
  {
    UpdatedSizePositive(gridWidth, landscape, index);
    CalculateUpdatedSize(gridWidth, landscape, index - 1) / CalculateUpdatedSize(gridWidth, landscape, index)
  }

  /** One ladder position back never gives smaller items, and gives larger
      ones exactly when both positions are different stages of the ladder. */
  lemma UpdatedSizeStepBack(gridWidth: real, landscape: bool, index: int)
    requires WidthFits(gridWidth, landscape)
    ensures CalculateUpdatedSize(gridWidth, landscape, index - 1) >= CalculateUpdatedSize(gridWidth, landscape, index) > 0.0
    ensures CalculateUpdatedSize(gridWidth, landscape, index - 1) > CalculateUpdatedSize(gridWidth, landscape, index)
            <==> 0 < index < |ZoomStages(landscape)|
  {
    UpdatedSizePositive(gridWidth, landscape, index);
    UpdatedSizeDecreasing(gridWidth, landscape, index - 1, index);
    UpdatedSizeClamps(gridWidth, landscape, index);
    UpdatedSizeClamps(gridWidth, landscape, index - 1);
  }

  /** The zoom factor turns the current size into the previous stage's
      size. It is never below one, and above one exactly when the index and
      its predecessor are two different stages of the ladder; at index 0 the
      predecessor clamps to the first stage and the factor is one. */
  lemma ZoomFactorAtLeastOne(gridWidth: real, landscape: bool, index: int)
    requires WidthFits(gridWidth, landscape)
    ensures ZoomFactorAt(gridWidth, landscape, index) * CalculateUpdatedSize(gridWidth, landscape, index) ==
            CalculateUpdatedSize(gridWidth, landscape, index - 1)
    ensures ZoomFactorAt(gridWidth, landscape, index) >= 1.0
    ensures ZoomFactorAt(gridWidth, landscape, index) > 1.0 <==> 0 < index < |ZoomStages(landscape)|
  {
    UpdatedSizeStepBack(gridWidth, landscape, index);
    RatioAtLeastOne(CalculateUpdatedSize(gridWidth, landscape, index - 1), CalculateUpdatedSize(gridWidth, landscape, index));
  }

  /** Products with a positive factor keep the sign of the other factor. */
  lemma MulBounds(n: int, d: int)
    requires n >= 1
    ensures d >= 1 ==> n * d >= n
    ensures d <= 0 ==> n * d <= 0
  {
  }

  /** A multiple of `n` divides back exactly. */
  lemma MulDiv(k: int, n: int)
    requires n >= 1
    ensures (k * n) % n == 0 && (k * n) / n == k
  {
    var t := k * n;
    var d := k - t / n;
    assert n * d == t % n;
    MulBounds(n, d);
  }

  /** `calculateTotalCells`: the photo count rounded up to whole rows of the
      current column count. It is the least multiple of `n` that is at least
      the count. */
  function CalculateTotalCells(count: nat, landscape: bool, index: int): (total: int)
    ensures var n := GetZoomStage(landscape, index);
            && total % n == 0
            && count <= total < count + n
  {
    var n := GetZoomStage(landscape, index);
    MulDiv((count + n - 1) / n, n);
    (count + n - 1) / n * n
  }

  /** No multiple of the column count between the count and the total is
      skipped: the total is the least such multiple. */
  lemma {:induction false} TotalCellsIsLeast(count: nat, landscape: bool, index: int, m: int)
    requires var n := GetZoomStage(landscape, index); m % n == 0 && m >= count
    ensures CalculateTotalCells(count, landscape, index) <= m
  {
    var n := GetZoomStage(landscape, index);
    var total := CalculateTotalCells(count, landscape, index);
    var k, t := m / n, total / n;
    assert m == k * n && total == t * n;
    MulBounds(n, k - t);
    assert n * (k - t) == m - total;
  }

  /** The `forEachEmptyCell` count: the black cells drawn before the photos
      so that the photos end on a full row. Fewer than a row's worth. */
  function EmptyCellCount(count: nat, landscape: bool, index: int): (empty: int)
    ensures 0 <= empty < GetZoomStage(landscape, index)
    ensures (count + empty) % GetZoomStage(landscape, index) == 0
  {
    CalculateTotalCells(count, landscape, index) - count
  }

  /** The column count used for row arithmetic when scrolling: the stage at
      the index, or the last stage past the end. A negative index is outside
      what the source can look up. */
  function PhotosPerRow(landscape: bool, index: int): (n: int)
    requires index >= 0
    ensures n == GetZoomStage(landscape, index) && n >= 1
  {
    if index <= GetMaxZoomStageIndex(landscape) then ZoomStages(landscape)[index]
    else ZoomStages(landscape)[|ZoomStages(landscape)| - 1]
  }

  /** Rows needed for `count` photos at `perRow` per row, by ceiling
      division: the last row is non-empty and no more than full. */
  function TotalRows(count: nat, perRow: int): (rows: int)
    requires perRow >= 1
    ensures rows >= 0 && (rows == 0 <==> count == 0)
    ensures (rows - 1) * perRow < count <= rows * perRow || count == 0
  {
    var rows := (count + perRow - 1) / perRow;
    MulDiv(rows, perRow);
    assert (rows - 1) * perRow == rows * perRow - perRow;
    rows
  }

  /** Every photo's row is one of the rows, and it is the last row exactly
      when the photo comes after all the full rows before it. */
  lemma {:induction false} RowOfValidIndex(idx: nat, count: nat, perRow: int)
    requires perRow >= 1 && idx < count
    ensures idx / perRow <= TotalRows(count, perRow) - 1
    ensures idx / perRow == TotalRows(count, perRow) - 1 <==> idx >= (TotalRows(count, perRow) - 1) * perRow
  {
    var rows := TotalRows(count, perRow);
    var r := idx / perRow;
    assert r * perRow + idx % perRow == idx;
    MulBounds(perRow, rows - r);
    assert perRow * (rows - r) == rows * perRow - r * perRow;
    MulBounds(perRow, r + 1 - (rows - 1));
    assert perRow * (r + 1 - (rows - 1)) == (r + 1) * perRow - (rows - 1) * perRow;
  }

  /** Where the scroll view is anchored on the target cell. */
  datatype Anchor = Center | Bottom

  /** What `moveScrollToSelectedPhoto` does: scroll to a cell, or run the
      fallback action because there is nothing to scroll to. */
  datatype ScrollRequest = ScrollTo(index: nat, anchor: Anchor) | Fallback

  /** The scroll for the open photo: its first position in the array,
      anchored at the bottom when it is on the last row and centred
      otherwise; the fallback when nothing is open or the open photo is not
      in the array. */
  function ScrollTarget(photosArr: seq<PhotosImage>, selected: Option<PhotosImage>, landscape: bool,
                        zoomIndex: int): (r: ScrollRequest)
    requires zoomIndex >= 0
    ensures r.Fallback? <==> selected.None? || !HasId(photosArr, selected.value.id)
    ensures r.ScrollTo? ==>
              && r.index < |photosArr| && photosArr[r.index].id == selected.value.id
              && (forall j :: 0 <= j < r.index ==> photosArr[j].id != selected.value.id)
    ensures r.ScrollTo? ==>
              var n := GetZoomStage(landscape, zoomIndex);
              (r.anchor == Bottom <==> r.index >= (TotalRows(|photosArr|, n) - 1) * n)
  {
    match selected
    case None => Fallback
    case Some(photo) =>
      match FirstIndexOfId(photosArr, photo.id)
      case None => Fallback
      case Some(idx) =>
        var perRow := PhotosPerRow(landscape, zoomIndex);
        var totalRows := TotalRows(|photosArr|, perRow);
        RowOfValidIndex(idx, |photosArr|, perRow);
        ScrollTo(idx, if idx / perRow == totalRows - 1 then Bottom else Center)
  }
}
