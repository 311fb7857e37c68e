# Photos-Framework in Dafny

A model of the core of Photos-Framework, a SwiftUI photo browser. The model has four parts.

- **Photo record and zoom ladder** (`photo_record.dfy`, module `PhotoRecord`). This covers:
  - the `PhotosImage` record and its two initialisers;
  - equality by id only;
  - the column ladder, which has `[1, 3, 5]` columns in portrait and `[4, 6, 8, 9]` in landscape;
  - the clamped stage lookup.

  Orientation is a `landscape` parameter.
- **Id-keyed list operations** (`photo_list.dfy`, module `PhotoList`). These are the operations the view-model performs on its arrays:
  - first index by id;
  - append if absent;
  - remove at an index;
  - remove by id;
  - flag rewrites;
  - the rebuild that clears selection flags.
- **Photo index** (`photo_index.dfy`, module `PhotoIndex`). This is the view-model `PhotosImageViewmodel` as a class. Its fields are:
  - the canonical photo array;
  - the year grouping and the year-then-month grouping;
  - the multi-select list of edit mode;
  - the photo open in the pager;
  - the loading flag and its two counters.

  A library fetch is represented only by its asset count. Each asynchronous thumbnail callback becomes one `ThumbnailEvent`: the photo arrived, or it failed. Callbacks are delivered one at a time, in whatever order the caller picks.

  Each method is proved against pure functions:
  - `IngestAll` for ingestion;
  - `AddToYearGroups` and `AddToMonthGroups` for grouping;
  - `RemoveIds`, `FlagById` and `UnselectAll` for selection and delete;
  - `AutoSelect` for the auto-opened photo.

  Lemmas about those functions state the promised properties. The class has three invariants:
  - `Valid`: no id twice in the array or the list, and every group holds only photos of its year (and month), each id once;
  - `Filed`: every dated photo of the array is in its year's group and its month's group;
  - `SelectionInStep`: a photo is flagged selected exactly when its id is in the multi-select list, and the list names only photos of the array.

  `Valid` and `Filed` hold in every state the methods reach from the constructor. `SelectionInStep` holds in every such state unless a photo absent from the array is tapped: that tap lists a photo the array does not hold. Each method therefore states the last two as "kept if it held before".
- **Photo grid** (`grid_geometry.dfy` and `grid_zoom.dfy`, modules `GridGeometry` and `GridZoom`). These model the grid view `CustomLazyVGridView`:
  - item size, padding cells and row arithmetic as pure functions;
  - the pinch gesture state machine as a class whose `OnChanged` is proved against the pure transition `Changed` over a `ZoomState` value.
- **Detail pager** (`detail_pager.dfy`, module `DetailPager`). This is the full-screen view `PhotosDetailView` as a class. It covers:
  - pinch scaling clamped at 1;
  - drag, the vertical dismiss, and the horizontal swipe to a neighbour;
  - the double tap between 1x and 2x;
  - the favourite toggle;
  - the close-on-empty rule.

Sizes and scales are Dafny `real`. Gesture values, the view's measured size and the device orientation are parameters.

## Model

| member | source | states |
|---|---|---|
| PhotoRecord.NewPhoto | Photos-Framework/Photos-Framework/PhotosImage.swift:39-51 | The seven-argument initialiser copies every argument unchanged and leaves the photo unselected |
| PhotoRecord.Equal | Photos-Framework/Photos-Framework/PhotosImage.swift:53 | Two photos are equal exactly when the second is the first with all of its fields except the id replaced, that is, when the ids agree |
| PhotoRecord.EqualIsIdentityById | Photos-Framework/Photos-Framework/PhotosImage.swift:53-55 | Two photos are equal exactly when their ids are equal. This is an equivalence relation, and image, date, place and flags have no effect on it |
| PhotoRecord.ZoomStages | Photos-Framework/Photos-Framework/PhotosImage.swift:57-63 | The ladder has at least three stages, each at least one column and at most nine, and is strictly increasing |
| PhotoRecord.GetZoomStage | Photos-Framework/Photos-Framework/PhotosImage.swift:65-73 | Total and always a ladder member. Returns the stage at an index inside the ladder, the last stage at or beyond its end, and the first stage below 0 |
| PhotoRecord.GetMaxZoomStageIndex | Photos-Framework/Photos-Framework/PhotosImage.swift:75-77 | One less than the ladder length. Every index from it upward looks up the same stage |
| PhotoRecord.GetZoomStageMonotone | Photos-Framework/Photos-Framework/PhotosImage.swift:65-73 | The clamped lookup never decreases as the index grows, and strictly increases inside the ladder |
| PhotoList.FirstIndexOfId | Photos-Framework/Photos-Framework/PhotosImageViewmodel.swift:138-147 | `firstIndex(of:)` under id equality. None exactly when no element has the id; otherwise the first position holding it |
| PhotoList.AppendIfAbsent | Photos-Framework/Photos-Framework/PhotosImageViewmodel.swift:74-76 | Grows by one exactly when the id was absent, keeps the old elements as a prefix, and keeps the list free of duplicate ids |
| PhotoList.RemoveAt | Photos-Framework/Photos-Framework/PhotosImageViewmodel.swift:180 | One shorter. Elements before the index stay in place and the later ones shift down by one |
| PhotoList.RemoveIds | Photos-Framework/Photos-Framework/PhotosImageViewmodel.swift:188-190 | An element survives exactly when its id is not in the selection |
| PhotoList.RemoveIdsAppend | Photos-Framework/Photos-Framework/PhotosImageViewmodel.swift:188-190 | Removal distributes over concatenation, so survivors keep their original order |
| PhotoList.RemoveIdsKeepsUnique | Photos-Framework/Photos-Framework/PhotosImageViewmodel.swift:188-190 | Removal by id keeps a duplicate-free array duplicate-free |
| PhotoList.RemoveAtIsRemoveId | Photos-Framework/Photos-Framework/PhotosImageViewmodel.swift:138-139 | In a duplicate-free list, removing the first match's position equals removing the id |
| PhotoList.FlagById | Photos-Framework/Photos-Framework/PhotosImageViewmodel.swift:140-148 | Same length. Elements with the id get the new selection flag and all others are unchanged |
| PhotoList.Rebuilt | Photos-Framework/Photos-Framework/PhotosImageViewmodel.swift:162-170 | The rebuilt photo is the old one with only its selection flag cleared |
| PhotoList.UnselectAll | Photos-Framework/Photos-Framework/PhotosImageViewmodel.swift:161-171 | Same length and order. Each element keeps everything, including its current favourite flag, and only its selection flag is cleared |
| PhotoIndex.PhotoOf | Photos-Framework/Photos-Framework/PhotosImageViewmodel.swift:63-71 | A callback's photo carries the asset's id, date, location, pixel width and height and favourite flag and the delivered thumbnail, and is unselected |
| PhotoIndex.AutoSelect | Photos-Framework/Photos-Framework/PhotosImageViewmodel.swift:107-113 | Opens the last photo only when nothing is open and the array is non-empty; otherwise keeps what is open |
| PhotoIndex.IngestOne | Photos-Framework/Photos-Framework/PhotosImageViewmodel.swift:73-86 | One callback: the array grows by at most one photo at the end and keeps its old photos in place; a failed callback changes nothing; after a successful one its id is present |
| PhotoIndex.IngestAll | Photos-Framework/Photos-Framework/PhotosImageViewmodel.swift:60-98 | A run of callbacks: the id of every successful callback is present afterwards |
| PhotoIndex.YearGroupsAfter | Photos-Framework/Photos-Framework/PhotosImageViewmodel.swift:78 | Filing a run's successes by year: no year loses its group, and well-formed groups stay well formed |
| PhotoIndex.MonthGroupsAfter | Photos-Framework/Photos-Framework/PhotosImageViewmodel.swift:78 | Filing a run's successes by year and month: no year loses its entry, and well-formed groups stay well formed |
| PhotoIndex.IngestAllKeepsUnique | Photos-Framework/Photos-Framework/PhotosImageViewmodel.swift:74-76 | However callbacks repeat or overlap, a duplicate-free array stays duplicate-free |
| PhotoIndex.IngestAllExtends | Photos-Framework/Photos-Framework/PhotosImageViewmodel.swift:74-76 | Ingestion only appends: the old array stays a prefix, and each callback adds at most one photo |
| PhotoIndex.IngestAllIds | Photos-Framework/Photos-Framework/PhotosImageViewmodel.swift:62-95 | Afterwards an id is present exactly when it was present before or a successful callback carried it. Failed callbacks add nothing |
| PhotoIndex.IngestAllIdempotent | Photos-Framework/Photos-Framework/PhotosImageViewmodel.swift:74-76 | Delivering the same callbacks a second time changes nothing |
| PhotoIndex.AddToYearGroups | Photos-Framework/Photos-Framework/PhotosImageViewmodel.swift:216-227 | Undated photo: no change. Dated photo: only its year's group changes, it holds the id afterwards, and well-formed groups stay well formed |
| PhotoIndex.AddToMonthGroups | Photos-Framework/Photos-Framework/PhotosImageViewmodel.swift:229-239 | Undated photo: no change. Dated photo: only its year-and-month group changes, it holds the id afterwards, and well-formed groups stay well formed |
| PhotoIndex.AddToYearGroupsCases | Photos-Framework/Photos-Framework/PhotosImageViewmodel.swift:221-227 | The three dictionary cases: id already in the year's group, year present without it, year absent |
| PhotoIndex.AddToMonthGroupsCases | Photos-Framework/Photos-Framework/PhotosImageViewmodel.swift:229-239 | The four nested-dictionary cases, ending in an append, a new month group, a new year entry or no change |
| PhotoIndex.AddPhotoFilesOnce | Photos-Framework/Photos-Framework/PhotosImageViewmodel.swift:215-241 | After filing, a dated photo's id occurs exactly once in its year's group and exactly once in its month's group |
| PhotoIndex.SortedYears | Photos-Framework/Photos-Framework/PhotosImageViewmodel.swift:103 | Each key appears once, exactly the keys appear, and they are strictly ascending |
| PhotoIndex.AddToGroupsKeepsFiled | Photos-Framework/Photos-Framework/PhotosImageViewmodel.swift:215-241 | Filing a photo leaves it filed under its year and month, and whatever was filed before stays filed: groups only grow |
| PhotoIndex.FilingKeepsFiled | Photos-Framework/Photos-Framework/PhotosImageViewmodel.swift:215-241 | Filing one photo keeps every filed photo of an array filed |
| PhotoIndex.IngestOneFiled | Photos-Framework/Photos-Framework/PhotosImageViewmodel.swift:74-78 | One successful callback keeps every dated photo of the array filed, the photo it appends included |
| PhotoIndex.IngestAllFiled | Photos-Framework/Photos-Framework/PhotosImageViewmodel.swift:60-98 | After any run of callbacks, every dated photo of the resulting array is filed in the groupings the same run builds |
| PhotoIndex.GroupsAfterFileLoaded | Photos-Framework/Photos-Framework/PhotosImageViewmodel.swift:62-78 | Every successful callback of a run leaves its photo filed under its year and month, whatever callbacks follow it |
| PhotoIndex.IngestOneInStep | Photos-Framework/Photos-Framework/PhotosImageViewmodel.swift:74-76 | A callback keeps flags in step with the list and the list inside the array: the photo it appends is unflagged and not listed |
| PhotoIndex.ToggleKeepsInvariants | Photos-Framework/Photos-Framework/PhotosImageViewmodel.swift:137-150 | Tapping a photo of the array keeps flags in step with the list and the list inside the array. No tap moves a photo out of its groups |
| PhotoIndex.RemoveAtKeeps | Photos-Framework/Photos-Framework/PhotosImageViewmodel.swift:180 | Removing one position keeps the other photos filed and, with an empty list, unflagged |
| PhotoIndex.SurvivorsUnselected | Photos-Framework/Photos-Framework/PhotosImageViewmodel.swift:188-193 | Survivors of the bulk removal were unselected, so they are in step with the emptied list |
| PhotoIndex.SurvivorsFiled | Photos-Framework/Photos-Framework/PhotosImageViewmodel.swift:188-190 | Survivors of a removal stay filed |
| PhotoIndex.SameIdsKeep | Photos-Framework/Photos-Framework/PhotosImageViewmodel.swift:140-148 | Rewriting flags, which keeps every id and date in place, keeps photos filed and the list inside the array |
| PhotoIndex.IngestFreshStep | Photos-Framework/Photos-Framework/PhotosImageViewmodel.swift:74-76 | A callback for an id not yet in the array appends its photo at the end |
| PhotoIndex.FlagKeepsInStep | Photos-Framework/Photos-Framework/PhotosImageViewmodel.swift:137-150 | Re-flagging one id to match its new list membership keeps array flags and list membership in agreement |
| PhotoIndex.PhotosImageViewmodel.constructor | Photos-Framework/Photos-Framework/PhotosImageViewmodel.swift:15-25 | Empty array, groups and list; nothing open; not loading; both counters zero; all three invariants hold |
| PhotoIndex.PhotosImageViewmodel.RequestPhotoModel | Photos-Framework/Photos-Framework/PhotosImageViewmodel.swift:56-58 | Loading is switched on and the total is overwritten. The finished count is not reset |
| PhotoIndex.PhotosImageViewmodel.RequestPhotoModelResetting | Photos-Framework/Photos-Framework/PhotosImageViewmodel.swift:56-58 | Corrected start of a pass: same as RequestPhotoModel, and the finished count is zero |
| PhotoIndex.PhotosImageViewmodel.PhotoLibraryDidChange | Photos-Framework/Photos-Framework/PhotosImageViewmodel.swift:127-134 | Loading is on and a new pass has the library's new total |
| PhotoIndex.PhotosImageViewmodel.GetSortedYears | Photos-Framework/Photos-Framework/PhotosImageViewmodel.swift:102-104 | Exactly the years that have a group, strictly ascending |
| PhotoIndex.PhotosImageViewmodel.InitializeSelectedPhotoInTotal | Photos-Framework/Photos-Framework/PhotosImageViewmodel.swift:107-113 | The open photo becomes AutoSelect of the old one and the array |
| PhotoIndex.PhotosImageViewmodel.FileUnderYear | Photos-Framework/Photos-Framework/PhotosImageViewmodel.swift:221-227 | The year grouping becomes AddToYearGroups of the old one and stays well formed |
| PhotoIndex.PhotosImageViewmodel.FileUnderMonth | Photos-Framework/Photos-Framework/PhotosImageViewmodel.swift:229-239 | The month grouping becomes AddToMonthGroups of the old one and stays well formed |
| PhotoIndex.PhotosImageViewmodel.AddPhotoForDic | Photos-Framework/Photos-Framework/PhotosImageViewmodel.swift:215-241 | Both groupings become their AddTo…Groups images, and the index's invariants are kept |
| PhotoIndex.PhotosImageViewmodel.OnThumbnail | Photos-Framework/Photos-Framework/PhotosImageViewmodel.swift:73-95 | One callback. The array takes the dedup-append, only a success files the photo, and the finished count grows by exactly one. Loading ends, and the last photo is auto-opened, exactly on the callback where the count reaches the total. Filing and selection invariants are kept |
| PhotoIndex.PhotosImageViewmodel.DeliverCallbacks | Photos-Framework/Photos-Framework/PhotosImageViewmodel.swift:60-98 | A run of callbacks. The array is IngestAll of the old one, the count grows by the run's length, and loading ends exactly if some prefix reached the total. The groupings are YearGroupsAfter and MonthGroupsAfter of the old ones, filing each success in order. The open photo is unchanged unless the run crosses the total; if it does, it is AutoSelect of the array as it stood on the callback that reached the total. Filing and selection invariants are kept |
| PhotoIndex.PhotosImageViewmodel.FlagPhoto | Photos-Framework/Photos-Framework/PhotosImageViewmodel.swift:140-142 | The array becomes FlagById of the old one and stays free of duplicate ids |
| PhotoIndex.PhotosImageViewmodel.ToggleSelectedPhoto | Photos-Framework/Photos-Framework/PhotosImageViewmodel.swift:137-155 | If the photo is listed and the tapped copy is flagged, it leaves the list and its array flag is cleared. Otherwise it is appended if absent and its flag is set. Array order, length and ids are unchanged. For a photo of the array, flags stay in step with the list and the list stays inside the array. Filing is kept |
| PhotoIndex.PhotosImageViewmodel.ClearSelectedPhto | Photos-Framework/Photos-Framework/PhotosImageViewmodel.swift:158-172 | Empties the list and clears every selection flag, keeping each photo's other fields and its current favourite flag in order. Afterwards flags are in step with the empty list, and filing is kept |
| PhotoIndex.PhotosImageViewmodel.DeleteMarkedPhotos | Photos-Framework/Photos-Framework/PhotosImageViewmodel.swift:186-197 | The bulk path: exactly the listed ids are removed, survivors keep their order, the list is emptied, and filing and selection invariants are kept |
| PhotoIndex.PhotosImageViewmodel.DeleteOpenPhoto | Photos-Framework/Photos-Framework/PhotosImageViewmodel.swift:178-185 | The single path as written: the open photo's position is removed and the photo moving into it opens; past the end it reports OutOfRange with loading as it was. Invariants are kept |
| PhotoIndex.PhotosImageViewmodel.RemoveOpenAt | Photos-Framework/Photos-Framework/PhotosImageViewmodel.swift:180 | Removes one position of the array with nothing listed; the index's invariants, filing and selection are kept |
| PhotoIndex.PhotosImageViewmodel.DeleteOpenPhotoClamped | Photos-Framework/Photos-Framework/PhotosImageViewmodel.swift:179-185 | Corrected single path. With nothing open, or an open photo no longer in the array, the array and the open photo are unchanged. Otherwise the open photo's position is removed; the photo moving into it opens, the new last photo opens when the removed one was last, and the open photo is kept when the array empties. Loading ends, and invariants are kept |
| PhotoIndex.PhotosImageViewmodel.DeleteSelectedPhotos | Photos-Framework/Photos-Framework/PhotosImageViewmodel.swift:175-199 | Bulk path: removes exactly the listed ids, keeps the open photo, and empties the list. Single path: removes the open photo's position and opens the photo that moved into that position, or keeps the open photo if the array emptied. When the removed photo was last it reports OutOfRange with loading still on. The groupings are never touched, and filing and selection invariants are kept |
| PhotoIndex.PhotosImageViewmodel.DeleteSelectedPhotosClamped | Photos-Framework/Photos-Framework/PhotosImageViewmodel.swift:175-199 | Corrected delete: the bulk path as above. On the single path, with nothing open or the open photo absent, the array and the open photo are unchanged; otherwise the position is removed, the photo moving into it opens, the new last photo opens when the removed one was last, and the open photo is kept when the array empties. Loading always ends, and filing and selection invariants are kept |
| PhotoIndex.FiveAssetsOneFailure | Photos-Framework/Photos-Framework/PhotosImageViewmodel.swift:73-95 | Five callbacks with the third failing give four photos in order, a finished count of 5, loading off, and the last photo open |
| PhotoIndex.SecondPassStaysLoading | Photos-Framework/Photos-Framework/PhotosImageViewmodel.swift:56-94 | As written: after a complete pass, a complete second pass over a library no larger stays loading |
| PhotoIndex.SecondPassEndsLoading | Photos-Framework/Photos-Framework/PhotosImageViewmodel.swift:56-94 | With the count reset, a complete second pass ends loading, and the array is the two passes' ingestion |
| PhotoIndex.DeleteLastOpenPhotoTraps | Photos-Framework/Photos-Framework/PhotosImageViewmodel.swift:179-183 | As written: deleting the open photo when it is the last of two reads past the end |
| PhotoIndex.DeleteLastOpenPhotoClamped | Photos-Framework/Photos-Framework/PhotosImageViewmodel.swift:179-183 | Corrected: the same delete opens the remaining photo |
| GridGeometry.CalculateUpdatedSize | Photos-Framework/Photos-Framework/View/CustomLazyVGridView.swift:298-302 | n items of the computed size, each with 2 points of spacing, fill the grid width exactly |
| GridGeometry.UpdatedSizeDecreasing | Photos-Framework/Photos-Framework/View/CustomLazyVGridView.swift:298-302 | For a positive width the size never grows with the index, and strictly shrinks between two ladder positions |
| GridGeometry.UpdatedSizeClamps | Photos-Framework/Photos-Framework/View/CustomLazyVGridView.swift:298-302 | Beyond either end of the ladder the size equals the size at that end |
| GridGeometry.UpdatedSizePositive | Photos-Framework/Photos-Framework/View/CustomLazyVGridView.swift:298-302 | A grid wider than twice the last stage gives positive sizes at every index |
| GridGeometry.PortraitSizesAt390 | Photos-Framework/Photos-Framework/View/CustomLazyVGridView.swift:298-302 | A 390-point portrait grid gives 388, 128 and 76 |
| GridGeometry.UpdatedSizeStepBack | Photos-Framework/Photos-Framework/View/CustomLazyVGridView.swift:289-295 | The previous index's size is at least the current one, and strictly larger exactly inside the ladder |
| GridGeometry.ZoomFactorAt | Photos-Framework/Photos-Framework/View/CustomLazyVGridView.swift:289-295 | The factor scales items of the size at the index to the size one ladder position back |
| GridGeometry.ZoomFactorAtLeastOne | Photos-Framework/Photos-Framework/View/CustomLazyVGridView.swift:289-295 | The zoom factor scales the current size to the previous index's size. It is at least 1, and above 1 exactly when 0 < index < count, so at index 0 it is 1 |
| GridGeometry.CalculateTotalCells | Photos-Framework/Photos-Framework/View/CustomLazyVGridView.swift:325-329 | A multiple of the column count, at least the photo count and less than one row beyond it |
| GridGeometry.TotalCellsIsLeast | Photos-Framework/Photos-Framework/View/CustomLazyVGridView.swift:325-329 | No smaller multiple of the column count covers the photos |
| GridGeometry.EmptyCellCount | Photos-Framework/Photos-Framework/View/CustomLazyVGridView.swift:167-168 | The padding is between 0 and one less than the column count, and completes the last row |
| GridGeometry.PhotosPerRow | Photos-Framework/Photos-Framework/View/CustomLazyVGridView.swift:311 | For a non-negative index, the clamped stage lookup, so at least one |
| GridGeometry.TotalRows | Photos-Framework/Photos-Framework/View/CustomLazyVGridView.swift:313 | Ceiling division: zero rows exactly for no photos; otherwise the photos fit in the rows and not in one fewer |
| GridGeometry.RowOfValidIndex | Photos-Framework/Photos-Framework/View/CustomLazyVGridView.swift:313-315 | A valid index's row is at most the last row, and equals it exactly when the index is in the final row's range |
| GridGeometry.ScrollTarget | Photos-Framework/Photos-Framework/View/CustomLazyVGridView.swift:306-322 | Fallback exactly when nothing is open or the open photo is absent. Otherwise scrolls to the photo's first position, anchored at the bottom exactly on the last row |
| GridZoom.LocalAdjustment | Photos-Framework/Photos-Framework/View/CustomLazyVGridView.swift:200-230 | The gesture's local adjustment is the signal minus the last step point, or an elastic limit in the clamping branches. It is above one exactly when the raw signal is |
| GridZoom.Changed | Photos-Framework/Photos-Framework/View/CustomLazyVGridView.swift:199-248 | One update: zooming, positive size, the index moves by at most one, never below 0 and never above the ladder length |
| GridZoom.ChangedStepInWhen | Photos-Framework/Photos-Framework/View/CustomLazyVGridView.swift:204-206 | The index goes up exactly when scale ≤ 1, the adjustment < 1 and the index ≤ count − 1 |
| GridZoom.ChangedStepIn | Photos-Framework/Photos-Framework/View/CustomLazyVGridView.swift:212-221 | A step in takes the next index's size. The scale keeps items on screen at the old size, the zoom factor is its inverse, and the step point becomes state − 1 |
| GridZoom.ChangedStepInShrinks | Photos-Framework/Photos-Framework/View/CustomLazyVGridView.swift:212-221 | From a calibrated state, a step in never enlarges items and its scale is at least 1 |
| GridZoom.ChangedStepOut | Photos-Framework/Photos-Framework/View/CustomLazyVGridView.swift:223-238 | The index goes down exactly on a spread with index > 0. The size and factor are recomputed for the new index, the scales are reset to 1, and items never shrink |
| GridZoom.ChangedWithoutStep | Photos-Framework/Photos-Framework/View/CustomLazyVGridView.swift:204-245 | An update without a step keeps the size, factors and step point. At the ladder's ends the scale follows the signal only inside the elastic limits |
| GridZoom.ChangedKeepsCalibrated | Photos-Framework/Photos-Framework/View/CustomLazyVGridView.swift:199-248 | Every update keeps the size equal to the computed size for the index |
| GridZoom.CustomLazyVGridView.constructor | Photos-Framework/Photos-Framework/View/CustomLazyVGridView.swift:23-37 | Stored defaults: 100-point items at position 2, unit scales, nothing in progress |
| GridZoom.CustomLazyVGridView.CalculateZoomFactor | Photos-Framework/Photos-Framework/View/CustomLazyVGridView.swift:289-295 | The size becomes the positive computed size for the index, and the zoom factor the ratio to the previous index's size |
| GridZoom.CustomLazyVGridView.OnAppear | Photos-Framework/Photos-Framework/View/CustomLazyVGridView.swift:73-76 | The measured width is stored, and size and factor are calibrated to the stored position |
| GridZoom.CustomLazyVGridView.ResetZoomVariables | Photos-Framework/Photos-Framework/View/CustomLazyVGridView.swift:279-286 | Calibrated at the current index, not zooming, unit scales, step point and adjustment 0 |
| GridZoom.CustomLazyVGridView.StepIn | Photos-Framework/Photos-Framework/View/CustomLazyVGridView.swift:213-221 | One position further, with that position's size and the old/new factors |
| GridZoom.CustomLazyVGridView.StepOut | Photos-Framework/Photos-Framework/View/CustomLazyVGridView.swift:231-237 | One position back, recalibrated, with unit scales |
| GridZoom.CustomLazyVGridView.OnChanged | Photos-Framework/Photos-Framework/View/CustomLazyVGridView.swift:199-248 | The new gesture state is Changed of the old one, and the stored adjustment is untouched |
| GridZoom.CustomLazyVGridView.ChangedInward | Photos-Framework/Photos-Framework/View/CustomLazyVGridView.swift:204-222 | The pinch-in branch, taken at rest or shrunk with the signal below its reference: the new gesture state is Changed of the old one, which is a step in or, past the last stage, an elastic stretch |
| GridZoom.CustomLazyVGridView.ChangedOutward | Photos-Framework/Photos-Framework/View/CustomLazyVGridView.swift:223-238 | The spread branch, taken when the scale has reached the zoom factor with the signal above its reference: the new gesture state is Changed of the old one, which is a step out or, at the first stage, an elastic stretch |
| GridZoom.CustomLazyVGridView.OnChangedRecording | Photos-Framework/Photos-Framework/View/CustomLazyVGridView.swift:199-248 | Corrected: as OnChanged, and the stored adjustment is the clamped local value, above 1 exactly on a spread |
| GridZoom.CustomLazyVGridView.OnEnded | Photos-Framework/Photos-Framework/View/CustomLazyVGridView.swift:249-272 | Release: the index drops by one exactly when the stored adjustment is above 1 and the index is positive. Both paths end reset and calibrated |
| GridZoom.CustomLazyVGridView.MoveScrollToSelectedPhoto | Photos-Framework/Photos-Framework/View/CustomLazyVGridView.swift:306-322 | Returns ScrollTarget. On the fallback, the open photo becomes AutoSelect; otherwise it is unchanged |
| GridZoom.SmallSpreadReleasedAsWritten | Photos-Framework/Photos-Framework/View/CustomLazyVGridView.swift:250-258 | As written: a spread past 1 and then a release leaves the index at 2 |
| GridZoom.SmallSpreadReleasedRecorded | Photos-Framework/Photos-Framework/View/CustomLazyVGridView.swift:250-270 | Corrected: the same spread and release moves the index to 1 |
| GridZoom.PinchInPastLastStage | Photos-Framework/Photos-Framework/View/CustomLazyVGridView.swift:206-221 | Two pinches in at the last portrait stage put the index at 3, one past the last valid index, with 76-point items |
| DetailPager.SwipeTarget | Photos-Framework/Photos-Framework/PhotosDetailView.swift:171-180 | Swipe right: the previous position if there is one. Swipe left: the next. Nothing at either end, for short swipes or for an absent photo. The target is always in range |
| DetailPager.SwipeBackReturns | Photos-Framework/Photos-Framework/PhotosDetailView.swift:171-180 | In a duplicate-free array, swiping one way and then back returns to the starting position |
| DetailPager.FlipFavorite | Photos-Framework/Photos-Framework/PhotosDetailView.swift:212-220 | Only the first photo with the id has its favourite flag flipped; the rest, and its other fields, are unchanged. An absent id changes nothing |
| DetailPager.FlipFavoriteTwice | Photos-Framework/Photos-Framework/PhotosDetailView.swift:212-220 | Flipping twice restores the array |
| DetailPager.PhotosDetailView.constructor | Photos-Framework/Photos-Framework/PhotosDetailView.swift:17-24 | At rest: scale 1, zero offsets, page 0, not zooming |
| DetailPager.PhotosDetailView.OnAppear | Photos-Framework/Photos-Framework/PhotosDetailView.swift:56-59 | The page index is the first position holding the photo's id if it is present, else 0 |
| DetailPager.PhotosDetailView.PinchChanged | Photos-Framework/Photos-Framework/PhotosDetailView.swift:138-143 | The scale is the last scale times the pinch, but never below 1; zooming is on |
| DetailPager.PhotosDetailView.PinchEnded | Photos-Framework/Photos-Framework/PhotosDetailView.swift:144-147 | Zooming is off and the scale becomes the next pinch's base |
| DetailPager.PhotosDetailView.DragChanged | Photos-Framework/Photos-Framework/PhotosDetailView.swift:150-157 | The offset is the translation from where the last drag ended |
| DetailPager.PhotosDetailView.DragEnded | Photos-Framework/Photos-Framework/PhotosDetailView.swift:158-183 | The offset is kept as the drag base. While zooming nothing else changes. Otherwise a vertical travel over a third of the height flips the shown flag (else the offset snaps to zero), and the open photo and page move to SwipeTarget |
| DetailPager.PhotosDetailView.HandleDoubleTap | Photos-Framework/Photos-Framework/PhotosDetailView.swift:188-209 | From scale 1: 2x, with the offset that keeps the touched point under the finger. Otherwise: back to 1x and zero offset. Zooming flips and the pinch base follows |
| DetailPager.PhotosDetailView.ToggleFavorite | Photos-Framework/Photos-Framework/PhotosDetailView.swift:212-220 | The array becomes FlipFavorite by the open photo's id, or is unchanged when nothing is open. The index's invariants, filing and selection flags are kept |
| DetailPager.PhotosDetailView.FavoriteButton | Photos-Framework/Photos-Framework/PhotosDetailView.swift:97-99 | Flips both the array entry and the open copy, so a copy in step with its entry stays in step. Filing and selection invariants are kept |
| DetailPager.PhotosDetailView.CloseButton | Photos-Framework/Photos-Framework/PhotosDetailView.swift:104-110 | The shown flag flips |
| DetailPager.PhotosDetailView.PhotosArrChanged | Photos-Framework/Photos-Framework/PhotosDetailView.swift:74-78 | The shown flag flips exactly when the array is empty |
| DetailPager.DoubleTapTwiceRestores | Photos-Framework/Photos-Framework/PhotosDetailView.swift:188-209 | Two double taps from rest, anywhere, return to scale 1, zero offset and not zooming |

Where the code departs from what the app evidently intends, the model follows the code:

- `selected` is left pointing at a deleted photo when the single delete empties the array, and after a bulk delete.
- Re-ingestion never removes photos deleted from the library outside the app.
- Neither delete path updates the year or month groupings.
- The zoom-in guard lets the ladder position reach the ladder length, one past the last valid index (`GridZoom.PinchInPastLastStage`).
- An empty library never ends loading, because no callback ever runs.

## Left out

- The Photos framework (asset fetch and its creation-date order, image requests, change-observer registration): a pass is its asset count plus a sequence of callback events.
- Dispatch queues, `Task` and the delayed second half of the pinch release. Every mutation is a sequential step, and the release's delayed step runs at once.
- The bulk delete's background-thread removal and main-thread completion, and the timing of `isLoading` between them. The model runs them in sequence.
- `Calendar` extraction of year and month, and date formatting. A date is an optional (year, month).
- `UIImage`, `CLLocation` and `UIDevice` orientation: opaque values, and a `landscape` parameter.
- `initializeSelectedPhotoYear` (PhotosImageViewmodel.swift:116-123). It picks the last photo of the dictionary's values, whose order Swift leaves unspecified, and no caller in the core uses it.
- `countingChecked`, which is only the selection list's length.
- The `@AppStorage` persistence of item size and ladder position. The grid constructor starts from the stored defaults.
- The edit-mode `onChange` wiring that calls `clearSelectedPhto`, and the trash button's `isAction` flag. These are view wiring around modelled operations.
- Animations, `scaleEffect`, `matchedGeometryEffect`, scroll-proxy calls, toolbars and the cell views.
- Floating-point rounding: sizes and scales are exact reals.
- The `print` calls in `toggleSelectedPhoto` (PhotosImageViewmodel.swift:153-154), which log the photo's list membership and the list's contents: console output only.
- GridZoom.CustomLazyVGridView.OnChanged: requires a grid wider than twice the last stage (`WidthFits`), so every item size is positive. The source divides by the size unguarded.
- GridZoom.CustomLazyVGridView.OnEnded: requires `WidthFits` for the same reason.
- GridZoom.CustomLazyVGridView.OnAppear: requires `WidthFits` for the same reason.
- GridZoom.CustomLazyVGridView.ResetZoomVariables: requires `WidthFits` for the same reason.
- GridZoom.CustomLazyVGridView.CalculateZoomFactor: requires `WidthFits` for the same reason.
- GridZoom.CustomLazyVGridView.OnChangedRecording: requires `WidthFits` for the same reason.
- GridGeometry.ZoomFactorAt: requires `WidthFits` for the same reason.

## Findings

| source | as written | input that shows it | evidently intended | confidence | as-written member | corrected member |
|---|---|---|---|---|---|---|
| Photos-Framework/Photos-Framework/PhotosImageViewmodel.swift:58 | Starting a pass sets the total but never resets the finished count, which keeps growing across passes (:80, :89) | A complete pass over n assets, then a library change with m ≤ n assets: the count passes m without ever equalling it, so loading never ends | Reset the count at the start of each pass, so every complete pass ends loading | not executed | PhotoIndex.SecondPassStaysLoading | PhotoIndex.SecondPassEndsLoading |
| Photos-Framework/Photos-Framework/PhotosImageViewmodel.swift:182 | After removing the open photo at its index, the photo now at that index is opened | Two photos with the second open: after the removal the index 1 is out of range and the read traps | Open the photo before it when the removed photo was the last | not executed | PhotoIndex.DeleteLastOpenPhotoTraps | PhotoIndex.DeleteLastOpenPhotoClamped |
| Photos-Framework/Photos-Framework/View/CustomLazyVGridView.swift:200 | The update handler declares a local `adjustedState` that shadows the stored one; the write at :247 is a self-assignment, so the release test at :250 always reads the reset value 0 | A 390-point portrait grid at position 2: a spread to 1.05 and release leaves the position at 2 | Store the adjustment, so a release after a spread steps one position back | not executed | GridZoom.SmallSpreadReleasedAsWritten | GridZoom.SmallSpreadReleasedRecorded |
