/** The photo index: the view-model that owns the canonical photo array, its
    year and year-then-month groupings, the multi-select list of edit mode,
    the photo open in the detail pager, and the loading state driven by a
    count of finished thumbnail callbacks.

    The library is not modelled: a fetch becomes its asset count (the
    `total` of RequestPhotoModel) and each asynchronous thumbnail callback
    becomes one ThumbnailEvent, delivered to OnThumbnail one at a time in
    whatever order the caller chooses. */
module PhotoIndex {
  import opened PhotoRecord
  import opened PhotoList

  /** What ingestion reads from one library asset besides its thumbnail. */
  datatype Asset = Asset(id: string, creationDate: Option<YearMonth>, location: Option<Location>,
                         pixelWidth: real, pixelHeight: real, isFavorite: bool)

  /** One thumbnail callback: the thumbnail arrived, or the fetch returned nothing. */
  datatype ThumbnailEvent = Loaded(asset: Asset, image: ImageHandle) | Failed

  /** How a delete request ends. OutOfRange is the read one past the end of
      the array that the single-photo path makes when the open photo was the
      last one; at run time it traps. */
  datatype DeleteOutcome = Done | OutOfRange

  /** The record a successful callback builds with the seven-argument initialiser. */
  function PhotoOf(asset: Asset, image: ImageHandle): (p: PhotosImage)
    ensures p.id == asset.id && p.image == image && p.creationDate == asset.creationDate
    ensures p.location == asset.location && p.pixelWidth == asset.pixelWidth && p.pixelHeight == asset.pixelHeight
    ensures p.isFavorite == asset.isFavorite && !p.isSelected
  {
    NewPhoto(asset.id, image, asset.creationDate, asset.location, asset.pixelWidth, asset.pixelHeight, asset.isFavorite)
  }

  /** What one callback does to the canonical array. */
  function IngestOne(s: seq<PhotosImage>, e: ThumbnailEvent): (r: seq<PhotosImage>)
    ensures |s| <= |r| <= |s| + 1 && r[..|s|] == s
    ensures e.Failed? ==> r == s
    ensures e.Loaded? ==> HasId(r, e.asset.id)
  {
    match e
    case Loaded(asset, image) => AppendIfAbsent(s, PhotoOf(asset, image))
    case Failed => s
  }

  /** What a run of callbacks, in delivery order, does to the canonical array. */
  function IngestAll(s: seq<PhotosImage>, events: seq<ThumbnailEvent>): (r: seq<PhotosImage>)
    ensures forall k :: 0 <= k < |events| && events[k].Loaded? ==> HasId(r, events[k].asset.id)
  {
    if |events| == 0 then s
    else IngestOne(IngestAll(s, events[..|events| - 1]), events[|events| - 1])
  }

  /** The photo auto-opened when a pass completes: the last photo of the
      array, but only when nothing is open yet. */
  function AutoSelect(current: Option<PhotosImage>, arr: seq<PhotosImage>): (r: Option<PhotosImage>)
    ensures current.Some? || |arr| == 0 ==> r == current
    ensures current.None? && |arr| > 0 ==> r == Some(arr[|arr| - 1])
  {
    if current.None? && |arr| > 0 then Some(arr[|arr| - 1]) else current
  }

  /** However callbacks repeat or overlap, the array never holds an id twice. */
  lemma {:induction false} IngestAllKeepsUnique(s: seq<PhotosImage>, events: seq<ThumbnailEvent>)
    requires IdUnique(s)
    ensures IdUnique(IngestAll(s, events))
  {
    if |events| > 0 {
      IngestAllKeepsUnique(s, events[..|events| - 1]);
    }
  }

  /** Ingestion only appends: what was there stays first, in order, and each
      callback adds at most one photo. */
  lemma {:induction false} IngestAllExtends(s: seq<PhotosImage>, events: seq<ThumbnailEvent>)
    ensures |s| <= |IngestAll(s, events)| <= |s| + |events|
    ensures IngestAll(s, events)[..|s|] == s
  {
    if |events| > 0 {
      var prev := IngestAll(s, events[..|events| - 1]);
      IngestAllExtends(s, events[..|events| - 1]);
      assert IngestAll(s, events)[..|prev|] == prev;
      assert IngestAll(s, events)[..|s|] == prev[..|s|];
    }
  }

  /** After a run of callbacks an id is present exactly when it was present
      before or some successful callback carried it; failed callbacks add
      nothing. */
  lemma {:induction false} IngestAllIds(s: seq<PhotosImage>, events: seq<ThumbnailEvent>, id: string)
    ensures HasId(IngestAll(s, events), id) <==>
              HasId(s, id) || exists k :: 0 <= k < |events| && events[k].Loaded? && events[k].asset.id == id
  {
    if |events| > 0 {
      var init := events[..|events| - 1];
      IngestAllIds(s, init, id);
      var last := events[|events| - 1];
      assert forall k :: 0 <= k < |init| ==> init[k] == events[k];
      if last.Loaded? && last.asset.id == id {
        assert HasId(IngestAll(s, events), id);
      }
    }
  }

  /** Delivering callbacks whose photos are all present already changes
      nothing; in particular replaying a whole pass is idempotent. */
  lemma {:induction false} IngestAllPresent(s: seq<PhotosImage>, events: seq<ThumbnailEvent>)
    requires forall k :: 0 <= k < |events| && events[k].Loaded? ==> HasId(s, events[k].asset.id)
    ensures IngestAll(s, events) == s
  {
    if |events| > 0 {
      IngestAllPresent(s, events[..|events| - 1]);
    }
  }

  /** A second delivery of the same callbacks leaves the array as the first
      delivery left it. */
  lemma IngestAllIdempotent(s: seq<PhotosImage>, events: seq<ThumbnailEvent>)
    ensures IngestAll(IngestAll(s, events), events) == IngestAll(s, events)
  {
    var once := IngestAll(s, events);
    forall k | 0 <= k < |events| && events[k].Loaded?
      ensures HasId(once, events[k].asset.id)
    {
      IngestAllIds(s, events, events[k].asset.id);
    }
    IngestAllPresent(once, events);
  }

  /** Every photo in the group of year `y` was taken in `y`; no id twice. */
  ghost predicate YearGroupsWellFormed(years: map<int, seq<PhotosImage>>)
  {
    forall y :: y in years ==>
      IdUnique(years[y]) &&
      forall p :: p in years[y] ==> p.creationDate.Some? && p.creationDate.value.year == y
  }

  /** Every photo in the group of year `y`, month `m` was taken then; no id twice. */
  ghost predicate MonthGroupsWellFormed(months: map<int, map<int, seq<PhotosImage>>>)
  {
    forall y :: y in months ==>
      forall m :: m in months[y] ==>
        IdUnique(months[y][m]) &&
        forall p :: p in months[y][m] ==> p.creationDate == Some(YearMonth(y, m))
  }

  /** The year grouping after a photo is filed: a photo without a date leaves
      it alone; otherwise only its year's group changes, and the photo's id
      is in it. */
  function AddToYearGroups(years: map<int, seq<PhotosImage>>, p: PhotosImage): (r: map<int, seq<PhotosImage>>)
    ensures p.creationDate.None? ==> r == years
    ensures p.creationDate.Some? ==>
              var y := p.creationDate.value.year;
              && r.Keys == years.Keys + {y}
              && (forall y' :: y' in years && y' != y ==> r[y'] == years[y'])
              && HasId(r[y], p.id)
              && (y in years ==> r[y] == AppendIfAbsent(years[y], p))
    ensures YearGroupsWellFormed(years) ==> YearGroupsWellFormed(r)
  {
    match p.creationDate
    case None => years
    case Some(d) =>
      var group := if d.year in years then years[d.year] else [];
      years[d.year := AppendIfAbsent(group, p)]
  }

  /** The month grouping after a photo is filed: a photo without a date
      leaves it alone; otherwise only the group of its year and month
      changes, and the photo's id is in it. */
  function AddToMonthGroups(months: map<int, map<int, seq<PhotosImage>>>, p: PhotosImage)
    : (r: map<int, map<int, seq<PhotosImage>>>)
    ensures p.creationDate.None? ==> r == months
    ensures p.creationDate.Some? ==>
              var d := p.creationDate.value;
              && r.Keys == months.Keys + {d.year}
              && (forall y :: y in months && y != d.year ==> r[y] == months[y])
              && r[d.year].Keys == (if d.year in months then months[d.year].Keys else {}) + {d.month}
              && (forall m :: d.year in months && m in months[d.year] && m != d.month ==>
                    r[d.year][m] == months[d.year][m])
              && HasId(r[d.year][d.month], p.id)
    ensures MonthGroupsWellFormed(months) ==> MonthGroupsWellFormed(r)
  {
    match p.creationDate
    case None => months
    case Some(d) =>
      var inYear := if d.year in months then months[d.year] else map[];
      var group := if d.month in inYear then inYear[d.month] else [];
      months[d.year := inYear[d.month := AppendIfAbsent(group, p)]]
  }

  /** The year grouping after filing, case by case as the dictionary is
      updated in place: an existing group with the id is kept, an existing
      group without it is appended to, a missing group is created. */
  lemma AddToYearGroupsCases(years: map<int, seq<PhotosImage>>, p: PhotosImage, y: int)
    requires p.creationDate.Some? && p.creationDate.value.year == y
    ensures y in years && HasId(years[y], p.id) ==> AddToYearGroups(years, p) == years
    ensures y in years && !HasId(years[y], p.id) ==> AddToYearGroups(years, p) == years[y := years[y] + [p]]
    ensures y !in years ==> AddToYearGroups(years, p) == years[y := [p]]
  {
    if y in years && HasId(years[y], p.id) {
      assert years[y := years[y]] == years;
    }
  }

  /** The month grouping after filing, case by case as the nested dictionary
      is updated in place. */
  lemma AddToMonthGroupsCases(months: map<int, map<int, seq<PhotosImage>>>, p: PhotosImage, y: int, m: int)
    requires p.creationDate == Some(YearMonth(y, m))
    ensures y in months && m in months[y] && HasId(months[y][m], p.id) ==>
              AddToMonthGroups(months, p) == months
    ensures y in months && m in months[y] && !HasId(months[y][m], p.id) ==>
              AddToMonthGroups(months, p) == months[y := months[y][m := months[y][m] + [p]]]
    ensures y in months && m !in months[y] ==>
              AddToMonthGroups(months, p) == months[y := months[y][m := [p]]]
    ensures y !in months ==> AddToMonthGroups(months, p) == months[y := map[m := [p]]]
  {
    if y in months && m in months[y] && HasId(months[y][m], p.id) {
      assert months[y][m := months[y][m]] == months[y];
      assert months[y := months[y]] == months;
    }
  }

  /** Filing a dated photo, however often, leaves its id exactly once in its
      year's group and exactly once in its month's group. */
  lemma AddPhotoFilesOnce(years: map<int, seq<PhotosImage>>, months: map<int, map<int, seq<PhotosImage>>>,
                          p: PhotosImage)
    requires YearGroupsWellFormed(years) && MonthGroupsWellFormed(months)
    requires p.creationDate.Some?
    ensures var d := p.creationDate.value;
            && CountId(AddToYearGroups(years, p)[d.year], p.id) == 1
            && CountId(AddToMonthGroups(months, p)[d.year][d.month], p.id) == 1
  {
    var d := p.creationDate.value;
    UniqueIdCountsOnce(AddToYearGroups(years, p)[d.year], p.id);
    UniqueIdCountsOnce(AddToMonthGroups(months, p)[d.year][d.month], p.id);
  }

  /** A dated photo is filed: its id is in the group of its year and in the
      group of its year and month. An undated photo is never filed. */
  ghost predicate FiledAt(p: PhotosImage, years: map<int, seq<PhotosImage>>,
                          months: map<int, map<int, seq<PhotosImage>>>)
  {
    p.creationDate.Some? ==>
      var d := p.creationDate.value;
      && d.year in years && HasId(years[d.year], p.id)
      && d.year in months && d.month in months[d.year] && HasId(months[d.year][d.month], p.id)
  }

  /** Every dated photo of the array is filed. */
  ghost predicate FiledIn(arr: seq<PhotosImage>, years: map<int, seq<PhotosImage>>,
                          months: map<int, map<int, seq<PhotosImage>>>)
  {
    forall k :: 0 <= k < |arr| ==> FiledAt(arr[k], years, months)
  }

  /** Filing only adds to the groupings: the photo filed is filed afterwards,
      and whatever was filed before stays filed. */
  lemma AddToGroupsKeepsFiled(years: map<int, seq<PhotosImage>>, months: map<int, map<int, seq<PhotosImage>>>,
                              p: PhotosImage, q: PhotosImage)
    ensures FiledAt(p, AddToYearGroups(years, p), AddToMonthGroups(months, p))
    ensures FiledAt(q, years, months) ==> FiledAt(q, AddToYearGroups(years, p), AddToMonthGroups(months, p))
  {
    if p.creationDate.Some? && q.creationDate.Some? && FiledAt(q, years, months) {
      var d, e := p.creationDate.value, q.creationDate.value;
      if d.year == e.year {
        var inYear := AppendIfAbsent(years[d.year], p);
        if d.month == e.month {
          AddToMonthGroupsCases(months, p, d.year, d.month);
          var inMonth := AppendIfAbsent(months[d.year][d.month], p);
        }
      }
    }
  }

  /** Filing a photo keeps every photo of an array filed that was filed. */
  lemma FilingKeepsFiled(arr: seq<PhotosImage>, years: map<int, seq<PhotosImage>>,
                         months: map<int, map<int, seq<PhotosImage>>>, p: PhotosImage)
    ensures FiledIn(arr, years, months) ==> FiledIn(arr, AddToYearGroups(years, p), AddToMonthGroups(months, p))
  {
    forall k | 0 <= k < |arr|
      ensures FiledAt(arr[k], years, months) ==> FiledAt(arr[k], AddToYearGroups(years, p), AddToMonthGroups(months, p))
    {
      AddToGroupsKeepsFiled(years, months, p, arr[k]);
    }
  }

  /** The year grouping after a run of callbacks: each successful one files
      its photo, in delivery order. */
  function YearGroupsAfter(years: map<int, seq<PhotosImage>>, events: seq<ThumbnailEvent>)
    : (r: map<int, seq<PhotosImage>>)
    ensures years.Keys <= r.Keys
    ensures YearGroupsWellFormed(years) ==> YearGroupsWellFormed(r)
  {
    if |events| == 0 then years
    else
      var before := YearGroupsAfter(years, events[..|events| - 1]);
      match events[|events| - 1]
      case Loaded(asset, image) => AddToYearGroups(before, PhotoOf(asset, image))
      case Failed => before
  }

  /** The month grouping after a run of callbacks. */
  function MonthGroupsAfter(months: map<int, map<int, seq<PhotosImage>>>, events: seq<ThumbnailEvent>)
    : (r: map<int, map<int, seq<PhotosImage>>>)
    ensures months.Keys <= r.Keys
    ensures MonthGroupsWellFormed(months) ==> MonthGroupsWellFormed(r)
  {
    if |events| == 0 then months
    else
      var before := MonthGroupsAfter(months, events[..|events| - 1]);
      match events[|events| - 1]
      case Loaded(asset, image) => AddToMonthGroups(before, PhotoOf(asset, image))
      case Failed => before
  }

  /** One callback keeps every dated photo of the array filed: a photo it
      appends is the one it files. */
  lemma IngestOneFiled(s: seq<PhotosImage>, years: map<int, seq<PhotosImage>>,
                       months: map<int, map<int, seq<PhotosImage>>>, e: ThumbnailEvent)
    ensures FiledIn(s, years, months) && e.Loaded? ==>
              var p := PhotoOf(e.asset, e.image);
              FiledIn(IngestOne(s, e), AddToYearGroups(years, p), AddToMonthGroups(months, p))
  {
    if FiledIn(s, years, months) && e.Loaded? {
      var p := PhotoOf(e.asset, e.image);
      var r := IngestOne(s, e);
      FilingKeepsFiled(s, years, months, p);
      AddToGroupsKeepsFiled(years, months, p, p);
      forall k | 0 <= k < |r| ensures FiledAt(r[k], AddToYearGroups(years, p), AddToMonthGroups(months, p)) {
        if k < |s| {
          assert r[k] == r[..|s|][k];
        }
      }
    }
  }

  /** However callbacks arrive, every dated photo of the array stays filed
      in the groupings the same callbacks build. */
  lemma {:induction false} IngestAllFiled(s: seq<PhotosImage>, years: map<int, seq<PhotosImage>>,
                                          months: map<int, map<int, seq<PhotosImage>>>, events: seq<ThumbnailEvent>)
    requires FiledIn(s, years, months)
    ensures FiledIn(IngestAll(s, events), YearGroupsAfter(years, events), MonthGroupsAfter(months, events))
  {
    if |events| > 0 {
      var init := events[..|events| - 1];
      IngestAllFiled(s, years, months, init);
      IngestOneFiled(IngestAll(s, init), YearGroupsAfter(years, init), MonthGroupsAfter(months, init),
                     events[|events| - 1]);
    }
  }

  /** Every successful callback of a run leaves its photo filed, whatever
      arrives after it. */
  lemma {:induction false} GroupsAfterFileLoaded(years: map<int, seq<PhotosImage>>,
                                                 months: map<int, map<int, seq<PhotosImage>>>,
                                                 events: seq<ThumbnailEvent>, k: nat)
    requires k < |events| && events[k].Loaded?
    ensures FiledAt(PhotoOf(events[k].asset, events[k].image),
                    YearGroupsAfter(years, events), MonthGroupsAfter(months, events))
  {
    var init := events[..|events| - 1];
    var p := PhotoOf(events[k].asset, events[k].image);
    var last := events[|events| - 1];
    if k == |events| - 1 {
      AddToGroupsKeepsFiled(YearGroupsAfter(years, init), MonthGroupsAfter(months, init), p, p);
    } else {
      assert init[k] == events[k];
      GroupsAfterFileLoaded(years, months, init, k);
      if last.Loaded? {
        AddToGroupsKeepsFiled(YearGroupsAfter(years, init), MonthGroupsAfter(months, init),
                              PhotoOf(last.asset, last.image), p);
      }
    }
  }

  /** A set is empty or has an element. */
  lemma Inhabited(keys: set<int>)
    ensures keys == {} || exists x :: x in keys
  {
    if forall x :: x !in keys {
      assert keys == {};
    }
  }

  /** A finite non-empty set of years has a least element. */
  lemma {:induction false} LeastYearExists(keys: set<int>)
    requires keys != {}
    ensures exists m :: m in keys && forall k :: k in keys ==> m <= k
    decreases |keys|
  {
    Inhabited(keys);
    var x :| x in keys;
    var rest := keys - {x};
    if rest == {} {
      forall k | k in keys ensures x <= k {
        assert k !in rest;
      }
      assert x in keys && forall k :: k in keys ==> x <= k;
    } else {
      assert |rest| < |keys|;
      LeastYearExists(rest);
      var m :| m in rest && forall k :: k in rest ==> m <= k;
      var least := if x < m then x else m;
      forall k | k in keys ensures least <= k {
        if k != x {
          assert k in rest;
        }
      }
      assert least in keys && forall k :: k in keys ==> least <= k;
    }
  }

  /** Putting the least key in front of the sorted rest sorts the whole set. */
  lemma PrependLeast(keys: set<int>, m: int, rest: seq<int>)
    requires m in keys && forall k :: k in keys ==> m <= k
    requires |rest| == |keys - {m}|
    requires forall y :: y in rest <==> y in keys - {m}
    requires forall i, j :: 0 <= i < j < |rest| ==> rest[i] < rest[j]
    ensures |[m] + rest| == |keys|
    ensures forall y :: y in [m] + rest <==> y in keys
    ensures forall i, j :: 0 <= i < j < |[m] + rest| ==> ([m] + rest)[i] < ([m] + rest)[j]
  {
    var r := [m] + rest;
    forall i | 0 <= i < |rest| ensures m < rest[i] {
      assert rest[i] in rest;
    }
    forall i, j | 0 <= i < j < |r| ensures r[i] < r[j] {
      if i > 0 {
        assert r[i] == rest[i - 1] && r[j] == rest[j - 1];
      } else {
        assert r[j] == rest[j - 1];
      }
    }
  }

  /** The keys of a dictionary in ascending order: each key once, strictly
      increasing. */
  function SortedYears(keys: set<int>): (r: seq<int>)
    ensures |r| == |keys|
    ensures forall y :: y in r <==> y in keys
    ensures forall i, j :: 0 <= i < j < |r| ==> r[i] < r[j]
    decreases keys
  {
    if keys == {} then []
    else
      LeastYearExists(keys);
      var m :| m in keys && forall k :: k in keys ==> m <= k;
      var rest := SortedYears(keys - {m});
      PrependLeast(keys, m, rest);
      [m] + rest
  }

  /** The array's flags agree with membership of the multi-select list. */
  ghost predicate InStep(arr: seq<PhotosImage>, sel: seq<PhotosImage>)
  {
    forall k :: 0 <= k < |arr| ==> (arr[k].isSelected <==> HasId(sel, arr[k].id))
  }

  /** Re-flagging one id to match its new membership keeps flags and list in step. */
  lemma FlagKeepsInStep(arr: seq<PhotosImage>, sel: seq<PhotosImage>, sel': seq<PhotosImage>,
                        id: string, flag: bool)
    requires InStep(arr, sel)
    requires forall x :: x != id ==> (HasId(sel', x) <==> HasId(sel, x))
    requires HasId(sel', id) == flag
    ensures InStep(FlagById(arr, id, flag), sel')
  {
  }

  /** Every id in the multi-select list belongs to a photo of the array. */
  ghost predicate Listed(arr: seq<PhotosImage>, sel: seq<PhotosImage>)
  {
    forall id :: HasId(sel, id) ==> HasId(arr, id)
  }

  /** An edit-mode tap on a photo of the array keeps flags and list in step
      and the list inside the array; flags never move a photo out of its
      groups. */
  lemma ToggleKeepsInvariants(arr: seq<PhotosImage>, sel: seq<PhotosImage>, photo: PhotosImage,
                              years: map<int, seq<PhotosImage>>, months: map<int, map<int, seq<PhotosImage>>>)
    ensures var removing := HasId(sel, photo.id) && photo.isSelected;
            var sel' := if removing then RemoveIds(sel, [photo]) else AppendIfAbsent(sel, photo);
            var arr' := FlagById(arr, photo.id, !removing);
            && (FiledIn(arr, years, months) ==> FiledIn(arr', years, months))
            && (InStep(arr, sel) && Listed(arr, sel) && HasId(arr, photo.id) ==>
                  InStep(arr', sel') && Listed(arr', sel'))
  {
    var removing := HasId(sel, photo.id) && photo.isSelected;
    var sel' := if removing then RemoveIds(sel, [photo]) else AppendIfAbsent(sel, photo);
    var arr' := FlagById(arr, photo.id, !removing);
    forall x ensures HasId(sel', x) <==> if removing then HasId(sel, x) && x != photo.id else HasId(sel, x) || x == photo.id {
      if removing {
        RemoveIdsHasId(sel, photo, x);
      }
    }
    SameIdsKeep(arr, arr', sel', years, months);
    if InStep(arr, sel) {
      FlagKeepsInStep(arr, sel, sel', photo.id, !removing);
    }
  }

  /** A callback keeps flags and list in step: a photo it appends is not in
      the list, since the list only names photos of the array. */
  lemma IngestOneInStep(s: seq<PhotosImage>, sel: seq<PhotosImage>, e: ThumbnailEvent)
    ensures InStep(s, sel) && Listed(s, sel) ==> InStep(IngestOne(s, e), sel) && Listed(IngestOne(s, e), sel)
  {
    if InStep(s, sel) && Listed(s, sel) && e.Loaded? {
      var p := PhotoOf(e.asset, e.image);
      var r := IngestOne(s, e);
      forall k | 0 <= k < |r| ensures r[k].isSelected <==> HasId(sel, r[k].id) {
        if k < |s| {
          assert r[k] == r[..|s|][k];
        }
      }
    }
  }

  /** Photos that survive a removal, all taken from a list in step with the
      old selection and none of them selected there, are in step with an
      empty selection. */
  lemma SurvivorsUnselected(arr: seq<PhotosImage>, sel: seq<PhotosImage>, r: seq<PhotosImage>)
    requires InStep(arr, sel)
    requires forall k :: 0 <= k < |r| ==> r[k] in arr && !HasId(sel, r[k].id)
    ensures InStep(r, []) && Listed(r, [])
  {
    forall k | 0 <= k < |r| ensures !r[k].isSelected {
      var j :| 0 <= j < |arr| && arr[j] == r[k];
    }
  }

  /** Removing one photo at an index keeps the rest filed and, with an
      empty multi-select list, unflagged. */
  lemma RemoveAtKeeps(arr: seq<PhotosImage>, idx: nat, years: map<int, seq<PhotosImage>>,
                      months: map<int, map<int, seq<PhotosImage>>>)
    requires idx < |arr|
    ensures FiledIn(arr, years, months) ==> FiledIn(RemoveAt(arr, idx), years, months)
    ensures InStep(arr, []) ==> InStep(RemoveAt(arr, idx), []) && Listed(RemoveAt(arr, idx), [])
  {
  }

  /** Survivors of a removal stay filed. */
  lemma SurvivorsFiled(arr: seq<PhotosImage>, r: seq<PhotosImage>, years: map<int, seq<PhotosImage>>,
                       months: map<int, map<int, seq<PhotosImage>>>)
    requires FiledIn(arr, years, months)
    requires forall k :: 0 <= k < |r| ==> r[k] in arr
    ensures FiledIn(r, years, months)
  {
    forall k | 0 <= k < |r| ensures FiledAt(r[k], years, months) {
      var j :| 0 <= j < |arr| && arr[j] == r[k];
    }
  }

  /** Rewriting flags keeps every id and date in place, so filing and the
      list's membership in the array are kept. */
  lemma SameIdsKeep(arr: seq<PhotosImage>, r: seq<PhotosImage>, sel: seq<PhotosImage>,
                    years: map<int, seq<PhotosImage>>, months: map<int, map<int, seq<PhotosImage>>>)
    requires |r| == |arr|
    requires forall k :: 0 <= k < |arr| ==> r[k].id == arr[k].id && r[k].creationDate == arr[k].creationDate
    ensures FiledIn(arr, years, months) ==> FiledIn(r, years, months)
    ensures Listed(arr, sel) ==> Listed(r, sel)
  {
    SameIdsHasId(arr, r);
    forall k | 0 <= k < |r| ensures FiledAt(arr[k], years, months) ==> FiledAt(r[k], years, months) {
    }
  }

  class PhotosImageViewmodel {
    var photosArr: seq<PhotosImage>
    var yearsDicts: map<int, seq<PhotosImage>>
    var monthDicts: map<int, map<int, seq<PhotosImage>>>
    var selectedPhotos: seq<PhotosImage>
    var selected: Option<PhotosImage>
    var isLoading: bool
    var totalPhotosCount: int
    var processedPhotosCount: int

    /** No id twice in the array or in the multi-select list; every group
        holds only photos of its year (and month), each id once. */
    ghost predicate Valid()
      reads this`photosArr, this`selectedPhotos, this`yearsDicts, this`monthDicts
    {
      && IdUnique(photosArr)
      && IdUnique(selectedPhotos)
      && YearGroupsWellFormed(yearsDicts)
      && MonthGroupsWellFormed(monthDicts)
    }

    /** A photo of the array is flagged selected exactly when its id is in
        the multi-select list, and the list names only photos of the array. */
    ghost predicate SelectionInStep()
      reads this`photosArr, this`selectedPhotos
    {
      InStep(photosArr, selectedPhotos) && Listed(photosArr, selectedPhotos)
    }

    /** Every dated photo of the array is filed under its year and under its
        year and month. */
    ghost predicate Filed()
      reads this`photosArr, this`yearsDicts, this`monthDicts
    {
      FiledIn(photosArr, yearsDicts, monthDicts)
    }

    constructor ()
      ensures Valid() && SelectionInStep() && Filed()
      ensures photosArr == [] && yearsDicts == map[] && monthDicts == map[]
      ensures selectedPhotos == [] && selected == None && !isLoading
      ensures totalPhotosCount == 0 && processedPhotosCount == 0
    {
      photosArr, yearsDicts, monthDicts := [], map[], map[];
      selectedPhotos, selected, isLoading := [], None, false;
      totalPhotosCount, processedPhotosCount := 0, 0;
    }

    /** Start of a pass over a library of `total` assets: loading is on and
        the total is overwritten; the count of finished callbacks is kept
        from any earlier pass. */
    method RequestPhotoModel(total: nat)
      modifies this`isLoading, this`totalPhotosCount
      ensures isLoading && totalPhotosCount == total
    {
      isLoading := true;
      totalPhotosCount := total;
    }

    /** The start of a pass as evidently intended: the count of finished
        callbacks starts again from zero together with the new total. */
    method RequestPhotoModelResetting(total: nat)
      modifies this`isLoading, this`totalPhotosCount, this`processedPhotosCount
      ensures isLoading && totalPhotosCount == total && processedPhotosCount == 0
    {
      isLoading := true;
      totalPhotosCount := total;
      processedPhotosCount := 0;
    }

    /** The library reported a change: loading is switched on and a new pass
        over its `total` assets begins. */
    method PhotoLibraryDidChange(total: nat)
      modifies this`isLoading, this`totalPhotosCount
      ensures isLoading && totalPhotosCount == total
    {
      isLoading := true;
      RequestPhotoModel(total);
    }

    /** The years that have a group, ascending. */
    function GetSortedYears(): (r: seq<int>)
      reads this
      ensures forall y :: y in r <==> y in yearsDicts
      ensures forall i, j :: 0 <= i < j < |r| ==> r[i] < r[j]
    {
      SortedYears(yearsDicts.Keys)
    }

    /** When nothing is open and the array is not empty, open its last photo. */
    method InitializeSelectedPhotoInTotal()
      modifies this`selected
      ensures selected == AutoSelect(old(selected), photosArr)
    {
      if |photosArr| > 0 {
        var idx := |photosArr| - 1;
        if selected.None? {
          selected := Some(photosArr[idx]);
        }
      }
    }

    /** Files a dated photo under its year, unless a photo with its id is
        already there. */
    method FileUnderYear(photo: PhotosImage)
      requires photo.creationDate.Some?
      requires YearGroupsWellFormed(yearsDicts)
      modifies this`yearsDicts
      ensures YearGroupsWellFormed(yearsDicts)
      ensures yearsDicts == AddToYearGroups(old(yearsDicts), photo)
    {
      var year := photo.creationDate.value.year;
      AddToYearGroupsCases(yearsDicts, photo, year);
      if year in yearsDicts {
        if !HasId(yearsDicts[year], photo.id) {
          yearsDicts := yearsDicts[year := yearsDicts[year] + [photo]];
        }
      } else {
        yearsDicts := yearsDicts[year := [photo]];
      }
    }

    /** Files a dated photo under its year and month, creating the year's
        dictionary and the month's list as needed, unless a photo with its
        id is already there. */
    method FileUnderMonth(photo: PhotosImage)
      requires photo.creationDate.Some?
      requires MonthGroupsWellFormed(monthDicts)
      modifies this`monthDicts
      ensures MonthGroupsWellFormed(monthDicts)
      ensures monthDicts == AddToMonthGroups(old(monthDicts), photo)
    {
      var year := photo.creationDate.value.year;
      var month := photo.creationDate.value.month;
      AddToMonthGroupsCases(monthDicts, photo, year, month);
      if year in monthDicts {
        if month in monthDicts[year] {
          if !HasId(monthDicts[year][month], photo.id) {
            monthDicts := monthDicts[year := monthDicts[year][month := monthDicts[year][month] + [photo]]];
          }
        } else {
          monthDicts := monthDicts[year := monthDicts[year][month := [photo]]];
        }
      } else {
        monthDicts := monthDicts[year := map[month := [photo]]];
      }
    }

    /** Files a photo under its year and under its year and month, unless a
        photo with its id is already there; a photo without a date is not
        filed. */
    method AddPhotoForDic(photo: PhotosImage)
      requires Valid()
      modifies this`yearsDicts, this`monthDicts
      ensures Valid()
      ensures yearsDicts == AddToYearGroups(old(yearsDicts), photo)
      ensures monthDicts == AddToMonthGroups(old(monthDicts), photo)
    {
      if photo.creationDate.None? {
        return;
      }
      FileUnderYear(photo);
      FileUnderMonth(photo);
    }

    /** One thumbnail callback, success or failure: a new photo is appended
        and filed, the finished count goes up by one, and the callback that
        brings the count to the total ends loading and opens the last photo
        if none is open. */
    method OnThumbnail(e: ThumbnailEvent)
      requires Valid()
      modifies this`photosArr, this`yearsDicts, this`monthDicts, this`processedPhotosCount,
               this`selected, this`isLoading
      ensures Valid()
      ensures photosArr == IngestOne(old(photosArr), e)
      ensures e.Loaded? ==> yearsDicts == AddToYearGroups(old(yearsDicts), PhotoOf(e.asset, e.image))
      ensures e.Loaded? ==> monthDicts == AddToMonthGroups(old(monthDicts), PhotoOf(e.asset, e.image))
      ensures e.Failed? ==> yearsDicts == old(yearsDicts) && monthDicts == old(monthDicts)
      ensures processedPhotosCount == old(processedPhotosCount) + 1
      ensures isLoading == (old(isLoading) && processedPhotosCount != totalPhotosCount)
      ensures selected == if processedPhotosCount == totalPhotosCount
                          then AutoSelect(old(selected), photosArr) else old(selected)
      ensures old(Filed()) ==> Filed()
      ensures old(SelectionInStep()) ==> SelectionInStep()
    {
      IngestOneFiled(photosArr, yearsDicts, monthDicts, e);
      IngestOneInStep(photosArr, selectedPhotos, e);
      match e
      case Loaded(asset, image) =>
        var photo := PhotoOf(asset, image);
        if !HasId(photosArr, photo.id) {
          photosArr := photosArr + [photo];
        }
        AddPhotoForDic(photo);
        processedPhotosCount := processedPhotosCount + 1;
        if processedPhotosCount == totalPhotosCount {
          InitializeSelectedPhotoInTotal();
          isLoading := false;
        }
      case Failed =>
        processedPhotosCount := processedPhotosCount + 1;
        if processedPhotosCount == totalPhotosCount {
          InitializeSelectedPhotoInTotal();
          isLoading := false;
        }
    }

    /** Callbacks delivered one after another. Each adds one to the finished
        count; loading ends only if the count passes through the total on
        the way; the array is what IngestAll says. */
    method DeliverCallbacks(events: seq<ThumbnailEvent>)
      requires Valid()
      modifies this`photosArr, this`yearsDicts, this`monthDicts, this`processedPhotosCount,
               this`selected, this`isLoading
      ensures Valid()
      ensures photosArr == IngestAll(old(photosArr), events)
      ensures processedPhotosCount == old(processedPhotosCount) + |events|
      ensures isLoading == (old(isLoading) &&
                            !(old(processedPhotosCount) < totalPhotosCount <= processedPhotosCount))
      ensures yearsDicts == YearGroupsAfter(old(yearsDicts), events)
      ensures monthDicts == MonthGroupsAfter(old(monthDicts), events)
      ensures old(Filed()) ==> Filed()
      ensures old(SelectionInStep()) ==> SelectionInStep()
      ensures old(selected).Some? ==> selected == old(selected)
      ensures !(old(processedPhotosCount) < totalPhotosCount <= processedPhotosCount) ==> selected == old(selected)
      ensures old(processedPhotosCount) < totalPhotosCount <= processedPhotosCount ==>
                selected == AutoSelect(old(selected),
                                       IngestAll(old(photosArr), events[..totalPhotosCount - old(processedPhotosCount)]))
      ensures |events| > 0 && processedPhotosCount == totalPhotosCount ==>
                selected == AutoSelect(old(selected), photosArr)
    {
      var i := 0;
      while i < |events|
        invariant 0 <= i <= |events|
        invariant Valid()
        invariant photosArr == IngestAll(old(photosArr), events[..i])
        invariant yearsDicts == YearGroupsAfter(old(yearsDicts), events[..i])
        invariant monthDicts == MonthGroupsAfter(old(monthDicts), events[..i])
        invariant old(Filed()) ==> Filed()
        invariant old(SelectionInStep()) ==> SelectionInStep()
        invariant processedPhotosCount == old(processedPhotosCount) + i
        invariant isLoading == (old(isLoading) &&
                                !(old(processedPhotosCount) < totalPhotosCount <= processedPhotosCount))
        invariant old(selected).Some? ==> selected == old(selected)
        invariant !(old(processedPhotosCount) < totalPhotosCount <= processedPhotosCount) ==>
                    selected == old(selected)
        invariant old(processedPhotosCount) < totalPhotosCount <= processedPhotosCount ==>
                    selected == AutoSelect(old(selected),
                                           IngestAll(old(photosArr), events[..totalPhotosCount - old(processedPhotosCount)]))
        invariant i > 0 && processedPhotosCount == totalPhotosCount ==>
                    selected == AutoSelect(old(selected), photosArr)
      {
        assert events[..i + 1][..i] == events[..i];
        assert events[..i + 1][i] == events[i];
        OnThumbnail(events[i]);
        i := i + 1;
      }
      assert events[..i] == events;
    }

    /** Sets the selection flag of the photo of the array with the given
        id, if there is one, in place. */
    method FlagPhoto(id: string, flag: bool)
      requires IdUnique(photosArr)
      modifies this`photosArr
      ensures IdUnique(photosArr)
      ensures photosArr == FlagById(old(photosArr), id, flag)
    {
      var idx := FirstIndexOfId(photosArr, id);
      if idx.Some? {
        UpdateAtIsFlagById(photosArr, idx.value, id, flag);
        photosArr := photosArr[idx.value := photosArr[idx.value].(isSelected := flag)];
      }
    }

    /** Edit-mode tap on a photo. If it is in the multi-select list and the
        tapped copy is flagged, it leaves the list and its array flag is
        cleared; otherwise it joins the list unless its id is there already,
        and its array flag is set. Array order, length and ids never change. */
    method ToggleSelectedPhoto(photo: PhotosImage)
      requires Valid()
      modifies this`selectedPhotos, this`photosArr
      ensures Valid()
      ensures var removing := HasId(old(selectedPhotos), photo.id) && photo.isSelected;
              && selectedPhotos == (if removing then RemoveIds(old(selectedPhotos), [photo])
                                    else AppendIfAbsent(old(selectedPhotos), photo))
              && photosArr == FlagById(old(photosArr), photo.id, !removing)
      ensures old(SelectionInStep()) && HasId(old(photosArr), photo.id) ==> SelectionInStep()
      ensures old(Filed()) ==> Filed()
    {
      ToggleKeepsInvariants(photosArr, selectedPhotos, photo, yearsDicts, monthDicts);
      var i := FirstIndexOfId(selectedPhotos, photo.id);
      if i.Some? && photo.isSelected {
        RemoveAtIsRemoveId(selectedPhotos, i.value, photo);
        RemoveIdsKeepsUnique(selectedPhotos, [photo]);
        selectedPhotos := RemoveAt(selectedPhotos, i.value);
        FlagPhoto(photo.id, false);
      } else {
        if !HasId(selectedPhotos, photo.id) {
          selectedPhotos := selectedPhotos + [photo];
        }
        FlagPhoto(photo.id, true);
      }
    }

    /** Leaving edit mode: the list is emptied and every photo is rebuilt
        unselected, keeping its id, image, date, place, size and current
        favourite flag, in the same order. */
    method ClearSelectedPhto()
      requires Valid()
      modifies this`selectedPhotos, this`photosArr
      ensures Valid() && SelectionInStep()
      ensures old(Filed()) ==> Filed()
      ensures selectedPhotos == []
      ensures photosArr == UnselectAll(old(photosArr))
    {
      selectedPhotos := [];
      photosArr := UnselectAll(photosArr);
      SameIdsKeep(old(photosArr), photosArr, [], yearsDicts, monthDicts);
    }

    /** After a removal that empties the multi-select list, the survivors
        stay filed and, taken from a list in step with the old selection
        and unselected there, are in step with the empty list. */
    ghost method KeepSurvivorInvariants(arr: seq<PhotosImage>, sel: seq<PhotosImage>, r: seq<PhotosImage>)
      requires photosArr == r && selectedPhotos == []
      requires forall k :: 0 <= k < |r| ==> r[k] in arr && !HasId(sel, r[k].id)
      ensures FiledIn(arr, yearsDicts, monthDicts) ==> Filed()
      ensures InStep(arr, sel) ==> SelectionInStep()
    {
      if FiledIn(arr, yearsDicts, monthDicts) {
        SurvivorsFiled(arr, r, yearsDicts, monthDicts);
      }
      if InStep(arr, sel) {
        SurvivorsUnselected(arr, sel, r);
      }
    }

    /** The multi-select branch of delete: every photo whose id is in the
        list is removed, the survivors keep their order, and the list is
        emptied. */
    method DeleteMarkedPhotos()
      requires Valid()
      modifies this`photosArr, this`selectedPhotos
      ensures Valid()
      ensures old(Filed()) ==> Filed()
      ensures old(SelectionInStep()) ==> SelectionInStep()
      ensures photosArr == RemoveIds(old(photosArr), old(selectedPhotos)) && selectedPhotos == []
    {
      RemoveIdsKeepsUnique(photosArr, selectedPhotos);
      photosArr := RemoveIds(photosArr, selectedPhotos);
      selectedPhotos := [];
      KeepSurvivorInvariants(old(photosArr), old(selectedPhotos), photosArr);
    }

    /** Removes the photo at an index with nothing multi-selected; the
        other photos stay filed and unflagged. */
    method RemoveOpenAt(idx: nat)
      requires Valid() && selectedPhotos == [] && idx < |photosArr|
      modifies this`photosArr
      ensures Valid()
      ensures old(Filed()) ==> Filed()
      ensures old(SelectionInStep()) ==> SelectionInStep()
      ensures photosArr == RemoveAt(old(photosArr), idx)
    {
      RemoveAtKeepsUnique(photosArr, idx);
      RemoveAtKeeps(photosArr, idx, yearsDicts, monthDicts);
      photosArr := RemoveAt(photosArr, idx);
    }

    /** The single-photo branch of delete, as written: the open photo is
        removed at its index and the photo that moves into that index is
        opened; when the removed photo was the last one of several, that
        read is past the end (OutOfRange) and loading is left as it was. */
    method DeleteOpenPhoto() returns (outcome: DeleteOutcome)
      requires Valid() && selectedPhotos == []
      modifies this`photosArr, this`selected, this`isLoading
      ensures Valid()
      ensures old(Filed()) ==> Filed()
      ensures old(SelectionInStep()) ==> SelectionInStep()
      ensures old(selected).None? || !HasId(old(photosArr), old(selected).value.id) ==>
                photosArr == old(photosArr) && selected == old(selected) && !isLoading && outcome == Done
      ensures old(selected).Some? && HasId(old(photosArr), old(selected).value.id) ==>
                var idx := FirstIndexOfId(old(photosArr), old(selected).value.id).value;
                && photosArr == RemoveAt(old(photosArr), idx)
                && (|photosArr| == 0 ==> selected == old(selected) && !isLoading && outcome == Done)
                && (idx < |photosArr| ==> selected == Some(photosArr[idx]) && !isLoading && outcome == Done)
                && (0 < |photosArr| == idx ==>
                      selected == old(selected) && isLoading == old(isLoading) && outcome == OutOfRange)
    {
      outcome := Done;
      if selected.Some? {
        var found := FirstIndexOfId(photosArr, selected.value.id);
        if found.Some? {
          var idx := found.value;
          RemoveOpenAt(idx);
          if |photosArr| > 0 {
            if idx >= |photosArr| {
              outcome := OutOfRange;
              return;
            }
            selected := Some(photosArr[idx]);
          }
        }
      }
      isLoading := false;
    }

    /** Delete. With an empty multi-select list, the open photo is removed at
        its index and the photo that moves into that index is opened; when
        the removed photo was the last one of several, that read is past the
        end (OutOfRange). With a non-empty list, every photo whose id is in
        the list is removed, the survivors keep their order, and the list is
        emptied. The groupings are never touched. */
    method DeleteSelectedPhotos() returns (outcome: DeleteOutcome)
      requires Valid()
      modifies this`photosArr, this`selected, this`selectedPhotos, this`isLoading
      ensures Valid()
      ensures old(Filed()) ==> Filed()
      ensures old(SelectionInStep()) ==> SelectionInStep()
      ensures old(selectedPhotos) != [] ==>
                && photosArr == RemoveIds(old(photosArr), old(selectedPhotos))
                && selectedPhotos == [] && selected == old(selected) && !isLoading && outcome == Done
      ensures old(selectedPhotos) == [] ==> selectedPhotos == []
      ensures old(selectedPhotos) == [] && (old(selected).None? || !HasId(old(photosArr), old(selected).value.id)) ==>
                photosArr == old(photosArr) && selected == old(selected) && !isLoading && outcome == Done
      ensures old(selectedPhotos) == [] && old(selected).Some? && HasId(old(photosArr), old(selected).value.id) ==>
                var idx := FirstIndexOfId(old(photosArr), old(selected).value.id).value;
                && photosArr == RemoveAt(old(photosArr), idx)
                && (|photosArr| == 0 ==> selected == old(selected) && !isLoading && outcome == Done)
                && (idx < |photosArr| ==> selected == Some(photosArr[idx]) && !isLoading && outcome == Done)
                && (0 < |photosArr| == idx ==> selected == old(selected) && isLoading && outcome == OutOfRange)
    {
      isLoading := true;
      if selectedPhotos == [] {
        outcome := DeleteOpenPhoto();
      } else {
        DeleteMarkedPhotos();
        isLoading := false;
        outcome := Done;
      }
    }

    /** The single-photo branch as evidently intended: when the removed
        photo was the last one, its predecessor is opened instead. */
    method DeleteOpenPhotoClamped()
      requires Valid() && selectedPhotos == []
      modifies this`photosArr, this`selected, this`isLoading
      ensures Valid() && !isLoading
      ensures old(Filed()) ==> Filed()
      ensures old(SelectionInStep()) ==> SelectionInStep()
      ensures old(selected).None? || !HasId(old(photosArr), old(selected).value.id) ==>
                photosArr == old(photosArr) && selected == old(selected)
      ensures old(selected).Some? && HasId(old(photosArr), old(selected).value.id) ==>
                var idx := FirstIndexOfId(old(photosArr), old(selected).value.id).value;
                && photosArr == RemoveAt(old(photosArr), idx)
                && (|photosArr| == 0 ==> selected == old(selected))
                && (idx < |photosArr| ==> selected == Some(photosArr[idx]))
                && (0 < |photosArr| == idx ==> selected == Some(photosArr[idx - 1]))
                && (|photosArr| > 0 ==> selected.Some? && selected.value in photosArr)
    {
      isLoading := false;
      if selected.None? {
        return;
      }
      var found := FirstIndexOfId(photosArr, selected.value.id);
      if found.None? {
        return;
      }
      var idx := found.value;
      RemoveOpenAt(idx);
      if idx < |photosArr| {
        selected := Some(photosArr[idx]);
        assert photosArr[idx] in photosArr;
      } else if idx > 0 {
        selected := Some(photosArr[idx - 1]);
        assert photosArr[idx - 1] in photosArr;
      }
    }

    /** The delete as evidently intended: the open photo is always one of
        the array's while the array is not empty. The multi-select path is
        unchanged. */
    method DeleteSelectedPhotosClamped()
      requires Valid()
      modifies this`photosArr, this`selected, this`selectedPhotos, this`isLoading
      ensures Valid() && !isLoading && selectedPhotos == []
      ensures old(Filed()) ==> Filed()
      ensures old(SelectionInStep()) ==> SelectionInStep()
      ensures old(selectedPhotos) != [] ==>
                photosArr == RemoveIds(old(photosArr), old(selectedPhotos)) && selected == old(selected)
      ensures old(selectedPhotos) == [] && (old(selected).None? || !HasId(old(photosArr), old(selected).value.id)) ==>
                photosArr == old(photosArr) && selected == old(selected)
      ensures old(selectedPhotos) == [] && old(selected).Some? && HasId(old(photosArr), old(selected).value.id) ==>
                var idx := FirstIndexOfId(old(photosArr), old(selected).value.id).value;
                && photosArr == RemoveAt(old(photosArr), idx)
                && (|photosArr| == 0 ==> selected == old(selected))
                && (idx < |photosArr| ==> selected == Some(photosArr[idx]))
                && (0 < |photosArr| == idx ==> selected == Some(photosArr[idx - 1]))
                && (|photosArr| > 0 ==> selected.Some? && selected.value in photosArr)
    {
      isLoading := true;
      if selectedPhotos == [] {
        DeleteOpenPhotoClamped();
      } else {
        DeleteMarkedPhotos();
        isLoading := false;
      }
    }
  }

  /** Five callbacks, the third failing, over five distinct assets file the
      four photos in callback order. */
  lemma IngestFiveOneFailure(a: Asset, b: Asset, d: Asset, e: Asset, img: ImageHandle, events: seq<ThumbnailEvent>)
    requires a.id != b.id && a.id != d.id && a.id != e.id && b.id != d.id && b.id != e.id && d.id != e.id
    requires |events| == 5 && events[0] == Loaded(a, img) && events[1] == Loaded(b, img) && events[2] == Failed
    requires events[3] == Loaded(d, img) && events[4] == Loaded(e, img)
    ensures IngestAll([], events) == [PhotoOf(a, img), PhotoOf(b, img), PhotoOf(d, img), PhotoOf(e, img)]
  {
    var pa, pb, pd, pe := PhotoOf(a, img), PhotoOf(b, img), PhotoOf(d, img), PhotoOf(e, img);
    IngestFreshStep([], events, 0, []);
    assert [] + [pa] == [pa];
    IngestFreshStep([], events, 1, [pa]);
    assert [pa] + [pb] == [pa, pb];
    IngestAllStep([], events, 2);
    assert IngestAll([], events[..3]) == [pa, pb];
    IngestFreshStep([], events, 3, [pa, pb]);
    assert [pa, pb] + [pd] == [pa, pb, pd];
    IngestFreshStep([], events, 4, [pa, pb, pd]);
    assert [pa, pb, pd] + [pe] == [pa, pb, pd, pe];
    assert events[..5] == events;
  }

  /** A callback for an asset whose id is not yet in the array appends its
      photo. */
  lemma IngestFreshStep(s: seq<PhotosImage>, events: seq<ThumbnailEvent>, k: nat, before: seq<PhotosImage>)
    requires k < |events| && events[k].Loaded?
    requires IngestAll(s, events[..k]) == before
    requires forall j :: 0 <= j < |before| ==> before[j].id != events[k].asset.id
    ensures IngestAll(s, events[..k + 1]) == before + [PhotoOf(events[k].asset, events[k].image)]
  {
    IngestAllStep(s, events, k);
  }

  /** A prefix one longer is one more callback. */
  lemma IngestAllStep(s: seq<PhotosImage>, events: seq<ThumbnailEvent>, k: nat)
    requires k < |events|
    ensures IngestAll(s, events[..k + 1]) == IngestOne(IngestAll(s, events[..k]), events[k])
  {
    assert events[..k + 1][..k] == events[..k];
  }

  /** A pass over five assets whose third thumbnail fails: four photos in
      callback order, loading over, and the last of them open. */
  method FiveAssetsOneFailure(a: Asset, b: Asset, d: Asset, e: Asset, img: ImageHandle)
    returns (vm: PhotosImageViewmodel)
    requires a.id != b.id && a.id != d.id && a.id != e.id && b.id != d.id && b.id != e.id && d.id != e.id
    ensures |vm.photosArr| == 4 && vm.processedPhotosCount == 5 && !vm.isLoading
    ensures vm.photosArr == [PhotoOf(a, img), PhotoOf(b, img), PhotoOf(d, img), PhotoOf(e, img)]
    ensures vm.selected == Some(PhotoOf(e, img))
  {
    vm := new PhotosImageViewmodel();
    vm.RequestPhotoModel(5);
    var events := [Loaded(a, img), Loaded(b, img), Failed, Loaded(d, img), Loaded(e, img)];
    IngestFiveOneFailure(a, b, d, e, img, events);
    assert vm.selected == None && vm.processedPhotosCount == 0 && vm.totalPhotosCount == |events|;
    vm.DeliverCallbacks(events);
    assert vm.selected == AutoSelect(None, vm.photosArr);
  }

  /** As written: after a complete first pass, a second pass over a library
      that did not grow never ends loading, even when every one of its
      callbacks arrives, because the finished count starts from where the
      first pass left it. */
  method SecondPassStaysLoading(first: seq<ThumbnailEvent>, second: seq<ThumbnailEvent>)
    returns (vm: PhotosImageViewmodel)
    requires 0 < |second| <= |first|
    ensures vm.isLoading && vm.processedPhotosCount == |first| + |second|
    ensures vm.totalPhotosCount == |second|
  {
    vm := new PhotosImageViewmodel();
    vm.RequestPhotoModel(|first|);
    vm.DeliverCallbacks(first);
    vm.PhotoLibraryDidChange(|second|);
    vm.DeliverCallbacks(second);
  }

  /** With the count reset at the start of each pass, every complete pass
      ends loading, whatever the earlier passes were. */
  method SecondPassEndsLoading(first: seq<ThumbnailEvent>, second: seq<ThumbnailEvent>)
    returns (vm: PhotosImageViewmodel)
    requires 0 < |first| && 0 < |second|
    ensures !vm.isLoading && vm.processedPhotosCount == vm.totalPhotosCount == |second|
    ensures vm.photosArr == IngestAll(IngestAll([], first), second)
  {
    vm := new PhotosImageViewmodel();
    vm.RequestPhotoModelResetting(|first|);
    vm.DeliverCallbacks(first);
    vm.RequestPhotoModelResetting(|second|);
    vm.DeliverCallbacks(second);
  }

  /** Two successful callbacks for distinct assets file both photos in order. */
  lemma IngestTwo(a: Asset, b: Asset, img: ImageHandle)
    requires a.id != b.id
    ensures IngestAll([], [Loaded(a, img), Loaded(b, img)]) == [PhotoOf(a, img), PhotoOf(b, img)]
  {
    var events := [Loaded(a, img), Loaded(b, img)];
    assert IngestAll([], events[..1]) == [PhotoOf(a, img)];
  }

  /** A complete pass over two assets: both photos filed in order, the
      second open, nothing multi-selected. */
  method TwoPhotosLastOpen(a: Asset, b: Asset, img: ImageHandle) returns (vm: PhotosImageViewmodel)
    requires a.id != b.id
    ensures fresh(vm) && vm.Valid()
    ensures vm.photosArr == [PhotoOf(a, img), PhotoOf(b, img)]
    ensures vm.selected == Some(PhotoOf(b, img)) && vm.selectedPhotos == []
  {
    vm := new PhotosImageViewmodel();
    vm.RequestPhotoModel(2);
    var events := [Loaded(a, img), Loaded(b, img)];
    IngestTwo(a, b, img);
    assert vm.selected == None && vm.processedPhotosCount == 0 && vm.totalPhotosCount == |events|;
    vm.DeliverCallbacks(events);
    assert vm.selected == AutoSelect(None, vm.photosArr);
  }

  /** As written: two photos, the second open (as a completed pass leaves
      it), and a delete with nothing multi-selected reads one past the end. */
  method DeleteLastOpenPhotoTraps(a: Asset, b: Asset, img: ImageHandle)
    returns (outcome: DeleteOutcome)
    requires a.id != b.id
    ensures outcome == OutOfRange
  {
    var vm := TwoPhotosLastOpen(a, b, img);
    assert FirstIndexOfId(vm.photosArr, b.id) == Some(1);
    assert |RemoveAt(vm.photosArr, 1)| == 1;
    outcome := vm.DeleteSelectedPhotos();
  }

  /** With the index clamped, the same delete opens the remaining photo. */
  method DeleteLastOpenPhotoClamped(a: Asset, b: Asset, img: ImageHandle)
    returns (shown: Option<PhotosImage>)
    requires a.id != b.id
    ensures shown == Some(PhotoOf(a, img))
  {
    var vm := TwoPhotosLastOpen(a, b, img);
    assert FirstIndexOfId(vm.photosArr, b.id) == Some(1);
    vm.DeleteSelectedPhotosClamped();
    shown := vm.selected;
  }
}
