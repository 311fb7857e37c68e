/** Lists of photos keyed on id, as the view-model's arrays are: look-up by
    id, removal, dedup-append and flag rewrites. Every operation compares ids
    only, as the record's `==` does. */
module PhotoList {
  import opened PhotoRecord

  /** Some element carries the id (`contains(where: { $0.id == id })`). */
  predicate HasId(s: seq<PhotosImage>, id: string)
  {
    exists i :: 0 <= i < |s| && s[i].id == id
  }

  /** No two elements share an id. */
  predicate IdUnique(s: seq<PhotosImage>)
  {
    forall i, j :: 0 <= i < j < |s| ==> s[i].id != s[j].id
  }

  /** How many elements carry the id. */
  function CountId(s: seq<PhotosImage>, id: string): nat
  {
    if |s| == 0 then 0
    else (if s[0].id == id then 1 else 0) + CountId(s[1..], id)
  }

  /** `firstIndex(of:)`: the position of the first element with the id, or
      None when there is none. */
  function FirstIndexOfId(s: seq<PhotosImage>, id: string): (r: Option<nat>)
    ensures r.None? <==> !HasId(s, id)
    ensures r.Some? ==> r.value < |s| && s[r.value].id == id
    ensures r.Some? ==> forall j :: 0 <= j < r.value ==> s[j].id != id
  {
    if |s| == 0 then None
    else if s[0].id == id then Some(0)
    else
      match FirstIndexOfId(s[1..], id)
      case None =>
        assert forall i :: 1 <= i < |s| ==> s[i] == s[1..][i - 1];
        None
      case Some(k) =>
        assert s[k + 1] == s[1..][k];
        Some(k + 1)
  }

  /** `remove(at:)`. */
  function RemoveAt(s: seq<PhotosImage>, i: nat): (r: seq<PhotosImage>)
    requires i < |s|
    ensures |r| == |s| - 1
    ensures forall k :: 0 <= k < |r| ==> r[k] == if k < i then s[k] else s[k + 1]
  {
    s[..i] + s[i + 1..]
  }

  /** Ingestion's guarded append: the photo is appended only when no element
      has its id yet. */
  function AppendIfAbsent(s: seq<PhotosImage>, p: PhotosImage): (r: seq<PhotosImage>)
    ensures HasId(r, p.id)
    ensures |s| <= |r| <= |s| + 1 && r[..|s|] == s
    ensures |r| == |s| + 1 <==> !HasId(s, p.id)
    ensures |r| == |s| + 1 ==> r[|s|] == p
    ensures IdUnique(s) ==> IdUnique(r)
    ensures forall id :: HasId(r, id) <==> HasId(s, id) || id == p.id
    ensures forall x :: x in r ==> x in s || x == p
  {
    if HasId(s, p.id) then s
    else
      assert (s + [p])[|s|] == p;
      s + [p]
  }

  /** `removeAll(where:)` with the predicate "some element of `sel` has this
      id": drops exactly those elements, keeping the others in order. */
  function RemoveIds(s: seq<PhotosImage>, sel: seq<PhotosImage>): (r: seq<PhotosImage>)
    ensures |r| <= |s|
    ensures forall x :: x in r <==> x in s && !HasId(sel, x.id)
  {
    if |s| == 0 then []
    else
      var rest := RemoveIds(s[1..], sel);
      assert forall x :: x in s <==> x == s[0] || x in s[1..];
      if HasId(sel, s[0].id) then rest else [s[0]] + rest
  }

  /** Sets `isSelected` on every element with the id and leaves every other
      element as it was. */
  function FlagById(s: seq<PhotosImage>, id: string, flag: bool): (r: seq<PhotosImage>)
    ensures |r| == |s|
    ensures forall k :: 0 <= k < |s| ==> r[k] == if s[k].id == id then s[k].(isSelected := flag) else s[k]
  {
    seq(|s|, k requires 0 <= k < |s| => if s[k].id == id then s[k].(isSelected := flag) else s[k])
  }

  /** The rebuild of one photo through the seven-argument initialiser, as
      leaving edit mode does. */
  function Rebuilt(p: PhotosImage): (q: PhotosImage)
    ensures q == p.(isSelected := false)
  {
    NewPhoto(p.id, p.image, p.creationDate, p.location, p.pixelWidth, p.pixelHeight, p.isFavorite)
  }

  /** Rebuilding every photo clears its selection flag and keeps everything
      else, including the favourite flag as it is now. */
  function UnselectAll(s: seq<PhotosImage>): (r: seq<PhotosImage>)
    ensures |r| == |s|
    ensures forall k :: 0 <= k < |s| ==> r[k] == s[k].(isSelected := false)
  {
    if |s| == 0 then [] else [Rebuilt(s[0])] + UnselectAll(s[1..])
  }

  /** In a list without duplicate ids, an id that occurs occurs exactly once. */
  lemma {:induction false} UniqueIdCountsOnce(s: seq<PhotosImage>, id: string)
    requires IdUnique(s) && HasId(s, id)
    ensures CountId(s, id) == 1
  {
    if s[0].id == id {
      NoIdCountsZero(s[1..], id);
    } else {
      var i :| 0 <= i < |s| && s[i].id == id;
      assert s[1..][i - 1].id == id;
      UniqueIdCountsOnce(s[1..], id);
    }
  }

  /** An id that does not occur counts zero times. */
  lemma {:induction false} NoIdCountsZero(s: seq<PhotosImage>, id: string)
    requires forall k :: 0 <= k < |s| ==> s[k].id != id
    ensures CountId(s, id) == 0
  {
    if |s| > 0 {
      NoIdCountsZero(s[1..], id);
    }
  }

  /** Removing by id distributes over concatenation, so it keeps the
      surviving elements in their original order. */
  lemma {:induction false} RemoveIdsAppend(a: seq<PhotosImage>, b: seq<PhotosImage>, sel: seq<PhotosImage>)
    ensures RemoveIds(a + b, sel) == RemoveIds(a, sel) + RemoveIds(b, sel)
  {
    if |a| == 0 {
      assert a + b == b;
    } else {
      assert (a + b)[1..] == a[1..] + b;
      RemoveIdsAppend(a[1..], b, sel);
    }
  }

  /** Removing by id never introduces a duplicate id. */
  lemma {:induction false} RemoveIdsKeepsUnique(s: seq<PhotosImage>, sel: seq<PhotosImage>)
    requires IdUnique(s)
    ensures IdUnique(RemoveIds(s, sel))
  {
    if |s| > 0 {
      RemoveIdsKeepsUnique(s[1..], sel);
      var rest := RemoveIds(s[1..], sel);
      forall x | x in rest ensures x.id != s[0].id {
        var k :| 0 <= k < |s[1..]| && s[1..][k] == x;
        assert s[k + 1] == x;
      }
    }
  }

  /** Removing a single element keeps the rest duplicate-free. */
  lemma RemoveAtKeepsUnique(s: seq<PhotosImage>, i: nat)
    requires IdUnique(s) && i < |s|
    ensures IdUnique(RemoveAt(s, i))
  {
    var r := RemoveAt(s, i);
    forall a, b | 0 <= a < b < |r| ensures r[a].id != r[b].id {
      var a' := if a < i then a else a + 1;
      var b' := if b < i then b else b + 1;
      assert r[a] == s[a'] && r[b] == s[b'];
    }
  }

  /** In a duplicate-free list, removing the element found at position `i`
      by id is the same as removing every element with that id. */
  lemma {:induction false} RemoveAtIsRemoveId(s: seq<PhotosImage>, i: nat, p: PhotosImage)
    requires IdUnique(s) && i < |s| && s[i].id == p.id
    ensures RemoveAt(s, i) == RemoveIds(s, [p])
  {
    var before, here, after := s[..i], [s[i]], s[i + 1..];
    assert s == before + (here + after);
    RemoveIdsAppend(before, here + after, [p]);
    RemoveIdsAppend(here, after, [p]);
    assert RemoveIds(here, [p]) == [] by {
      assert [p][0].id == s[i].id;
      assert here[1..] == [];
    }
    forall k | 0 <= k < |before| ensures before[k].id != p.id {
      assert before[k] == s[k];
    }
    forall k | 0 <= k < |after| ensures after[k].id != p.id {
      assert after[k] == s[i + 1 + k];
    }
    RemoveIdsNone(before, p);
    RemoveIdsNone(after, p);
  }

  /** Removing an id that no element carries changes nothing. */
  lemma {:induction false} RemoveIdsNone(s: seq<PhotosImage>, p: PhotosImage)
    requires forall k :: 0 <= k < |s| ==> s[k].id != p.id
    ensures RemoveIds(s, [p]) == s
  {
    if |s| > 0 {
      RemoveIdsNone(s[1..], p);
      assert !HasId([p], s[0].id);
    }
  }

  /** After removing one id from a list, exactly the other ids still occur. */
  lemma RemoveIdsHasId(s: seq<PhotosImage>, p: PhotosImage, id: string)
    ensures HasId(RemoveIds(s, [p]), id) <==> HasId(s, id) && id != p.id
  {
    var r := RemoveIds(s, [p]);
    assert [p][0] == p;
    if HasId(r, id) {
      var k :| 0 <= k < |r| && r[k].id == id;
      assert r[k] in r;
      assert !HasId([p], r[k].id);
      assert r[k] in s;
      var j :| 0 <= j < |s| && s[j] == r[k];
      assert s[j].id == id;
    }
    if HasId(s, id) && id != p.id {
      var k :| 0 <= k < |s| && s[k].id == id;
      assert !HasId([p], s[k].id);
      assert s[k] in s;
      assert s[k] in r;
      var j :| 0 <= j < |r| && r[j] == s[k];
      assert r[j].id == id;
    }
  }

  /** In a duplicate-free list, rewriting the flag at the id's first position
      is the same as rewriting it for the id everywhere. */
  lemma UpdateAtIsFlagById(s: seq<PhotosImage>, i: nat, id: string, flag: bool)
    requires IdUnique(s) && i < |s| && s[i].id == id
    ensures s[i := s[i].(isSelected := flag)] == FlagById(s, id, flag)
  {
  }

  /** Two lists with the same id at every position hold the same ids. */
  lemma SameIdsHasId(a: seq<PhotosImage>, b: seq<PhotosImage>)
    requires |a| == |b| && forall k :: 0 <= k < |a| ==> a[k].id == b[k].id
    ensures forall id :: HasId(a, id) <==> HasId(b, id)
  {
    forall id ensures HasId(a, id) <==> HasId(b, id) {
      if HasId(a, id) {
        var k :| 0 <= k < |a| && a[k].id == id;
        assert b[k].id == id;
      }
      if HasId(b, id) {
        var k :| 0 <= k < |b| && b[k].id == id;
        assert a[k].id == id;
      }
    }
  }
}
