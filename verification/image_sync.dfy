/** Reconciliation of a listing's existing images with the retain list of
    an update request: unknown retained paths are refused, the images
    whose path is not retained are deleted from storage and dropped, and
    the kept images are ordered by where their path first occurs in the
    retain list. */
module ImageSync {
  import opened Outcomes
  import opened JavaStrings
  import opened Collections
  import opened Listings

  /** `Integer.MAX_VALUE`: the order of an image whose path was not
      requested. */
  const IntegerMaxValue: int := 0x7fff_ffff

  const UnknownRetainedPath: string := "Unknown retained image path included"

  /** A call to the storage service's `delete`, recorded in call order. */
  datatype StorageEvent = Delete(paths: seq<string>)

  // ---------------------------------------------------------------------
  // Normalizing the retain list

  /** A retain entry that survives normalization: present and not blank. */
  predicate IsRetainEntry(e: Option<string>) {
    e.Some? && !IsBlank(e.value)
  }

  /** Drops the `null` and blank entries and trims the others, in order. */
  function NormalizeRequestedPaths(requested: seq<Option<string>>): (r: seq<string>)
    ensures |r| <= |requested|
    ensures forall i :: 0 <= i < |requested| && IsRetainEntry(requested[i]) ==> Trim(requested[i].value) in r
    ensures forall p :: p in r ==>
              exists i :: 0 <= i < |requested| && IsRetainEntry(requested[i]) && p == Trim(requested[i].value)
  {
    if requested == [] then []
    else
      var rest := NormalizeRequestedPaths(requested[1..]);
      assert forall i :: 1 <= i < |requested| ==> requested[i] == requested[1..][i - 1];
      if IsRetainEntry(requested[0]) then [Trim(requested[0].value)] + rest else rest
  }

  /** Normalization works entry by entry: it distributes over
      concatenation, so it keeps the order of the surviving entries. */
  lemma {:induction false} NormalizeAppend(a: seq<Option<string>>, b: seq<Option<string>>)
    ensures NormalizeRequestedPaths(a + b) == NormalizeRequestedPaths(a) + NormalizeRequestedPaths(b)
    decreases |a|
  {
    if a == [] {
      assert a + b == b;
    } else {
      assert (a + b)[0] == a[0];
      assert (a + b)[1..] == a[1..] + b;
      NormalizeAppend(a[1..], b);
    }
  }

  /** A list of `null` and blank entries normalizes to the empty list. */
  lemma {:induction false} NormalizeNothingRetained(requested: seq<Option<string>>)
    requires forall i :: 0 <= i < |requested| ==> !IsRetainEntry(requested[i])
    ensures NormalizeRequestedPaths(requested) == []
    decreases |requested|
  {
    if requested != [] {
      assert forall i :: 0 <= i < |requested[1..]| ==> requested[1..][i] == requested[i + 1];
      NormalizeNothingRetained(requested[1..]);
    }
  }

  // ---------------------------------------------------------------------
  // Paths, filters and the delete list

  /** The key set of `existingByPath`: every path among the images. */
  function PathSet(images: seq<Image>): set<string> {
    set img | img in images :: img.imagePath
  }

  /** The images whose path is in the kept set, in their order; every
      other image is removed from the list. */
  function Retain(images: seq<Image>, keep: set<string>): (r: seq<Image>)
    ensures |r| <= |images|
    ensures forall img :: multiset(r)[img] == if img.imagePath in keep then multiset(images)[img] else 0
  {
    if images == [] then []
    else
      var rest := Retain(images[1..], keep);
      assert images == [images[0]] + images[1..];
      if images[0].imagePath in keep then [images[0]] + rest else rest
  }

  /** The images whose path is `p`, in their order. */
  function WithPath(images: seq<Image>, p: string): (r: seq<Image>)
    ensures forall i :: 0 <= i < |r| ==> r[i].imagePath == p
  {
    if images == [] then []
    else if images[0].imagePath == p then [images[0]] + WithPath(images[1..], p)
    else WithPath(images[1..], p)
  }

  /** Retaining does not reorder the images of a kept path. */
  lemma {:induction false} RetainWithPath(images: seq<Image>, keep: set<string>, p: string)
    requires p in keep
    ensures WithPath(Retain(images, keep), p) == WithPath(images, p)
    decreases |images|
  {
    if images != [] {
      RetainWithPath(images[1..], keep, p);
    }
  }

  /** The paths to delete: each path among the images that is not kept,
      once, in order of first occurrence. (The service walks a hash map's
      key set, whose order is unspecified; only the set matters.) */
  function PathsToDelete(images: seq<Image>, keep: set<string>): (r: seq<string>)
    ensures NoDuplicates(r)
    ensures forall p :: p in r <==> p in PathSet(images) && p !in keep
    decreases |images|
  {
    if images == [] then []
    else
      var init := images[..|images| - 1];
      var last := images[|images| - 1];
      var d := PathsToDelete(init, keep);
      assert images == init + [last];
      assert PathSet(images) == PathSet(init) + {last.imagePath};
      if last.imagePath in keep || last.imagePath in d then d else d + [last.imagePath]
  }

  // ---------------------------------------------------------------------
  // Ordering by the retain list

  /** `k` is the first index at which `p` occurs in `paths`. */
  predicate IsFirstIndex(paths: seq<string>, p: string, k: int) {
    && 0 <= k < |paths|
    && paths[k] == p
    && forall j :: 0 <= j < k ==> paths[j] != p
  }

  /** The `order` map: `putIfAbsent(paths[i], i)` for `i` upwards, so each
      path maps to the index of its first occurrence. */
  function OrderTable(paths: seq<string>): (m: map<string, int>)
    ensures forall p :: p in m <==> p in paths
    ensures forall p :: p in m ==> IsFirstIndex(paths, p, m[p])
    decreases |paths|
  {
    if paths == [] then map[]
    else
      var init := paths[..|paths| - 1];
      var last := paths[|paths| - 1];
      var m := OrderTable(init);
      assert paths == init + [last];
      if last in m then m else m[last := |paths| - 1]
  }

  /** The index of the first occurrence of `p`. */
  function FirstIndex(paths: seq<string>, p: string): (k: int)
    requires p in paths
    ensures IsFirstIndex(paths, p, k)
  {
    if paths[0] == p then 0
    else
      var k := FirstIndex(paths[1..], p);
      assert forall j :: 1 <= j <= k + 1 ==> paths[j] == paths[1..][j - 1];
      k + 1
  }

  /** The order map holds the first index of every requested path. */
  lemma OrderTableFirstIndex(paths: seq<string>, p: string)
    requires p in paths
    ensures p in OrderTable(paths) && OrderTable(paths)[p] == FirstIndex(paths, p)
  {
  }

  /** The sort key of an image: the position recorded for its path, or
      the largest `int` when its path has none. */
  function Rank(order: map<string, int>, image: Image): int {
    if image.imagePath in order then order[image.imagePath] else IntegerMaxValue
  }

  predicate SortedByRank(order: map<string, int>, images: seq<Image>) {
    forall i, j :: 0 <= i < j < |images| ==> Rank(order, images[i]) <= Rank(order, images[j])
  }

  /** Inserts `x` before the first image ranked at least as high, which is
      where a stable sort puts an image that came first. */
  function Insert(order: map<string, int>, x: Image, images: seq<Image>): (r: seq<Image>)
    ensures multiset(r) == multiset(images) + multiset{x}
    decreases |images|
  {
    if images == [] then [x]
    else if Rank(order, images[0]) >= Rank(order, x) then [x] + images
    else
      assert images == [images[0]] + images[1..];
      [images[0]] + Insert(order, x, images[1..])
  }

  /** A lower bound on the ranks of `x` and of `images` bounds every rank
      after insertion. */
  lemma LowerRankedBound(order: map<string, int>, x: Image, images: seq<Image>, bound: int)
    requires bound <= Rank(order, x)
    requires forall i :: 0 <= i < |images| ==> bound <= Rank(order, images[i])
    ensures forall k :: 0 <= k < |Insert(order, x, images)| ==> bound <= Rank(order, Insert(order, x, images)[k])
  {
    var r := Insert(order, x, images);
    forall k | 0 <= k < |r|
      ensures bound <= Rank(order, r[k])
    {
      assert r[k] in multiset(r);
      if r[k] != x {
        assert r[k] in multiset(images);
        assert r[k] in images;
      }
    }
  }

  /** An image ranked no higher than every image of a sorted list can go
      in front of it. */
  lemma SortedCons(order: map<string, int>, head: Image, rest: seq<Image>)
    requires SortedByRank(order, rest)
    requires forall k :: 0 <= k < |rest| ==> Rank(order, head) <= Rank(order, rest[k])
    ensures SortedByRank(order, [head] + rest)
  {
    var r := [head] + rest;
    forall i, j | 0 <= i < j < |r|
      ensures Rank(order, r[i]) <= Rank(order, r[j])
    {
      assert r[j] == rest[j - 1];
      if i > 0 {
        assert r[i] == rest[i - 1];
      }
    }
  }

  /** The tail of a sorted list is sorted, and its head is ranked no higher
      than any image in the tail. */
  lemma SortedTail(order: map<string, int>, images: seq<Image>)
    requires SortedByRank(order, images) && images != []
    ensures SortedByRank(order, images[1..])
    ensures forall k :: 0 <= k < |images[1..]| ==> Rank(order, images[0]) <= Rank(order, images[1..][k])
  {
    var tail := images[1..];
    forall i, j | 0 <= i < j < |tail|
      ensures Rank(order, tail[i]) <= Rank(order, tail[j])
    {
      assert tail[i] == images[i + 1] && tail[j] == images[j + 1];
    }
    forall k | 0 <= k < |tail|
      ensures Rank(order, images[0]) <= Rank(order, tail[k])
    {
      assert tail[k] == images[k + 1];
    }
  }

  /** Insertion into a sorted list keeps it sorted. */
  lemma {:induction false} InsertSorted(order: map<string, int>, x: Image, images: seq<Image>)
    requires SortedByRank(order, images)
    ensures SortedByRank(order, Insert(order, x, images))
    decreases |images|
  {
    if images == [] {
    } else if Rank(order, images[0]) >= Rank(order, x) {
      SortedTail(order, images);
      assert images == [images[0]] + images[1..];
      SortedCons(order, x, images);
    } else {
      var head := images[0];
      var tail := images[1..];
      SortedTail(order, images);
      InsertSorted(order, x, tail);
      LowerRankedBound(order, x, tail, Rank(order, head));
      SortedCons(order, head, Insert(order, x, tail));
    }
  }

  /** The images sorted by rank. Java's list sort is stable; it is modelled
      as an insertion sort, and every stable sort yields the same list. */
  function SortByRank(order: map<string, int>, images: seq<Image>): (r: seq<Image>)
    ensures multiset(r) == multiset(images)
    ensures SortedByRank(order, r)
    decreases |images|
  {
    if images == [] then []
    else
      assert images == [images[0]] + images[1..];
      var sortedTail := SortByRank(order, images[1..]);
      InsertSorted(order, images[0], sortedTail);
      Insert(order, images[0], sortedTail)
  }

  /** Insertion puts `x` ahead of every image with the same path. */
  lemma {:induction false} InsertWithPath(order: map<string, int>, x: Image, images: seq<Image>, p: string)
    ensures WithPath(Insert(order, x, images), p)
            == (if x.imagePath == p then [x] else []) + WithPath(images, p)
    decreases |images|
  {
    if images != [] && Rank(order, images[0]) < Rank(order, x) {
      InsertWithPath(order, x, images[1..], p);
      assert images[0].imagePath != x.imagePath;
    }
  }

  /** The sort is stable: images with the same path keep their relative
      order. */
  lemma {:induction false} SortKeepsPathOrder(order: map<string, int>, images: seq<Image>, p: string)
    ensures WithPath(SortByRank(order, images), p) == WithPath(images, p)
    decreases |images|
  {
    if images != [] {
      SortKeepsPathOrder(order, images[1..], p);
      InsertWithPath(order, images[0], SortByRank(order, images[1..]), p);
    }
  }

  // ---------------------------------------------------------------------
  // syncExistingImages

  /** The storage calls for a list of paths to delete: one batch, or none
      when the list is empty. */
  function DeleteEvents(toDelete: seq<string>): seq<StorageEvent> {
    if toDelete == [] then [] else [Delete(toDelete)]
  }

  /** The listing after reconciliation and the storage calls made. */
  datatype Synced = Synced(listing: Listing, events: seq<StorageEvent>)

  /** `syncExistingImages`. A `null` retain list changes nothing. Otherwise
      the retain list is normalized; a retained path that no image has is
      refused; the paths no longer retained are deleted from storage in one
      call (none when there is nothing to delete); the images of those
      paths are dropped and the rest sorted by the first position of their
      path in the retain list. A `null` image list fails when it is first
      read. */
  function SyncExistingImages(l: Listing, requested: Option<seq<Option<string>>>): (r: Result<Synced>)
    ensures requested.None? ==> r == Success(Synced(l, []))
    ensures requested.Some? && l.images.None? ==> r == Error(NullPointer)
    ensures requested.Some? && l.images.Some? ==>
              (r.Error? <==> exists p :: p in NormalizeRequestedPaths(requested.value) && p !in PathSet(l.images.value))
    ensures r.Error? ==> r.failure == NullPointer || r.failure == ResponseStatus(BadRequest, UnknownRetainedPath)
    ensures r.Success? ==> r.value.listing.id == l.id && r.value.listing.details == l.details
    ensures r.Success? && requested.Some? ==>
              var keep := set p | p in NormalizeRequestedPaths(requested.value);
              && l.images.Some? && r.value.listing.images.Some?
              && |r.value.events| <= 1
              && (r.value.events == [] <==> PathSet(l.images.value) <= keep)
              && (r.value.events != [] ==>
                    && NoDuplicates(r.value.events[0].paths)
                    && forall p :: p in r.value.events[0].paths <==> p in PathSet(l.images.value) && p !in keep)
  {
    if requested.None? then Success(Synced(l, []))
    else if l.images.None? then Error(NullPointer)
    else
      var normalized := NormalizeRequestedPaths(requested.value);
      var images := l.images.value;
      var keep := set p | p in normalized;
      if !(keep <= PathSet(images)) then Error(ResponseStatus(BadRequest, UnknownRetainedPath))
      else
        var toDelete := PathsToDelete(images, keep);
        var events := DeleteEvents(toDelete);
        var order := OrderTable(normalized);
        var kept := SortByRank(order, Retain(images, keep));
        assert toDelete == [] <==> PathSet(images) <= keep by {
          if toDelete != [] {
            assert toDelete[0] in toDelete;
          }
        }
        Success(Synced(l.(images := Some(kept)), events))
  }

  /** A reconciliation deletes at most once, and only paths the listing's
      images had. */
  lemma SyncDeletesOnlyExisting(l: Listing, requested: Option<seq<Option<string>>>)
    requires SyncExistingImages(l, requested).Success?
    ensures var events := SyncExistingImages(l, requested).value.events;
            && |events| <= 1
            && forall e, q :: e in events && q in e.paths ==> l.images.Some? && q in PathSet(l.images.value)
  {
    var r := SyncExistingImages(l, requested);
    var events := r.value.events;
    if events != [] {
      assert requested.Some? && l.images.Some?;
      var deleted := events[0].paths;
      assert forall p :: p in deleted ==> p in PathSet(l.images.value);
      forall e, q | e in events && q in e.paths
        ensures l.images.Some? && q in PathSet(l.images.value)
      {
        assert |events| == 1 && e == events[0];
      }
    }
  }

  /** After a successful reconciliation with a retain list, the images are
      exactly the old images whose path is retained, each as often as
      before: none is added and none duplicated. */
  lemma SyncKeepsRetainedImages(l: Listing, requested: Option<seq<Option<string>>>)
    requires requested.Some? && SyncExistingImages(l, requested).Success?
    ensures var keep := set p | p in NormalizeRequestedPaths(requested.value);
            var after := SyncExistingImages(l, requested).value.listing.images.value;
            forall img :: multiset(after)[img] == if img.imagePath in keep then multiset(l.images.value)[img] else 0
  {
  }

  /** After a successful reconciliation with a retain list, every image's
      path is in the normalized retain list, and the images are ordered by
      the first position of their path there. */
  lemma SyncOrdersByFirstOccurrence(l: Listing, requested: Option<seq<Option<string>>>)
    requires requested.Some? && SyncExistingImages(l, requested).Success?
    ensures var normalized := NormalizeRequestedPaths(requested.value);
            var after := SyncExistingImages(l, requested).value.listing.images.value;
            && (forall i :: 0 <= i < |after| ==> after[i].imagePath in normalized)
            && (forall i, j :: 0 <= i < j < |after| ==>
                  && after[i].imagePath in normalized && after[j].imagePath in normalized
                  && FirstIndex(normalized, after[i].imagePath) <= FirstIndex(normalized, after[j].imagePath))
  {
    var normalized := NormalizeRequestedPaths(requested.value);
    var keep := set p | p in normalized;
    var order := OrderTable(normalized);
    var after := SyncExistingImages(l, requested).value.listing.images.value;
    assert after == SortByRank(order, Retain(l.images.value, keep));
    forall i | 0 <= i < |after|
      ensures after[i].imagePath in normalized
      ensures Rank(order, after[i]) == FirstIndex(normalized, after[i].imagePath)
    {
      assert multiset(after)[after[i]] > 0;
      OrderTableFirstIndex(normalized, after[i].imagePath);
    }
  }

  /** After a successful reconciliation, the images sharing a path keep
      their relative order, and the images of a path that is not retained
      are gone. */
  lemma SyncKeepsPathOrder(l: Listing, requested: Option<seq<Option<string>>>, p: string)
    requires requested.Some? && SyncExistingImages(l, requested).Success?
    ensures var keep := set q | q in NormalizeRequestedPaths(requested.value);
            var after := SyncExistingImages(l, requested).value.listing.images.value;
            WithPath(after, p) == if p in keep then WithPath(l.images.value, p) else []
  {
    var normalized := NormalizeRequestedPaths(requested.value);
    var keep := set q | q in normalized;
    var kept := Retain(l.images.value, keep);
    SortKeepsPathOrder(OrderTable(normalized), kept, p);
    if p in keep {
      RetainWithPath(l.images.value, keep, p);
    } else {
      RetainDropsPath(l.images.value, keep, p);
    }
  }

  /** A path that is not kept has no image left. */
  lemma {:induction false} RetainDropsPath(images: seq<Image>, keep: set<string>, p: string)
    requires p !in keep
    ensures WithPath(Retain(images, keep), p) == []
    decreases |images|
  {
    if images != [] {
      RetainDropsPath(images[1..], keep, p);
    }
  }

  /** An empty or all-blank retain list removes every image, and deletes
      every distinct path from storage in one call when there was any. */
  lemma SyncNothingRetained(l: Listing, requested: seq<Option<string>>)
    requires l.images.Some?
    requires forall i :: 0 <= i < |requested| ==> !IsRetainEntry(requested[i])
    ensures var r := SyncExistingImages(l, Some(requested));
            && r.Success?
            && r.value.listing.images == Some([])
            && (r.value.events == [] <==> l.images.value == [])
            && (r.value.events != [] ==> forall p :: p in r.value.events[0].paths <==> p in PathSet(l.images.value))
  {
    NormalizeNothingRetained(requested);
    var r := SyncExistingImages(l, Some(requested));
    var after := r.value.listing.images.value;
    assert forall img :: multiset(after)[img] == 0;
    if l.images.value != [] {
      assert l.images.value[0].imagePath in PathSet(l.images.value);
    }
  }

  /** A path as a client sends it back: not blank, and nothing for `trim`
      to strip. */
  predicate IsCleanPath(p: string) {
    !IsBlank(p) && !IsTrimmable(p[0]) && !IsTrimmable(p[|p| - 1])
  }

  /** A retain list naming `ps`, with no `null` entry. */
  function RetainList(ps: seq<string>): (r: seq<Option<string>>)
    ensures |r| == |ps|
  {
    if ps == [] then [] else [Some(ps[0])] + RetainList(ps[1..])
  }

  /** Clean paths come through normalization unchanged. */
  lemma {:induction false} NormalizeClean(ps: seq<string>)
    requires forall i :: 0 <= i < |ps| ==> IsCleanPath(ps[i])
    ensures NormalizeRequestedPaths(RetainList(ps)) == ps
    decreases |ps|
  {
    if ps != [] {
      assert IsCleanPath(ps[0]);
      TrimNoop(ps[0]);
      assert RetainList(ps)[1..] == RetainList(ps[1..]);
      NormalizeClean(ps[1..]);
      assert ps == [ps[0]] + ps[1..];
    }
  }

  /** The pieces of a successful reconciliation, for computing examples. */
  lemma SyncUnfolds(l: Listing, requested: seq<Option<string>>, keep: set<string>)
    requires l.images.Some?
    requires keep == set p | p in NormalizeRequestedPaths(requested)
    requires keep <= PathSet(l.images.value)
    ensures SyncExistingImages(l, Some(requested))
         == Success(Synced(
              l.(images := Some(SortByRank(OrderTable(NormalizeRequestedPaths(requested)), Retain(l.images.value, keep)))),
              DeleteEvents(PathsToDelete(l.images.value, keep))))
  {
  }

  /** Any retained path that no image has makes the reconciliation fail
      with a bad request. */
  lemma SyncRefusesUnknown(l: Listing, requested: seq<Option<string>>, unknown: string)
    requires l.images.Some?
    requires unknown in NormalizeRequestedPaths(requested) && unknown !in PathSet(l.images.value)
    ensures SyncExistingImages(l, Some(requested)) == Error(ResponseStatus(BadRequest, UnknownRetainedPath))
  {
    var keep := set p | p in NormalizeRequestedPaths(requested);
    assert unknown in keep;
  }

  /** `SyncUnfolds` for a retain list of clean paths. */
  lemma SyncCleanUnfolds(l: Listing, ps: seq<string>, keep: set<string>)
    requires l.images.Some?
    requires forall i :: 0 <= i < |ps| ==> IsCleanPath(ps[i])
    requires keep == set p | p in ps
    requires keep <= PathSet(l.images.value)
    ensures SyncExistingImages(l, Some(RetainList(ps)))
         == Success(Synced(
              l.(images := Some(SortByRank(OrderTable(ps), Retain(l.images.value, keep)))),
              DeleteEvents(PathsToDelete(l.images.value, keep))))
  {
    NormalizeClean(ps);
    SyncUnfolds(l, RetainList(ps), keep);
  }

  lemma CleanSingle(p: string)
    requires IsCleanPath(p)
    ensures forall i :: 0 <= i < |[p]| ==> IsCleanPath([p][i])
  {
    forall i | 0 <= i < |[p]|
      ensures IsCleanPath([p][i])
    {
      assert [p][i] == p;
    }
  }

  lemma CleanPair(c: string, a: string)
    requires IsCleanPath(c) && IsCleanPath(a)
    ensures forall i :: 0 <= i < |[c, a]| ==> IsCleanPath([c, a][i])
  {
    forall i | 0 <= i < |[c, a]|
      ensures IsCleanPath([c, a][i])
    {
      if i == 0 {
        assert [c, a][i] == c;
      } else {
        assert [c, a][i] == a;
      }
    }
  }

  lemma ReorderPieces(ia: Image, ib: Image, ic: Image)
    requires ia.imagePath != ib.imagePath && ib.imagePath != ic.imagePath && ia.imagePath != ic.imagePath
    ensures {ic.imagePath, ia.imagePath} <= PathSet([ia, ib, ic])
    ensures PathsToDelete([ia, ib, ic], {ic.imagePath, ia.imagePath}) == [ib.imagePath]
    ensures Retain([ia, ib, ic], {ic.imagePath, ia.imagePath}) == [ia, ic]
  {
    assert ia in [ia, ib, ic] && ic in [ia, ib, ic];
    ReorderDeletes(ia, ib, ic, {ic.imagePath, ia.imagePath});
    ReorderRetains(ia, ib, ic, {ic.imagePath, ia.imagePath});
  }

  lemma ReorderDeletes(ia: Image, ib: Image, ic: Image, keep: set<string>)
    requires ia.imagePath in keep && ib.imagePath !in keep && ic.imagePath in keep
    ensures PathsToDelete([ia, ib, ic], keep) == [ib.imagePath]
  {
    assert [ia, ib, ic][..2] == [ia, ib] && [ia, ib][..1] == [ia] && [ia][..0] == [];
    assert PathsToDelete([], keep) == [];
    assert PathsToDelete([ia], keep) == [];
    assert PathsToDelete([ia, ib], keep) == [ib.imagePath];
  }

  lemma ReorderRetains(ia: Image, ib: Image, ic: Image, keep: set<string>)
    requires ia.imagePath in keep && ib.imagePath !in keep && ic.imagePath in keep
    ensures Retain([ia, ib, ic], keep) == [ia, ic]
  {
    assert [ia, ib, ic][1..] == [ib, ic] && [ib, ic][1..] == [ic] && [ic][1..] == [];
  }

  lemma ReorderSort(a: string, c: string, ia: Image, ic: Image)
    requires a != c && ia.imagePath == a && ic.imagePath == c
    ensures SortByRank(OrderTable([c, a]), [ia, ic]) == [ic, ia]
  {
    var order := OrderTable([c, a]);
    OrderTableFirstIndex([c, a], c);
    OrderTableFirstIndex([c, a], a);
    assert Rank(order, ic) == 0 && Rank(order, ia) == 1;
    assert [ia, ic][1..] == [ic] && [ic][1..] == [];
    assert SortByRank(order, [ic]) == [ic];
    assert Insert(order, ia, []) == [ia];
  }

  lemma RetainOnePieces(i1: Image, i2: Image)
    requires i1.imagePath != i2.imagePath
    ensures PathSet([i1, i2]) == {i1.imagePath, i2.imagePath}
    ensures PathsToDelete([i1, i2], {i2.imagePath}) == [i1.imagePath]
    ensures Retain([i1, i2], {i2.imagePath}) == [i2]
    ensures SortByRank(OrderTable([i2.imagePath]), [i2]) == [i2]
  {
    var images := [i1, i2];
    assert i1 in images && i2 in images;
    assert images[..1] == [i1] && [i1][..0] == [];
    assert PathsToDelete([], {i2.imagePath}) == [];
    assert PathsToDelete([i1], {i2.imagePath}) == [i1.imagePath];
    assert images[1..] == [i2] && [i2][1..] == [];
  }

  /** Retaining `c` and `a` (in that order) of the images `a`, `b`, `c`
      deletes `b` and leaves `c` ahead of `a`. */
  lemma SyncReordersAndDeletes(l: Listing, ia: Image, ib: Image, ic: Image)
    requires l.images == Some([ia, ib, ic])
    requires IsCleanPath(ia.imagePath) && IsCleanPath(ic.imagePath)
    requires ia.imagePath != ib.imagePath && ib.imagePath != ic.imagePath && ia.imagePath != ic.imagePath
    ensures SyncExistingImages(l, Some(RetainList([ic.imagePath, ia.imagePath])))
         == Success(Synced(l.(images := Some([ic, ia])), [Delete([ib.imagePath])]))
  {
    var a, c := ia.imagePath, ic.imagePath;
    var keep := {c, a};
    assert keep == set p | p in [c, a];
    ReorderPieces(ia, ib, ic);
    ReorderSort(a, c, ia, ic);
    CleanPair(c, a);
    SyncCleanUnfolds(l, [c, a], keep);
  }

  /** Retaining the second of two images deletes the first. */
  lemma SyncRetainsOne(l: Listing, i1: Image, i2: Image)
    requires l.images == Some([i1, i2])
    requires IsCleanPath(i2.imagePath) && i1.imagePath != i2.imagePath
    ensures SyncExistingImages(l, Some(RetainList([i2.imagePath])))
         == Success(Synced(l.(images := Some([i2])), [Delete([i1.imagePath])]))
  {
    var keep := {i2.imagePath};
    assert keep == set p | p in [i2.imagePath];
    RetainOnePieces(i1, i2);
    CleanSingle(i2.imagePath);
    SyncCleanUnfolds(l, [i2.imagePath], keep);
  }

  lemma RetainFirstPieces(i1: Image, i2: Image)
    requires i1.imagePath != i2.imagePath
    ensures PathSet([i1, i2]) == {i1.imagePath, i2.imagePath}
    ensures PathsToDelete([i1, i2], {i1.imagePath}) == [i2.imagePath]
    ensures Retain([i1, i2], {i1.imagePath}) == [i1]
    ensures SortByRank(OrderTable([i1.imagePath]), [i1]) == [i1]
  {
    var images := [i1, i2];
    assert i1 in images && i2 in images;
    assert images[..1] == [i1] && [i1][..0] == [];
    assert PathsToDelete([], {i1.imagePath}) == [];
    assert PathsToDelete([i1], {i1.imagePath}) == [];
    assert images[1..] == [i2] && [i2][1..] == [];
  }

  /** Retaining the first of two images deletes the second. */
  lemma SyncRetainsFirst(l: Listing, i1: Image, i2: Image)
    requires l.images == Some([i1, i2])
    requires IsCleanPath(i1.imagePath) && i1.imagePath != i2.imagePath
    ensures SyncExistingImages(l, Some(RetainList([i1.imagePath])))
         == Success(Synced(l.(images := Some([i1])), [Delete([i2.imagePath])]))
  {
    var keep := {i1.imagePath};
    assert keep == set p | p in [i1.imagePath];
    RetainFirstPieces(i1, i2);
    CleanSingle(i1.imagePath);
    SyncCleanUnfolds(l, [i1.imagePath], keep);
  }

  lemma UnknownPieces(img: Image, unknown: string)
    requires IsCleanPath(unknown) && unknown != img.imagePath
    ensures unknown in NormalizeRequestedPaths(RetainList([unknown]))
    ensures unknown !in PathSet([img])
  {
    CleanSingle(unknown);
    NormalizeClean([unknown]);
    assert [unknown][0] == unknown;
  }

  /** A retained path that the listing does not have is refused, and
      nothing is deleted. */
  lemma SyncRefusesUnknownPath(l: Listing, img: Image, unknown: string)
    requires l.images == Some([img])
    requires IsCleanPath(unknown) && unknown != img.imagePath
    ensures SyncExistingImages(l, Some(RetainList([unknown])))
         == Error(ResponseStatus(BadRequest, UnknownRetainedPath))
  {
    UnknownPieces(img, unknown);
    SyncRefusesUnknown(l, RetainList([unknown]), unknown);
  }
}
