/** Walks along the cursors of a search, over a collection that other clients may change between two pages. */
module Walks {
  import opened Results
  import opened Sorting
  import opened SortKeys
  import opened Paging

  /**
   * The pages that a client gets by following the next positions from a given one. The snapshots hold the
   * matching resources at the moment of each request: any writes may have run between two of them.
   */
  ghost predicate Forward<T>(lt: Before, window: Window, key: T -> SortKey, position: Option<Json>, snapshots: seq<seq<T>>,
                             pages: seq<SearchPage<T>>)
    decreases |pages|
  {
    && |snapshots| == |pages| > 0
    && Page(lt, window, key, position, snapshots[0]) == Ok(pages[0])
    && (|pages| > 1 ==> pages[0].next.Some? && Forward(lt, window, key, pages[0].next, snapshots[1..], pages[1..]))
  }

  /** The pages that a client gets by following the previous positions from a given one. */
  ghost predicate Backward<T>(lt: Before, window: Window, key: T -> SortKey, position: Option<Json>, snapshots: seq<seq<T>>,
                              pages: seq<SearchPage<T>>)
    decreases |pages|
  {
    && |snapshots| == |pages| > 0
    && Page(lt, window, key, position, snapshots[0]) == Ok(pages[0])
    && (|pages| > 1 ==> pages[0].previous.Some? && Backward(lt, window, key, pages[0].previous, snapshots[1..], pages[1..]))
  }

  function Last<T>(pages: seq<SearchPage<T>>): SearchPage<T>
    requires pages != []
  {
    pages[|pages| - 1]
  }

  function Returned<T>(pages: seq<SearchPage<T>>): seq<T> {
    if pages == [] then [] else pages[0].resources + Returned(pages[1..])
  }

  function ReturnedBackward<T>(pages: seq<SearchPage<T>>): seq<T> {
    if pages == [] then [] else ReturnedBackward(pages[1..]) + pages[0].resources
  }

  /** A resource holds this key, identifier and sort value alike, in the collection. */
  ghost predicate Holds<T(!new)>(resources: seq<T>, key: T -> SortKey, k: SortKey) {
    exists r :: r in resources && key(r) == k
  }

  /** A resource kept matching, with the same key, at every page request. */
  ghost predicate Stable<T(!new)>(snapshots: seq<seq<T>>, key: T -> SortKey, k: SortKey) {
    forall i :: 0 <= i < |snapshots| ==> Holds(snapshots[i], key, k)
  }

  ghost predicate ExactlyOnce<T>(rs: seq<T>, key: T -> SortKey, k: SortKey) {
    exists p :: 0 <= p < |rs| && key(rs[p]) == k && forall q :: 0 <= q < |rs| && q != p ==> key(rs[q]) != k
  }

  ghost predicate AllSearchable<T(!new)>(snapshots: seq<seq<T>>, key: T -> SortKey) {
    forall i :: 0 <= i < |snapshots| ==> Searchable(snapshots[i], key)
  }

  lemma AscendingOnce<T(!new)>(rs: seq<T>, key: T -> SortKey, lt: Before, k: SortKey)
    requires StrictTotalOrder(lt)
    requires Ascending(rs, key, lt)
    requires Holds(rs, key, k)
    ensures ExactlyOnce(rs, key, k)
  {
    var r :| r in rs && key(r) == k;
    var p :| 0 <= p < |rs| && rs[p] == r;
    forall q | 0 <= q < |rs| && q != p
      ensures key(rs[q]) != k
    {
      if q < p {
        assert lt(key(rs[q]), key(rs[p]));
      } else {
        assert lt(key(rs[p]), key(rs[q]));
      }
    }
  }

  lemma AscendingConcat<T>(xs: seq<T>, ys: seq<T>, key: T -> SortKey, lt: Before)
    requires Ascending(xs, key, lt) && Ascending(ys, key, lt)
    requires forall x, y :: x in xs && y in ys ==> lt(key(x), key(y))
    ensures Ascending(xs + ys, key, lt)
  {
  }

  // -- Forward ----------------------------------------------------------

  /** A forward page, followed by resources beyond its last one, keeps the order and stays beyond the anchor. */
  lemma ForwardStep<T(!new)>(lt: Before, key: T -> SortKey, anchor: Option<SortKey>, resources: seq<T>,
                             page: SearchPage<T>, rest: seq<T>)
    requires StrictTotalOrder(lt)
    requires CoversAfter(page, anchor, resources, key, lt) && page.resources != []
    requires Ascending(rest, key, lt)
    requires forall r :: r in rest ==> Beyond(Some(key(page.resources[|page.resources| - 1])), key(r), lt)
    ensures Ascending(page.resources + rest, key, lt)
    ensures forall r :: r in page.resources + rest ==> Beyond(anchor, key(r), lt)
  {
    var last := page.resources[|page.resources| - 1];
    forall x, y | x in page.resources && y in rest
      ensures lt(key(x), key(y))
    {
      UpToLast(page.resources, key, lt, x);
      assert Beyond(Some(key(last)), key(y), lt);
    }
    AscendingConcat(page.resources, rest, key, lt);
    forall r | r in rest
      ensures Beyond(anchor, key(r), lt)
    {
      assert last in page.resources && Beyond(anchor, key(last), lt) && Beyond(Some(key(last)), key(r), lt);
    }
  }

  /** A key beyond the anchor is on the page, or among what follows its last resource. */
  lemma ForwardKeeps<T(!new)>(lt: Before, key: T -> SortKey, anchor: Option<SortKey>, resources: seq<T>,
                              page: SearchPage<T>, rest: seq<T>, k: SortKey)
    requires CoversAfter(page, anchor, resources, key, lt)
    requires Beyond(anchor, k, lt) && Holds(resources, key, k)
    requires page.next.Some? && page.resources != [] && Beyond(Some(key(page.resources[|page.resources| - 1])), k, lt) ==>
               Holds(rest, key, k)
    ensures Holds(page.resources + rest, key, k)
  {
    var r :| r in resources && key(r) == k;
    if r in page.resources {
      assert r in page.resources + rest;
    } else {
      var other :| other in rest && key(other) == k;
      assert other in page.resources + rest;
    }
  }

  lemma {:induction false} ForwardFrom<T(!new)>(lt: Before, window: Window, key: T -> SortKey, anchor: Option<SortKey>,
                                               snapshots: seq<seq<T>>, pages: seq<SearchPage<T>>)
    requires StrictTotalOrder(lt)
    requires window.cursor && window.count != Some(0)
    requires anchor.Some? ==> Canonical(anchor.value)
    requires AllSearchable(snapshots, key)
    requires Forward(lt, window, key, if anchor.Some? then Some(Position(Next, anchor.value)) else None, snapshots, pages)
    ensures Ascending(Returned(pages), key, lt)
    ensures forall r :: r in Returned(pages) ==> Beyond(anchor, key(r), lt)
    ensures Last(pages).next.None? ==>
              forall k :: Beyond(anchor, k, lt) && Stable(snapshots, key, k) ==> Holds(Returned(pages), key, k)
    decreases |pages|
  {
    var page := PageAfter(lt, window, key, anchor, snapshots[0]);
    var rest := Returned(pages[1..]);
    assert Returned(pages) == page.resources + rest;
    if |pages| > 1 {
      var a := key(page.resources[|page.resources| - 1]);
      ForwardFrom(lt, window, key, Some(a), snapshots[1..], pages[1..]);
      ForwardStep(lt, key, anchor, snapshots[0], page, rest);
      assert Last(pages) == Last(pages[1..]);
    }
    forall k | Last(pages).next.None? && Beyond(anchor, k, lt) && Stable(snapshots, key, k)
      ensures Holds(Returned(pages), key, k)
    {
      StableFirstAndRest(snapshots, key, k);
      ForwardKeeps(lt, key, anchor, snapshots[0], page, rest, k);
    }
  }

  lemma StableFirstAndRest<T(!new)>(snapshots: seq<seq<T>>, key: T -> SortKey, k: SortKey)
    requires snapshots != [] && Stable(snapshots, key, k)
    ensures Holds(snapshots[0], key, k) && Stable(snapshots[1..], key, k)
  {
  }

  lemma UpToLast<T>(rs: seq<T>, key: T -> SortKey, lt: Before, x: T)
    requires Ascending(rs, key, lt) && x in rs
    ensures key(x) == key(rs[|rs| - 1]) || lt(key(x), key(rs[|rs| - 1]))
    ensures key(x) == key(rs[0]) || lt(key(rs[0]), key(x))
  {
    var i :| 0 <= i < |rs| && rs[i] == x;
  }

  /**
   * Stable pages. Whatever is created, updated and deleted between the requests of a walk from the first page,
   * the resources it returns follow each other strictly in the sort order, so none comes twice with one key;
   * and a walk that reaches a page without next returns exactly once each resource that kept matching under one key.
   */
  lemma ForwardWalkIsStable<T(!new)>(lt: Before, window: Window, key: T -> SortKey, snapshots: seq<seq<T>>, pages: seq<SearchPage<T>>)
    requires StrictTotalOrder(lt)
    requires window.cursor && window.count != Some(0)
    requires AllSearchable(snapshots, key)
    requires Forward(lt, window, key, None, snapshots, pages)
    ensures Ascending(Returned(pages), key, lt)
    ensures forall k :: Holds(Returned(pages), key, k) ==> ExactlyOnce(Returned(pages), key, k)
    ensures Last(pages).next.None? ==>
              forall k :: Stable(snapshots, key, k) ==> ExactlyOnce(Returned(pages), key, k)
  {
    ForwardFrom(lt, window, key, None, snapshots, pages);
    forall k | Holds(Returned(pages), key, k)
      ensures ExactlyOnce(Returned(pages), key, k)
    {
      AscendingOnce(Returned(pages), key, lt, k);
    }
    forall k | Last(pages).next.None? && Stable(snapshots, key, k)
      ensures ExactlyOnce(Returned(pages), key, k)
    {
      assert Beyond(None, k, lt);
    }
  }

  /** A count of 0 asks for no page at all: nothing is returned, and no position leads anywhere. */
  lemma CountZeroPagesNothing<T>(lt: Before, window: Window, key: T -> SortKey, position: Option<Json>, resources: seq<T>)
    requires window.cursor && window.count == Some(0)
    ensures Page(lt, window, key, position, resources).Ok?
    ensures var page := Page(lt, window, key, position, resources).value;
            page.resources == [] && page.next.None? && page.previous.None? && page.total == |resources|
  {
    SortPermutes(resources, key, lt);
    assert |multiset(Sort(resources, key, lt))| == |multiset(resources)|;
  }

  // -- Backward ---------------------------------------------------------

  /** A backward page, preceded by resources before its first one, keeps the order and stays before the anchor. */
  lemma BackwardStep<T(!new)>(lt: Before, key: T -> SortKey, anchor: SortKey, resources: seq<T>, page: SearchPage<T>, rest: seq<T>)
    requires StrictTotalOrder(lt)
    requires CoversBefore(page, anchor, resources, key, lt) && page.resources != []
    requires Ascending(rest, key, lt)
    requires forall r :: r in rest ==> lt(key(r), key(page.resources[0]))
    ensures Ascending(rest + page.resources, key, lt)
    ensures forall r :: r in rest + page.resources ==> lt(key(r), anchor)
  {
    forall x, y | x in rest && y in page.resources
      ensures lt(key(x), key(y))
    {
      UpToLast(page.resources, key, lt, y);
    }
    AscendingConcat(rest, page.resources, key, lt);
    assert page.resources[0] in page.resources && lt(key(page.resources[0]), anchor);
  }

  /** A key before the anchor is on the page, or among what precedes its first resource. */
  lemma BackwardKeeps<T(!new)>(lt: Before, key: T -> SortKey, anchor: SortKey, resources: seq<T>,
                               page: SearchPage<T>, rest: seq<T>, k: SortKey)
    requires CoversBefore(page, anchor, resources, key, lt)
    requires lt(k, anchor) && Holds(resources, key, k)
    requires page.previous.Some? && page.resources != [] && lt(k, key(page.resources[0])) ==> Holds(rest, key, k)
    ensures Holds(rest + page.resources, key, k)
  {
    var r :| r in resources && key(r) == k;
    if r in page.resources {
      assert r in rest + page.resources;
    } else {
      var other :| other in rest && key(other) == k;
      assert other in rest + page.resources;
    }
  }

  lemma {:induction false} BackwardFrom<T(!new)>(lt: Before, window: Window, key: T -> SortKey, anchor: SortKey,
                                                snapshots: seq<seq<T>>, pages: seq<SearchPage<T>>)
    requires StrictTotalOrder(lt)
    requires window.cursor && window.count != Some(0)
    requires Canonical(anchor)
    requires AllSearchable(snapshots, key)
    requires Backward(lt, window, key, Some(Position(Previous, anchor)), snapshots, pages)
    ensures Ascending(ReturnedBackward(pages), key, lt)
    ensures forall r :: r in ReturnedBackward(pages) ==> lt(key(r), anchor)
    ensures Last(pages).previous.None? ==>
              forall k :: lt(k, anchor) && Stable(snapshots, key, k) ==> Holds(ReturnedBackward(pages), key, k)
    decreases |pages|
  {
    var page := PageBefore(lt, window, key, anchor, snapshots[0]);
    var rest := ReturnedBackward(pages[1..]);
    assert ReturnedBackward(pages) == rest + page.resources;
    if |pages| > 1 {
      var a := key(page.resources[0]);
      BackwardFrom(lt, window, key, a, snapshots[1..], pages[1..]);
      BackwardStep(lt, key, anchor, snapshots[0], page, rest);
      assert Last(pages) == Last(pages[1..]);
    }
    forall k | Last(pages).previous.None? && lt(k, anchor) && Stable(snapshots, key, k)
      ensures Holds(ReturnedBackward(pages), key, k)
    {
      StableFirstAndRest(snapshots, key, k);
      BackwardKeeps(lt, key, anchor, snapshots[0], page, rest, k);
    }
  }

  /** The walk back has the same stability, over the resources before the page it starts from. */
  lemma BackwardWalkIsStable<T(!new)>(lt: Before, window: Window, key: T -> SortKey, anchor: SortKey,
                                      snapshots: seq<seq<T>>, pages: seq<SearchPage<T>>)
    requires StrictTotalOrder(lt)
    requires window.cursor && window.count != Some(0)
    requires Canonical(anchor)
    requires AllSearchable(snapshots, key)
    requires Backward(lt, window, key, Some(Position(Previous, anchor)), snapshots, pages)
    ensures Ascending(ReturnedBackward(pages), key, lt)
    ensures forall k :: Holds(ReturnedBackward(pages), key, k) ==> lt(k, anchor) && ExactlyOnce(ReturnedBackward(pages), key, k)
    ensures Last(pages).previous.None? ==>
              forall k :: lt(k, anchor) && Stable(snapshots, key, k) ==> ExactlyOnce(ReturnedBackward(pages), key, k)
  {
    BackwardFrom(lt, window, key, anchor, snapshots, pages);
    forall k | Holds(ReturnedBackward(pages), key, k)
      ensures lt(k, anchor) && ExactlyOnce(ReturnedBackward(pages), key, k)
    {
      AscendingOnce(ReturnedBackward(pages), key, lt, k);
    }
  }

  // -- What the pages hold ----------------------------------------------

  /** Each resource that a walk returned matched at one of its requests. */
  lemma {:induction false} ReturnedWasThere<T(!new)>(lt: Before, window: Window, key: T -> SortKey, position: Option<Json>,
                                                     snapshots: seq<seq<T>>, pages: seq<SearchPage<T>>, r: T) returns (i: nat)
    requires Forward(lt, window, key, position, snapshots, pages) && r in Returned(pages)
    ensures i < |snapshots| && r in snapshots[i]
    decreases |pages|
  {
    if r in pages[0].resources {
      i := 0;
      PageHoldsFound(lt, window, key, position, snapshots[0], r);
    } else {
      var j := ReturnedWasThere(lt, window, key, pages[0].next, snapshots[1..], pages[1..], r);
      i := j + 1;
    }
  }

  lemma {:induction false} ReturnedBackwardWasThere<T(!new)>(lt: Before, window: Window, key: T -> SortKey, position: Option<Json>,
                                                             snapshots: seq<seq<T>>, pages: seq<SearchPage<T>>, r: T)
    returns (i: nat)
    requires Backward(lt, window, key, position, snapshots, pages) && r in ReturnedBackward(pages)
    ensures i < |snapshots| && r in snapshots[i]
    decreases |pages|
  {
    if r in pages[0].resources {
      i := 0;
      PageHoldsFound(lt, window, key, position, snapshots[0], r);
    } else {
      var j := ReturnedBackwardWasThere(lt, window, key, pages[0].previous, snapshots[1..], pages[1..], r);
      i := j + 1;
    }
  }

  lemma PageHoldsFound<T(!new)>(lt: Before, window: Window, key: T -> SortKey, position: Option<Json>, resources: seq<T>, r: T)
    requires Page(lt, window, key, position, resources).Ok? && r in Page(lt, window, key, position, resources).value.resources
    ensures r in resources
  {
    var start := PageIsSlice(lt, window, key, position, resources);
    SortPermutes(resources, key, lt);
    assert r in multiset(Sort(resources, key, lt));
  }

  // -- An unchanged collection ------------------------------------------

  function Size<T>(window: Window, found: seq<T>): nat {
    if window.count.Some? then window.count.value else |found| + 1
  }

  function PageAt<T>(key: T -> SortKey, found: seq<T>, size: nat, start: nat): SearchPage<T>
    requires start <= |found|
  {
    CursorPage(found, key, start, Min(start + size, |found|))
  }

  lemma UnchangedFirst<T(!new)>(lt: Before, window: Window, key: T -> SortKey, resources: seq<T>)
    requires window.cursor && window.count != Some(0)
    ensures var found := Sort(resources, key, lt);
            Page(lt, window, key, None, resources) == Ok(CursorPage(found, key, 0, Min(Size(window, found), |found|)))
  {
  }

  lemma CutAfterLast<T(!new)>(lt: Before, key: T -> SortKey, found: seq<T>, start: nat, stop: nat)
    requires StrictTotalOrder(lt) && Ascending(found, key, lt)
    requires 0 < stop < |found| && start <= |found|
    requires forall i :: 0 <= i < |found| ==> (Beyond(Some(key(found[stop - 1])), key(found[i]), lt) <==> start <= i)
    ensures start == stop
  {
    assert Beyond(Some(key(found[stop - 1])), key(found[stop]), lt);
    assert !Beyond(Some(key(found[stop - 1])), key(found[stop - 1]), lt);
  }

  lemma CutBeforeFirst<T(!new)>(lt: Before, key: T -> SortKey, found: seq<T>, start: nat, stop: nat)
    requires StrictTotalOrder(lt) && Ascending(found, key, lt)
    requires 0 < start < |found| && stop <= |found|
    requires forall i :: 0 <= i < |found| ==> (lt(key(found[i]), key(found[start])) <==> i < stop)
    ensures stop == start
  {
    assert lt(key(found[start - 1]), key(found[start]));
    assert !lt(key(found[start]), key(found[start]));
  }

  lemma UnchangedNext<T(!new)>(lt: Before, window: Window, key: T -> SortKey, resources: seq<T>, found: seq<T>,
                               size: nat, stop: nat)
    requires StrictTotalOrder(lt)
    requires window.cursor && window.count != Some(0)
    requires IsSorted(found, resources, key, lt) && size == Size(window, found)
    requires 0 < stop < |found|
    ensures Page(lt, window, key, Some(Position(Next, key(found[stop - 1]))), resources) ==
            Ok(PageAt(key, found, size, stop))
  {
    var anchor := Some(key(found[stop - 1]));
    assert found[stop - 1] in found;
    var start, end := PageCutAfter(lt, window, key, anchor, resources, found);
    CutAfterLast(lt, key, found, start, stop);
    FullPageAfter(window, key, found, size, stop, end);
  }

  lemma FullPageAfter<T>(window: Window, key: T -> SortKey, found: seq<T>, size: nat, stop: nat, end: nat)
    requires size == Size(window, found) && stop <= |found|
    requires end == if window.count.None? then |found| else Min(stop + window.count.value, |found|)
    ensures CursorPage(found, key, stop, end) == PageAt(key, found, size, stop)
  {
  }

  lemma UnchangedPrevious<T(!new)>(lt: Before, window: Window, key: T -> SortKey, resources: seq<T>, found: seq<T>,
                                   size: nat, start: nat)
    requires StrictTotalOrder(lt)
    requires window.cursor && window.count != Some(0)
    requires IsSorted(found, resources, key, lt) && size == Size(window, found)
    requires 0 < size && start + size < |found|
    ensures Page(lt, window, key, Some(Position(Previous, key(found[start + size]))), resources) ==
            Ok(PageAt(key, found, size, start))
  {
    var anchor := start + size;
    assert found[anchor] in found;
    var begin, stop := PageCutBefore(lt, window, key, key(found[anchor]), resources, found);
    CutBeforeFirst(lt, key, found, anchor, stop);
    FullPageBefore(window, key, found, size, start, begin);
  }

  lemma FullPageBefore<T>(window: Window, key: T -> SortKey, found: seq<T>, size: nat, start: nat, begin: nat)
    requires size == Size(window, found) && start + size < |found|
    requires begin == if window.count.None? || start + size < window.count.value then 0 else start + size - window.count.value
    ensures begin == start
    ensures CursorPage(found, key, begin, start + size) == PageAt(key, found, size, start)
  {
  }

  /** The next position of a page leads to another one. */
  ghost predicate LeadsNext<T>(lt: Before, window: Window, key: T -> SortKey, resources: seq<T>, page: SearchPage<T>, other: SearchPage<T>) {
    page.next.Some? && Page(lt, window, key, page.next, resources) == Ok(other)
  }

  /** The previous position of a page leads to another one. */
  ghost predicate LeadsBack<T>(lt: Before, window: Window, key: T -> SortKey, resources: seq<T>, page: SearchPage<T>, other: SearchPage<T>) {
    page.previous.Some? && Page(lt, window, key, page.previous, resources) == Ok(other)
  }

  /** Whether a page leads to another by its next position, which leads back to it by its previous one. */
  ghost predicate LinkedPair<T>(lt: Before, window: Window, key: T -> SortKey, resources: seq<T>, page: SearchPage<T>, other: SearchPage<T>) {
    LeadsNext(lt, window, key, resources, page, other) && LeadsBack(lt, window, key, resources, other, page)
  }

  ghost predicate Linked<T>(lt: Before, window: Window, key: T -> SortKey, resources: seq<T>, pages: seq<SearchPage<T>>) {
    forall i, j :: 0 <= i < j < |pages| && j == i + 1 ==> LinkedPair(lt, window, key, resources, pages[i], pages[j])
  }

  lemma NextLeads<T(!new)>(lt: Before, window: Window, key: T -> SortKey, resources: seq<T>, found: seq<T>, size: nat, start: nat)
    requires StrictTotalOrder(lt)
    requires window.cursor && window.count != Some(0)
    requires IsSorted(found, resources, key, lt) && size == Size(window, found)
    requires start + size < |found|
    ensures LeadsNext(lt, window, key, resources, PageAt(key, found, size, start), PageAt(key, found, size, start + size))
  {
    var stop := start + size;
    NextOfPage(key, found, size, start);
    assert Page(lt, window, key, Some(Position(Next, key(found[stop - 1]))), resources) == Ok(PageAt(key, found, size, stop)) by {
      UnchangedNext(lt, window, key, resources, found, size, stop);
    }
  }

  lemma NextOfPage<T>(key: T -> SortKey, found: seq<T>, size: nat, start: nat)
    requires 0 < size && start + size < |found|
    ensures PageAt(key, found, size, start).next == Some(Position(Next, key(found[start + size - 1])))
  {
  }

  lemma PreviousLeads<T(!new)>(lt: Before, window: Window, key: T -> SortKey, resources: seq<T>, found: seq<T>, size: nat, start: nat)
    requires StrictTotalOrder(lt)
    requires window.cursor && window.count != Some(0)
    requires IsSorted(found, resources, key, lt) && size == Size(window, found)
    requires start + size < |found|
    ensures LeadsBack(lt, window, key, resources, PageAt(key, found, size, start + size), PageAt(key, found, size, start))
  {
    UnchangedPrevious(lt, window, key, resources, found, size, start);
  }

  lemma NeighboursAreLinked<T(!new)>(lt: Before, window: Window, key: T -> SortKey, resources: seq<T>, found: seq<T>,
                                     size: nat, start: nat)
    requires StrictTotalOrder(lt)
    requires window.cursor && window.count != Some(0)
    requires IsSorted(found, resources, key, lt) && size == Size(window, found)
    requires start + size < |found|
    ensures LinkedPair(lt, window, key, resources, PageAt(key, found, size, start), PageAt(key, found, size, start + size))
  {
    NextLeads(lt, window, key, resources, found, size, start);
    PreviousLeads(lt, window, key, resources, found, size, start);
  }

  lemma LinkedCons<T>(lt: Before, window: Window, key: T -> SortKey, resources: seq<T>, page: SearchPage<T>, rest: seq<SearchPage<T>>)
    requires Linked(lt, window, key, resources, rest)
    requires rest != [] && LinkedPair(lt, window, key, resources, page, rest[0])
    ensures Linked(lt, window, key, resources, [page] + rest)
  {
  }

  lemma ReturnedCons<T>(key: T -> SortKey, found: seq<T>, size: nat, start: nat, rest: seq<SearchPage<T>>)
    requires start <= |found|
    requires Returned(rest) == found[Min(start + size, |found|)..]
    ensures Returned([PageAt(key, found, size, start)] + rest) == found[start..]
  {
    assert ([PageAt(key, found, size, start)] + rest)[1..] == rest;
  }

  /** Whether a number of pages of a size is the least one that can hold a number of resources. */
  predicate Fewest(pages: nat, size: nat, length: int) {
    (pages - 1) * size < length <= pages * size
  }

  lemma AddAPage(rest: nat, size: nat, length: nat)
    requires Fewest(rest, size, length - size)
    ensures Fewest(rest + 1, size, length)
  {
  }

  lemma LastPage<T>(key: T -> SortKey, found: seq<T>, size: nat, start: nat)
    requires start <= |found| <= start + size
    ensures PageAt(key, found, size, start).next.None?
    ensures Returned([PageAt(key, found, size, start)]) == found[start..]
  {
    ReturnedCons(key, found, size, start, []);
    assert [PageAt(key, found, size, start)] + [] == [PageAt(key, found, size, start)];
  }

  /** The pages of an unchanged collection, from the one at an offset on. */
  function PagesFrom<T>(key: T -> SortKey, found: seq<T>, size: nat, start: nat): (pages: seq<SearchPage<T>>)
    requires 0 < size && start <= |found|
    ensures pages != [] && pages[0] == PageAt(key, found, size, start)
    decreases |found| - start
  {
    var page := PageAt(key, found, size, start);
    if start + size < |found| then [page] + PagesFrom(key, found, size, start + size) else [page]
  }

  lemma LastOfRest<T>(page: SearchPage<T>, rest: seq<SearchPage<T>>)
    requires rest != []
    ensures Last([page] + rest) == Last(rest)
  {
  }

  lemma {:induction false} PagesReturnAll<T>(key: T -> SortKey, found: seq<T>, size: nat, start: nat)
    requires 0 < size && start <= |found|
    ensures Returned(PagesFrom(key, found, size, start)) == found[start..]
    decreases |found| - start
  {
    if start + size < |found| {
      PagesReturnAll(key, found, size, start + size);
      ReturnedCons(key, found, size, start, PagesFrom(key, found, size, start + size));
    } else {
      LastPage(key, found, size, start);
    }
  }

  lemma {:induction false} PagesEnd<T>(key: T -> SortKey, found: seq<T>, size: nat, start: nat)
    requires 0 < size && start <= |found|
    ensures Last(PagesFrom(key, found, size, start)).next.None?
    decreases |found| - start
  {
    if start + size < |found| {
      PagesEnd(key, found, size, start + size);
      LastOfRest(PageAt(key, found, size, start), PagesFrom(key, found, size, start + size));
    }
  }

  lemma {:induction false} PagesAreFewest<T>(key: T -> SortKey, found: seq<T>, size: nat, start: nat)
    requires 0 < size && start < |found|
    ensures Fewest(|PagesFrom(key, found, size, start)|, size, |found| - start)
    decreases |found| - start
  {
    if start + size < |found| {
      PagesAreFewest(key, found, size, start + size);
      AddAPage(|PagesFrom(key, found, size, start + size)|, size, |found| - start);
    }
  }

  lemma OnePageIsLinked<T>(lt: Before, window: Window, key: T -> SortKey, resources: seq<T>, page: SearchPage<T>)
    ensures Linked(lt, window, key, resources, [page])
  {
  }

  lemma NextIsLinked<T(!new)>(lt: Before, window: Window, key: T -> SortKey, resources: seq<T>, found: seq<T>, size: nat, start: nat)
    requires StrictTotalOrder(lt)
    requires window.cursor && window.count != Some(0)
    requires IsSorted(found, resources, key, lt) && size == Size(window, found)
    requires start + size < |found| && (start == 0 || start >= size)
    requires Linked(lt, window, key, resources, PagesFrom(key, found, size, start + size))
    ensures Linked(lt, window, key, resources, PagesFrom(key, found, size, start))
  {
    var page, rest := PageAt(key, found, size, start), PagesFrom(key, found, size, start + size);
    NeighboursAreLinked(lt, window, key, resources, found, size, start);
    LinkedCons(lt, window, key, resources, page, rest);
  }

  lemma {:induction false} PagesAreLinked<T(!new)>(lt: Before, window: Window, key: T -> SortKey, resources: seq<T>, found: seq<T>,
                                                  size: nat, start: nat)
    requires StrictTotalOrder(lt)
    requires window.cursor && window.count != Some(0)
    requires IsSorted(found, resources, key, lt) && size == Size(window, found)
    requires start <= |found| && (start == 0 || start >= size)
    ensures Linked(lt, window, key, resources, PagesFrom(key, found, size, start))
    decreases |found| - start
  {
    if start + size < |found| {
      PagesAreLinked(lt, window, key, resources, found, size, start + size);
      NextIsLinked(lt, window, key, resources, found, size, start);
    } else {
      OnePageIsLinked(lt, window, key, resources, PageAt(key, found, size, start));
    }
  }

  /**
   * On an unchanged collection the pages from the first one on concatenate to the whole sorted list, in the least
   * number of pages of the asked size, and the previous positions lead from the last page back to the first.
   */
  lemma UnchangedCollection<T(!new)>(lt: Before, window: Window, key: T -> SortKey, resources: seq<T>)
    returns (pages: seq<SearchPage<T>>)
    requires StrictTotalOrder(lt)
    requires window.cursor && window.count != Some(0) && Searchable(resources, key)
    ensures pages != [] && Page(lt, window, key, None, resources) == Ok(pages[0])
    ensures Linked(lt, window, key, resources, pages)
    ensures pages[0].previous.None? && Last(pages).next.None?
    ensures Returned(pages) == Sort(resources, key, lt)
    ensures var found := Returned(pages);
            if found == [] then |pages| == 1 else Fewest(|pages|, Size(window, found), |found|)
  {
    var found := Found(lt, resources, key);
    UnchangedFirst(lt, window, key, resources);
    PagesAreLinked(lt, window, key, resources, found, Size(window, found), 0);
    PagesReturnAll(key, found, Size(window, found), 0);
    PagesEnd(key, found, Size(window, found), 0);
    if found != [] {
      PagesAreFewest(key, found, Size(window, found), 0);
    }
    pages := PagesFrom(key, found, Size(window, found), 0);
  }

  // -- Shared keys ------------------------------------------------------

  /**
   * Distinct keys are needed: two resources of different types may share an identifier and a sort value, and a page
   * that ends between them leads to a page after both, so the walk never returns the second one.
   */
  lemma SharedKeyIsSkipped<T(!new)>(lt: Before, key: T -> SortKey, resources: seq<T>, i: nat)
    requires StrictTotalOrder(lt)
    requires forall r :: r in resources ==> Canonical(key(r))
    requires i + 1 < |resources|
    requires var found := Sort(resources, key, lt);
             |found| == |resources| && key(found[i]) == key(found[i + 1])
    ensures var window := Window(true, 0, Some(i + 1));
            var found := Sort(resources, key, lt);
            && var first := Page(lt, window, key, None, resources);
            && first.Ok? && first.value.resources == found[..i + 1] && first.value.next.Some?
            && var second := Page(lt, window, key, first.value.next, resources);
            && second.Ok?
            && forall r :: r in second.value.resources ==> lt(key(found[i + 1]), key(r))
  {
    var window := Window(true, 0, Some(i + 1));
    var found := Sort(resources, key, lt);
    var anchor := key(found[i]);
    SortPermutes(resources, key, lt);
    assert found[i] in multiset(found);
    SortWeaklyAscending(resources, key, lt);
    UnchangedFirst(lt, window, key, resources);
    var start, stop := BoundsAfter(lt, Keys(found, key), Some(anchor), window.count);
    CutIsBeyond(found, key, lt, anchor, start, stop);
  }

  lemma CutIsBeyond<T>(found: seq<T>, key: T -> SortKey, lt: Before, anchor: SortKey, start: nat, stop: nat)
    requires start <= stop <= |found|
    requires forall j :: 0 <= j < |found| ==> (Beyond(Some(anchor), Keys(found, key)[j], lt) <==> start <= j)
    ensures forall r :: r in CursorPage(found, key, start, stop).resources ==> lt(anchor, key(r))
  {
    forall r | r in CursorPage(found, key, start, stop).resources
      ensures lt(anchor, key(r))
    {
      var j :| start <= j < stop && found[j] == r;
      assert Beyond(Some(anchor), Keys(found, key)[j], lt);
    }
  }

  /** When pages end at a resource, the next page starts with the resource that follows it. */
  ghost predicate NextPageFollows<T>(lt: Before, key: T -> SortKey, resources: seq<T>, i: nat) {
    var window := Window(true, 0, Some(i + 1));
    var found := Sort(resources, key, lt);
    i + 1 < |found| ==>
      && var first := Page(lt, window, key, None, resources);
      && first.Ok? && first.value.next.Some?
      && var second := Page(lt, window, key, first.value.next, resources);
      && second.Ok? && second.value.resources != [] && second.value.resources[0] == found[i + 1]
  }

  lemma DistinctKeysFollow<T(!new)>(lt: Before, key: T -> SortKey, resources: seq<T>, i: nat)
    requires StrictTotalOrder(lt) && Searchable(resources, key)
    ensures NextPageFollows(lt, key, resources, i)
  {
    var window := Window(true, 0, Some(i + 1));
    var found := Found(lt, resources, key);
    if i + 1 < |found| {
      UnchangedFirst(lt, window, key, resources);
      assert Page(lt, window, key, Some(Position(Next, key(found[i]))), resources) == Ok(PageAt(key, found, i + 1, i + 1)) by {
        UnchangedNext(lt, window, key, resources, found, i + 1, i + 1);
      }
    }
  }

  /** Resources that share a key are next to each other in the sort order. */
  lemma SharedKeysAreNeighbours<T(!new)>(lt: Before, key: T -> SortKey, resources: seq<T>) returns (i: nat)
    requires StrictTotalOrder(lt) && !DistinctKeys(resources, key)
    ensures var found := Sort(resources, key, lt);
            |found| == |resources| && i + 1 < |found| && key(found[i]) == key(found[i + 1])
  {
    var found := Sort(resources, key, lt);
    SortPermutes(resources, key, lt);
    SortWeaklyAscending(resources, key, lt);
    assert |multiset(found)| == |found| && |multiset(resources)| == |resources|;
    var p, q := SharedKeyPair(found, key);
    i := p;
    assert !lt(key(found[p + 1]), key(found[p])) && !lt(key(found[q]), key(found[p + 1]));
  }

  lemma SharedKeyPair<T(!new), K>(xs: seq<T>, key: T -> K) returns (p: nat, q: nat)
    requires !DistinctKeys(xs, key)
    ensures p < q < |xs| && key(xs[p]) == key(xs[q])
  {
    if p', q' :| 0 <= p' < q' < |xs| && key(xs[p']) == key(xs[q']) {
      p, q := p', q';
    } else {
      forall x | x in multiset(xs)
        ensures multiset(xs)[x] == 1
      {
        OnceInDistinct(xs, key, x);
      }
      assert DistinctKeys(xs, key);
    }
  }

  lemma {:induction false} OnceInDistinct<T(!new), K>(xs: seq<T>, key: T -> K, x: T)
    requires forall p, q :: 0 <= p < q < |xs| ==> key(xs[p]) != key(xs[q])
    ensures multiset(xs)[x] <= 1
  {
    if xs != [] {
      assert xs == [xs[0]] + xs[1..];
      OnceInDistinct(xs[1..], key, x);
    }
  }

  /**
   * When paging loses nothing. The pages of an unchanged collection, whatever their size, follow each other without a
   * gap exactly when no two resources share a sort key.
   */
  lemma PagesFollowExactly<T(!new)>(lt: Before, key: T -> SortKey, resources: seq<T>)
    requires StrictTotalOrder(lt) && forall r :: r in resources ==> Canonical(key(r))
    ensures DistinctKeys(resources, key) <==> forall i: nat :: NextPageFollows(lt, key, resources, i)
  {
    if DistinctKeys(resources, key) {
      forall i: nat
        ensures NextPageFollows(lt, key, resources, i)
      {
        DistinctKeysFollow(lt, key, resources, i);
      }
    } else {
      var i := SharedKeysAreNeighbours(lt, key, resources);
      SharedKeyIsSkipped(lt, key, resources, i);
      assert !NextPageFollows(lt, key, resources, i);
    }
  }
}
