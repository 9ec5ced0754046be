/** One page of a search, cut out of the found resources by index or by cursor. */
module Paging {
  import opened Results
  import opened Sorting
  import opened SortKeys

  /** How a search asks for its page, by cursor or by index. */
  datatype Window = Window(cursor: bool, startIndex0: nat, count: Option<nat>)

  /** The order of a search: whether a key comes before another. */
  type Before = (SortKey, SortKey) -> bool

  datatype SearchPage<T> = SearchPage(total: nat, resources: seq<T>, next: Option<Json>, previous: Option<Json>)

  function Min(a: nat, b: nat): nat {
    if a < b then a else b
  }

  /** The number of keys that satisfy a test. */
  function Count(keys: seq<SortKey>, test: SortKey -> bool): (n: nat)
    ensures n <= |keys|
  {
    if keys == [] then 0 else (if test(keys[0]) then 1 else 0) + Count(keys[1..], test)
  }

  /** The slice of the sorted keys that a cursor page covers. */
  function Bounds(keys: seq<SortKey>, position: Option<Json>, count: Option<nat>, lt: Before): (r: Result<(nat, nat)>)
    ensures r.Ok? ==> r.value.0 <= r.value.1 <= |keys|
  {
    if position.None? then Ok((0, if count.None? then |keys| else Min(count.value, |keys|)))
    else
      var (direction, anchor) :- ReadPosition(position.value);
      if direction == Next then
        var start := Count(keys, key => lt(key, anchor) || key == anchor);
        Ok((start, if count.None? then |keys| else Min(start + count.value, |keys|)))
      else
        var stop := Count(keys, key => lt(key, anchor));
        Ok((if count.None? || stop < count.value then 0 else stop - count.value, stop))
  }

  function Keys<T>(found: seq<T>, key: T -> SortKey): (keys: seq<SortKey>)
    ensures |keys| == |found|
    ensures forall i :: 0 <= i < |found| ==> keys[i] == key(found[i])
  {
    seq(|found|, i requires 0 <= i < |found| => key(found[i]))
  }

  /** The slice start..stop of the sorted resources, with the positions of its neighbours. */
  function CursorPage<T>(found: seq<T>, key: T -> SortKey, start: nat, stop: nat): SearchPage<T>
    requires start <= stop <= |found|
  {
    SearchPage(|found|, found[start..stop],
      if start < stop && stop < |found| then Some(Position(Next, key(found[stop - 1]))) else None,
      if start < stop && start > 0 then Some(Position(Previous, key(found[start]))) else None)
  }

  /** Sorts the matching resources, and returns the page a search asks for. */
  function Page<T>(lt: Before, window: Window, key: T -> SortKey, position: Option<Json>, resources: seq<T>): Result<SearchPage<T>> {
    var found := Sort(resources, key, lt);
    if !window.cursor then
      var start := Min(window.startIndex0, |found|);
      var stop := if window.count.None? then |found| else Min(window.startIndex0 + window.count.value, |found|);
      Ok(SearchPage(|found|, found[start..stop], None, None))
    else if window.count == Some(0) then
      Ok(SearchPage(|found|, [], None, None))
    else
      var (start, stop) :- Bounds(Keys(found, key), position, window.count, lt);
      Ok(CursorPage(found, key, start, stop))
  }

  // -- What a page does not depend on -----------------------------------

  /** A page depends on which resources were found, not on the order they were walked in. */
  lemma PageForgetsTheWalk<T(!new)>(lt: Before, window: Window, key: T -> SortKey, position: Option<Json>, xs: seq<T>, ys: seq<T>)
    requires StrictTotalOrder(lt)
    requires multiset(xs) == multiset(ys)
    requires DistinctKeys(xs, key)
    ensures Page(lt, window, key, position, xs) == Page(lt, window, key, position, ys)
  {
    SortCanonical(xs, ys, key, lt);
  }

  /** A page tells the number of matching resources, wherever it is cut. */
  lemma TotalIsEverything<T>(lt: Before, window: Window, key: T -> SortKey, position: Option<Json>, resources: seq<T>)
    ensures var page := Page(lt, window, key, position, resources); page.Ok? ==> page.value.total == |resources|
  {
    SortPermutes(resources, key, lt);
    assert |multiset(Sort(resources, key, lt))| == |multiset(resources)|;
  }

  /** Without a cursor, the page of an index and the rest after it make up the page of that index without a count. */
  lemma IndexPagesAreContiguous<T>(lt: Before, key: T -> SortKey, resources: seq<T>, start: nat, count: nat)
    ensures var page, rest, all := Page(lt, Window(false, start, Some(count)), key, None, resources),
                                   Page(lt, Window(false, start + count, None), key, None, resources),
                                   Page(lt, Window(false, start, None), key, None, resources);
            && page.Ok? && rest.Ok? && all.Ok?
            && page.value.resources + rest.value.resources == all.value.resources
            && |page.value.resources| <= count
    ensures Page(lt, Window(false, 0, None), key, None, resources).value.resources == Sort(resources, key, lt)
  {
    var found := Sort(resources, key, lt);
    var a, b := Min(start, |found|), Min(start + count, |found|);
    assert found[a..b] + found[b..] == found[a..];
  }

  /** A page is a slice of the sorted resources. */
  lemma PageIsSlice<T>(lt: Before, window: Window, key: T -> SortKey, position: Option<Json>, resources: seq<T>) returns (start: nat)
    requires Page(lt, window, key, position, resources).Ok?
    ensures var found, rs := Sort(resources, key, lt), Page(lt, window, key, position, resources).value.resources;
            start + |rs| <= |found| && rs == found[start..start + |rs|]
  {
    var found := Sort(resources, key, lt);
    if !window.cursor {
      start := Min(window.startIndex0, |found|);
    } else if window.count == Some(0) {
      start := 0;
    } else {
      start := Bounds(Keys(found, key), position, window.count, lt).value.0;
    }
  }

  /** A page by index holds the sorted resources from its index on, up to its count, and leads nowhere. */
  lemma IndexPageIsExact<T>(lt: Before, window: Window, key: T -> SortKey, position: Option<Json>, resources: seq<T>)
    requires !window.cursor
    ensures Page(lt, window, key, position, resources).Ok?
    ensures var found, page := Sort(resources, key, lt), Page(lt, window, key, position, resources).value;
            var left := if window.startIndex0 < |found| then |found| - window.startIndex0 else 0;
            && page.next.None? && page.previous.None?
            && |page.resources| == (if window.count.None? || left <= window.count.value then left else window.count.value)
            && forall i :: 0 <= i < |page.resources| ==>
                 window.startIndex0 + i < |found| && page.resources[i] == found[window.startIndex0 + i]
  {
  }

  // -- Where a page is cut ----------------------------------------------

  /** A test that holds on a prefix of the keys, and nowhere else, counts that prefix. */
  lemma {:induction false} CountIsASplit(keys: seq<SortKey>, test: SortKey -> bool)
    requires forall i, j :: 0 <= i < j < |keys| && test(keys[j]) ==> test(keys[i])
    ensures forall i :: 0 <= i < Count(keys, test) ==> test(keys[i])
    ensures forall i :: Count(keys, test) <= i < |keys| ==> !test(keys[i])
  {
    if keys != [] {
      var rest := keys[1..];
      forall i, j | 0 <= i < j < |rest| && test(rest[j])
        ensures test(rest[i])
      {
        assert rest[i] == keys[i + 1] && rest[j] == keys[j + 1];
      }
      CountIsASplit(rest, test);
      if !test(keys[0]) && Count(rest, test) > 0 {
        assert false;
      }
      assert forall i :: 0 < i < |keys| ==> keys[i] == rest[i - 1];
    }
  }

  /** The resources of a search, and the key that each one is sorted by. */
  ghost predicate Searchable<T(!new)>(resources: seq<T>, key: T -> SortKey) {
    && DistinctKeys(resources, key)
    && forall r :: r in resources ==> Canonical(key(r))
  }

  /** Whether a key lies beyond the anchor of a forward walk, which has none on its first page. */
  predicate Beyond(anchor: Option<SortKey>, k: SortKey, lt: Before) {
    anchor.Some? ==> lt(anchor.value, k)
  }

  /**
   * A forward page holds exactly the resources after the anchor of its position and up to its last one;
   * a page without next holds all the resources after the anchor.
   */
  ghost predicate CoversAfter<T(!new)>(page: SearchPage<T>, anchor: Option<SortKey>, resources: seq<T>, key: T -> SortKey,
                                 lt: Before)
  {
    && Ascending(page.resources, key, lt)
    && (forall r :: r in page.resources ==> r in resources && Beyond(anchor, key(r), lt))
    && (forall r :: r in resources && Beyond(anchor, key(r), lt) && r !in page.resources ==>
          page.next.Some? && page.resources != [] && lt(key(page.resources[|page.resources| - 1]), key(r)))
    && (page.next.Some? ==>
          page.resources != [] && page.next.value == Position(Next, key(page.resources[|page.resources| - 1])))
  }

  /** The mirror of CoversAfter, for a page that a previous position asks for. */
  ghost predicate CoversBefore<T(!new)>(page: SearchPage<T>, anchor: SortKey, resources: seq<T>, key: T -> SortKey,
                                  lt: Before)
  {
    && Ascending(page.resources, key, lt)
    && (forall r :: r in page.resources ==> r in resources && lt(key(r), anchor))
    && (forall r :: r in resources && lt(key(r), anchor) && r !in page.resources ==>
          page.previous.Some? && page.resources != [] && lt(key(r), key(page.resources[0])))
    && (page.previous.Some? ==>
          page.resources != [] && page.previous.value == Position(Previous, key(page.resources[0])))
  }

  /** The sorted resources that the pages of a search are cut out of. */
  ghost predicate IsSorted<T(!new)>(found: seq<T>, resources: seq<T>, key: T -> SortKey, lt: Before) {
    && found == Sort(resources, key, lt)
    && Ascending(found, key, lt)
    && forall r :: r in found ==> Canonical(key(r))
  }

  lemma Found<T(!new)>(lt: Before, resources: seq<T>, key: T -> SortKey) returns (found: seq<T>)
    requires StrictTotalOrder(lt)
    requires Searchable(resources, key)
    ensures IsSorted(found, resources, key, lt)
    ensures forall r :: r in found <==> r in resources
    ensures |found| == |resources|
  {
    SortAscending(resources, key, lt);
    SortPermutes(resources, key, lt);
    found := Sort(resources, key, lt);
    assert forall r :: r in found <==> r in multiset(found);
    assert |multiset(found)| == |found| && |multiset(resources)| == |resources|;
  }

  /** The slice that a forward position cuts: it starts after the last key that is not after the anchor. */
  lemma BoundsAfter(lt: Before, keys: seq<SortKey>, anchor: Option<SortKey>, count: Option<nat>)
    returns (start: nat, stop: nat)
    requires StrictTotalOrder(lt)
    requires forall i, j :: 0 <= i < j < |keys| ==> !lt(keys[j], keys[i])
    requires anchor.Some? ==> Canonical(anchor.value)
    ensures start <= stop <= |keys|
    ensures stop == if count.None? then |keys| else Min(start + count.value, |keys|)
    ensures forall i :: 0 <= i < |keys| ==> (Beyond(anchor, keys[i], lt) <==> start <= i)
    ensures var position := if anchor.Some? then Some(Position(Next, anchor.value)) else None;
            Bounds(keys, position, count, lt) == Ok((start, stop))
  {
    start := 0;
    if anchor.Some? {
      var a := anchor.value;
      PositionRoundTrip(Next, a);
      var test := (k: SortKey) => lt(k, a) || k == a;
      forall i, j | 0 <= i < j < |keys| && test(keys[j])
        ensures test(keys[i])
      {
        assert !lt(keys[j], keys[i]);
      }
      CountIsASplit(keys, test);
      start := Count(keys, test);
    }
    stop := if count.None? then |keys| else Min(start + count.value, |keys|);
  }

  /** The slice that a backward position cuts: it ends before the first key that is not before the anchor. */
  lemma BoundsBefore(lt: Before, keys: seq<SortKey>, anchor: SortKey, count: Option<nat>)
    returns (start: nat, stop: nat)
    requires StrictTotalOrder(lt)
    requires forall i, j :: 0 <= i < j < |keys| ==> !lt(keys[j], keys[i])
    requires Canonical(anchor)
    ensures start <= stop <= |keys|
    ensures start == if count.None? || stop < count.value then 0 else stop - count.value
    ensures forall i :: 0 <= i < |keys| ==> (lt(keys[i], anchor) <==> i < stop)
    ensures Bounds(keys, Some(Position(Previous, anchor)), count, lt) == Ok((start, stop))
  {
    PositionRoundTrip(Previous, anchor);
    var test := (k: SortKey) => lt(k, anchor);
    forall i, j | 0 <= i < j < |keys| && test(keys[j])
      ensures test(keys[i])
    {
      assert !lt(keys[j], keys[i]);
    }
    CountIsASplit(keys, test);
    stop := Count(keys, test);
    start := if count.None? || stop < count.value then 0 else stop - count.value;
  }

  lemma CutAfter<T(!new)>(found: seq<T>, resources: seq<T>, key: T -> SortKey, lt: Before,
                          anchor: Option<SortKey>, start: nat, stop: nat)
    requires Ascending(found, key, lt)
    requires forall r :: r in found <==> r in resources
    requires start <= stop <= |found| && (stop < |found| ==> start < stop)
    requires forall i :: 0 <= i < |found| ==> (Beyond(anchor, key(found[i]), lt) <==> start <= i)
    ensures CoversAfter(CursorPage(found, key, start, stop), anchor, resources, key, lt)
  {
    var page := CursorPage(found, key, start, stop);
    assert forall i :: start <= i < stop ==> page.resources[i - start] == found[i];
    forall r | r in resources && Beyond(anchor, key(r), lt) && r !in page.resources
      ensures page.next.Some? && page.resources != [] && lt(key(page.resources[|page.resources| - 1]), key(r))
    {
      var i :| 0 <= i < |found| && found[i] == r;
      assert i >= stop;
      assert page.resources[|page.resources| - 1] == found[stop - 1];
    }
  }

  lemma CutBefore<T(!new)>(found: seq<T>, resources: seq<T>, key: T -> SortKey, lt: Before,
                           anchor: SortKey, start: nat, stop: nat)
    requires Ascending(found, key, lt)
    requires forall r :: r in found <==> r in resources
    requires start <= stop <= |found| && (0 < start ==> start < stop)
    requires forall i :: 0 <= i < |found| ==> (lt(key(found[i]), anchor) <==> i < stop)
    ensures CoversBefore(CursorPage(found, key, start, stop), anchor, resources, key, lt)
  {
    var page := CursorPage(found, key, start, stop);
    assert forall i :: start <= i < stop ==> page.resources[i - start] == found[i];
    forall r | r in resources && lt(key(r), anchor) && r !in page.resources
      ensures page.previous.Some? && page.resources != [] && lt(key(r), key(page.resources[0]))
    {
      var i :| 0 <= i < |found| && found[i] == r;
    }
  }

  /** The slice of the sorted resources that a forward page holds. */
  lemma PageCutAfter<T(!new)>(lt: Before, window: Window, key: T -> SortKey, anchor: Option<SortKey>, resources: seq<T>, found: seq<T>)
    returns (start: nat, stop: nat)
    requires StrictTotalOrder(lt)
    requires window.cursor && window.count != Some(0)
    requires IsSorted(found, resources, key, lt) && (anchor.Some? ==> Canonical(anchor.value))
    ensures start <= stop <= |found|
    ensures stop == if window.count.None? then |found| else Min(start + window.count.value, |found|)
    ensures forall i :: 0 <= i < |found| ==> (Beyond(anchor, key(found[i]), lt) <==> start <= i)
    ensures var position := if anchor.Some? then Some(Position(Next, anchor.value)) else None;
            Page(lt, window, key, position, resources) == Ok(CursorPage(found, key, start, stop))
  {
    start, stop := BoundsAfter(lt, Keys(found, key), anchor, window.count);
  }

  /** The slice of the sorted resources that a backward page holds. */
  lemma PageCutBefore<T(!new)>(lt: Before, window: Window, key: T -> SortKey, anchor: SortKey, resources: seq<T>, found: seq<T>)
    returns (start: nat, stop: nat)
    requires StrictTotalOrder(lt)
    requires window.cursor && window.count != Some(0)
    requires IsSorted(found, resources, key, lt) && Canonical(anchor)
    ensures start <= stop <= |found|
    ensures start == if window.count.None? || stop < window.count.value then 0 else stop - window.count.value
    ensures forall i :: 0 <= i < |found| ==> (lt(key(found[i]), anchor) <==> i < stop)
    ensures Page(lt, window, key, Some(Position(Previous, anchor)), resources) == Ok(CursorPage(found, key, start, stop))
  {
    start, stop := BoundsBefore(lt, Keys(found, key), anchor, window.count);
  }

  lemma PageAfter<T(!new)>(lt: Before, window: Window, key: T -> SortKey, anchor: Option<SortKey>, resources: seq<T>)
    returns (page: SearchPage<T>)
    requires StrictTotalOrder(lt)
    requires window.cursor && window.count != Some(0)
    requires Searchable(resources, key) && (anchor.Some? ==> Canonical(anchor.value))
    ensures Page(lt, window, key, if anchor.Some? then Some(Position(Next, anchor.value)) else None, resources) == Ok(page)
    ensures CoversAfter(page, anchor, resources, key, lt)
    ensures page.resources != [] ==> Canonical(key(page.resources[|page.resources| - 1]))
  {
    var found := Found(lt, resources, key);
    var start, stop := PageCutAfter(lt, window, key, anchor, resources, found);
    CutAfter(found, resources, key, lt, anchor, start, stop);
    page := CursorPage(found, key, start, stop);
  }

  lemma PageBefore<T(!new)>(lt: Before, window: Window, key: T -> SortKey, anchor: SortKey, resources: seq<T>)
    returns (page: SearchPage<T>)
    requires StrictTotalOrder(lt)
    requires window.cursor && window.count != Some(0)
    requires Searchable(resources, key) && Canonical(anchor)
    ensures Page(lt, window, key, Some(Position(Previous, anchor)), resources) == Ok(page)
    ensures CoversBefore(page, anchor, resources, key, lt)
    ensures page.resources != [] ==> Canonical(key(page.resources[0]))
  {
    var found := Found(lt, resources, key);
    var start, stop := PageCutBefore(lt, window, key, anchor, resources, found);
    CutBefore(found, resources, key, lt, anchor, start, stop);
    page := CursorPage(found, key, start, stop);
  }
}
