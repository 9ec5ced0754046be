/** Sorting by a key, and the sequences that a strict total order on the keys makes unique. */
module Sorting {

  ghost predicate StrictTotalOrder<K(!new)>(lt: (K, K) -> bool) {
    && (forall a :: !lt(a, a))
    && (forall a, b, c {:trigger lt(a, b), lt(b, c)} :: lt(a, b) && lt(b, c) ==> lt(a, c))
    && (forall a, b :: lt(a, b) || a == b || lt(b, a))
  }

  /** Puts an element before the first one that does not precede it, so that equal keys keep their order. */
  function Insert<T, K>(x: T, xs: seq<T>, key: T -> K, lt: (K, K) -> bool): seq<T> {
    if xs != [] && lt(key(xs[0]), key(x)) then [xs[0]] + Insert(x, xs[1..], key, lt) else [x] + xs
  }

  /** The stable sort of a sequence by its keys. */
  function Sort<T, K>(xs: seq<T>, key: T -> K, lt: (K, K) -> bool): seq<T> {
    if xs == [] then [] else Insert(xs[0], Sort(xs[1..], key, lt), key, lt)
  }

  ghost predicate Ascending<T, K>(xs: seq<T>, key: T -> K, lt: (K, K) -> bool) {
    forall i, j :: 0 <= i < j < |xs| ==> lt(key(xs[i]), key(xs[j]))
  }

  /** No element is listed twice, and no two elements share a key. */
  ghost predicate DistinctKeys<T(!new), K>(xs: seq<T>, key: T -> K) {
    && (forall x :: x in multiset(xs) ==> multiset(xs)[x] == 1)
    && (forall x, y :: x in multiset(xs) && y in multiset(xs) && key(x) == key(y) ==> x == y)
  }

  lemma {:induction false} InsertPermutes<T, K>(x: T, xs: seq<T>, key: T -> K, lt: (K, K) -> bool)
    ensures multiset(Insert(x, xs, key, lt)) == multiset(xs) + multiset{x}
  {
    if xs != [] && lt(key(xs[0]), key(x)) {
      InsertPermutes(x, xs[1..], key, lt);
      assert xs == [xs[0]] + xs[1..];
    }
  }

  lemma {:induction false} SortPermutes<T, K>(xs: seq<T>, key: T -> K, lt: (K, K) -> bool)
    ensures multiset(Sort(xs, key, lt)) == multiset(xs)
  {
    if xs != [] {
      SortPermutes(xs[1..], key, lt);
      InsertPermutes(xs[0], Sort(xs[1..], key, lt), key, lt);
      assert xs == [xs[0]] + xs[1..];
    }
  }

  lemma SortLength<T, K>(xs: seq<T>, key: T -> K, lt: (K, K) -> bool)
    ensures |Sort(xs, key, lt)| == |xs|
  {
    SortPermutes(xs, key, lt);
    assert |multiset(Sort(xs, key, lt))| == |multiset(xs)|;
  }

  lemma {:induction false} InsertAscending<T, K(!new)>(x: T, xs: seq<T>, key: T -> K, lt: (K, K) -> bool)
    requires StrictTotalOrder(lt)
    requires Ascending(xs, key, lt)
    requires forall y :: y in xs ==> key(y) != key(x)
    ensures Ascending(Insert(x, xs, key, lt), key, lt)
  {
    if xs != [] && lt(key(xs[0]), key(x)) {
      InsertAscending(x, xs[1..], key, lt);
      var rest := Insert(x, xs[1..], key, lt);
      InsertPermutes(x, xs[1..], key, lt);
      forall j | 0 <= j < |rest|
        ensures lt(key(xs[0]), key(rest[j]))
      {
        assert rest[j] in multiset(rest);
        assert rest[j] == x || rest[j] in xs[1..];
      }
    } else if xs != [] {
      assert lt(key(x), key(xs[0]));
    }
  }

  lemma {:induction false} SortAscending<T(!new), K(!new)>(xs: seq<T>, key: T -> K, lt: (K, K) -> bool)
    requires StrictTotalOrder(lt)
    requires DistinctKeys(xs, key)
    ensures Ascending(Sort(xs, key, lt), key, lt)
  {
    if xs != [] {
      assert xs == [xs[0]] + xs[1..];
      assert multiset(xs) == multiset{xs[0]} + multiset(xs[1..]);
      forall x | x in multiset(xs[1..])
        ensures multiset(xs[1..])[x] == 1
      {
        assert multiset(xs)[x] == multiset{xs[0]}[x] + multiset(xs[1..])[x];
      }
      SortAscending(xs[1..], key, lt);
      SortPermutes(xs[1..], key, lt);
      var rest := Sort(xs[1..], key, lt);
      forall y | y in rest
        ensures key(y) != key(xs[0])
      {
        assert y in multiset(rest);
      }
      InsertAscending(xs[0], rest, key, lt);
    }
  }

  /** Without distinct keys, no element precedes an earlier one. */
  ghost predicate WeaklyAscending<T, K>(xs: seq<T>, key: T -> K, lt: (K, K) -> bool) {
    forall i, j :: 0 <= i < j < |xs| ==> !lt(key(xs[j]), key(xs[i]))
  }

  lemma {:induction false} InsertWeaklyAscending<T, K(!new)>(x: T, xs: seq<T>, key: T -> K, lt: (K, K) -> bool)
    requires StrictTotalOrder(lt)
    requires WeaklyAscending(xs, key, lt)
    ensures WeaklyAscending(Insert(x, xs, key, lt), key, lt)
  {
    if xs != [] && lt(key(xs[0]), key(x)) {
      InsertWeaklyAscending(x, xs[1..], key, lt);
      var rest := Insert(x, xs[1..], key, lt);
      InsertPermutes(x, xs[1..], key, lt);
      forall j | 0 <= j < |rest|
        ensures !lt(key(rest[j]), key(xs[0]))
      {
        assert rest[j] in multiset(rest);
        assert rest[j] == x || rest[j] in xs[1..];
      }
    }
  }

  lemma {:induction false} SortWeaklyAscending<T, K(!new)>(xs: seq<T>, key: T -> K, lt: (K, K) -> bool)
    requires StrictTotalOrder(lt)
    ensures WeaklyAscending(Sort(xs, key, lt), key, lt)
  {
    if xs != [] {
      SortWeaklyAscending(xs[1..], key, lt);
      InsertWeaklyAscending(xs[0], Sort(xs[1..], key, lt), key, lt);
    }
  }

  lemma AscendingHead<T, K(!new)>(xs: seq<T>, ys: seq<T>, key: T -> K, lt: (K, K) -> bool)
    requires StrictTotalOrder(lt)
    requires Ascending(xs, key, lt) && Ascending(ys, key, lt)
    requires xs != [] && ys != [] && xs[0] in ys && ys[0] in xs
    ensures xs[0] == ys[0]
  {
    var i :| 0 <= i < |ys| && ys[i] == xs[0];
    var j :| 0 <= j < |xs| && xs[j] == ys[0];
    if i > 0 && j > 0 {
      assert false;
    }
  }

  /** Two ascending sequences of the same elements are the same sequence. */
  lemma {:induction false} AscendingUnique<T, K(!new)>(xs: seq<T>, ys: seq<T>, key: T -> K, lt: (K, K) -> bool)
    requires StrictTotalOrder(lt)
    requires Ascending(xs, key, lt) && Ascending(ys, key, lt)
    requires multiset(xs) == multiset(ys)
    ensures xs == ys
  {
    assert |multiset(xs)| == |xs| && |multiset(ys)| == |ys|;
    if xs != [] {
      assert xs[0] in multiset(ys) && ys[0] in multiset(xs);
      AscendingHead(xs, ys, key, lt);
      assert xs == [xs[0]] + xs[1..] && ys == [ys[0]] + ys[1..];
      assert multiset(xs[1..]) == multiset(xs) - multiset{xs[0]};
      assert multiset(ys[1..]) == multiset(ys) - multiset{ys[0]};
      AscendingUnique(xs[1..], ys[1..], key, lt);
    }
  }

  /** The sort forgets the order its input came in. */
  lemma SortCanonical<T(!new), K(!new)>(xs: seq<T>, ys: seq<T>, key: T -> K, lt: (K, K) -> bool)
    requires StrictTotalOrder(lt)
    requires multiset(xs) == multiset(ys)
    requires DistinctKeys(xs, key)
    ensures Sort(xs, key, lt) == Sort(ys, key, lt)
  {
    SortAscending(xs, key, lt);
    SortAscending(ys, key, lt);
    SortPermutes(xs, key, lt);
    SortPermutes(ys, key, lt);
    AscendingUnique(Sort(xs, key, lt), Sort(ys, key, lt), key, lt);
  }
}
