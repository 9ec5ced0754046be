/** The order that a walk of the references gives the operations of a bulk request. */
module Planning {

  /** For each operation, the positions of the creations it references. */
  type Graph = seq<seq<nat>>

  ghost predicate WellFormed(g: Graph) {
    forall i, d :: 0 <= i < |g| && d in g[i] ==> d < |g|
  }

  // -- Reachability -----------------------------------------------------

  ghost predicate IsPath(g: Graph, p: seq<nat>) {
    && p != []
    && (forall i :: 0 <= i < |p| ==> p[i] < |g|)
    && forall i, j :: 0 <= i < j < |p| && j == i + 1 ==> p[j] in g[p[i]]
  }

  ghost predicate Leads(g: Graph, p: seq<nat>, a: nat, b: nat) {
    IsPath(g, p) && p[0] == a && p[|p| - 1] == b
  }

  /** An operation references another one, directly or through others; each one reaches itself. */
  ghost predicate Reaches(g: Graph, a: nat, b: nat) {
    exists p :: Leads(g, p, a, b)
  }

  /** The operation references itself, directly or through others. */
  ghost predicate OnCycle(g: Graph, a: nat) {
    a < |g| && exists d :: d in g[a] && Reaches(g, d, a)
  }

  lemma ReachesItself(g: Graph, a: nat)
    requires a < |g|
    ensures Reaches(g, a, a)
  {
    assert Leads(g, [a], a, a);
  }

  lemma SubpathReaches(g: Graph, p: seq<nat>, i: nat, j: nat)
    requires IsPath(g, p) && i <= j < |p|
    ensures Reaches(g, p[i], p[j])
  {
    assert Leads(g, p[i..j + 1], p[i], p[j]);
  }

  // -- Plans ------------------------------------------------------------

  ghost predicate Distinct(xs: seq<nat>) {
    forall p, q :: 0 <= p < q < |xs| ==> xs[p] != xs[q]
  }

  /** The creations that an operation references come before it, except those that reference it in turn. */
  ghost predicate DependenciesFirst(g: Graph, order: seq<nat>) {
    forall q, d :: 0 <= q < |order| && order[q] < |g| && d in g[order[q]] ==> d in order[..q] || Reaches(g, d, order[q])
  }

  ghost predicate ReachedUpTo(g: Graph, bound: nat, x: nat) {
    exists r: nat :: r <= bound && Reaches(g, r, x)
  }

  /** What runs before an operation is reached from that operation or from an earlier one of the request. */
  ghost predicate MinimallyReordered(g: Graph, order: seq<nat>) {
    forall p, q :: 0 <= p < q < |order| ==> ReachedUpTo(g, order[q], order[p])
  }

  ghost predicate Partial(g: Graph, order: seq<nat>) {
    && Distinct(order)
    && (forall x :: x in order ==> x < |g|)
    && DependenciesFirst(g, order)
    && MinimallyReordered(g, order)
  }

  ghost predicate IsPlan(g: Graph, order: seq<nat>) {
    Partial(g, order) && forall i: nat :: i < |g| ==> i in order
  }

  // -- The walk ---------------------------------------------------------

  /** An operation on the stack, and the dependencies its iterator has yet to give. */
  datatype Frame = Frame(index: nat, rest: seq<nat>)

  function Indices(stack: seq<Frame>): (path: seq<nat>)
    ensures |path| == |stack|
    ensures forall k :: 0 <= k < |stack| ==> path[k] == stack[k].index
  {
    seq(|stack|, k requires 0 <= k < |stack| => stack[k].index)
  }

  /** The operations before the root are placed, and each placed one is reached from the root or from an earlier one. */
  ghost predicate PlacedUpTo(g: Graph, root: nat, order: seq<nat>) {
    && Partial(g, order)
    && (forall i: nat :: i < root ==> i in order)
    && (forall x :: x in order ==> ReachedUpTo(g, root, x))
  }

  /** The stack is a simple path from the root, and what its iterators gave is either placed or on that path. */
  ghost predicate OnSimplePath(g: Graph, root: nat, order: seq<nat>, stack: seq<Frame>) {
    && Distinct(Indices(stack))
    && (stack == [] ==> root in order)
    && (stack != [] ==> IsPath(g, Indices(stack)) && stack[0].index == root)
    && (forall k :: 0 <= k < |stack| ==> stack[k].index < |g| && stack[k].index !in order)
    && (forall k, d :: 0 <= k < |stack| && d in stack[k].rest ==> d in g[stack[k].index])
    && (forall k, d :: 0 <= k < |stack| && d in g[stack[k].index] ==> d in stack[k].rest || d in order || d in Indices(stack))
  }

  /** The depth of the stack is bounded by the number of operations. */
  lemma DepthIsBounded(g: Graph, root: nat, order: seq<nat>, stack: seq<Frame>)
    requires OnSimplePath(g, root, order, stack)
    ensures |stack| <= |g|
  {
    DistinctIsShort(Indices(stack), |g|);
  }

  /** The positions of a request of n operations. */
  ghost function Range(n: nat): (r: set<nat>)
    ensures forall x: nat :: x in r <==> x < n
    ensures |r| == n
  {
    if n == 0 then {} else Range(n - 1) + {n - 1}
  }

  ghost function Elements(xs: seq<nat>): set<nat> {
    set x | x in xs
  }

  lemma Subset(a: set<nat>, b: set<nat>)
    requires a <= b
    ensures |a| <= |b|
  {
    assert b == a + (b - a);
  }

  lemma {:induction false} DistinctCount(xs: seq<nat>)
    requires Distinct(xs)
    ensures |Elements(xs)| == |xs|
  {
    if xs != [] {
      var last := |xs| - 1;
      var rest := xs[..last];
      DistinctCount(rest);
      assert xs == rest + [xs[last]];
      assert Elements(xs) == Elements(rest) + {xs[last]};
      assert xs[last] !in rest;
    }
  }

  lemma DistinctIsShort(xs: seq<nat>, n: nat)
    requires Distinct(xs) && forall x :: x in xs ==> x < n
    ensures |xs| <= n
  {
    DistinctCount(xs);
    Subset(Elements(xs), Range(n));
  }

  lemma WalkSkips(g: Graph, root: nat, order: seq<nat>, stack: seq<Frame>)
    requires OnSimplePath(g, root, order, stack)
    requires stack != [] && stack[|stack| - 1].rest != []
    requires stack[|stack| - 1].rest[0] in order || stack[|stack| - 1].rest[0] in Indices(stack)
    ensures var top := stack[|stack| - 1];
            var after := stack[..|stack| - 1] + [Frame(top.index, top.rest[1..])];
            OnSimplePath(g, root, order, after) && Indices(after) == Indices(stack)
  {
    var top := stack[|stack| - 1];
    var after := stack[..|stack| - 1] + [Frame(top.index, top.rest[1..])];
    assert Indices(after) == Indices(stack);
    assert top.rest == [top.rest[0]] + top.rest[1..];
  }

  lemma WalkPushes(g: Graph, root: nat, order: seq<nat>, stack: seq<Frame>)
    requires WellFormed(g) && OnSimplePath(g, root, order, stack)
    requires stack != [] && stack[|stack| - 1].rest != []
    requires stack[|stack| - 1].rest[0] !in order && stack[|stack| - 1].rest[0] !in Indices(stack)
    ensures var top := stack[|stack| - 1];
            var d := top.rest[0];
            && d < |g|
            && var after := stack[..|stack| - 1] + [Frame(top.index, top.rest[1..])] + [Frame(d, g[d])];
            OnSimplePath(g, root, order, after) && Indices(after) == Indices(stack) + [d]
  {
    var top := stack[|stack| - 1];
    var d := top.rest[0];
    assert d in g[top.index];
    var after := stack[..|stack| - 1] + [Frame(top.index, top.rest[1..])] + [Frame(d, g[d])];
    assert Indices(after) == Indices(stack) + [d];
    assert top.rest == [d] + top.rest[1..];
    assert forall x :: x in Indices(after) <==> x in Indices(stack) || x == d;
  }

  lemma WalkPops(g: Graph, root: nat, order: seq<nat>, stack: seq<Frame>)
    requires WellFormed(g) && OnSimplePath(g, root, order, stack) && PlacedUpTo(g, root, order)
    requires stack != [] && stack[|stack| - 1].rest == []
    ensures var i := stack[|stack| - 1].index;
            && OnSimplePath(g, root, order + [i], stack[..|stack| - 1]) && PlacedUpTo(g, root, order + [i])
            && Indices(stack) == Indices(stack[..|stack| - 1]) + [i]
  {
    var last := |stack| - 1;
    var i := stack[last].index;
    var path := Indices(stack);
    assert Indices(stack[..last]) == path[..last];
    assert forall x :: x in path <==> x in path[..last] || x == i;
    SubpathReaches(g, path, 0, last);
    forall d | d in g[i]
      ensures d in order || Reaches(g, d, i)
    {
      if d !in order {
        var k :| 0 <= k < |path| && path[k] == d;
        SubpathReaches(g, path, k, last);
      }
    }
    PlaceOne(g, root, order, i);
  }

  lemma PlaceOne(g: Graph, root: nat, order: seq<nat>, i: nat)
    requires PlacedUpTo(g, root, order)
    requires i < |g| && i !in order && Reaches(g, root, i)
    requires forall d :: d in g[i] ==> d in order || Reaches(g, d, i)
    ensures PlacedUpTo(g, root, order + [i])
  {
    var after := order + [i];
    forall q, d | 0 <= q < |after| && after[q] < |g| && d in g[after[q]]
      ensures d in after[..q] || Reaches(g, d, after[q])
    {
      assert after[..q] == order[..q];
    }
    forall p, q | 0 <= p < q < |after|
      ensures ReachedUpTo(g, after[q], after[p])
    {
      if q == |order| {
        assert after[p] in order && ReachedUpTo(g, root, after[p]);
        var r: nat :| r <= root && Reaches(g, r, after[p]);
        assert r <= after[q];
      }
    }
    assert ReachedUpTo(g, root, i);
  }

  lemma WalkStarts(g: Graph, root: nat, order: seq<nat>)
    requires root < |g| && root !in order
    ensures OnSimplePath(g, root, order, [Frame(root, g[root])])
  {
    assert Indices([Frame(root, g[root])]) == [root];
  }

  lemma NextRoot(g: Graph, root: nat, order: seq<nat>)
    requires PlacedUpTo(g, root, order) && root in order
    ensures PlacedUpTo(g, root + 1, order)
  {
    forall x | x in order
      ensures ReachedUpTo(g, root + 1, x)
    {
      assert ReachedUpTo(g, root, x);
    }
  }

  /**
   * Orders the operations by a depth-first walk of their dependencies, with an explicit stack. It ends for every
   * graph: each step visits a new operation, or pops one, or consumes an iterator entry of the same one.
   */
  method PlanSteps(g: Graph) returns (order: seq<nat>)
    requires WellFormed(g)
    ensures IsPlan(g, order)
  {
    order := [];
    var visited: set<nat> := {};
    ghost var all := Range(|g|);
    for root := 0 to |g|
      invariant PlacedUpTo(g, root, order)
      invariant forall x :: x in visited <==> x in order
    {
      if root !in visited {
        var onPath := {root};
        var stack := [Frame(root, g[root])];
        WalkStarts(g, root, order);
        while stack != []
          invariant PlacedUpTo(g, root, order) && OnSimplePath(g, root, order, stack)
          invariant forall x :: x in visited <==> x in order
          invariant forall x :: x in onPath <==> x in Indices(stack)
          invariant |stack| <= |g|
          decreases all - visited - onPath, |stack|, if stack == [] then 0 else |stack[|stack| - 1].rest|
        {
          var top := stack[|stack| - 1];
          assert top.index in Indices(stack);
          if top.rest == [] {
            WalkPops(g, root, order, stack);
            stack := stack[..|stack| - 1];
            onPath := onPath - {top.index};
            visited := visited + {top.index};
            order := order + [top.index];
          } else {
            var dependency := top.rest[0];
            var advanced := stack[..|stack| - 1] + [Frame(top.index, top.rest[1..])];
            if dependency !in visited && dependency !in onPath {
              WalkPushes(g, root, order, stack);
              assert dependency in all - visited - onPath;
              onPath := onPath + {dependency};
              stack := advanced + [Frame(dependency, g[dependency])];
            } else {
              WalkSkips(g, root, order, stack);
              stack := advanced;
            }
          }
          DepthIsBounded(g, root, order, stack);
        }
      }
      NextRoot(g, root, order);
    }
  }

  // -- What a plan means ------------------------------------------------

  /** A plan is a permutation of the operations. */
  lemma PlanIsPermutation(g: Graph, order: seq<nat>)
    requires IsPlan(g, order)
    ensures |order| == |g|
    ensures forall i: nat :: i < |g| ==> multiset(order)[i] == 1
  {
    DistinctIsShort(order, |g|);
    DistinctCount(order);
    Subset(Range(|g|), Elements(order));
    forall i: nat | i < |g|
      ensures multiset(order)[i] == 1
    {
      DistinctMultiplicity(order, i);
    }
  }

  lemma {:induction false} DistinctMultiplicity(xs: seq<nat>, x: nat)
    requires Distinct(xs)
    ensures multiset(xs)[x] == if x in xs then 1 else 0
  {
    if xs != [] {
      var last := |xs| - 1;
      assert xs == xs[..last] + [xs[last]];
      DistinctMultiplicity(xs[..last], x);
    }
  }

  /** A request without circular references gets a topological order. */
  lemma AcyclicPlanIsTopological(g: Graph, order: seq<nat>)
    requires WellFormed(g) && IsPlan(g, order)
    requires forall i: nat :: !OnCycle(g, i)
    ensures forall q, d :: 0 <= q < |order| && order[q] < |g| && d in g[order[q]] ==> d in order[..q]
  {
    forall q, d | 0 <= q < |order| && order[q] < |g| && d in g[order[q]]
      ensures d in order[..q]
    {
      assert order[q] in order && !OnCycle(g, order[q]);
    }
  }

  lemma ReachedIsDependency(g: Graph, r: nat, x: nat)
    requires Reaches(g, r, x) && r != x
    ensures exists i :: 0 <= i < |g| && x in g[i]
  {
    var p :| Leads(g, p, r, x);
    var last := |p| - 1;
    assert p[last] in g[p[last - 1]];
  }

  /**
   * An operation that runs before an earlier one of the request is a creation that the earlier one, or one still
   * before it, references directly or through others. Operations that nothing references keep their request order.
   */
  lemma ReorderedIsReferenced(g: Graph, order: seq<nat>, p: nat, q: nat)
    requires IsPlan(g, order) && p < q < |order| && order[p] > order[q]
    ensures exists r: nat :: r <= order[q] && Reaches(g, r, order[p])
    ensures exists i :: 0 <= i < |g| && order[p] in g[i]
  {
    assert ReachedUpTo(g, order[q], order[p]);
    var r: nat :| r <= order[q] && Reaches(g, r, order[p]);
    ReachedIsDependency(g, r, order[p]);
  }
}
