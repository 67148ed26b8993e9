/** The traversals of the Makefile generator, `traverseDeps` and `getTransitiveDeps`, on graphs
    that the cycle check has accepted. */
module Traversal {
  import opened BuildGraph

  type Type = string

  // ---------------------------------------------------------------- what is to be visited

  /** A walk from `start` that goes on only from targets whose type does not stop it. */
  ghost predicate Walk(g: Graph, stop: set<Type>, start: Name, p: seq<Name>) {
    && |p| >= 2 && Path(g, p) && p[0] == start
    && forall i | 0 < i < |p| - 1 :: p[i] in g && g[p[i]].ttype !in stop
  }

  ghost predicate Reached(g: Graph, stop: set<Type>, start: Name, t: Name) {
    exists p :: Walk(g, stop, start, p) && p[|p| - 1] == t
  }

  lemma ReachedDirectly(g: Graph, stop: set<Type>, start: Name, t: Name)
    requires DependsOn(g, start, t)
    ensures Reached(g, stop, start, t)
  {
    var p := [start, t];
    assert Walk(g, stop, start, p) && p[|p| - 1] == t;
  }

  lemma ReachedFurther(g: Graph, stop: set<Type>, start: Name, t: Name, u: Name)
    requires Reached(g, stop, start, t) && t in g && g[t].ttype !in stop && DependsOn(g, t, u)
    ensures Reached(g, stop, start, u)
  {
    var p :| Walk(g, stop, start, p) && p[|p| - 1] == t;
    PathExtends(g, p, u);
    var q := p + [u];
    assert Walk(g, stop, start, q) && q[|q| - 1] == u;
  }

  lemma ReachedNext(g: Graph, stop: set<Type>, start: Name, t: Name, u: Name)
    requires DependsOn(g, t, u) && (t == start || (Reached(g, stop, start, t) && t in g && g[t].ttype !in stop))
    ensures Reached(g, stop, start, u)
  {
    if t == start {
      ReachedDirectly(g, stop, start, u);
    } else {
      ReachedFurther(g, stop, start, t, u);
    }
  }

  /** All that `t` depends on is in `order`, unless `t` stops the traversal. */
  ghost predicate DepsIn(g: Graph, stop: set<Type>, t: Name, order: seq<Name>) {
    t in g && g[t].ttype !in stop ==> forall d | d in g[t].tdeps :: d in order
  }

  /** Every listed target that does not stop the traversal comes after all it depends on. */
  ghost predicate Sorted(g: Graph, stop: set<Type>, order: seq<Name>) {
    forall i | 0 <= i < |order| :: DepsIn(g, stop, order[i], order[..i])
  }

  ghost predicate NoRepeats(order: seq<Name>) {
    forall i, j | 0 <= i < j < |order| :: order[i] != order[j]
  }

  lemma SortedHoldsDeps(g: Graph, stop: set<Type>, order: seq<Name>, t: Name)
    requires Sorted(g, stop, order) && t in order
    ensures DepsIn(g, stop, t, order)
  {
    var i :| 0 <= i < |order| && order[i] == t;
    assert DepsIn(g, stop, order[i], order[..i]);
  }

  /** A sorted list that holds what `start` depends on holds everything to be visited. */
  lemma {:induction false} SortedIsComplete(g: Graph, stop: set<Type>, start: Name, order: seq<Name>, p: seq<Name>)
    requires Sorted(g, stop, order) && Walk(g, stop, start, p)
    requires start in g && forall d | d in g[start].tdeps :: d in order
    ensures p[|p| - 1] in order
    decreases |p|
  {
    var n := |p| - 1;
    assert DependsOn(g, p[n - 1], p[n]);
    if n >= 2 {
      var q := p[..n];
      forall i | 0 <= i < |q| - 1 ensures DependsOn(g, q[i], q[i + 1]) {
        assert DependsOn(g, p[i], p[i + 1]);
      }
      SortedIsComplete(g, stop, start, order, q);
      SortedHoldsDeps(g, stop, order, p[n - 1]);
    }
  }

  lemma SortedAppend(g: Graph, stop: set<Type>, order: seq<Name>, t: Name)
    requires Sorted(g, stop, order) && DepsIn(g, stop, t, order)
    ensures Sorted(g, stop, order + [t])
  {
    var o := order + [t];
    forall i | 0 <= i < |o| ensures DepsIn(g, stop, o[i], o[..i]) {
      if i < |order| {
        assert DepsIn(g, stop, order[i], order[..i]) && o[..i] == order[..i];
      } else {
        assert o[..i] == order;
      }
    }
  }

  // ---------------------------------------------------------------- the order of siblings

  /** What a visit to `d` leaves: `d`, and what is reached from it unless it stops the traversal. */
  ghost predicate From(g: Graph, stop: set<Type>, d: Name, t: Name) {
    t == d || (d in g && g[d].ttype !in stop && Reached(g, stop, d, t))
  }

  ghost predicate FromFirst(g: Graph, stop: set<Type>, ds: seq<Name>, m: int, t: Name) {
    exists k | 0 <= k < m && k < |ds| :: From(g, stop, ds[k], t)
  }

  /** The `i`-th of `ds` comes before the `j`-th, unless that had to come first. */
  ghost predicate InTurn(g: Graph, stop: set<Type>, ds: seq<Name>, order: seq<Name>, i: nat, j: nat)
    requires i < j < |ds|
  {
    FromFirst(g, stop, ds, i + 1, ds[j]) || Rank(order, ds[i]) < Rank(order, ds[j])
  }

  /** After visits to the first `m` of `ds`: only what they lead to is in `order`, and each of
      them comes before every later one that did not have to come first. */
  ghost predicate SiblingsSoFar(g: Graph, stop: set<Type>, ds: seq<Name>, m: nat, order: seq<Name>) {
    && (forall t | t in order :: FromFirst(g, stop, ds, m, t))
    && (forall i, j | 0 <= i < m && i < j < |ds| :: InTurn(g, stop, ds, order, i, j))
  }

  /** Siblings are listed as in `ds`, except that one needed by an earlier one, or by what an
      earlier one leads to, may come earlier. */
  ghost predicate SiblingsAs(g: Graph, stop: set<Type>, ds: seq<Name>, order: seq<Name>) {
    forall i, j | 0 <= i < j < |ds| :: InTurn(g, stop, ds, order, i, j)
  }

  lemma {:induction false} RankInPrefix(a: seq<Name>, b: seq<Name>, t: Name)
    requires a <= b
    ensures t in a ==> Rank(b, t) == Rank(a, t)
    ensures t !in a ==> Rank(b, t) >= |a|
  {
    if a != [] && a[0] != t {
      assert a[1..] <= b[1..];
      RankInPrefix(a[1..], b[1..], t);
    }
  }

  lemma NoSiblingsYet(g: Graph, stop: set<Type>, ds: seq<Name>)
    ensures SiblingsSoFar(g, stop, ds, 0, [])
  {
  }

  lemma StillInTurn(g: Graph, stop: set<Type>, ds: seq<Name>, before: seq<Name>, after: seq<Name>, i: nat, j: nat)
    requires before <= after && i < j < |ds| && InTurn(g, stop, ds, before, i, j)
    ensures InTurn(g, stop, ds, after, i, j)
  {
    hide Rank, FromFirst;
    RankInPrefix(before, after, ds[i]);
    RankInPrefix(before, after, ds[j]);
  }

  lemma NextLeavesItsOwn(g: Graph, stop: set<Type>, ds: seq<Name>, m: nat, before: seq<Name>, after: seq<Name>)
    requires m < |ds| && forall t | t in before :: FromFirst(g, stop, ds, m, t)
    requires forall t | t in after && t !in before :: From(g, stop, ds[m], t)
    ensures forall t | t in after :: FromFirst(g, stop, ds, m + 1, t)
  {
    hide From;
    forall t | t in after ensures FromFirst(g, stop, ds, m + 1, t) {
      if t in before {
        var k :| 0 <= k < m && k < |ds| && From(g, stop, ds[k], t);
      } else {
        assert From(g, stop, ds[m], t);
      }
    }
  }

  lemma NextSibling(g: Graph, stop: set<Type>, ds: seq<Name>, m: nat, before: seq<Name>, after: seq<Name>)
    requires SiblingsSoFar(g, stop, ds, m, before) && m < |ds|
    requires before <= after && ds[m] in after
    requires forall t | t in after && t !in before :: From(g, stop, ds[m], t)
    ensures SiblingsSoFar(g, stop, ds, m + 1, after)
  {
    NextLeavesItsOwn(g, stop, ds, m, before, after);
    hide From, FromFirst, Rank;
    forall i, j | 0 <= i < m + 1 && i < j < |ds| ensures InTurn(g, stop, ds, after, i, j) {
      if i < m {
        StillInTurn(g, stop, ds, before, after, i, j);
      } else if !FromFirst(g, stop, ds, m + 1, ds[j]) {
        assert ds[j] !in after;
      }
    }
  }

  /** Exactly when a sibling comes before one that is visited earlier: when that leads to it.
      (One needed by a still earlier one has come before both.) */
  lemma SiblingsSwapIff(g: Graph, stop: set<Type>, ds: seq<Name>, order: seq<Name>, i: nat, j: nat)
    requires Sorted(g, stop, order) && SiblingsAs(g, stop, ds, order) && i < j < |ds| && ds[i] != ds[j]
    requires ds[i] in order && !FromFirst(g, stop, ds, i, ds[j])
    ensures Rank(order, ds[j]) < Rank(order, ds[i]) <==> From(g, stop, ds[i], ds[j])
  {
    if From(g, stop, ds[i], ds[j]) {
      NeededComesFirst(g, stop, order, ds[i], ds[j]);
    } else {
      hide From, Rank, Sorted;
      assert InTurn(g, stop, ds, order, i, j);
    }
  }

  /** What a listed target leads to is listed before it. */
  lemma NeededComesFirst(g: Graph, stop: set<Type>, order: seq<Name>, d: Name, t: Name)
    requires Sorted(g, stop, order) && d in order && From(g, stop, d, t) && d != t
    ensures Rank(order, t) < Rank(order, d)
  {
    var k := Rank(order, d);
    var p :| Walk(g, stop, d, p) && p[|p| - 1] == t;
    assert DepsIn(g, stop, order[k], order[..k]);
    forall i | 0 <= i < k ensures DepsIn(g, stop, order[..k][i], order[..k][..i]) {
      assert DepsIn(g, stop, order[i], order[..i]) && order[..k][..i] == order[..i];
    }
    SortedIsComplete(g, stop, d, order[..k], p);
    RankBelow(order, t, k);
  }

  lemma ReachedThrough(g: Graph, stop: set<Type>, a: Name, d: Name, t: Name)
    requires DependsOn(g, a, d) && From(g, stop, d, t)
    ensures Reached(g, stop, a, t)
  {
    if t == d {
      ReachedDirectly(g, stop, a, t);
    } else {
      var p :| Walk(g, stop, d, p) && p[|p| - 1] == t;
      var q := [a] + p;
      forall i | 0 <= i < |q| - 1 ensures DependsOn(g, q[i], q[i + 1]) {
        if i > 0 { assert DependsOn(g, p[i - 1], p[i]); }
      }
      forall i | 0 < i < |q| - 1 ensures q[i] in g && g[q[i]].ttype !in stop {
        if i > 1 { assert p[i - 1] in g && g[p[i - 1]].ttype !in stop; }
      }
      assert Walk(g, stop, a, q) && q[|q| - 1] == t;
    }
  }

  /** What one turn of the loop over the dependencies of `a` adds. */
  lemma NextDependency(g: Graph, stop: set<Type>, a: Name, ds: seq<Name>, m: nat, first: bool, before: seq<Name>, after: seq<Name>)
    requires m < |ds| && DependsOn(g, a, ds[m]) && before <= after && ds[m] in after
    requires forall t | t in after && t !in before :: From(g, stop, ds[m], t)
    requires first ==> SiblingsSoFar(g, stop, ds, m, before)
    ensures forall t | t in after && t !in before :: Reached(g, stop, a, t)
    ensures first ==> SiblingsSoFar(g, stop, ds, m + 1, after)
  {
    hide From, Reached;
    forall t | t in after && t !in before ensures Reached(g, stop, a, t) {
      ReachedThrough(g, stop, a, ds[m], t);
    }
    if first {
      NextSibling(g, stop, ds, m, before, after);
    }
  }

  /** What the end of a visit to `d` adds to the lists. */
  lemma LeftLast(g: Graph, stop: set<Type>, before: seq<Name>, mid: seq<Name>, d: Name)
    requires Sorted(g, stop, mid) && NoRepeats(mid) && d !in mid && d in g
    requires DepsIn(g, stop, d, mid) && before <= mid && (g[d].ttype in stop ==> mid == before)
    requires forall t | t in mid && t !in before :: Reached(g, stop, d, t)
    ensures Sorted(g, stop, mid + [d]) && NoRepeats(mid + [d]) && before <= mid + [d]
    ensures forall t | t in mid + [d] && t !in before :: From(g, stop, d, t)
    ensures forall t :: t in mid + [d] <==> t in mid || t == d
  {
    hide Reached, Sorted;
    SortedAppend(g, stop, mid, d);
  }

  // ---------------------------------------------------------------- traverseDeps

  function OfTypes(g: Graph, order: seq<Name>, types: set<Type>): seq<Name>
    requires forall t | t in order :: t in g
  {
    if order == [] then []
    else
      var last := order[|order| - 1];
      OfTypes(g, order[..|order| - 1], types) + (if g[last].ttype in types then [last] else [])
  }

  /** The state the recursion shares: the visited set and the calls made so far. */
  class Visitor {
    const targets: Graph
    const stop: set<Type>
    const callAt: set<Type>
    var visited: set<Name>
    var called: seq<Name>          // targets handed to the callback, in order
    ghost var left: seq<Name>      // targets whose visit is over, in order

    ghost predicate Valid()
      reads this
    {
      && Resolved(targets)
      && (forall t | t in left :: t in targets && t in visited)
      && called == OfTypes(targets, left, callAt)
      && Sorted(targets, stop, left) && NoRepeats(left)
    }

    /** What is visited but not left yet are the ancestors of the current target, so none
        of them ranks below it. */
    ghost predicate OpenRankAbove(topo: seq<Name>, target: Name)
      reads this
    {
      forall t | t in visited && t !in left :: Rank(topo, t) >= Rank(topo, target)
    }

    ghost predicate AllReached(start: Name)
      reads this
    {
      forall t | t in visited :: Reached(targets, stop, start, t)
    }

    constructor (targets: Graph, stop: set<Type>, callAt: set<Type>)
      requires Resolved(targets)
      ensures Valid() && visited == {} && called == [] && left == []
      ensures this.targets == targets && this.stop == stop && this.callAt == callAt
    {
      this.targets, this.stop, this.callAt := targets, stop, callAt;
      visited, called, left := {}, [], [];
    }

    lemma DependenciesAreDefined()
      requires Valid()
      ensures Resolved(targets)
    {
    }

    method Rec(target: Name, ghost start: Name, ghost topo: seq<Name>)
      requires Valid() && target in targets && TopologicalOrder(targets, topo)
      requires OpenRankAbove(topo, target) && AllReached(start)
      requires target == start || (Reached(targets, stop, start, target) && targets[target].ttype !in stop)
      modifies this
      ensures Valid() && AllReached(start)
      ensures old(left) <= left && forall d | d in targets[target].tdeps :: d in left
      ensures forall t | t in left && t !in old(left) :: Reached(targets, stop, target, t)
      ensures old(left) == [] ==> SiblingsSoFar(targets, stop, targets[target].tdeps, |targets[target].tdeps|, left)
      ensures forall t :: t in visited && t !in left <==> t in old(visited) && t !in old(left)
      decreases Rank(topo, target), 0
    {
      hide Valid, AllReached, Rank, Reached, DepsFirst, SiblingsSoFar, From;
      DependenciesAreDefined();
      var tdeps := targets[target].tdeps;
      NoSiblingsYet(targets, stop, tdeps);
      for k := 0 to |tdeps|
        invariant Valid() && AllReached(start) && old(left) <= left
        invariant forall t :: t in visited && t !in left <==> t in old(visited) && t !in old(left)
        invariant forall j | 0 <= j < k :: tdeps[j] in left
        invariant forall t | t in left && t !in old(left) :: Reached(targets, stop, target, t)
        invariant old(left) == [] ==> SiblingsSoFar(targets, stop, tdeps, k, left)
      {
        var tdep := tdeps[k];
        ghost var before := left;
        assert DependsOn(targets, target, tdep);
        DependencyRanksLower(targets, topo, target, tdep);
        if tdep !in visited {
          ReachedNext(targets, stop, start, target, tdep);
          Visit(tdep, start, topo);
        }
        NextDependency(targets, stop, target, tdeps, k, old(left) == [], before, left);
      }
    }

    /** What the loop does with a dependency it has not visited. */
    method Visit(tdep: Name, ghost start: Name, ghost topo: seq<Name>)
      requires Valid() && tdep in targets && TopologicalOrder(targets, topo)
      requires OpenRankAbove(topo, tdep) && AllReached(start)
      requires tdep !in visited && Reached(targets, stop, start, tdep)
      modifies this
      ensures Valid() && AllReached(start)
      ensures old(left) <= left && tdep in left
      ensures forall t | t in left && t !in old(left) :: From(targets, stop, tdep, t)
      ensures forall t :: t in visited && t !in left <==> t in old(visited) && t !in old(left)
      decreases Rank(topo, tdep), 1
    {
      hide Sorted, NoRepeats, OfTypes, Rank, Reached, DepsFirst, SiblingsSoFar, From;
      ghost var before := left;
      visited := visited + {tdep};
      if targets[tdep].ttype !in stop {
        Rec(tdep, start, topo);
      }
      LeftLast(targets, stop, before, left, tdep);
      Leave(tdep);
    }

    method Leave(tdep: Name)
      requires Valid() && tdep in targets && tdep in visited
      requires Sorted(targets, stop, left + [tdep]) && NoRepeats(left + [tdep])
      modifies this`left, this`called
      ensures Valid() && left == old(left) + [tdep]
    {
      hide Sorted, NoRepeats;
      assert (left + [tdep])[..|left|] == left;
      left := left + [tdep];
      if targets[tdep].ttype in callAt {
        called := called + [tdep];
      }
    }

    /** `traverseDeps` up to the callbacks: every target reached through targets that do not
        stop the traversal is left exactly once, and after all it depends on. */
    method Traverse(target: Name, ghost topo: seq<Name>)
      requires Valid() && target in targets && TopologicalOrder(targets, topo)
      requires visited == {} && left == []
      modifies this
      ensures Valid()
      ensures forall t :: t in visited <==> Reached(targets, stop, target, t)
      ensures forall t :: t in left <==> Reached(targets, stop, target, t)
      ensures SiblingsAs(targets, stop, targets[target].tdeps, left)
    {
      Rec(target, target, topo);
      assert forall t :: t in visited <==> t in left;
      forall t | Reached(targets, stop, target, t) ensures t in left {
        var p :| Walk(targets, stop, target, p) && p[|p| - 1] == t;
        SortedIsComplete(targets, stop, target, left, p);
      }
    }
  }

  // ---------------------------------------------------------------- the public functions

  /** `order` lists exactly what is reached from `start`, each target once. */
  ghost predicate Lists(g: Graph, stop: set<Type>, start: Name, order: seq<Name>) {
    NoRepeats(order) && forall t :: t in order <==> Reached(g, stop, start, t)
  }

  function Reverse(s: seq<Name>): (r: seq<Name>)
    ensures |r| == |s| && forall i | 0 <= i < |s| :: r[i] == s[|s| - 1 - i]
  {
    if s == [] then [] else Reverse(s[1..]) + [s[0]]
  }

  /** What `traverseDeps` hands to the callback: each reached target of the right type once,
      dependencies first and siblings as declared, and the starting target last if that is
      asked for. */
  ghost predicate Traversed(g: Graph, target: Name, stop: set<Type>, callAt: set<Type>, order: seq<Name>, called: seq<Name>) {
    && Lists(g, stop, target, order) && Sorted(g, stop, order) && (forall t | t in order :: t in g)
    && target in g && SiblingsAs(g, stop, g[target].tdeps, order)
    && called == OfTypes(g, order, callAt)
  }

  method TraverseDeps(g: Graph, target: Name, stop: set<Type>, callAt: set<Type>, incSelf: bool, ghost topo: seq<Name>)
    returns (called: seq<Name>)
    requires Resolved(g) && target in g && TopologicalOrder(g, topo)
    ensures exists order, below :: Traversed(g, target, stop, callAt, order, below) &&
              called == below + (if incSelf && g[target].ttype in callAt then [target] else [])
  {
    hide SiblingsAs;
    var v := new Visitor(g, stop, callAt);
    v.Traverse(target, topo);
    called := v.called;
    assert Traversed(g, target, stop, callAt, v.left, v.called);
    if incSelf && g[target].ttype in callAt {
      called := called + [target];
    }
  }

  lemma {:induction false} AllTypes(g: Graph, order: seq<Name>, types: set<Type>)
    requires forall t | t in order :: t in g && g[t].ttype in types
    ensures OfTypes(g, order, types) == order
  {
    if order != [] {
      AllTypes(g, order[..|order| - 1], types);
      assert order == order[..|order| - 1] + [order[|order| - 1]];
    }
  }

  lemma ReverseTwice(s: seq<Name>)
    ensures Reverse(Reverse(s)) == s
  {
  }

  /** `getTransitiveDeps`: exactly the reached targets, each once, each one that does not stop
      the traversal before everything it depends on, and siblings the other way round. */
  method GetTransitiveDeps(g: Graph, target: Name, stop: set<Type>, allTypes: set<Type>, ghost topo: seq<Name>)
    returns (acc: seq<Name>)
    requires Resolved(g) && target in g && TopologicalOrder(g, topo)
    requires forall t | t in g :: g[t].ttype in allTypes
    ensures Lists(g, stop, target, acc)
    ensures forall i, d | 0 <= i < |acc| && acc[i] in g && g[acc[i]].ttype !in stop && d in g[acc[i]].tdeps :: d in acc[i + 1..]
    ensures SiblingsAs(g, stop, g[target].tdeps, Reverse(acc))
  {
    hide Reached, Sorted, NoRepeats, OfTypes, TopologicalOrder, SiblingsAs, Reverse;
    acc := TraverseDeps(g, target, stop, allTypes, false, topo);
    ghost var order, below :| Traversed(g, target, stop, allTypes, order, below) && acc == below + [];
    AllTypes(g, order, allTypes);
    assert acc == order;
    ReverseLists(g, stop, target, acc);
    ReverseTwice(acc);
    acc := Reverse(acc);
  }

  lemma ReverseLists(g: Graph, stop: set<Type>, start: Name, s: seq<Name>)
    requires Lists(g, stop, start, s) && Sorted(g, stop, s)
    ensures Lists(g, stop, start, Reverse(s))
    ensures var r := Reverse(s);
            forall i, d | 0 <= i < |r| && r[i] in g && g[r[i]].ttype !in stop && d in g[r[i]].tdeps :: d in r[i + 1..]
  {
    hide Reached;
    var r := Reverse(s);
    forall t ensures t in r <==> t in s {
      if t in s {
        var j :| 0 <= j < |s| && s[j] == t;
        assert r[|s| - 1 - j] == t;
      }
    }
    forall i, d | 0 <= i < |r| && r[i] in g && g[r[i]].ttype !in stop && d in g[r[i]].tdeps ensures d in r[i + 1..] {
      var j := |s| - 1 - i;
      assert DepsIn(g, stop, s[j], s[..j]);
      var k :| 0 <= k < j && s[k] == d;
      assert r[|s| - 1 - k] == d;
      assert r[i + 1..][|s| - 1 - k - (i + 1)] == d;
    }
  }
}
