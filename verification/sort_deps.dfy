/** `sortDeps` of the Makefile generator, on graphs that the cycle check has accepted: what it
    lists, in which order, and when that is what its remarks and parameters promise. */
module SortingDeps {
  import opened BuildGraph
  import opened CycleCheck
  import opened Traversal

  // ---------------------------------------------------------------- through which a target is found

  /** `t` is among the dependencies that a visit to `p` looks at. */
  predicate LooksAt(g: Graph, stop: set<Type>, p: Name, t: Name) {
    DependsOn(g, p, t) && g[p].ttype !in stop
  }

  /** `t` can be found through `p` in a traversal from `start` that visits `order`. */
  predicate CanFind(g: Graph, start: Name, stop: set<Type>, order: seq<Name>, p: Name, t: Name) {
    LooksAt(g, stop, p, t) && (p == start || p in order)
  }

  /** The target through which each one in `order` was found is one of those that can. */
  ghost predicate FoundThrough(g: Graph, start: Name, stop: set<Type>, order: seq<Name>, via: map<Name, Name>) {
    forall t | t in order :: t in g && t in via && CanFind(g, start, stop, order, via[t], t)
  }

  /** The targets that were found through one of an included type. */
  function KeptVia(g: Graph, order: seq<Name>, via: map<Name, Name>, types: set<Type>): seq<Name>
    requires forall t | t in order :: t in via && via[t] in g
  {
    if order == [] then []
    else
      var last := order[|order| - 1];
      KeptVia(g, order[..|order| - 1], via, types) + (if g[via[last]].ttype in types then [last] else [])
  }

  lemma {:induction false} KeptMembers(g: Graph, order: seq<Name>, via: map<Name, Name>, types: set<Type>, t: Name)
    requires forall t | t in order :: t in via && via[t] in g
    ensures t in KeptVia(g, order, via, types) <==> t in order && g[via[t]].ttype in types
  {
    if order != [] {
      KeptMembers(g, order[..|order| - 1], via, types, t);
    }
  }

  lemma {:induction false} AllKept(g: Graph, order: seq<Name>, via: map<Name, Name>, types: set<Type>)
    requires forall t | t in order :: t in via && via[t] in g
    requires forall t | t in g :: g[t].ttype in types
    ensures KeptVia(g, order, via, types) == order
  {
    if order != [] {
      AllKept(g, order[..|order| - 1], via, types);
      assert order == order[..|order| - 1] + [order[|order| - 1]];
    }
  }

  lemma {:induction false} KeptIgnoresOthers(g: Graph, order: seq<Name>, via: map<Name, Name>, t: Name, p: Name, types: set<Type>)
    requires forall t | t in order :: t in via && via[t] in g
    requires t !in order && p in g
    ensures KeptVia(g, order, via[t := p], types) == KeptVia(g, order, via, types)
  {
    if order != [] {
      KeptIgnoresOthers(g, order[..|order| - 1], via, t, p, types);
    }
  }

  lemma KeptNext(g: Graph, order: seq<Name>, via: map<Name, Name>, t: Name, p: Name, types: set<Type>)
    requires forall t | t in order :: t in via && via[t] in g
    requires t !in order && p in g
    ensures forall u | u in order + [t] :: u in via[t := p] && via[t := p][u] in g
    ensures KeptVia(g, order + [t], via[t := p], types)
         == KeptVia(g, order, via, types) + (if g[p].ttype in types then [t] else [])
  {
    KeptIgnoresOthers(g, order, via, t, p, types);
    assert (order + [t])[..|order|] == order;
  }

  /** A path that goes on to the dependency declared last every time. */
  ghost predicate LastDepPath(g: Graph, stop: set<Type>, start: Name, p: seq<Name>) {
    && p != [] && p[0] == start
    && forall i | 0 <= i < |p| - 1 :: p[i] in g && g[p[i]].ttype !in stop && g[p[i]].tdeps != []
         && p[i + 1] == g[p[i]].tdeps[|g[p[i]].tdeps| - 1]
  }

  /** Along such a path each target is found through the one before. */
  ghost predicate FollowsLast(g: Graph, stop: set<Type>, start: Name, order: seq<Name>, via: map<Name, Name>) {
    forall p | LastDepPath(g, stop, start, p) :: FoundAlong(order, via, p)
  }

  ghost predicate FoundAlong(order: seq<Name>, via: map<Name, Name>, p: seq<Name>) {
    forall i | 0 < i < |p| :: p[i] in order && p[i] in via && via[p[i]] == p[i - 1]
  }

  ghost predicate ViaKept(order: seq<Name>, via: map<Name, Name>, via': map<Name, Name>) {
    forall t | t in order :: t in via && t in via' && via'[t] == via[t]
  }

  lemma FollowsGrows(g: Graph, stop: set<Type>, start: Name, order: seq<Name>, via: map<Name, Name>, order': seq<Name>, via': map<Name, Name>)
    requires FollowsLast(g, stop, start, order, via) && ViaKept(order, via, via') && order <= order'
    ensures FollowsLast(g, stop, start, order', via')
  {
    hide LastDepPath;
    forall p | LastDepPath(g, stop, start, p) ensures FoundAlong(order', via', p) {
      assert FoundAlong(order, via, p);
    }
  }

  lemma FollowsNext(g: Graph, stop: set<Type>, a: Name, d: Name, order: seq<Name>, via: map<Name, Name>)
    requires a in g && g[a].tdeps != [] && d == g[a].tdeps[|g[a].tdeps| - 1]
    requires FollowsLast(g, stop, d, order, via) && d in order && d in via && via[d] == a
    ensures FollowsLast(g, stop, a, order, via)
  {
    forall p | LastDepPath(g, stop, a, p) ensures FoundAlong(order, via, p) {
      if |p| >= 2 {
        assert p[0] == a && p[0 + 1] == d;
        forall i | 0 <= i < |p[1..]| - 1
          ensures var q := p[1..]; q[i] in g && g[q[i]].ttype !in stop && g[q[i]].tdeps != [] && q[i + 1] == g[q[i]].tdeps[|g[q[i]].tdeps| - 1]
        {
          assert p[1..][i] == p[i + 1];
        }
        assert LastDepPath(g, stop, d, p[1..]);
        assert FoundAlong(order, via, p[1..]);
        forall i | 0 < i < |p| ensures p[i] in order && p[i] in via && via[p[i]] == p[i - 1] {
          if i > 1 { assert p[1..][i - 1] == p[i] && p[1..][i - 2] == p[i - 1]; }
        }
      }
    }
  }

  lemma FollowsNothing(g: Graph, stop: set<Type>, a: Name, order: seq<Name>, via: map<Name, Name>)
    requires a in g ==> g[a].ttype in stop || g[a].tdeps == []
    ensures FollowsLast(g, stop, a, order, via)
  {
    forall p | |p| >= 2 && p[0] == a ensures !LastDepPath(g, stop, a, p) {
      assert !(p[0] in g && g[p[0]].ttype !in stop && g[p[0]].tdeps != []);
    }
  }

  // ---------------------------------------------------------------- the recursion

  /** The state `sortDepsRec` shares. A dependency is listed or not by the type of the
      target through which it was found. */
  class Sorter {
    const targets: Graph
    const stop: set<Type>
    const includeTypes: set<Type>
    var visited: set<Name>
    var result: seq<Name>
    ghost var left: seq<Name>       // targets whose visit is over, listed or not, in order
    ghost var via: map<Name, Name>  // the target through which each was found

    ghost predicate Valid()
      reads this
    {
      && Resolved(targets)
      && (forall t | t in left :: t in targets && t in visited)
      && (forall t | t in left :: t in via && LooksAt(targets, stop, via[t], t))
      && result == KeptVia(targets, left, via, includeTypes)
      && Sorted(targets, stop, left) && NoRepeats(left)
    }

    ghost predicate OpenRankAbove(topo: seq<Name>, target: Name)
      reads this
    {
      forall t | t in visited && t !in left :: Rank(topo, t) >= Rank(topo, target)
    }

    /** Everything visited, and everything through which something was found, belongs to the
        traversal from `start`. */
    ghost predicate AllReached(start: Name)
      reads this
    {
      && (forall t | t in visited :: Reached(targets, stop, start, t))
      && (forall t | t in left && t in via :: via[t] == start || via[t] in visited)
    }

    constructor (targets: Graph, stop: set<Type>, includeTypes: set<Type>)
      requires Resolved(targets)
      ensures Valid() && visited == {} && result == [] && left == []
      ensures this.targets == targets && this.stop == stop && this.includeTypes == includeTypes
    {
      this.targets, this.stop, this.includeTypes := targets, stop, includeTypes;
      visited, result, left, via := {}, [], [], map[];
    }

    lemma DependenciesAreDefined()
      requires Valid()
      ensures Resolved(targets)
    {
    }

    method Rec(target: Name, ghost start: Name, ghost topo: seq<Name>)
      requires Valid() && target in targets && TopologicalOrder(targets, topo)
      requires OpenRankAbove(topo, target) && AllReached(start)
      requires target == start || (target in visited && Reached(targets, stop, start, target))
      modifies this
      ensures Valid() && AllReached(start)
      ensures old(left) <= left && old(visited) <= visited && DepsIn(targets, stop, target, left)
      ensures targets[target].ttype in stop ==> left == old(left)
      ensures forall t :: t in visited && t !in left <==> t in old(visited) && t !in old(left)
      ensures forall t | t in left && t !in old(left) :: Reached(targets, stop, target, t)
      ensures old(left) == [] && targets[target].ttype !in stop ==>
                SiblingsSoFar(targets, stop, Reverse(targets[target].tdeps), |targets[target].tdeps|, left)
      ensures ViaKept(old(left), old(via), via) && (old(left) == [] ==> FollowsLast(targets, stop, target, left, via))
      decreases Rank(topo, target), 0
    {
      hide Valid, AllReached, Rank, Reached, DepsFirst, SiblingsSoFar, From, Reverse, ViaKept, FollowsLast;
      DependenciesAreDefined();
      KeptAtFirst();
      FollowsNone(target);
      if targets[target].ttype !in stop {
        var tdeps := targets[target].tdeps;
        ghost var backwards := Reverse(tdeps);
        NoSiblingsYet(targets, stop, backwards);
        for k := |tdeps| downto 0
          invariant Valid() && AllReached(start) && old(left) <= left && old(visited) <= visited
          invariant forall t :: t in visited && t !in left <==> t in old(visited) && t !in old(left)
          invariant forall j | k <= j < |tdeps| :: tdeps[j] in left
          invariant forall t | t in left && t !in old(left) :: Reached(targets, stop, target, t)
          invariant old(left) == [] ==> SiblingsSoFar(targets, stop, backwards, |tdeps| - k, left)
          invariant ViaKept(old(left), old(via), via) && (k == |tdeps| ==> left == old(left) && via == old(via))
          invariant old(left) == [] && k < |tdeps| ==> FollowsLast(targets, stop, target, left, via)
        {
          var currDep := tdeps[k];
          ghost var before, viaBefore := left, via;
          assert DependsOn(targets, target, currDep);
          DependencyRanksLower(targets, topo, target, currDep);
          ReachedNext(targets, stop, start, target, currDep);
          Visit(target, currDep, start, topo);
          assert backwards[|tdeps| - 1 - k] == currDep;
          NextDependency(targets, stop, target, backwards, |tdeps| - 1 - k, old(left) == [], before, left);
          StillKept(old(left), old(via), before, viaBefore, left, via);
          if old(left) == [] {
            if k == |tdeps| - 1 {
              FollowsNext(targets, stop, target, currDep, left, via);
            } else {
              FollowsGrows(targets, stop, target, before, viaBefore, left, via);
            }
          }
        }
      }
    }

    lemma KeptAtFirst()
      requires Valid()
      ensures ViaKept(left, via, via)
    {
    }

    lemma FollowsNone(target: Name)
      requires target in targets
      ensures targets[target].ttype in stop || targets[target].tdeps == [] ==> FollowsLast(targets, stop, target, left, via)
    {
      if targets[target].ttype in stop || targets[target].tdeps == [] {
        FollowsNothing(targets, stop, target, left, via);
      }
    }

    /** What the loop over the dependencies of `target` does with one of them. */
    method Visit(target: Name, currDep: Name, ghost start: Name, ghost topo: seq<Name>)
      requires Valid() && target in targets && currDep in targets && TopologicalOrder(targets, topo)
      requires OpenRankAbove(topo, currDep) && AllReached(start)
      requires LooksAt(targets, stop, target, currDep) && (target == start || target in visited)
      requires Reached(targets, stop, start, currDep) && (currDep in visited ==> currDep in left)
      modifies this
      ensures Valid() && AllReached(start)
      ensures old(left) <= left && old(visited) <= visited && currDep in left
      ensures forall t | t in left && t !in old(left) :: From(targets, stop, currDep, t)
      ensures ViaKept(old(left), old(via), via)
      ensures old(left) == [] && currDep !in old(visited) ==>
                FollowsLast(targets, stop, currDep, left, via) && currDep in via && via[currDep] == target
      ensures forall t :: t in visited && t !in left <==> t in old(visited) && t !in old(left)
      decreases Rank(topo, currDep), 1
    {
      hide Reached, Sorted, NoRepeats, DepsIn, From, Rank, DepsFirst, KeptVia, SiblingsSoFar, Reverse, FollowsLast;
      if currDep !in visited {
        ghost var before := left;
        visited := visited + {currDep};
        Rec(currDep, start, topo);
        LeftLast(targets, stop, before, left, currDep);
        ghost var mid, viaMid := left, via;
        Leave(target, currDep);
        if before == [] {
          FollowsGrows(targets, stop, currDep, mid, viaMid, left, via);
        }
      }
    }

    method Leave(target: Name, currDep: Name)
      requires Valid() && LooksAt(targets, stop, target, currDep) && currDep in visited && currDep !in left
      requires Sorted(targets, stop, left + [currDep]) && NoRepeats(left + [currDep])
      modifies this`left, this`via, this`result
      ensures Valid() && left == old(left) + [currDep] && via == old(via)[currDep := target]
    {
      hide Sorted, NoRepeats, KeptVia;
      KeptNext(targets, left, via, currDep, target, includeTypes);
      left, via := left + [currDep], via[currDep := target];
      if targets[target].ttype in includeTypes {
        result := result + [currDep];
      }
    }

    /** `sortDeps` up to the starting target itself. */
    method Sort(target: Name, ghost topo: seq<Name>)
      requires Valid() && target in targets && TopologicalOrder(targets, topo)
      requires visited == {} && left == []
      modifies this
      ensures Valid() && SortedBelow(targets, target, stop, includeTypes, left, via, result)
    {
      Rec(target, target, topo);
      hide Sorted, NoRepeats, DepsIn, Reached, SiblingsSoFar, KeptVia, FollowsLast, Reverse, TopologicalOrder;
      assert forall t :: t in visited <==> t in left;
      CompleteIsBelow(targets, target, stop, includeTypes, left, via);
    }
  }

  /** What is left when the recursion is over. */
  ghost predicate Complete(g: Graph, start: Name, stop: set<Type>, order: seq<Name>) {
    && start in g && Sorted(g, stop, order) && NoRepeats(order) && DepsIn(g, stop, start, order)
    && (g[start].ttype in stop ==> order == [])
    && (forall t | t in order :: t in g && Reached(g, stop, start, t))
    && (g[start].ttype !in stop ==> SiblingsSoFar(g, stop, Reverse(g[start].tdeps), |g[start].tdeps|, order))
  }

  lemma CompleteIsBelow(g: Graph, start: Name, stop: set<Type>, types: set<Type>, order: seq<Name>, via: map<Name, Name>)
    requires Resolved(g) && Complete(g, start, stop, order) && FollowsLast(g, stop, start, order, via)
    requires FoundThrough(g, start, stop, order, via)
    ensures SortedBelow(g, start, stop, types, order, via, KeptVia(g, order, via, types))
  {
    SortedListsAll(g, start, stop, order);
    AllSiblings(g, start, stop, order);
    hide Reached, Sorted, NoRepeats, DepsIn, SiblingsSoFar, SiblingsAs, KeptVia, FollowsLast, Reverse;
  }

  lemma StillKept(order0: seq<Name>, via0: map<Name, Name>, order1: seq<Name>, via1: map<Name, Name>, order2: seq<Name>, via2: map<Name, Name>)
    requires ViaKept(order0, via0, via1) && ViaKept(order1, via1, via2) && order0 <= order1
    ensures ViaKept(order0, via0, via2)
  {
  }

  // ---------------------------------------------------------------- the public function

  /** What `sortDeps` finds: the reached targets, each once, each after everything it depends
      on unless it stops the traversal, later siblings first, and the target through which
      each was found, which is the one before on a path of dependencies declared last; it lists
      those that were found through a target of an included type. */
  ghost predicate SortedBelow(g: Graph, start: Name, stop: set<Type>, types: set<Type>,
                              order: seq<Name>, via: map<Name, Name>, listed: seq<Name>)
  {
    && start in g && Sorted(g, stop, order) && NoRepeats(order)
    && (forall t :: t in order <==> g[start].ttype !in stop && Reached(g, stop, start, t))
    && SiblingsAs(g, stop, if g[start].ttype in stop then [] else Reverse(g[start].tdeps), order)
    && FoundThrough(g, start, stop, order, via) && FollowsLast(g, stop, start, order, via)
    && listed == KeptVia(g, order, via, types)
  }

  lemma AllSiblings(g: Graph, start: Name, stop: set<Type>, order: seq<Name>)
    requires start in g
    requires g[start].ttype !in stop ==> SiblingsSoFar(g, stop, Reverse(g[start].tdeps), |g[start].tdeps|, order)
    ensures SiblingsAs(g, stop, if g[start].ttype in stop then [] else Reverse(g[start].tdeps), order)
  {
  }

  /** `sortDeps`, for any types to be included. */
  method SortDeps(g: Graph, target: Name, incSelf: bool, stop: set<Type>, includeTypes: set<Type>, ghost topo: seq<Name>)
    returns (result: seq<Name>)
    requires Resolved(g) && target in g && TopologicalOrder(g, topo)
    ensures exists order, via, listed :: SortedBelow(g, target, stop, includeTypes, order, via, listed) &&
              result == listed + (if incSelf && g[target].ttype in includeTypes then [target] else [])
  {
    var s := new Sorter(g, stop, includeTypes);
    s.Sort(target, topo);
    hide SortedBelow;
    result := s.result;
    if incSelf && g[target].ttype in includeTypes {
      result := result + [target];
    }
  }

  /** With all types included, every target after everything it depends on. */
  method SortAllDeps(g: Graph, target: Name, incSelf: bool, stop: set<Type>, allTypes: set<Type>, ghost topo: seq<Name>)
    returns (result: seq<Name>)
    requires Resolved(g) && target in g && TopologicalOrder(g, topo)
    requires forall t | t in g :: g[t].ttype in allTypes
    ensures Sorted(g, stop, result) && NoRepeats(result)
    ensures forall t :: t in result <==>
              (incSelf && t == target) || (g[target].ttype !in stop && Reached(g, stop, target, t))
  {
    hide Reached, SortedBelow, SiblingsAs, Sorted, NoRepeats, DepsFirst, KeptVia;
    result := SortDeps(g, target, incSelf, stop, allTypes, topo);
    ghost var order, via, listed :| SortedBelow(g, target, stop, allTypes, order, via, listed) &&
      result == listed + (if incSelf then [target] else []);
    AllListed(g, target, stop, allTypes, topo, order, via, listed);
    assert !incSelf ==> result == order;
  }

  lemma AllListed(g: Graph, start: Name, stop: set<Type>, types: set<Type>, topo: seq<Name>,
                  order: seq<Name>, via: map<Name, Name>, listed: seq<Name>)
    requires SortedBelow(g, start, stop, types, order, via, listed) && TopologicalOrder(g, topo)
    requires forall t | t in g :: g[t].ttype in types
    ensures listed == order && Sorted(g, stop, order) && NoRepeats(order)
    ensures Sorted(g, stop, order + [start]) && NoRepeats(order + [start])
    ensures forall t :: t in order <==> g[start].ttype !in stop && Reached(g, stop, start, t)
    ensures forall t :: t in order + [start] <==> t in order || t == start
  {
    hide Reached, Sorted, DepsFirst, SiblingsAs;
    AllKept(g, order, via, types);
    StartIsNotReached(g, start, stop, topo);
    assert DepsIn(g, stop, start, order) by {
      if g[start].ttype !in stop {
        forall d | d in g[start].tdeps ensures d in order {
          ReachedDirectly(g, stop, start, d);
        }
      }
    }
    SortedAppend(g, stop, order, start);
  }

  // ---------------------------------------------------------------- listing by type

  lemma {:induction false} KeptIsFilter(g: Graph, order: seq<Name>, via: map<Name, Name>, types: set<Type>)
    requires forall t | t in order :: t in g && t in via && via[t] in g && (g[via[t]].ttype in types <==> g[t].ttype in types)
    ensures KeptVia(g, order, via, types) == OfTypes(g, order, types)
  {
    if order != [] {
      KeptIsFilter(g, order[..|order| - 1], via, types);
    }
  }

  lemma {:induction false} FilterMembers(g: Graph, order: seq<Name>, types: set<Type>, t: Name)
    requires forall u | u in order :: u in g
    ensures t in OfTypes(g, order, types) <==> t in order && g[t].ttype in types
  {
    if order != [] {
      FilterMembers(g, order[..|order| - 1], types, t);
    }
  }

  /** The name of the parameter says that only included types are listed. So it is, on every
      graph, if no dependency that is looked at leads from an included type to another, or
      back. */
  lemma FilterIsByType(g: Graph, start: Name, stop: set<Type>, types: set<Type>,
                       order: seq<Name>, via: map<Name, Name>, listed: seq<Name>)
    requires SortedBelow(g, start, stop, types, order, via, listed)
    requires forall p, t | t in order && CanFind(g, start, stop, order, p, t) :: g[p].ttype in types <==> g[t].ttype in types
    ensures listed == OfTypes(g, order, types)
  {
    hide Reached, Sorted, SiblingsAs, NoRepeats;
    KeptIsFilter(g, order, via, types);
  }

  // ---------------------------------------------------------------- which declarations make it wrong

  /** `h` is `g` with the dependencies of its targets declared in another order. */
  ghost predicate Redeclared(g: Graph, h: Graph) {
    && h.Keys == g.Keys
    && forall t | t in g :: t in h && h[t].ttype == g[t].ttype && multiset(h[t].tdeps) == multiset(g[t].tdeps)
  }

  lemma RedeclaredTwice(g: Graph, h: Graph, k: Graph)
    requires Redeclared(g, h) && Redeclared(h, k)
    ensures Redeclared(g, k)
  {
  }

  function Dropped(ds: seq<Name>, d: Name): seq<Name> {
    if ds == [] then [] else if ds[0] == d then ds[1..] else [ds[0]] + Dropped(ds[1..], d)
  }

  lemma {:induction false} DroppedCounts(ds: seq<Name>, d: Name)
    requires d in ds
    ensures multiset(Dropped(ds, d) + [d]) == multiset(ds)
  {
    assert ds == [ds[0]] + ds[1..];
    if ds[0] != d {
      DroppedCounts(ds[1..], d);
      assert Dropped(ds, d) + [d] == [ds[0]] + (Dropped(ds[1..], d) + [d]);
    }
  }

  /** The dependency `d` of `a` declared last. */
  function Postponed(g: Graph, a: Name, d: Name): Graph
    requires a in g
  {
    g[a := Target(g[a].ttype, Dropped(g[a].tdeps, d) + [d])]
  }

  lemma PostponedIsRedeclared(g: Graph, a: Name, d: Name)
    requires DependsOn(g, a, d)
    ensures Redeclared(g, Postponed(g, a, d))
  {
    hide Dropped;
    DroppedCounts(g[a].tdeps, d);
  }

  lemma RedeclaredDepends(g: Graph, h: Graph, a: Name, d: Name)
    requires Redeclared(g, h)
    ensures DependsOn(h, a, d) == DependsOn(g, a, d)
  {
    if a in g {
      assert d in multiset(h[a].tdeps) <==> d in multiset(g[a].tdeps);
    }
  }

  /** A path on which nothing stops the traversal but, maybe, its end. */
  ghost predicate OpenPath(g: Graph, stop: set<Type>, p: seq<Name>) {
    forall i | 0 <= i < |p| - 1 :: LooksAt(g, stop, p[i], p[i + 1])
  }

  /** A path that visits no target twice can be made one of dependencies declared last. */
  lemma {:induction false} PathPostponed(g: Graph, stop: set<Type>, start: Name, p: seq<Name>) returns (h: Graph)
    requires p != [] && OpenPath(g, stop, p) && p[0] == start && NoRepeats(p)
    ensures Redeclared(g, h) && LastDepPath(h, stop, start, p)
    ensures forall t | t in g && t !in p :: t in h && h[t] == g[t]
    decreases |p|
  {
    if |p| == 1 {
      h := g;
    } else {
      var q := p[1..];
      assert LooksAt(g, stop, p[0], p[0 + 1]);
      forall i | 0 <= i < |q| - 1 ensures LooksAt(g, stop, q[i], q[i + 1]) {
        assert LooksAt(g, stop, p[i + 1], p[i + 1 + 1]);
      }
      var k := PathPostponed(g, stop, p[1], q);
      RedeclaredDepends(g, k, p[0], p[1]);
      PostponedIsRedeclared(k, p[0], p[1]);
      h := Postponed(k, p[0], p[1]);
      RedeclaredTwice(g, k, h);
      StillLastDeps(k, h, stop, p);
    }
  }

  lemma StillLastDeps(k: Graph, h: Graph, stop: set<Type>, p: seq<Name>)
    requires |p| >= 2 && NoRepeats(p) && p[0] in k && k[p[0]].ttype !in stop
    requires LastDepPath(k, stop, p[1], p[1..]) && h == Postponed(k, p[0], p[1])
    ensures LastDepPath(h, stop, p[0], p)
  {
    forall i | 0 <= i < |p| - 1
      ensures p[i] in h && h[p[i]].ttype !in stop && h[p[i]].tdeps != [] && p[i + 1] == h[p[i]].tdeps[|h[p[i]].tdeps| - 1]
    {
      if i > 0 {
        assert p[1..][i - 1] == p[i] && p[1..][i - 1 + 1] == p[i + 1] && p[i] != p[0];
      }
    }
  }

  lemma DependencyIsEarlier(g: Graph, stop: set<Type>, order: seq<Name>, a: Name, d: Name)
    requires Sorted(g, stop, order) && a in order && LooksAt(g, stop, a, d)
    ensures d in order && Rank(order, d) < Rank(order, a)
  {
    var r := Rank(order, a);
    assert DepsIn(g, stop, order[r], order[..r]);
    RankBelow(order, d, r);
  }

  /** In what is listed, ranks fall along such a path; so it never comes back. */
  lemma {:induction false} RanksFall(g: Graph, stop: set<Type>, order: seq<Name>, p: seq<Name>, i: nat, j: nat)
    requires Sorted(g, stop, order) && OpenPath(g, stop, p) && i < j < |p| && p[i] in order
    ensures p[j] in order && Rank(order, p[j]) < Rank(order, p[i])
    decreases j
  {
    hide Sorted, Rank, LooksAt;
    if i < j - 1 {
      RanksFall(g, stop, order, p, i, j - 1);
    }
    assert LooksAt(g, stop, p[j - 1], p[j - 1 + 1]);
    DependencyIsEarlier(g, stop, order, p[j - 1], p[j]);
  }

  lemma NeverComesBack(g: Graph, stop: set<Type>, order: seq<Name>, w: seq<Name>)
    requires Sorted(g, stop, order) && OpenPath(g, stop, w) && |w| >= 2 && w[1] in order
    ensures NoRepeats(w)
  {
    hide Sorted, Rank, OpenPath;
    forall i, j | 0 <= i < j < |w| ensures w[i] != w[j] {
      if i > 0 || w[0] in order {
        if i > 1 { RanksFall(g, stop, order, w, 1, i); }
        RanksFall(g, stop, order, w, i, j);
      } else if j > 1 {
        RanksFall(g, stop, order, w, 1, j);
      }
    }
  }

  /** A path from the start to a target reached and on to one of its dependencies. */
  lemma PathThrough(g: Graph, start: Name, stop: set<Type>, p: Name, t: Name) returns (w: seq<Name>)
    requires start in g && g[start].ttype !in stop && LooksAt(g, stop, p, t) && (p == start || Reached(g, stop, start, p))
    ensures |w| >= 2 && w[0] == start && w[|w| - 2] == p && w[|w| - 1] == t && OpenPath(g, stop, w)
  {
    if p == start {
      w := [start, t];
    } else {
      var q :| Walk(g, stop, start, q) && q[|q| - 1] == p;
      w := q + [t];
      forall i | 0 <= i < |w| - 1 ensures LooksAt(g, stop, w[i], w[i + 1]) {
        if i < |q| - 1 { assert DependsOn(g, q[i], q[i + 1]); }
        if 0 < i < |q| - 1 { assert q[i] in g && g[q[i]].ttype !in stop; }
      }
    }
  }

  lemma PathToEdge(g: Graph, start: Name, stop: set<Type>, types: set<Type>,
                   order: seq<Name>, via: map<Name, Name>, listed: seq<Name>, p: Name, t: Name) returns (w: seq<Name>)
    requires SortedBelow(g, start, stop, types, order, via, listed)
    requires t in order && CanFind(g, start, stop, order, p, t)
    ensures |w| >= 2 && w[0] == start && w[|w| - 2] == p && w[|w| - 1] == t && OpenPath(g, stop, w) && NoRepeats(w)
  {
    hide Reached, Sorted, NoRepeats, SiblingsAs, FollowsLast, KeptVia, FoundThrough;
    w := PathThrough(g, start, stop, p, t);
    assert LooksAt(g, stop, w[0], w[0 + 1]);
    ReachedDirectly(g, stop, start, w[1]);
    NeverComesBack(g, stop, order, w);
  }

  /** A dependency from an included type to another, or back, makes every list wrong once the
      dependencies are declared in a certain order. */
  lemma MixedEdgeMisleads(g: Graph, start: Name, stop: set<Type>, types: set<Type>,
                          order: seq<Name>, via: map<Name, Name>, listed: seq<Name>, p: Name, t: Name) returns (h: Graph)
    requires SortedBelow(g, start, stop, types, order, via, listed)
    requires t in order && CanFind(g, start, stop, order, p, t) && !(g[p].ttype in types <==> g[t].ttype in types)
    ensures Redeclared(g, h) && NeverByType(h, start, stop, types)
  {
    var w := PathToEdge(g, start, stop, types, order, via, listed, p, t);
    h := PathPostponed(g, stop, start, w);
    hide SortedBelow;
    forall o, v, l | SortedBelow(h, start, stop, types, o, v, l) ensures !ByType(h, types, o, l) {
      FoundThere(h, start, stop, types, o, v, l, w);
    }
  }

  ghost predicate ByType(g: Graph, types: set<Type>, order: seq<Name>, listed: seq<Name>) {
    (forall t | t in order :: t in g) && listed == OfTypes(g, order, types)
  }

  /** Whatever is listed, it is not the targets of included types. */
  ghost predicate NeverByType(g: Graph, start: Name, stop: set<Type>, types: set<Type>) {
    forall o, v, l | SortedBelow(g, start, stop, types, o, v, l) :: !ByType(g, types, o, l)
  }

  lemma FoundThere(h: Graph, start: Name, stop: set<Type>, types: set<Type>,
                   o: seq<Name>, v: map<Name, Name>, l: seq<Name>, w: seq<Name>)
    requires SortedBelow(h, start, stop, types, o, v, l) && LastDepPath(h, stop, start, w) && |w| >= 2
    requires w[|w| - 1] in h && w[|w| - 2] in h
    requires !(h[w[|w| - 2]].ttype in types <==> h[w[|w| - 1]].ttype in types)
    ensures !ByType(h, types, o, l)
  {
    hide Reached, Sorted, SiblingsAs, NoRepeats, OfTypes, KeptVia, LastDepPath;
    var t := w[|w| - 1];
    assert FoundAlong(o, v, w);
    KeptMembers(h, o, v, types, t);
    FilterMembers(h, o, types, t);
  }

  /** No dependency that can be found leads from an included type to another, or back. */
  ghost predicate TypesAgree(g: Graph, start: Name, stop: set<Type>, types: set<Type>, order: seq<Name>) {
    forall p, t | t in order && CanFind(g, start, stop, order, p, t) :: t in g && (g[p].ttype in types <==> g[t].ttype in types)
  }

  /** All that can find one target agree on being included. */
  ghost predicate FindersAgree(g: Graph, start: Name, stop: set<Type>, types: set<Type>, order: seq<Name>) {
    forall p, q, t | t in order && CanFind(g, start, stop, order, p, t) && CanFind(g, start, stop, order, q, t) ::
      g[p].ttype in types <==> g[q].ttype in types
  }

  /** Exactly when: if types agree the list is right; if they do not, it is wrong under some
      order of declarations, and under the given one if those that can find one target agree. */
  lemma FilterIsByTypeIff(g: Graph, start: Name, stop: set<Type>, types: set<Type>,
                          order: seq<Name>, via: map<Name, Name>, listed: seq<Name>)
    requires SortedBelow(g, start, stop, types, order, via, listed)
    ensures TypesAgree(g, start, stop, types, order) ==> ByType(g, types, order, listed)
    ensures !TypesAgree(g, start, stop, types, order) ==> exists h :: Redeclared(g, h) && NeverByType(h, start, stop, types)
    ensures FindersAgree(g, start, stop, types, order) ==>
              (ByType(g, types, order, listed) <==> TypesAgree(g, start, stop, types, order))
  {
    InListAreDefined(g, start, stop, types, order, via, listed);
    hide SortedBelow, NeverByType, Redeclared, OfTypes;
    if TypesAgree(g, start, stop, types, order) {
      FilterIsByType(g, start, stop, types, order, via, listed);
    } else {
      var p, t :| t in order && CanFind(g, start, stop, order, p, t) && !(g[p].ttype in types <==> g[t].ttype in types);
      var h := MixedEdgeMisleads(g, start, stop, types, order, via, listed, p, t);
    }
    if FindersAgree(g, start, stop, types, order) && ByType(g, types, order, listed) {
      AgreeingFinders(g, start, stop, types, order, via, listed);
    }
  }

  lemma InListAreDefined(g: Graph, start: Name, stop: set<Type>, types: set<Type>,
                         order: seq<Name>, via: map<Name, Name>, listed: seq<Name>)
    requires SortedBelow(g, start, stop, types, order, via, listed)
    ensures forall t | t in order :: t in g
  {
    hide Reached, Sorted, SiblingsAs, NoRepeats, KeptVia, FollowsLast;
  }

  lemma AgreeingFinders(g: Graph, start: Name, stop: set<Type>, types: set<Type>,
                        order: seq<Name>, via: map<Name, Name>, listed: seq<Name>)
    requires SortedBelow(g, start, stop, types, order, via, listed)
    requires FindersAgree(g, start, stop, types, order) && ByType(g, types, order, listed)
    ensures TypesAgree(g, start, stop, types, order)
  {
    hide Reached, Sorted, SiblingsAs, NoRepeats, OfTypes, KeptVia, FollowsLast;
    forall t | t in order ensures g[via[t]].ttype in types <==> g[t].ttype in types {
      KeptMembers(g, order, via, types, t);
      FilterMembers(g, order, types, t);
    }
  }

  /** A library that needs a tool. */
  function ToolGraph(): Graph {
    map["lib" := Target("cpp_lib", ["tool"]), "tool" := Target("binary", [])]
  }

  lemma ToolGraphEdges()
    ensures "lib" in ToolGraph() && ToolGraph()["lib"].ttype == "cpp_lib" && DependsOn(ToolGraph(), "lib", "tool")
    ensures "tool" in ToolGraph() && ToolGraph()["tool"].ttype != "cpp_lib"
    ensures forall p :: DependsOn(ToolGraph(), p, "tool") ==> p == "lib"
  {
  }

  /** It lists the tool among its libraries. */
  lemma ToolAmongLibraries(order: seq<Name>, via: map<Name, Name>, listed: seq<Name>)
    requires SortedBelow(ToolGraph(), "lib", {}, {"cpp_lib"}, order, via, listed)
    ensures "tool" in listed && "tool" in ToolGraph() && ToolGraph()["tool"].ttype !in {"cpp_lib"}
  {
    hide ToolGraph, Reached, Sorted, SiblingsAs, NoRepeats, KeptVia, DependsOn;
    ToolGraphEdges();
    ReachedDirectly(ToolGraph(), {}, "lib", "tool");
    KeptMembers(ToolGraph(), order, via, {"cpp_lib"}, "tool");
  }

  // ---------------------------------------------------------------- the order of siblings

  /** A target with two dependencies that need nothing. */
  function PairGraph(): Graph {
    map["a" := Target("t", ["b", "c"]), "b" := Target("t", []), "c" := Target("t", [])]
  }

  lemma PairGraphEdges()
    ensures "a" in PairGraph() && PairGraph()["a"].tdeps == ["b", "c"] && PairGraph()["a"].ttype == "t"
    ensures "b" in PairGraph() && "c" in PairGraph()
    ensures forall p, t :: DependsOn(PairGraph(), p, t) ==> p == "a"
  {
  }

  lemma LeafLeadsNowhere(g: Graph, stop: set<Type>, d: Name, t: Name)
    requires forall u :: !DependsOn(g, d, u)
    ensures From(g, stop, d, t) <==> t == d
  {
    forall p | |p| >= 2 && p[0] == d ensures !Walk(g, stop, d, p) {
      assert !DependsOn(g, p[0], p[1]);
    }
  }

  /** The remark says that siblings are kept in the order of their declaration; here they are
      listed the other way round. */
  lemma SiblingsComeBackwards(order: seq<Name>, via: map<Name, Name>, listed: seq<Name>)
    requires SortedBelow(PairGraph(), "a", {}, {"t"}, order, via, listed)
    ensures Rank(order, "c") < Rank(order, "b") < |order|
  {
    var g := PairGraph();
    hide PairGraph, DependsOn, Rank, Sorted, NoRepeats, From, KeptVia;
    PairGraphEdges();
    var ds := Reverse(g["a"].tdeps);
    assert ds[0] == "c" && ds[1] == "b";
    assert DependsOn(g, "a", "b") by { BothDepend(); }
    ReachedDirectly(g, {}, "a", "b");
    assert "b" in order;
    LeafLeadsNowhere(g, {}, "c", "b");
    assert !FromFirst(g, {}, ds, 1, "b");
    assert InTurn(g, {}, ds, order, 0, 1);
  }

  lemma BothDepend()
    ensures DependsOn(PairGraph(), "a", "b") && DependsOn(PairGraph(), "a", "c")
  {
  }

  /** Exactly when the declared order is kept: of two dependencies the one declared first is
      listed first if and only if the other leads to it, unless one declared still later leads to
      it and has settled the matter. */
  lemma DeclaredOrderIff(g: Graph, start: Name, stop: set<Type>, types: set<Type>,
                         order: seq<Name>, via: map<Name, Name>, listed: seq<Name>, i: nat, j: nat)
    requires SortedBelow(g, start, stop, types, order, via, listed) && g[start].ttype !in stop
    requires i < j < |g[start].tdeps| && g[start].tdeps[i] != g[start].tdeps[j]
    requires !FromLater(g, stop, g[start].tdeps, j + 1, g[start].tdeps[i])
    ensures Rank(order, g[start].tdeps[i]) < Rank(order, g[start].tdeps[j]) <==> From(g, stop, g[start].tdeps[j], g[start].tdeps[i])
  {
    hide SortedBelow;
    BelowTheStart(g, start, stop, types, order, via, listed, j);
    var deps := g[start].tdeps;
    var n, ds := |deps|, Reverse(deps);
    LaterIsFirst(g, stop, deps, j + 1, deps[i]);
    assert ds[n - 1 - j] == deps[j] && ds[n - 1 - i] == deps[i];
    hide From, FromFirst, FromLater, Rank, Sorted, SiblingsAs, Reverse;
    SiblingsSwapIff(g, stop, ds, order, n - 1 - j, n - 1 - i);
  }

  lemma BelowTheStart(g: Graph, start: Name, stop: set<Type>, types: set<Type>,
                      order: seq<Name>, via: map<Name, Name>, listed: seq<Name>, j: nat)
    requires SortedBelow(g, start, stop, types, order, via, listed) && g[start].ttype !in stop && j < |g[start].tdeps|
    ensures start in g && Sorted(g, stop, order) && SiblingsAs(g, stop, Reverse(g[start].tdeps), order) && g[start].tdeps[j] in order
  {
    hide Sorted, SiblingsAs, NoRepeats, KeptVia;
    ReachedDirectly(g, stop, start, g[start].tdeps[j]);
  }

  /** `t` is, or is led to by, one of the dependencies from the `j`-th on. */
  ghost predicate FromLater(g: Graph, stop: set<Type>, deps: seq<Name>, j: nat, t: Name) {
    exists k | j <= k < |deps| :: From(g, stop, deps[k], t)
  }

  lemma LaterIsFirst(g: Graph, stop: set<Type>, deps: seq<Name>, j: nat, t: Name)
    requires j <= |deps|
    ensures FromLater(g, stop, deps, j, t) <==> FromFirst(g, stop, Reverse(deps), |deps| - j, t)
  {
    hide From, Reverse;
    if FromLater(g, stop, deps, j, t) {
      hide FromFirst;
      var k :| j <= k < |deps| && From(g, stop, deps[k], t);
      FromThere(g, stop, Reverse(deps), |deps| - j, |deps| - 1 - k, t);
    }
    if FromFirst(g, stop, Reverse(deps), |deps| - j, t) {
      var k :| 0 <= k < |deps| - j && k < |Reverse(deps)| && From(g, stop, Reverse(deps)[k], t);
      assert deps[|deps| - 1 - k] == Reverse(deps)[k];
    }
  }

  lemma FromThere(g: Graph, stop: set<Type>, ds: seq<Name>, m: int, k: nat, t: Name)
    requires k < m && k < |ds| && From(g, stop, ds[k], t)
    ensures FromFirst(g, stop, ds, m, t)
  {
    hide From;
  }

  // ---------------------------------------------------------------- check and traversals together

  /** The generator as it runs: first the check, then the traversals. Nothing is asked of the
      graph but that its names are defined; either it has a cycle and the check raises, or
      both orders are right. */
  method CheckThenSort(g: Graph, target: Name, stop: set<Type>, allTypes: set<Type>)
    returns (raised: bool, below: seq<Name>, sorted: seq<Name>)
    requires Resolved(g) && target in g && forall t | t in g :: g[t].ttype in allTypes
    ensures raised <==> HasCycle(g)
    ensures !raised ==>
              && Lists(g, stop, target, below)
              && forall i, d | 0 <= i < |below| && below[i] in g && g[below[i]].ttype !in stop && d in g[below[i]].tdeps ::
                   d in below[i + 1..]
    ensures !raised ==>
              && NoRepeats(sorted) && DepsFirst(g, sorted)
              && forall t :: t in sorted <==> t == target || Reached(g, {}, target, t)
  {
    hide Reached, NoRepeats;
    below, sorted := [], [];
    var finder := new CircularDepFinder(g);
    raised := finder.CheckAll();
    if !raised {
      below := GetTransitiveDeps(g, target, stop, allTypes, finder.finished);
      sorted := SortAllDeps(g, target, true, {}, allTypes, finder.finished);
      SortedIsDepsFirst(g, sorted);
    }
  }

  lemma SortedIsDepsFirst(g: Graph, order: seq<Name>)
    requires Sorted(g, {}, order)
    ensures DepsFirst(g, order)
  {
    forall i, d | 0 <= i < |order| && order[i] in g && d in g[order[i]].tdeps ensures d in order[..i] {
      assert DepsIn(g, {}, order[i], order[..i]);
    }
  }

  lemma SortedListsAll(g: Graph, start: Name, stop: set<Type>, order: seq<Name>)
    requires Resolved(g) && start in g && Sorted(g, stop, order) && DepsIn(g, stop, start, order)
    ensures g[start].ttype !in stop ==> forall t | Reached(g, stop, start, t) :: t in order
  {
    if g[start].ttype !in stop {
      forall t | Reached(g, stop, start, t) ensures t in order {
        var p :| Walk(g, stop, start, p) && p[|p| - 1] == t;
        SortedIsComplete(g, stop, start, order, p);
      }
    }
  }

  lemma StartIsNotReached(g: Graph, start: Name, stop: set<Type>, topo: seq<Name>)
    requires TopologicalOrder(g, topo) && start in g
    ensures !Reached(g, stop, start, start)
  {
    OrderedMeansAcyclic(g, topo);
    if Reached(g, stop, start, start) {
      var p :| Walk(g, stop, start, p) && p[|p| - 1] == start;
      assert Cycle(g, p);
    }
  }
}
