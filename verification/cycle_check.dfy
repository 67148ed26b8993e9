/** `findCircularDep` of the Makefile generator, and the loop that runs it over all targets. */
module CycleCheck {
  import opened BuildGraph

  /** The set and the list that the recursion shares and updates. */
  class CircularDepFinder {
    const targets: Graph
    var remain: set<Name>
    var chain: seq<Name>
    ghost var finished: seq<Name>  // targets whose call has returned, in that order

    ghost predicate Valid()
      reads this
    {
      && Resolved(targets) && remain <= targets.Keys
      && (forall t | t in chain :: t in targets)
      && (chain != [] ==> Path(targets, chain))
      && DepsFirst(targets, finished)
      && (forall t | t in finished :: t in targets)
      && (forall t | t in targets :: t in remain || t in chain || t in finished)
    }

    /** `target` may be visited next: it is where the chain leads. */
    ghost predicate MayVisit(target: Name)
      reads this
    {
      target in targets && (chain != [] ==> DependsOn(targets, chain[|chain| - 1], target))
    }

    constructor (targets: Graph)
      requires Resolved(targets)
      ensures Valid() && this.targets == targets && chain == [] && remain == targets.Keys && finished == []
    {
      this.targets := targets;
      remain, chain, finished := targets.Keys, [], [];
    }

    /** Raises the exception, leaving the circular chain behind, or returns with the chain as
        it was and `target` finished. */
    method FindCircularDep(target: Name) returns (raised: bool)
      requires Valid() && MayVisit(target)
      modifies this
      ensures raised ==> exists i | 0 <= i < |chain| :: Cycle(targets, chain[i..])
      ensures !raised ==> Valid() && chain == old(chain) && target in finished
      ensures remain <= old(remain) && (!raised ==> target !in remain)
      ensures old(finished) <= finished
      decreases remain, 0
    {
      hide DepsFirst, Path, Cycle;
      var found := target in chain;
      ghost var before := chain;
      chain := chain + [target];
      ChainGrows(targets, before, target);
      if found {
        ghost var i :| 0 <= i < |before| && before[i] == target;
        ReturnIsCycle(targets, chain, i);
        return true;
      }
      if target !in remain {
        chain := chain[..|chain| - 1];
        return false;
      }
      remain := remain - {target};
      raised := CheckDeps(target);
      if !raised {
        FinishedInOrder(targets, finished, target);
        chain := chain[..|chain| - 1];
        finished := finished + [target];
      }
    }

    /** The loop over the dependencies of the last target of the chain. */
    method CheckDeps(target: Name) returns (raised: bool)
      requires Valid() && target in targets && chain != [] && chain[|chain| - 1] == target
      modifies this
      ensures raised ==> exists i | 0 <= i < |chain| :: Cycle(targets, chain[i..])
      ensures !raised ==> Valid() && chain == old(chain)
      ensures !raised ==> forall j | 0 <= j < |targets[target].tdeps| :: targets[target].tdeps[j] in finished
      ensures remain <= old(remain) && old(finished) <= finished
      decreases remain, 1
    {
      hide DepsFirst, Path, Cycle;
      var tdeps := targets[target].tdeps;
      for k := 0 to |tdeps|
        invariant Valid() && chain == old(chain) && remain <= old(remain) && old(finished) <= finished
        invariant forall j | 0 <= j < k :: tdeps[j] in finished
      {
        assert DependsOn(targets, target, tdeps[k]);
        raised := FindCircularDep(tdeps[k]);
        if raised {
          return;
        }
      }
      raised := false;
    }

    /** The driver loop: any target that remains is searched from, with an empty chain. The
        exception comes exactly when the graph has a cycle; otherwise the targets can be
        listed so that each comes after all it depends on. */
    method CheckAll() returns (raised: bool)
      requires Valid() && chain == []
      modifies this
      ensures raised <==> HasCycle(targets)
      ensures !raised ==> TopologicalOrder(targets, finished)
    {
      while remain != {}
        invariant Valid() && chain == []
        decreases remain
      {
        var t :| t in remain;
        raised := FindCircularDep(t);
        if raised {
          return;
        }
      }
      OrderedMeansAcyclic(targets, finished);
      raised := false;
    }
  }

  lemma ChainGrows(g: Graph, chain: seq<Name>, t: Name)
    requires chain != [] ==> Path(g, chain) && DependsOn(g, chain[|chain| - 1], t)
    ensures Path(g, chain + [t])
  {
    if chain != [] {
      PathExtends(g, chain, t);
    }
  }

  lemma FinishedInOrder(g: Graph, order: seq<Name>, t: Name)
    requires DepsFirst(g, order) && t in g && forall j | 0 <= j < |g[t].tdeps| :: g[t].tdeps[j] in order
    ensures DepsFirst(g, order + [t])
  {
    var o := order + [t];
    forall i, d | 0 <= i < |o| && o[i] in g && d in g[o[i]].tdeps ensures d in o[..i] {
      if i < |order| {
        assert o[..i] == order[..i];
      } else {
        assert o[..i] == order;
      }
    }
  }
}
