/** The dependency graph of the build targets: paths, cycles, topological orders. */
module BuildGraph {

  type Name = string

  datatype Target = Target(ttype: string, tdeps: seq<Name>)

  type Graph = map<Name, Target>

  /** Every name a target depends on is defined; the reading of the BUILD files stops with an
      error otherwise. */
  ghost predicate Resolved(g: Graph) {
    forall t, d | t in g && d in g[t].tdeps :: d in g
  }

  predicate DependsOn(g: Graph, a: Name, b: Name) {
    a in g && b in g[a].tdeps
  }

  ghost predicate Path(g: Graph, p: seq<Name>) {
    p != [] && forall i | 0 <= i < |p| - 1 :: DependsOn(g, p[i], p[i + 1])
  }

  ghost predicate Cycle(g: Graph, p: seq<Name>) {
    |p| >= 2 && Path(g, p) && p[0] == p[|p| - 1]
  }

  ghost predicate HasCycle(g: Graph) {
    exists p :: Cycle(g, p)
  }

  /** Every target in the list comes after all it depends on. */
  ghost predicate DepsFirst(g: Graph, order: seq<Name>) {
    forall i, d | 0 <= i < |order| && order[i] in g && d in g[order[i]].tdeps :: d in order[..i]
  }

  ghost predicate TopologicalOrder(g: Graph, order: seq<Name>) {
    DepsFirst(g, order) && (forall t | t in g :: t in order) && (forall t | t in order :: t in g)
  }

  /** First position of `t`. */
  function Rank(order: seq<Name>, t: Name): (r: nat)
    ensures r <= |order| && (r < |order| ==> order[r] == t)
    ensures r < |order| <==> t in order
  {
    if order == [] || order[0] == t then 0 else 1 + Rank(order[1..], t)
  }

  lemma {:induction false} RankBelow(order: seq<Name>, t: Name, i: nat)
    requires i <= |order| && t in order[..i]
    ensures Rank(order, t) < i
  {
    if order[0] != t {
      assert order[..i] == [order[0]] + order[1..][..i - 1];
      RankBelow(order[1..], t, i - 1);
    }
  }

  lemma DependencyRanksLower(g: Graph, order: seq<Name>, a: Name, b: Name)
    requires DepsFirst(g, order) && a in order && DependsOn(g, a, b)
    ensures b in order && Rank(order, b) < Rank(order, a)
  {
    var i := Rank(order, a);
    assert b in order[..i];
    RankBelow(order, b, i);
  }

  lemma {:induction false} PathRanks(g: Graph, order: seq<Name>, p: seq<Name>)
    requires TopologicalOrder(g, order) && Path(g, p) && p[0] in order
    ensures p[|p| - 1] in order
    ensures |p| >= 2 ==> Rank(order, p[|p| - 1]) < Rank(order, p[0])
    decreases |p|
  {
    if |p| >= 2 {
      assert DependsOn(g, p[0], p[1]);
      DependencyRanksLower(g, order, p[0], p[1]);
      forall i | 0 <= i < |p[1..]| - 1 ensures DependsOn(g, p[1..][i], p[1..][i + 1]) {
        assert DependsOn(g, p[i + 1], p[i + 2]);
      }
      PathRanks(g, order, p[1..]);
    }
  }

  /** A graph with a topological order has no cycle. */
  lemma OrderedMeansAcyclic(g: Graph, order: seq<Name>)
    requires TopologicalOrder(g, order)
    ensures !HasCycle(g)
  {
    forall p | |p| >= 2 && Path(g, p) ensures p[0] != p[|p| - 1] {
      assert DependsOn(g, p[0], p[1]);
      PathRanks(g, order, p);
    }
  }

  lemma PathExtends(g: Graph, p: seq<Name>, t: Name)
    requires Path(g, p) && DependsOn(g, p[|p| - 1], t)
    ensures Path(g, p + [t])
  {
    var q := p + [t];
    forall i | 0 <= i < |q| - 1 ensures DependsOn(g, q[i], q[i + 1]) {
      if i < |p| - 1 { assert DependsOn(g, p[i], p[i + 1]); }
    }
  }

  /** A path that comes back to a name it already holds ends in a cycle. */
  lemma ReturnIsCycle(g: Graph, p: seq<Name>, i: nat)
    requires Path(g, p) && i < |p| - 1 && p[i] == p[|p| - 1]
    ensures Cycle(g, p[i..])
  {
    var q := p[i..];
    forall j | 0 <= j < |q| - 1 ensures DependsOn(g, q[j], q[j + 1]) {
      assert DependsOn(g, p[i + j], p[i + j + 1]);
    }
  }
}
