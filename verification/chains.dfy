/** Singly linked lists that are pushed at the front and unlinked in place, the shape of
    both `locks` and `oplocks` in a `vss_file`. */
module Chains {

  class Node<T> {
    var data: T
    var next: Node?<T>

    constructor (data: T, next: Node?<T>)
      ensures this.data == data && this.next == next
    {
      this.data := data;
      this.next := next;
    }
  }

  class Chain<T> {
    var head: Node?<T>
    var size: int
    ghost var nodes: seq<Node<T>>
    ghost var contents: seq<T>
    ghost var repr: set<Node<T>>  // every node this list has had

    ghost predicate Valid()
      reads this, repr
    {
      && |nodes| == |contents| == size
      && head == (if nodes == [] then null else nodes[0])
      && (forall i | 0 <= i < |nodes| :: nodes[i] in repr && nodes[i].data == contents[i])
      && (forall i | 0 <= i < |nodes| - 1 :: nodes[i].next == nodes[i + 1])
      && (nodes != [] ==> nodes[|nodes| - 1].next == null)
    }

    /** A traversal stands at position `k`: `cur` is there and `prev` just behind it. */
    ghost predicate At(prev: Node?<T>, cur: Node?<T>, k: int)
      reads this, repr
    {
      && Valid() && 0 <= k <= size
      && cur == (if k < size then nodes[k] else null)
      && prev == (if k == 0 then null else nodes[k - 1])
    }

    /** What a traversal sees, without unfolding the chain. */
    ghost predicate Sees(cur: Node?<T>, k: int)
      reads this, cur
    {
      && 0 <= k <= size == |contents|
      && (if cur == null then k == size else k < size && cur.data == contents[k])
    }

    constructor ()
      ensures Valid() && contents == [] && repr == {}
    {
      head, size, nodes, contents, repr := null, 0, [], [], {};
    }

    /** A chain that ends in null visits no node twice. */
    lemma {:induction false} Distinct(i: nat, j: nat)
      requires Valid() && i < j < |nodes|
      ensures nodes[i] != nodes[j]
      decreases |nodes| - j
    {
      assert nodes[i].next == nodes[i + 1];
      if j + 1 < |nodes| {
        Distinct(i + 1, j + 1);
        assert nodes[j].next == nodes[j + 1];
      }
    }

    method Push(x: T)
      requires Valid()
      modifies this
      ensures Valid() && contents == [x] + old(contents)
      ensures fresh(repr - old(repr))
    {
      var node := new Node(x, head);
      head, size := node, size + 1;
      nodes, contents, repr := [node] + nodes, [x] + contents, repr + {node};
    }

    method Advance(prev: Node?<T>, cur: Node<T>, ghost k: int) returns (next: Node?<T>)
      requires At(prev, cur, k)
      ensures At(cur, next, k + 1) && Sees(next, k + 1)
    {
      next := cur.next;
    }

    /** Take the node at the traversal out of the list, through the pointer leading to it. */
    method Unlink(prev: Node?<T>, cur: Node<T>, ghost k: int) returns (next: Node?<T>)
      requires At(prev, cur, k)
      modifies this, repr
      ensures At(prev, next, k) && Sees(next, k)
      ensures k < old(size) && contents == old(contents)[..k] + old(contents)[k + 1..]
      ensures repr == old(repr)
    {
      next := cur.next;
      ghost var was, n := nodes, size;
      if prev == null {
        head := next;
      } else {
        forall j | 0 <= j < n && j != k - 1 ensures was[j] != prev {
          Distinct(if j < k - 1 then j else k - 1, if j < k - 1 then k - 1 else j);
        }
        prev.next := next;
      }
      size := size - 1;
      nodes, contents := was[..k] + was[k + 1..], contents[..k] + contents[k + 1..];
      assert forall j | 0 <= j < size :: nodes[j] == (if j < k then was[j] else was[j + 1]);
      forall j | 0 <= j < size - 1 ensures nodes[j].next == nodes[j + 1] {
        if j + 1 < k {
          assert was[j].next == was[j + 1];
        } else if j >= k {
          assert was[j + 1].next == was[j + 2];
        }
      }
    }

    /** Change what the node at the traversal holds, leaving the links alone. */
    method Update(prev: Node?<T>, cur: Node<T>, x: T, ghost k: int)
      requires At(prev, cur, k)
      modifies this, repr
      ensures Valid() && k < old(size) && repr == old(repr)
      ensures contents == old(contents)[k := x]
    {
      forall j | 0 <= j < size && j != k ensures nodes[j] != cur {
        Distinct(if j < k then j else k, if j < k then k else j);
      }
      cur.data := x;
      contents := contents[k := x];
    }
  }
}
