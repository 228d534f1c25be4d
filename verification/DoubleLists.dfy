/** A doubly linked list of nodes that belong to the caller (media/common/DoubleList.cpp and DoubleList.h). */
module DoubleLists {

  class Node {
    var prev: Node?
    var next: Node?

    /** What a cache entry answers to isNodeValid and getWeight. */
    const valid: bool
    const weight: int

    constructor (valid: bool, weight: int)
      ensures this.valid == valid && this.weight == weight && prev == null && next == null
    {
      this.valid, this.weight, prev, next := valid, weight, null, null;
    }
  }

  ghost predicate Distinct(s: seq<Node>) {
    forall i, j :: 0 <= i < j < |s| ==> s[i] != s[j]
  }

  ghost function InsertedAt(s: seq<Node>, k: nat, x: Node): seq<Node>
    requires k <= |s|
  {
    s[..k] + [x] + s[k..]
  }

  ghost function RemovedAt(s: seq<Node>, k: nat): seq<Node>
    requires k < |s|
  {
    s[..k] + s[k + 1..]
  }

  class DoubleList {
    var head: Node?
    var tail: Node?
    var size: int

    /** The nodes from head to tail. */
    ghost var nodes: seq<Node>

    ghost function Members(): set<Node>
      reads this`nodes
    {
      set x | x in nodes
    }

    ghost predicate Linked(i: int)
      requires 0 <= i < |nodes|
      reads this`nodes, Members()
    {
      && nodes[i].prev == (if i == 0 then null else nodes[i - 1])
      && nodes[i].next == (if i == |nodes| - 1 then null else nodes[i + 1])
    }

    /** Head, tail, size and all links describe the sequence of nodes. */
    ghost predicate Valid()
      reads this, Members()
    {
      && Distinct(nodes) && size == |nodes|
      && head == (if nodes == [] then null else nodes[0])
      && tail == (if nodes == [] then null else nodes[|nodes| - 1])
      && forall i :: 0 <= i < |nodes| ==> Linked(i)
    }

    constructor ()
      ensures Valid() && nodes == []
    {
      head, tail, size, nodes := null, null, 0, [];
    }

    /** Index of the place behind `pos`. */
    ghost function After(pos: Node?): (k: nat)
      requires pos == null || pos in nodes
      reads this`nodes
      ensures k <= |nodes| && (pos == null ==> k == 0) && (pos != null ==> k > 0 && nodes[k - 1] == pos)
    {
      if pos == null then 0 else var i :| 0 <= i < |nodes| && nodes[i] == pos; i + 1
    }

    /** insertAfter: behind `pos`, or at the head if there is none. */
    method InsertAfter(node: Node, pos: Node?)
      requires Valid() && node !in nodes && (pos == null || pos in nodes)
      modifies this, Members(), node
      ensures Valid() && nodes == InsertedAt(old(nodes), old(After(pos)), node)
    {
      if pos == null {
        InsertFirst(node);
      } else {
        InsertBehind(node, pos, After(pos));
      }
    }

    method InsertFirst(node: Node)
      requires Valid() && node !in nodes
      modifies this, Members(), node
      ensures Valid() && nodes == InsertedAt(old(nodes), 0, node)
    {
      node.prev := null;
      node.next := head;
      if head != null {
        head.prev := node;
      }
      head := node;
      if tail == null {
        tail := node;
      }
      size := size + 1;
      nodes := InsertedAt(nodes, 0, node);
      forall i | 0 <= i < |nodes| ensures Linked(i) {
        if i > 0 { assert old(Linked(i - 1)); }
      }
    }

    method InsertBehind(node: Node, pos: Node, ghost k: nat)
      requires Valid() && node !in nodes && 0 < k <= |nodes| && nodes[k - 1] == pos
      modifies this, Members(), node
      ensures Valid() && nodes == InsertedAt(old(nodes), k, node)
    {
      assert Linked(k - 1);
      node.next := pos.next;
      if node.next != null {
        node.next.prev := node;
      }
      pos.next := node;
      node.prev := pos;
      if pos == tail {
        tail := node;
      }
      size := size + 1;
      nodes := InsertedAt(nodes, k, node);
      forall i | 0 <= i < |nodes| ensures Linked(i) {
        if i < k { assert old(Linked(i)); }
        if i > k { assert old(Linked(i - 1)); }
      }
    }

    method InsertFront(node: Node)
      requires Valid() && node !in nodes
      modifies this, Members(), node
      ensures Valid() && nodes == [node] + old(nodes)
    {
      InsertAfter(node, null);
    }

    method InsertBack(node: Node)
      requires Valid() && node !in nodes
      modifies this, Members(), node
      ensures Valid() && nodes == old(nodes) + [node]
    {
      InsertAfter(node, tail);
    }

    /** insertBefore: before `pos`, or at the tail if there is none. */
    method InsertBefore(node: Node, pos: Node?)
      requires Valid() && node !in nodes && (pos == null || pos in nodes)
      modifies this, Members(), node
      ensures Valid()
      ensures nodes == InsertedAt(old(nodes), if pos == null then |old(nodes)| else old(After(pos)) - 1, node)
    {
      if pos != null {
        assert Linked(After(pos) - 1);
        InsertAfter(node, pos.prev);
      } else {
        InsertBack(node);
      }
    }

    /** remove. */
    method Remove(node: Node)
      requires Valid() && node in nodes
      modifies this, Members()
      ensures Valid() && nodes == RemovedAt(old(nodes), old(After(node)) - 1) && node.prev == null && node.next == null
    {
      ghost var k := After(node) - 1;
      assert Linked(k);
      if node.prev != null {
        node.prev.next := node.next;
      }
      if node.next != null {
        node.next.prev := node.prev;
      }
      if head == node {
        head := node.next;
      }
      if tail == node {
        tail := node.prev;
      }
      node.next := null;
      node.prev := null;
      size := size - 1;
      nodes := RemovedAt(nodes, k);
      forall i | 0 <= i < |nodes| ensures Linked(i) {
        assert i < k ==> old(Linked(i));
        assert i >= k ==> old(Linked(i + 1));
      }
    }

    /** clear: the nodes keep their links. */
    method Clear()
      modifies this
      ensures Valid() && nodes == []
    {
      head, tail, size := null, null, 0;
      nodes := [];
    }

    /** containsNode. */
    method ContainsNode(node: Node) returns (found: bool)
      requires Valid()
      ensures found <==> node in nodes
    {
      var it := head;
      ghost var i := 0;
      found := false;
      while it != null
        invariant 0 <= i <= |nodes| && it == (if i < |nodes| then nodes[i] else null)
        invariant forall j :: 0 <= j < i ==> nodes[j] != node
        decreases |nodes| - i
      {
        if it == node {
          return true;
        }
        assert Linked(i);
        it := it.next;
        i := i + 1;
      }
    }
  }
}
