/** The red-black tree of media/common/RedBlackTree.cpp on linked, mutable nodes. */
module RedBlackTrees {
  import opened RedBlackShape
  import opened RedBlackLinks
  import opened RedBlackSteps

  class RedBlackTree {
    const root: Node
    const nil: Node
    ghost var tree: Tree
    ghost var repr: set<Node>

    ghost predicate Holds(c: Context, t: Tree, s: set<Node>)
      reads s
    {
      nil !in s && root in s && Agrees(c, t, root, nil, Snapshot(s), Reds(s))
    }

    ghost predicate Valid()
      reads this, repr, nil`isRed
    {
      repr == {root} + Nodes(tree) && Holds(Top, tree, repr) && !root.isRed && !nil.isRed &&
      RedBlack(tree) && !IsRed(tree) && Sorted(Inorder(tree))
    }

    /** The nodes of the tree in order. */
    ghost function Contents(): seq<Node>
      reads this
    {
      Inorder(tree)
    }

    constructor ()
      ensures Valid() && fresh(repr) && fresh(nil)
      ensures Contents() == []
    {
      root := new Node(0x7FFF_FFFF_FFFF_FFFF);
      nil := new Node(-0x8000_0000_0000_0000);
      tree := Leaf;
      new;
      nil.left, nil.right, nil.parent := nil, nil, nil;
      root.parent, root.left, root.right := nil, nil, nil;
      repr := {root};
    }

    method Paint(n: Node, red: bool, ghost s: set<Node>)
      requires n in s || !red
      modifies n`isRed
      ensures n.isRed == red
      ensures Reds(s) == Recoloured(old(Reds(s)), n, red) && Snapshot(s) == old(Snapshot(s))
    {
      n.isRed := red;
    }

    /** `b` becomes a child of `x`; nothing is written to nil. */
    method Adopt(x: Node, side: Side, b: Node, ghost s: set<Node>)
      requires nil !in s && x in s && (b == nil || b in s)
      modifies s`left, s`right, s`parent
      ensures Reds(s) == old(Reds(s))
      ensures var m1 := WithChild(old(Snapshot(s)), x, side, b); Snapshot(s) == if b != nil then WithParent(m1, b, x)
              else m1
    {
      if side.Left? {
        x.left := b;
      } else {
        x.right := b;
      }
      if b != nil {
        b.parent := x;
      }
    }

    /** `y` takes the place of `x` below the parent of `x`. */
    method TakeOver(x: Node, y: Node, ghost s: set<Node>)
      requires x in s && y in s && x != y && x.parent in s && x.parent != x && x.parent != y
      modifies s`left, s`right, s`parent
      ensures Reds(s) == old(Reds(s))
      ensures var m, p: Node := old(Snapshot(s)), old(x.parent);
              Snapshot(s) == WithChild(WithParent(m, y, p), p, if m[p].left == x then Left else Right, y)
    {
      y.parent := x.parent;
      if x == x.parent.left {
        x.parent.left := y;
      } else {
        x.parent.right := y;
      }
    }

    /** `x` is hung below `y`. */
    method Hang(x: Node, y: Node, side: Side, ghost s: set<Node>)
      requires x in s && y in s
      modifies s`left, s`right, s`parent
      ensures Reds(s) == old(Reds(s))
      ensures Snapshot(s) == WithParent(WithChild(old(Snapshot(s)), y, side, x), x, y)
    {
      if side.Left? {
        y.left := x;
      } else {
        y.right := x;
      }
      x.parent := y;
    }

    method LeftRotate(x: Node, ghost s: set<Node>)
      requires nil !in s && Rotatable(Snapshot(s), x, Left, nil)
      modifies s`left, s`right, s`parent
      ensures Snapshot(s) == Rotation(old(Snapshot(s)), x, Left, nil) && Reds(s) == old(Reds(s))
    {
      hide Reds;
      var y: Node := x.right;
      assert Snapshot(s)[x] == Link(x.left, x.right, x.parent) && Snapshot(s)[y] == Link(y.left, y.right, y.parent);
      Adopt(x, Right, y.left, s);
      assert Snapshot(s)[x] == Link(x.left, x.right, x.parent);
      TakeOver(x, y, s);
      Hang(x, y, Left, s);
    }

    method RightRotate(y: Node, ghost s: set<Node>)
      requires nil !in s && Rotatable(Snapshot(s), y, Right, nil)
      modifies s`left, s`right, s`parent
      ensures Snapshot(s) == Rotation(old(Snapshot(s)), y, Right, nil) && Reds(s) == old(Reds(s))
    {
      hide Reds;
      var x: Node := y.left;
      assert Snapshot(s)[x] == Link(x.left, x.right, x.parent) && Snapshot(s)[y] == Link(y.left, y.right, y.parent);
      Adopt(y, Left, x.right, s);
      assert Snapshot(s)[y] == Link(y.left, y.right, y.parent);
      TakeOver(y, x, s);
      Hang(y, x, Right, s);
    }
  
    /** The search loop of insertFixUp: the node `y` under which a new key belongs. */
    method FindPlace(key: int) returns (y: Node, ghost c: Context)
      requires Valid()
      ensures Searching(c, Leaf, tree, key) && y == Owner(c, root)
      ensures Agrees(c, Leaf, root, nil, Snapshot(repr), Reds(repr))
    {
      y := root;
      var x: Node := root.left;
      c := Top;
      ghost var t := tree;
      ghost var m := Snapshot(repr);
      ghost var reds := Reds(repr);
      assert m[root] == Link(root.left, root.right, root.parent);
      while x != nil
        invariant Searching(c, t, tree, key) && Agrees(c, t, root, nil, m, reds)
        invariant x == TopOf(t, nil) && y == Owner(c, root)
        decreases t
      {
        AgreesHere(c, t, root, nil, m, reds);
        assert m[x] == Link(x.left, x.right, x.parent);
        y := x;
        if x.key > key {
          x := x.left;
        } else {
          x := x.right;
        }
        c, t := SearchStep(c, t, tree, key, root, nil, m, reds);
      }
    }

    /** Hangs `z` into its place without looking at colours. */
    method InsertFixUp(z: Node, ghost s: set<Node>, ghost reds: set<Node>) returns (ghost c: Context)
      requires Valid() && z !in repr && z != nil && s == repr + {z} && reds == Reds(repr)
      modifies s`left, s`right, s`parent
      ensures Searching(c, Leaf, tree, z.key)
      ensures Agrees(c, Branch(Leaf, z, true, Leaf), root, nil, Snapshot(s), Recoloured(reds, z, true))
    {
      hide Agrees, Nodes;
      var y;
      y, c := FindPlace(z.key);
      ghost var m := Snapshot(repr);
      AgreesHere(c, Leaf, root, nil, m, reds);
      assert m[y] == Link(y.left, y.right, y.parent);
      z.left := nil;
      z.right := nil;
      z.parent := y;
      if y == root || y.key > z.key {
        y.left := z;
      } else {
        y.right := z;
      }
      ghost var m' := Snapshot(s);
      assert OwnerRelinked(c, z, root, m, m');
      AgreesAttach(c, z, true, root, nil, m, m', reds);
    }
  
    /** What the insertion loop keeps: `x` is the pending node and the in-order sequence is `all`. */
    ghost predicate InsertState(c: Context, t: Tree, x: Node, s: set<Node>, all: seq<Node>)
      reads s, root
    {
      Agrees(c, t, root, nil, Snapshot(s), Reds(s)) && InsertPending(c, t) && x == t.node &&
      Inorder(Plug(c, t)) == all && nil !in s && !root.isRed
    }

    /** Red uncle `y`: the same four assignments in both halves of the loop body. */
    method RecolourUncle(x0: Node, y: Node, ghost s: set<Node>, ghost c: Context, ghost t: Tree, ghost all: seq<Node>)
      returns (x: Node)
      requires InsertState(c, t, x0, s, all) && c.Under? && c.red && c.up.Under? && IsRed(c.up.sibling)
      requires y == c.up.sibling.node
      modifies s
      ensures InsertState(c.up.up, Recolouring(c, t), x, s, all)
    {
      hide Agrees;
      ghost var m, reds := Snapshot(s), Reds(s);
      HereInsert(s, c, t);
      x := x0;
      Paint(x.parent, false, s);
      Paint(y, false, s);
      Paint(x.parent.parent, true, s);
      x := x.parent.parent;
      RecolouringPending(c, t);
      RecolouringInorder(c, t);
      RecolouringAgrees(c, t, root, nil, m, reds);
    }

    /** Rotates the parent of an inner grandchild outwards. */
    method StraightenLeft(x0: Node, ghost s: set<Node>, ghost c: Context, ghost t: Tree, ghost all: seq<Node>)
      returns (x: Node)
      requires InsertState(c, t, x0, s, all) && c.Under? && c.red && c.up.Under? && c.side == Right
      modifies s
      ensures InsertState(Straightened(c, t), StraightTree(c, t), x, s, all)
    {
      hide Agrees, Snapshot, Reds, Rotation;
      HereInsert(s, c, t);
      StraightenedPending(c, t);
      StraightenedAgrees(c, t, root, nil, Snapshot(s), Reds(s));
      x := x0.parent;
      LeftRotate(x, s);
    }

    method StraightenRight(x0: Node, ghost s: set<Node>, ghost c: Context, ghost t: Tree, ghost all: seq<Node>)
      returns (x: Node)
      requires InsertState(c, t, x0, s, all) && c.Under? && c.red && c.up.Under? && c.side == Left
      modifies s
      ensures InsertState(Straightened(c, t), StraightTree(c, t), x, s, all)
    {
      hide Agrees, Snapshot, Reds, Rotation;
      HereInsert(s, c, t);
      StraightenedPending(c, t);
      StraightenedAgrees(c, t, root, nil, Snapshot(s), Reds(s));
      x := x0.parent;
      RightRotate(x, s);
    }

    /** Outer grandchild: recolours and rotates the grandparent below the parent. */
    method SettleRight(x: Node, ghost s: set<Node>, ghost c: Context, ghost t: Tree, ghost all: seq<Node>)
      requires InsertState(c, t, x, s, all) && c.Under? && c.red && c.up.Under? && c.side == c.up.side == Left
      requires !IsRed(c.up.sibling)
      modifies s
      ensures InsertState(Settled(c), t, x, s, all)
    {
      hide Agrees, Snapshot, Reds, Rotation;
      HereInsert(s, c, t);
      SettledPending(c, t);
      SettledAgrees(c, t, root, nil, Snapshot(s), Reds(s));
      Paint(x.parent, false, s);
      Paint(x.parent.parent, true, s);
      RightRotate(x.parent.parent, s);
    }

    method SettleLeft(x: Node, ghost s: set<Node>, ghost c: Context, ghost t: Tree, ghost all: seq<Node>)
      requires InsertState(c, t, x, s, all) && c.Under? && c.red && c.up.Under? && c.side == c.up.side == Right
      requires !IsRed(c.up.sibling)
      modifies s
      ensures InsertState(Settled(c), t, x, s, all)
    {
      hide Agrees, Snapshot, Reds, Rotation;
      HereInsert(s, c, t);
      SettledPending(c, t);
      SettledAgrees(c, t, root, nil, Snapshot(s), Reds(s));
      Paint(x.parent, false, s);
      Paint(x.parent.parent, true, s);
      LeftRotate(x.parent.parent, s);
    }

    /** The loop body of insert when x's parent is a left child. */
    method InsertStepLeft(x0: Node, ghost s: set<Node>, ghost c0: Context, ghost t0: Tree, ghost all: seq<Node>)
      returns (x: Node, ghost c: Context, ghost t: Tree)
      requires InsertState(c0, t0, x0, s, all) && !nil.isRed
      requires c0.Under? && c0.red && c0.up.Under? && c0.up.side == Left
      modifies s
      ensures InsertState(c, t, x, s, all) && Depth(c) < Depth(c0)
    {
      hide Agrees;
      x, c, t := x0, c0, t0;
      HereInsert(s, c, t);
      var y: Node := x.parent.parent.right;
      if y.isRed {
        x := RecolourUncle(x, y, s, c, t, all);
        c, t := c.up.up, Recolouring(c, t);
      } else {
        if x == x.parent.right {
          x := StraightenLeft(x, s, c, t, all);
          c, t := Straightened(c, t), StraightTree(c, t);
        }
        SettleRight(x, s, c, t, all);
        c := Settled(c);
      }
    }

    /** The loop body of insert when x's parent is a right child. */
    method InsertStepRight(x0: Node, ghost s: set<Node>, ghost c0: Context, ghost t0: Tree, ghost all: seq<Node>)
      returns (x: Node, ghost c: Context, ghost t: Tree)
      requires InsertState(c0, t0, x0, s, all) && !nil.isRed
      requires c0.Under? && c0.red && c0.up.Under? && c0.up.side == Right
      modifies s
      ensures InsertState(c, t, x, s, all) && Depth(c) < Depth(c0)
    {
      hide Agrees;
      x, c, t := x0, c0, t0;
      HereInsert(s, c, t);
      var y: Node := x.parent.parent.left;
      if y.isRed {
        x := RecolourUncle(x, y, s, c, t, all);
        c, t := c.up.up, Recolouring(c, t);
      } else {
        if x == x.parent.left {
          x := StraightenRight(x, s, c, t, all);
          c, t := Straightened(c, t), StraightTree(c, t);
        }
        SettleLeft(x, s, c, t, all);
        c := Settled(c);
      }
    }

    /** The fields read by the loop body, as the position's shape gives them. */
    lemma HereInsert(s: set<Node>, c: Context, t: Tree)
      requires t.Branch? && c.Under? && c.up.Under? && Agrees(c, t, root, nil, Snapshot(s), Reds(s))
      ensures t.node in s && c.node in s && c.up.node in s && nil !in {t.node, c.node, c.up.node}
      ensures t.node.parent == c.node && c.node.parent == c.up.node
      ensures c.side.Left? ==> c.node.left == t.node && c.node.right != t.node
      ensures c.side.Right? ==> c.node.right == t.node && c.node.left != t.node
      ensures c.up.side.Left? ==> c.up.node.left == c.node && c.up.node.right == TopOf(c.up.sibling, nil)
      ensures c.up.side.Right? ==>
              c.up.node.right == c.node && c.up.node.left == TopOf(c.up.sibling, nil) && c.up.node.left != c.node
      ensures c.up.sibling.Branch? ==> c.up.sibling.node in s && (c.up.sibling.node.isRed <==> c.up.sibling.red)
      ensures |{t.node, c.node, c.up.node}| == 3
      ensures root !in {t.node, c.node, c.up.node} && TopOf(c.up.sibling, nil) != root
    {
      var m, reds := Snapshot(s), Reds(s);
      AgreesHere(c, t, root, nil, m, reds);
      AgreesUp(c, t, root, nil, m, reds);
      AgreesHere(c.up, Lifted(c, t), root, nil, m, reds);
      assert m[t.node] == Link(t.node.left, t.node.right, t.node.parent);
      assert m[c.node] == Link(c.node.left, c.node.right, c.node.parent);
      assert m[c.up.node] == Link(c.up.node.left, c.up.node.right, c.up.node.parent);
    }
  
    /** The loop of insert: moves the pending node up until its parent is not red. */
    method InsertLoop(z: Node, ghost s: set<Node>, ghost c0: Context, ghost t0: Tree, ghost all: seq<Node>)
      returns (ghost c: Context, ghost t: Tree)
      requires InsertState(c0, t0, z, s, all) && !nil.isRed
      modifies s
      ensures exists x :: InsertState(c, t, x, s, all)
      ensures c.Under? ==> !c.red
    {
      hide Agrees;
      var x := z;
      c, t := c0, t0;
      HereParent(s, c, t);
      while x.parent.isRed
        invariant InsertState(c, t, x, s, all) && !nil.isRed
        invariant x.parent == Owner(c, root) && (c.Under? ==> (c.node.isRed <==> c.red))
        decreases Depth(c)
      {
        InsertGrandparent(c, t);
        HereInsert(s, c, t);
        if x.parent == x.parent.parent.left {
          x, c, t := InsertStepLeft(x, s, c, t, all);
        } else {
          x, c, t := InsertStepRight(x, s, c, t, all);
        }
        HereParent(s, c, t);
      }
    }

    /** Inserts `z` behind all nodes whose keys are at most its own; `k` of them exist. */
    method Insert(z: Node) returns (r: Node, ghost k: nat)
      requires Valid() && z !in repr && z != nil
      modifies this`tree, this`repr, repr, z
      ensures Valid() && repr == old(repr) + {z} && r == z
      ensures k <= |old(Contents())|
      ensures AllAtMost(old(Contents())[..k], z.key) && AllAbove(old(Contents())[k..], z.key)
      ensures Contents() == old(Contents())[..k] + [z] + old(Contents())[k..]
    {
      hide Agrees, Snapshot;
      ghost var s := repr + {z};
      ghost var reds := Reds(repr);
      ghost var c := InsertFixUp(z, s, reds);
      ghost var t := Branch(Leaf, z, true, Leaf);
      z.isRed := true;
      assert Reds(s) == Recoloured(reds, z, true);
      PlacedPending(c, z, tree);
      ghost var all := Before(c) + [z] + After(c);
      k := |Before(c)|;
      SortedInsert(Before(c), z, After(c));
      ghost var before, after := Before(c), After(c);
      c, t := InsertLoop(z, s, c, t, all);
      InsertedNodes(tree, Plug(c, t), before, z, after);
      Finish(s, c, t, all);
      r := z;
    }

    /** The last assignment of insert: the top node turns black and the tree is complete again. */
    method Finish(ghost s: set<Node>, ghost c: Context, ghost t: Tree, ghost all: seq<Node>)
      requires Agrees(c, t, root, nil, Snapshot(s), Reds(s)) && nil !in s && !nil.isRed && !root.isRed
      requires InsertPending(c, t) && (c.Under? ==> !c.red) && Inorder(Plug(c, t)) == all && Sorted(all)
      requires s == {root} + Nodes(Plug(c, t))
      modifies this`tree, this`repr, s
      ensures Valid() && repr == s && Contents() == all
    {
      hide Agrees, RedBlack, BlackHeight;
      ghost var whole := Plug(c, t);
      PendingSettled(c, t);
      AgreesPlug(c, t, root, nil, Snapshot(s), Reds(s));
      AgreesHere(Top, whole, root, nil, Snapshot(s), Reds(s));
      assert Snapshot(s)[root] == Link(root.left, root.right, root.parent);
      AgreesRepaint(Top, whole, false, root, nil, Snapshot(s), Reds(s));
      Paint(root.left, false, s);
      tree := whole.(red := false);
      repr := s;
    }

    lemma HereParent(s: set<Node>, c: Context, t: Tree)
      requires t.Branch? && Agrees(c, t, root, nil, Snapshot(s), Reds(s))
      ensures t.node in s && t.node.parent == Owner(c, root) && Owner(c, root) in s
      ensures c.Under? ==> c.node in s && c.node != root && (c.node.isRed <==> c.red)
    {
      AgreesHere(c, t, root, nil, Snapshot(s), Reds(s));
      assert Snapshot(s)[t.node] == Link(t.node.left, t.node.right, t.node.parent);
    }
  
    /** What the deletion loop keeps: `x` is the pending node, possibly nil, and its parent link holds. */
    ghost predicate DeleteState(c: Context, t: Tree, x: Node, s: set<Node>, all: seq<Node>)
      reads s, root, nil
    {
      Agrees(c, t, root, nil, Snapshot(s), Reds(s)) && DeletePending(c, t) && x == TopOf(t, nil) &&
      x.parent == Owner(c, root) && Inorder(Plug(c, t)) == all && nil !in s && !root.isRed && !nil.isRed
    }

    ghost predicate DeleteDone(c: Context, t: Tree, s: set<Node>, all: seq<Node>)
      reads s, root, nil
    {
      Agrees(c, t, root, nil, Snapshot(s), Reds(s)) && Complete(c, t) && Inorder(Plug(c, t)) == all &&
      nil !in s && !root.isRed && !nil.isRed
    }

    /** The fields read by the deletion loop, as the position's shape gives them. */
    lemma DeleteHere(s: set<Node>, c: Context, t: Tree)
      requires c.Under? && Agrees(c, t, root, nil, Snapshot(s), Reds(s))
      ensures c.node in s && c.node != root && c.node.parent == Owner(c.up, root) && (c.node.isRed <==> c.red)
      ensures c.side.Left? ==> c.node.left == TopOf(t, nil) && c.node.right == TopOf(c.sibling, nil)
      ensures c.side.Right? ==> c.node.right == TopOf(t, nil) && c.node.left == TopOf(c.sibling, nil)
      ensures t.Branch? ==> t.node in s && t.node != root && (t.node.isRed <==> t.red) && t.node.parent == c.node
      ensures c.sibling.Branch? ==> var w := c.sibling;
        && w.node in s && w.node != root && w.node != TopOf(t, nil) && (w.node.isRed <==> w.red)
        && w.node.left == TopOf(w.left, nil) && w.node.right == TopOf(w.right, nil)
        && (w.left.Branch? ==> w.left.node in s && w.left.node != root && (w.left.node.isRed <==> w.left.red))
        && (w.right.Branch? ==> w.right.node in s && w.right.node != root && (w.right.node.isRed <==> w.right.red))
    {
      var m, reds := Snapshot(s), Reds(s);
      AgreesHere(c, t, root, nil, m, reds);
      assert m[c.node] == Link(c.node.left, c.node.right, c.node.parent);
      if t.Branch? { assert m[t.node] == Link(t.node.left, t.node.right, t.node.parent); }
      if c.sibling.Branch? {
        var w := c.sibling;
        AgreesSibling(c, t, root, nil, m, reds);
        AgreesHere(OnSibling(c, t), w, root, nil, m, reds);
        assert m[w.node] == Link(w.node.left, w.node.right, w.node.parent);
        var onLeft := Under(OnSibling(c, t), Left, w.node, w.red, w.right);
        AgreesUp(onLeft, w.left, root, nil, m, reds);
        AgreesHere(onLeft, w.left, root, nil, m, reds);
      }
    }

    lemma CompleteTopHere(s: set<Node>, c: Context, t: Tree)
      requires c.Under? && Complete(c, t) && Agrees(c, t, root, nil, Snapshot(s), Reds(s))
      ensures Highest(c) in s && !Highest(c).isRed
    {
      CompleteTop(c, t, root, nil, Snapshot(s), Reds(s));
    }

    /** Black sibling with two black children, the same in both halves of the loop body. */
    method ReddenSibling(x0: Node, w: Node, ghost s: set<Node>, ghost c: Context, ghost t: Tree, ghost all: seq<Node>)
      returns (x: Node)
      requires DeleteState(c, t, x0, s, all) && !IsRed(t) && c.Under?
      requires c.sibling.Branch? && !c.sibling.red && w == c.sibling.node
      requires !IsRed(c.sibling.left) && !IsRed(c.sibling.right)
      modifies s
      ensures DeleteState(c.up, SiblingReddened(c, t), x, s, all)
    {
      hide Agrees, Snapshot, Reds, Rotation;
      DeleteHere(s, c, t);
      SiblingReddenedPending(c, t);
      SiblingReddenedAgrees(c, t, root, nil, Snapshot(s), Reds(s));
      Paint(w, true, s);
      x := x0.parent;
    }

    /** Red sibling `w` of a left child. */
    method RaiseSiblingLeft(x: Node, w0: Node, ghost s: set<Node>, ghost c: Context, ghost t: Tree,
        ghost all: seq<Node>)
      returns (w: Node)
      requires DeleteState(c, t, x, s, all) && c.Under? && c.side == Left && IsRed(c.sibling) && w0 == c.sibling.node
      modifies s
      ensures DeleteState(SiblingRaised(c), t, x, s, all) && w == SiblingRaised(c).sibling.node
    {
      hide Agrees, Snapshot, Reds, Rotation;
      DeleteHere(s, c, t);
      SiblingRaisedPending(c, t);
      SiblingRaisedAgrees(c, t, root, nil, Snapshot(s), Reds(s));
      w := w0;
      Paint(w, false, s);
      Paint(x.parent, true, s);
      LeftRotate(x.parent, s);
      DeleteHere(s, SiblingRaised(c), t);
      w := x.parent.right;
    }

    /** Black sibling `w` of a left child, whose far child is black and near child red. */
    method RaiseNearLeft(x: Node, w0: Node, ghost s: set<Node>, ghost c: Context, ghost t: Tree, ghost all: seq<Node>)
      returns (w: Node)
      requires DeleteState(c, t, x, s, all) && c.Under? && c.side == Left
      requires c.sibling.Branch? && !c.sibling.red && w0 == c.sibling.node
      requires IsRed(c.sibling.left) && !IsRed(c.sibling.right)
      modifies s
      ensures DeleteState(NearRaised(c), t, x, s, all) && w == NearRaised(c).sibling.node
    {
      hide Agrees, Snapshot, Reds, Rotation;
      DeleteHere(s, c, t);
      NearRaisedPending(c, t);
      NearRaisedAgrees(c, t, root, nil, Snapshot(s), Reds(s));
      w := w0;
      Paint(w.left, false, s);
      Paint(w, true, s);
      RightRotate(w, s);
      DeleteHere(s, NearRaised(c), t);
      w := x.parent.right;
    }

    /** Black sibling `w` of a left child, whose far child is red: the last rotation. */
    method RaiseFarLeft(x: Node, w: Node, ghost s: set<Node>, ghost c: Context, ghost t: Tree, ghost all: seq<Node>)
      requires DeleteState(c, t, x, s, all) && !IsRed(t) && c.Under? && c.side == Left
      requires c.sibling.Branch? && !c.sibling.red && w == c.sibling.node && IsRed(c.sibling.right)
      modifies s
      ensures DeleteDone(c.up, FarRaised(c, t), s, all) && !c.node.isRed
    {
      hide Agrees, Snapshot, Rotation;
      DeleteHere(s, c, t);
      FarRaisedComplete(c, t);
      FarRaisedAgrees(c, t, root, nil, Snapshot(s), Reds(s));
      Paint(w, x.parent.isRed, s);
      Paint(x.parent, false, s);
      Paint(w.right, false, s);
      LeftRotate(x.parent, s);
    }

    /** The loop body of deleteFixUp when x is a left child. */
    method DeleteStepLeft(x0: Node, rootLeft: Node, ghost s: set<Node>, ghost c0: Context, ghost t0: Tree,
        ghost all: seq<Node>)
      returns (x: Node, ghost c: Context, ghost t: Tree, ghost done: bool)
      requires DeleteState(c0, t0, x0, s, all) && !IsRed(t0) && c0.Under? && c0.side == Left && rootLeft == Highest(c0)
      modifies s
      ensures done ==> DeleteDone(c, t, s, all) && x == rootLeft && !rootLeft.isRed
      ensures !done ==> DeleteState(c, t, x, s, all)
      ensures !done ==> IsRed(t) || (rootLeft == TopOf(Plug(c, t), nil) && Depth(c) < Depth(c0))
    {
      hide Agrees, Snapshot, Reds, Rotation, Inorder;
      x, c, t, done := x0, c0, t0, false;
      DeleteHere(s, c, t);
      DeleteSibling(c, t);
      var w: Node := x.parent.right;
      if w.isRed {
        w := RaiseSiblingLeft(x, w, s, c, t, all);
        SiblingRaisedPending(c, t);
        c := SiblingRaised(c);
      }
      DeleteHere(s, c, t);
      assert rootLeft == c.node || (c.up.Under? && rootLeft == Highest(c.up));
      if !w.right.isRed && !w.left.isRed {
        x := ReddenSibling(x, w, s, c, t, all);
        if c.up.Under? { PlugTop(c.up, SiblingReddened(c, t)); }
        c, t := c.up, SiblingReddened(c, t);
      } else {
        if !w.right.isRed {
          w := RaiseNearLeft(x, w, s, c, t, all);
          NearRaisedPending(c, t);
          c := NearRaised(c);
        }
        RaiseFarLeft(x, w, s, c, t, all);
        c, t, done := c.up, FarRaised(c, t), true;
        if c.Under? { CompleteTopHere(s, c, t); }
        x := rootLeft;
      }
    }

    /** Red sibling `w` of a right child. */
    method RaiseSiblingRight(x: Node, w0: Node, ghost s: set<Node>, ghost c: Context, ghost t: Tree,
        ghost all: seq<Node>)
      returns (w: Node)
      requires DeleteState(c, t, x, s, all) && c.Under? && c.side == Right && IsRed(c.sibling) && w0 == c.sibling.node
      modifies s
      ensures DeleteState(SiblingRaised(c), t, x, s, all) && w == SiblingRaised(c).sibling.node
    {
      hide Agrees, Snapshot, Reds, Rotation;
      DeleteHere(s, c, t);
      SiblingRaisedPending(c, t);
      SiblingRaisedAgrees(c, t, root, nil, Snapshot(s), Reds(s));
      w := w0;
      Paint(w, false, s);
      Paint(x.parent, true, s);
      RightRotate(x.parent, s);
      DeleteHere(s, SiblingRaised(c), t);
      w := x.parent.left;
    }

    /** Black sibling `w` of a right child, whose far child is black and near child red. */
    method RaiseNearRight(x: Node, w0: Node, ghost s: set<Node>, ghost c: Context, ghost t: Tree, ghost all: seq<Node>)
      returns (w: Node)
      requires DeleteState(c, t, x, s, all) && c.Under? && c.side == Right
      requires c.sibling.Branch? && !c.sibling.red && w0 == c.sibling.node
      requires IsRed(c.sibling.right) && !IsRed(c.sibling.left)
      modifies s
      ensures DeleteState(NearRaised(c), t, x, s, all) && w == NearRaised(c).sibling.node
    {
      hide Agrees, Snapshot, Reds, Rotation;
      DeleteHere(s, c, t);
      NearRaisedPending(c, t);
      NearRaisedAgrees(c, t, root, nil, Snapshot(s), Reds(s));
      w := w0;
      Paint(w.right, false, s);
      Paint(w, true, s);
      LeftRotate(w, s);
      DeleteHere(s, NearRaised(c), t);
      w := x.parent.left;
    }

    /** Black sibling `w` of a right child, whose far child is red: the last rotation. */
    method RaiseFarRight(x: Node, w: Node, ghost s: set<Node>, ghost c: Context, ghost t: Tree, ghost all: seq<Node>)
      requires DeleteState(c, t, x, s, all) && !IsRed(t) && c.Under? && c.side == Right
      requires c.sibling.Branch? && !c.sibling.red && w == c.sibling.node && IsRed(c.sibling.left)
      modifies s
      ensures DeleteDone(c.up, FarRaised(c, t), s, all) && !c.node.isRed
    {
      hide Agrees, Snapshot, Rotation;
      DeleteHere(s, c, t);
      FarRaisedComplete(c, t);
      FarRaisedAgrees(c, t, root, nil, Snapshot(s), Reds(s));
      Paint(w, x.parent.isRed, s);
      Paint(x.parent, false, s);
      Paint(w.left, false, s);
      RightRotate(x.parent, s);
    }

    /** The loop body of deleteFixUp when x is a right child. */
    method DeleteStepRight(x0: Node, rootLeft: Node, ghost s: set<Node>, ghost c0: Context, ghost t0: Tree,
        ghost all: seq<Node>)
      returns (x: Node, ghost c: Context, ghost t: Tree, ghost done: bool)
      requires DeleteState(c0, t0, x0, s, all) && !IsRed(t0) && c0.Under? && c0.side == Right && rootLeft == Highest(c0)
      modifies s
      ensures done ==> DeleteDone(c, t, s, all) && x == rootLeft && !rootLeft.isRed
      ensures !done ==> DeleteState(c, t, x, s, all)
      ensures !done ==> IsRed(t) || (rootLeft == TopOf(Plug(c, t), nil) && Depth(c) < Depth(c0))
    {
      hide Agrees, Snapshot, Reds, Rotation, Inorder, Complete;
      x, c, t, done := x0, c0, t0, false;
      DeleteHere(s, c, t);
      DeleteSibling(c, t);
      var w: Node := x.parent.left;
      if w.isRed {
        w := RaiseSiblingRight(x, w, s, c, t, all);
        SiblingRaisedPending(c, t);
        c := SiblingRaised(c);
      }
      DeleteHere(s, c, t);
      assert rootLeft == c.node || (c.up.Under? && rootLeft == Highest(c.up));
      if !w.left.isRed && !w.right.isRed {
        x := ReddenSibling(x, w, s, c, t, all);
        if c.up.Under? { PlugTop(c.up, SiblingReddened(c, t)); }
        c, t := c.up, SiblingReddened(c, t);
      } else {
        if !w.left.isRed {
          w := RaiseNearRight(x, w, s, c, t, all);
          NearRaisedPending(c, t);
          c := NearRaised(c);
        }
        RaiseFarRight(x, w, s, c, t, all);
        c, t, done := c.up, FarRaised(c, t), true;
        if c.Under? { CompleteTopHere(s, c, t); }
        x := rootLeft;
      }
    }
  
    /** The loop of deleteFixUp. `rootLeft` is read once, before any rotation. */
    method DeleteFixUp(x0: Node, ghost s: set<Node>, ghost c0: Context, ghost t0: Tree, ghost all: seq<Node>)
      returns (ghost c: Context, ghost t: Tree)
      requires DeleteState(c0, t0, x0, s, all)
      modifies s, nil
      ensures DeleteDone(c, t, s, all)
    {
      hide Agrees, Snapshot, Reds, Rotation, RedBlack, DeletePending, Complete;
      var x := x0;
      c, t := c0, t0;
      var rootLeft := TopNode(s, c, t);
      ghost var done := false;
      while !x.isRed && rootLeft != x
        invariant done ==> DeleteDone(c, t, s, all) && x == rootLeft && !rootLeft.isRed
        invariant !done ==> DeleteState(c, t, x, s, all) && (IsRed(t) || rootLeft == TopOf(Plug(c, t), nil))
        decreases if done then 0 else if IsRed(t) then 1 else Depth(c) + 2
      {
        NodeHere(s, c, t);
        assert c.Under?;
        DeleteHere(s, c, t);
        DeleteSibling(c, t);
        PlugTop(c, t);
        if x == x.parent.left {
          x, c, t, done := DeleteStepLeft(x, rootLeft, s, c, t, all);
        } else {
          x, c, t, done := DeleteStepRight(x, rootLeft, s, c, t, all);
        }
      }
      if done {
        NodeBlack(s, rootLeft);
      } else {
        NodeHere(s, c, t);
        if c.Under? { PlugTop(c, t); TopElsewhere(s, c, t); }
        DeleteSettled(c, t);
        if t.Branch? { AgreesRepaint(c, t, false, root, nil, Snapshot(s), Reds(s)); }
        else { NodeBlack(s, x); }
        SameInorder(c, t, Blackened(t));
      }
      Paint(x, false, s);
      if !done { t := Blackened(t); }
    }

    method TopNode(ghost s: set<Node>, ghost c: Context, ghost t: Tree) returns (x: Node)
      requires Agrees(c, t, root, nil, Snapshot(s), Reds(s))
      ensures x == TopOf(Plug(c, t), nil) && (x == nil || x in s)
    {
      AgreesPlug(c, t, root, nil, Snapshot(s), Reds(s));
      AgreesHere(Top, Plug(c, t), root, nil, Snapshot(s), Reds(s));
      assert Snapshot(s)[root] == Link(root.left, root.right, root.parent);
      x := root.left;
    }

    lemma NodeHere(s: set<Node>, c: Context, t: Tree)
      requires Agrees(c, t, root, nil, Snapshot(s), Reds(s))
      ensures t.Branch? ==> t.node in s && t.node != root && t.node != nil && (t.node.isRed <==> t.red)
      ensures t.Branch? ==> t.node.left == TopOf(t.left, nil) && t.node.right == TopOf(t.right, nil)
      ensures t.Branch? ==> t.node.parent == Owner(c, root)
      ensures root.right == nil && root in s && Owner(c, root) in s
    {
      var m, reds := Snapshot(s), Reds(s);
      AgreesHere(c, t, root, nil, m, reds);
      if t.Branch? { assert m[t.node] == Link(t.node.left, t.node.right, t.node.parent); }
      AgreesPlug(c, t, root, nil, m, reds);
      AgreesHere(Top, Plug(c, t), root, nil, m, reds);
      assert m[root] == Link(root.left, root.right, root.parent);
    }

    lemma NodeBlack(s: set<Node>, n: Node)
      requires !n.isRed
      ensures Recoloured(Reds(s), n, false) == Reds(s)
    {
    }

    lemma TopElsewhere(s: set<Node>, c: Context, t: Tree)
      requires c.Under? && Agrees(c, t, root, nil, Snapshot(s), Reds(s))
      ensures TopOf(t, nil) != Highest(c)
    {
      HighestNode(c);
      assert t.Branch? ==> t.node in Nodes(t);
    }

    static lemma {:induction false} HighestNode(c: Context)
      requires c.Under?
      ensures Highest(c) in ContextNodes(c)
    {
      if c.up.Under? { HighestNode(c.up); }
    }
  
    // ---------------------------------------------------------------- neighbours in order

    /** Position `i` holds `x`. */
    ghost predicate At(i: nat, x: Node)
      reads this
    {
      i < |Contents()| && Contents()[i] == x
    }

    /** The place of a node in order. */
    ghost function IndexOf(x: Node): (i: nat)
      requires x in Contents()
      reads this
      ensures At(i, x)
    {
      var i: nat :| i < |Contents()| && Contents()[i] == x;
      i
    }

    /** A node stands at one place only. */
    lemma IndexUnique(i: nat, x: Node)
      requires Valid() && At(i, x)
      ensures IndexOf(x) == i
    {
      DistinctInorder(tree);
    }

    /** What the two methods return: the neighbours in order. */
    ghost function NextOf(x: Node): Node?
      requires x in Contents()
      reads this
    {
      if IndexOf(x) + 1 < |Contents()| then Contents()[IndexOf(x) + 1] else null
    }

    ghost function PreviousOf(x: Node): Node?
      requires x in Contents()
      reads this
    {
      if IndexOf(x) > 0 then Contents()[IndexOf(x) - 1] else null
    }

    /** The two undo each other; there is no next node only at the end, and no previous one only at the start. */
    lemma NeighboursInverse(x: Node, y: Node)
      requires Valid() && x in Contents() && y in Contents()
      ensures NextOf(x) == y <==> PreviousOf(y) == x
      ensures NextOf(x) == null <==> x == Contents()[|Contents()| - 1]
      ensures PreviousOf(x) == null <==> x == Contents()[0]
    {
      hide Valid;
      if NextOf(x) == y { IndexUnique(IndexOf(x) + 1, y); }
      if PreviousOf(y) == x { IndexUnique(IndexOf(y) - 1, x); }
      IndexUnique(|Contents()| - 1, Contents()[|Contents()| - 1]);
      IndexUnique(0, Contents()[0]);
    }

    lemma LocateHere(x: Node) returns (c: Context, t: Tree)
      requires Valid() && x in Contents()
      ensures Plug(c, t) == tree && t.Branch? && t.node == x && Agrees(c, t, root, nil, Snapshot(repr), Reds(repr))
    {
      InorderNodes(tree, x);
      var at := Locate(Top, tree, x);
      c, t := at.0, at.1;
      AgreesPlug(c, t, root, nil, Snapshot(repr), Reds(repr));
    }

    /** The loop that follows left links from `y0` to the smallest node of its subtree. */
    method LeftmostBelow(y0: Node, ghost c0: Context, ghost t0: Tree) returns (y: Node, ghost c: Context, ghost t: Tree)
      requires Valid() && Plug(c0, t0) == tree && t0.Branch? && y0 == t0.node
      ensures Plug(c, t) == tree && t.Branch? && t.left.Leaf? && y == t.node && Before(c) == Before(c0)
      ensures forall base, z, zred, zleft ::
              RightSpine(c0, base, z, zred, zleft) && z !in Nodes(t0) ==> RightSpine(c, base, z, zred, zleft)
    {
      y, c, t := y0, c0, t0;
      AgreesPlug(c, t, root, nil, Snapshot(repr), Reds(repr));
      NodeHere(repr, c, t);
      while y.left != nil
        invariant Plug(c, t) == tree && Agrees(c, t, root, nil, Snapshot(repr), Reds(repr))
        invariant t.Branch? && y == t.node && y.left == TopOf(t.left, nil) && Before(c) == Before(c0)
        invariant Nodes(t) <= Nodes(t0)
        invariant forall base, z, zred, zleft ::
                  RightSpine(c0, base, z, zred, zleft) && z !in Nodes(t0) ==> RightSpine(c, base, z, zred, zleft)
        decreases t
      {
        c, t := Under(c, Left, t.node, t.red, t.right), t.left;
        AgreesUp(c, t, root, nil, Snapshot(repr), Reds(repr));
        NodeHere(repr, c, t);
        y := y.left;
      }
      LeafTop(repr, c, t);
    }

    lemma LeafTop(s: set<Node>, c: Context, t: Tree)
      requires t.Branch? && Agrees(c, t, root, nil, Snapshot(s), Reds(s))
      ensures TopOf(t.left, nil) == nil <==> t.left.Leaf?
      ensures TopOf(t.right, nil) == nil <==> t.right.Leaf?
    {
      assert t.left.Branch? ==> t.left.node in Nodes(t.left);
      assert t.right.Branch? ==> t.right.node in Nodes(t.right);
    }

    /** The loop that follows parent links while coming from a right child. */
    method ClimbFromRight(x0: Node, ghost c0: Context, ghost t0: Tree) returns (y: Node, ghost c: Context,
        ghost t: Tree)
      requires Valid() && Plug(c0, t0) == tree && t0.Branch? && x0 == t0.node
      ensures Plug(c, t) == tree && y == Owner(c, root) && After(c) == After(c0) && (c.Under? ==> c.side.Left?)
      ensures y == root <==> c.Top?
    {
      var x := x0;
      c, t := c0, t0;
      AgreesPlug(c, t, root, nil, Snapshot(repr), Reds(repr));
      ParentHere(repr, c, t);
      y := x.parent;
      while x == y.right
        invariant Plug(c, t) == tree && Agrees(c, t, root, nil, Snapshot(repr), Reds(repr))
        invariant t.Branch? && x == t.node && y == Owner(c, root) && After(c) == After(c0)
        decreases Depth(c)
      {
        ParentHere(repr, c, t);
        AgreesUp(c, t, root, nil, Snapshot(repr), Reds(repr));
        c, t := c.up, Lifted(c, t);
        ParentHere(repr, c, t);
        x := y;
        y := y.parent;
      }
      ParentHere(repr, c, t);
    }

    /** getSuccessorOf for a node at a known position; `(c, t)` is the position of a successor below. */
    method SuccessorFrom(x: Node, ghost c0: Context, ghost t0: Tree) returns (r: Node?, ghost c: Context, ghost t: Tree)
      requires Valid() && Plug(c0, t0) == tree && t0.Branch? && x == t0.node
      ensures r == if Inorder(t0.right) + After(c0) == [] then null else (Inorder(t0.right) + After(c0))[0]
      ensures t0.right.Branch? ==> Plug(c, t) == tree && t.Branch? && t.left.Leaf? && r == t.node &&
                                   RightSpine(c, c0, x, t0.red, t0.left)
    {
      AgreesPlug(c0, t0, root, nil, Snapshot(repr), Reds(repr));
      NodeHere(repr, c0, t0);
      LeafTop(repr, c0, t0);
      var y: Node := x.right;
      if nil != y {
        ghost var below := Under(c0, Right, t0.node, t0.red, t0.left);
        y, c, t := LeftmostBelow(y, below, t0.right);
        LeftmostFirst(below, t0.right, c, t);
        r := y;
      } else {
        y, c, t := ClimbFromRight(x, c0, t0);
        assert Inorder(t0.right) + After(c0) == After(c);
        r := if y == root then null else y;
      }
    }

    /** The next node in order, or null at the end. */
    method GetSuccessorOf(x: Node) returns (r: Node?)
      requires Valid() && x in Contents()
      ensures r == NextOf(x)
    {
      ghost var c0, t0 := LocateHere(x);
      ghost var c, t;
      r, c, t := SuccessorFrom(x, c0, t0);
      ghost var before, after := AroundNode(c0, t0);
      IndexUnique(|before|, x);
    }

    lemma ParentHere(s: set<Node>, c: Context, t: Tree)
      requires t.Branch? && Agrees(c, t, root, nil, Snapshot(s), Reds(s))
      ensures t.node in s && t.node.parent == Owner(c, root) && Owner(c, root) in s && Owner(c, root) != nil
      ensures c.Under? ==> c.node != root
      ensures Owner(c, root).right == t.node <==> c.Under? && c.side.Right?
      ensures Owner(c, root).left == t.node <==> c.Top? || c.side.Left?
    {
      var m := Snapshot(s);
      AgreesHere(c, t, root, nil, m, Reds(s));
      var o := Owner(c, root);
      assert m[o] == Link(o.left, o.right, o.parent);
      assert m[t.node] == Link(t.node.left, t.node.right, t.node.parent);
      if c.Under? && c.sibling.Leaf? { assert TopOf(c.sibling, nil) == nil; }
    }
  
    method RightmostBelow(y0: Node, ghost c0: Context, ghost t0: Tree) returns (y: Node, ghost c: Context,
        ghost t: Tree)
      requires Valid() && Plug(c0, t0) == tree && t0.Branch? && y0 == t0.node
      ensures Plug(c, t) == tree && t.Branch? && t.right.Leaf? && y == t.node && After(c) == After(c0)
    {
      y, c, t := y0, c0, t0;
      AgreesPlug(c, t, root, nil, Snapshot(repr), Reds(repr));
      NodeHere(repr, c, t);
      while y.right != nil
        invariant Plug(c, t) == tree && Agrees(c, t, root, nil, Snapshot(repr), Reds(repr))
        invariant t.Branch? && y == t.node && y.right == TopOf(t.right, nil) && After(c) == After(c0)
        decreases t
      {
        c, t := Under(c, Right, t.node, t.red, t.left), t.right;
        AgreesUp(c, t, root, nil, Snapshot(repr), Reds(repr));
        NodeHere(repr, c, t);
        y := y.right;
      }
      LeafTop(repr, c, t);
    }

    /** The loop that follows parent links while coming from a left child; it ends at a right child's
        parent, or returns null once it stands below the root sentinel. */
    method ClimbFromLeft(x0: Node, ghost c0: Context, ghost t0: Tree) returns (r: Node?, ghost c: Context,
        ghost t: Tree)
      requires Valid() && Plug(c0, t0) == tree && t0.Branch? && x0 == t0.node
      ensures Plug(c, t) == tree && Before(c) == Before(c0)
      ensures if r == null then c.Top? else c.Under? && c.side.Right? && r == c.node
    {
      var x := x0;
      c, t := c0, t0;
      AgreesPlug(c, t, root, nil, Snapshot(repr), Reds(repr));
      ParentHere(repr, c, t);
      var y: Node := x.parent;
      while x == y.left
        invariant Plug(c, t) == tree && Agrees(c, t, root, nil, Snapshot(repr), Reds(repr))
        invariant t.Branch? && x == t.node && y == Owner(c, root) && Before(c) == Before(c0)
        decreases Depth(c)
      {
        ParentHere(repr, c, t);
        if y == root {
          return null, c, t;
        }
        AgreesUp(c, t, root, nil, Snapshot(repr), Reds(repr));
        c, t := c.up, Lifted(c, t);
        ParentHere(repr, c, t);
        x := y;
        y := y.parent;
      }
      ParentHere(repr, c, t);
      r := y;
    }

    /** The previous node in order, or null at the start. */
    method GetPredecessorOf(x: Node) returns (r: Node?)
      requires Valid() && x in Contents()
      ensures r == PreviousOf(x)
    {
      ghost var c0, t0 := LocateHere(x);
      ghost var before, after := AroundNode(c0, t0);
      IndexUnique(|before|, x);
      NodeHere(repr, c0, t0);
      LeafTop(repr, c0, t0);
      ghost var c, t;
      var y: Node := x.left;
      if nil != y {
        ghost var below := Under(c0, Left, t0.node, t0.red, t0.right);
        y, c, t := RightmostBelow(y, below, t0.left);
        RightmostLast(below, t0.left, c, t);
        r := y;
      } else {
        r, c, t := ClimbFromLeft(x, c0, t0);
      }
    }

    /** A node with the key exactly if there is one; `steps` counts the rounds of the loop, of which there are at most
        2 log2(n + 1). */
    method Find(key: int) returns (r: Node?, ghost steps: nat)
      requires Valid()
      ensures r != null ==> r in Contents() && r.key == key
      ensures r == null ==> forall n :: n in Contents() ==> n.key != key
      ensures Pow2(steps) <= (|Contents()| + 1) * (|Contents()| + 1)
    {
      hide *;
      ghost var c, t := Top, tree;
      steps := 0;
      r := null;
      FindingStart(key);
      var node: Node := TopNode(repr, c, t);
      while node != nil
        invariant r == null && Finding(c, t, node, key, steps)
        decreases t
      {
        FindingHere(c, t, node, key, steps);
        steps := steps + 1;
        if node.key == key {
          r := node;
          break;
        }
        node := if node.key > key then node.left else node.right;
        c, t := FindingStep(c, t, key, steps - 1);
      }
      if r == null { FindingNone(c, t, key, steps); }
    }

    /** The search for a key has come to `node`, which is at the position, in `steps` steps. */
    ghost predicate Finding(c: Context, t: Tree, node: Node, key: int, steps: nat)
      reads this, root, nil, repr
    {
      Valid() && Plug(c, t) == tree && Agrees(c, t, root, nil, Snapshot(repr), Reds(repr)) && node == TopOf(t, nil) &&
        Narrowed(c, key) && steps == Depth(c)
    }

    lemma FindingStart(key: int)
      requires Valid()
      ensures Finding(Top, tree, TopOf(tree, nil), key, 0) && Agrees(Top, tree, root, nil, Snapshot(repr), Reds(repr))
      ensures Plug(Top, tree) == tree
    {
      hide Agrees;
      NodeHere(repr, Top, tree);
    }

    lemma FindingHere(c: Context, t: Tree, node: Node, key: int, steps: nat)
      requires Finding(c, t, node, key, steps) && node != nil
      ensures t.Branch? && t.node == node && node.left == TopOf(t.left, nil) && node.right == TopOf(t.right, nil)
      ensures node in Contents()
      ensures Pow2(steps + 1) <= (|Contents()| + 1) * (|Contents()| + 1)
    {
      hide Agrees;
      NodeHere(repr, c, t);
      assert t.Branch?;
      ghost var before, after := AroundNode(c, t);
      DepthLogarithmic(c, t);
    }

    lemma FindingStep(c: Context, t: Tree, key: int, steps: nat) returns (c': Context, t': Tree)
      requires t.Branch? && Finding(c, t, t.node, key, steps) && t.node.key != key
      ensures t' == (if t.node.key > key then t.left else t.right)
      ensures Finding(c', t', TopOf(t', nil), key, steps + 1)
    {
      hide Agrees;
      c', t' := NarrowStep(c, t, key);
      AgreesPlug(c', t', root, nil, Snapshot(repr), Reds(repr));
      AgreesPlug(c, t, root, nil, Snapshot(repr), Reds(repr));
    }

    lemma FindingNone(c: Context, t: Tree, key: int, steps: nat)
      requires Finding(c, t, nil, key, steps)
      ensures forall n :: n in Contents() ==> n.key != key
      ensures Pow2(steps) <= (|Contents()| + 1) * (|Contents()| + 1)
    {
      hide Agrees;
      NodeHere(repr, c, t);
      PlugInorder(c, t);
      DepthLogarithmic(c, t);
    }
  
    // ---------------------------------------------------------------- removal

    /** Lines 480-494 of remove: `x` takes the place of its parent `y`, also when `x` is nil. */
    method SpliceOut(y: Node, x: Node, ghost s: set<Node>, ghost c: Context, ghost t: Tree, ghost xt: Tree)
      requires Agrees(c, t, root, nil, Snapshot(s), Reds(s)) && nil !in s && t.Branch? && y == t.node
      requires x == TopOf(xt, nil)
      requires (t.left.Leaf? && xt == t.right) || (t.right.Leaf? && xt == t.left)
      modifies s`left, s`right, s`parent, nil`parent
      ensures Agrees(c, xt, root, nil, Snapshot(s), Reds(s)) && x.parent == Owner(c, root)
    {
      hide Agrees, Reds;
      ghost var m, reds := Snapshot(s), Reds(s);
      NodeHere(s, c, t);
      ParentHere(s, c, t);
      SpliceApart(s, c, t, xt);
      assert m[Owner(c, root)] == Link(Owner(c, root).left, Owner(c, root).right, Owner(c, root).parent);
      x.parent := y.parent;
      if root == x.parent {
        root.left := x;
      } else if y == y.parent.left {
        y.parent.left := x;
      } else {
        y.parent.right := x;
      }
      AgreesSplice(c, t, xt, root, nil, m, Snapshot(s), reds);
    }

    lemma SpliceApart(s: set<Node>, c: Context, t: Tree, x: Tree)
      requires Agrees(c, t, root, nil, Snapshot(s), Reds(s)) && t.Branch?
      requires (t.left.Leaf? && x == t.right) || (t.right.Leaf? && x == t.left)
      ensures t.node != Owner(c, root) && TopOf(x, nil) != Owner(c, root) && TopOf(x, nil) != t.node
      ensures x.Branch? ==> x.node in s
      ensures c.Top? <==> Owner(c, root) == root
    {
      AgreesHere(c, t, root, nil, Snapshot(s), Reds(s));
      assert x.Branch? ==> x.node in Nodes(x);
      if x.Branch? { TreeKnown(t, Owner(c, root), nil, Snapshot(s)); }
    }
  
    /** z's links and neighbours while `t` stands at the end of the spine below it. */
    lemma SpineHere(s: set<Node>, c: Context, t: Tree, base: Context, z: Node, zred: bool, zleft: Tree, y: Node)
      returns (r: Tree)
      requires RightSpine(c, base, z, zred, zleft) && zleft.Branch? && Agrees(c, t, root, nil, Snapshot(s), Reds(s))
      requires y in s && y !in Nodes(t) + ContextNodes(c) && y != root && nil !in s
      ensures z in s && z != y && z != root && (z.isRed <==> zred)
      ensures z.left == zleft.node && zleft.node in s && z.right == TopOf(r, nil) && z.parent == Owner(base, root)
      ensures z.parent in s && z.parent !in {z, z.left, z.right, y} && z.left !in {z, z.right, y} && z.right !in {z, y}
      ensures r.Branch? ==> r.node in s
      ensures if c == Under(base, Right, z, zred, zleft) then r == t && Owner(Substituted(c, z, y), root) == y
              else r.Branch? && Owner(Substituted(c, z, y), root) == Owner(c, root)
      ensures base.Under? ==> (base.side.Left? <==> z.parent.left == z)
    {
      var m, reds := Snapshot(s), Reds(s);
      r := SpineAgrees(c, t, base, z, zred, zleft, root, nil, m, reds);
      var zt := Branch(zleft, z, zred, r);
      AgreesHere(base, zt, root, nil, m, reds);
      assert m[z] == Link(z.left, z.right, z.parent);
      assert m[Owner(base, root)] == Link(Owner(base, root).left, Owner(base, root).right, Owner(base, root).parent);
      assert zleft.node in Nodes(zleft) && (r.Branch? ==> r.node in Nodes(r));
      TreeKnown(zt, Owner(base, root), nil, m);
      assert Owner(base, root) == root || Owner(base, root) in ContextNodes(base);
    }

    /** Lines 503-515 of remove: `y` takes over the links of `z`. */
    method MoveInto(z: Node, y: Node, ghost s: set<Node>)
      requires z in s && y in s && z != y && nil !in s
      requires z.left != null && z.right != null && z.parent != null
      requires z.left in s && (z.right in s || z.right == nil) && z.parent in s
      requires z.parent !in {z, z.left, z.right, y} && z.left !in {z, z.right, y} && z.right !in {z, y}
      modifies s`left, s`right, s`parent, nil`parent
      ensures TakesPlace(old(Snapshot(s)), Snapshot(s), z, y, nil)
      ensures nil.parent == if old(z.right) == nil then y else old(nil.parent)
    {
      y.left := z.left;
      y.right := z.right;
      y.parent := z.parent;
      z.right.parent := y;
      z.left.parent := y;
      if z == z.parent.left {
        z.parent.left := y;
      } else {
        z.parent.right := y;
      }
    }

    method TakePlace(z: Node, y: Node, x: Node, ghost s: set<Node>, ghost c: Context, ghost t: Tree,
        ghost base: Context, ghost zred: bool, ghost zleft: Tree)
      requires RightSpine(c, base, z, zred, zleft) && zleft.Branch? && Agrees(c, t, root, nil, Snapshot(s), Reds(s))
      requires y in s && y !in Nodes(t) + ContextNodes(c) && y != root && nil !in s
      requires x == TopOf(t, nil) && x.parent == Owner(c, root)
      modifies s`left, s`right, s`parent, nil`parent
      ensures Agrees(Substituted(c, z, y), t, root, nil, Snapshot(s), Recoloured(old(Reds(s)), y, zred))
      ensures x == nil ==> x.parent == Owner(Substituted(c, z, y), root)
    {
      hide Agrees, Reds, Snapshot, RightSpine, Substituted, TakesPlace;
      ghost var m, reds := Snapshot(s), Reds(s);
      ghost var r := SpineHere(s, c, t, base, z, zred, zleft, y);
      MoveInto(z, y, s);
      TakesPlaceAgrees(c, t, base, z, zred, zleft, y, root, nil, m, Snapshot(s), reds);
    }
  
    /** The position from which the fix-up starts, or which is complete when `y` was red. */
    lemma SpliceState(c: Context, t: Tree, xt: Tree)
      requires Valid() && Plug(c, t) == tree && t.Branch?
      requires (t.left.Leaf? && xt == t.right) || (t.right.Leaf? && xt == t.left)
      ensures if t.red then Complete(c, xt) else DeletePending(c, xt)
      ensures Agrees(c, t, root, nil, Snapshot(repr), Reds(repr)) && t.node !in Nodes(xt) + ContextNodes(c)
    {
      PlugRedBlack(c, t);
      SplicePending(c, t, xt);
      AgreesPlug(c, t, root, nil, Snapshot(repr), Reds(repr));
      SplicedApart(c, t, xt);
    }

    /** remove when `z` has at most one child: `z` is spliced out itself. */
    method RemoveOuter(z: Node, x: Node, ghost s: set<Node>, ghost c0: Context, ghost t0: Tree)
      returns (ghost c: Context, ghost t: Tree)
      requires Valid() && s == repr && Plug(c0, t0) == tree && t0.Branch? && t0.node == z
      requires (t0.left.Leaf? && x == TopOf(t0.right, nil)) || (t0.right.Leaf? && x == TopOf(t0.left, nil))
      modifies s, nil
      ensures DeleteDone(c, t, s, (Before(c0) + Inorder(t0.left)) + (Inorder(t0.right) + After(c0)))
    {
      hide Agrees, Snapshot, Reds;
      ghost var xt := if t0.left.Leaf? && x == TopOf(t0.right, nil) then t0.right else t0.left;
      SpliceState(c0, t0, xt);
      RemovedOuter(c0, t0, xt);
      NodeHere(s, c0, t0);
      SpliceOut(z, x, s, c0, t0, xt);
      c, t := c0, xt;
      if !z.isRed {
        c, t := DeleteFixUp(x, s, c, t, (Before(c0) + Inorder(t0.left)) + (Inorder(t0.right) + After(c0)));
      }
    }

    /** remove when `z` has two children: its successor `y` is spliced out and takes its place. */
    method RemoveInner(z: Node, y: Node, x: Node, ghost s: set<Node>, ghost base: Context, ghost zt: Tree,
        ghost c0: Context, ghost t0: Tree)
      returns (ghost c: Context, ghost t: Tree)
      requires Valid() && s == repr && Plug(base, zt) == tree && zt.Branch? && zt.node == z && zt.left.Branch?
      requires Plug(c0, t0) == tree && t0.Branch? && t0.left.Leaf? && t0.node == y
      requires RightSpine(c0, base, z, zt.red, zt.left) && x == TopOf(t0.right, nil)
      modifies s, nil
      ensures DeleteDone(c, t, s, (Before(base) + Inorder(zt.left)) + (Inorder(zt.right) + After(base)))
    {
      hide Agrees, Snapshot, Reds, RightSpine, Substituted, RedBlackContext, Sorted, Recoloured, Nodes;
      ghost var xt := t0.right;
      SpliceState(c0, t0, xt);
      RemovedInner(base, zt, c0, t0, z, y);
      NodeHere(s, c0, t0);
      SpliceOut(y, x, s, c0, t0, xt);
      ghost var r := SpineHere(s, c0, xt, base, z, zt.red, zt.left, y);
      TakePlace(z, y, x, s, c0, xt, base, zt.red, zt.left);
      c, t := Substituted(c0, z, y), xt;
      SubstitutedContext(c0, z, y, BlackHeight(xt), IsRed(xt));
      SubstitutedContext(c0, z, y, BlackHeight(xt) + 1, false);
      var wasRed := y.isRed;
      Paint(y, z.isRed, s);
      NodeHere(s, c, t);
      if !wasRed {
        c, t := DeleteFixUp(x, s, c, t, (Before(base) + Inorder(zt.left)) + (Inorder(zt.right) + After(base)));
      }
    }
  
    /** Takes `z` out of the tree, or does nothing if `z` is not linked into a tree. */
    method Remove(z: Node) returns (ghost k: nat)
      requires Valid() && z != root && z != nil
      requires z in repr || z.left == null || z.right == null || z.parent == null
      modifies this`tree, this`repr, repr, nil
      ensures Valid()
      ensures z in old(repr) ==> k < |old(Contents())| && old(Contents())[k] == z &&
                                 Contents() == old(Contents())[..k] + old(Contents())[k + 1..]
      ensures z in old(repr) ==> repr == old(repr) - {z} && z.left == z.right == z.parent == null && !z.isRed
      ensures z !in old(repr) ==> Contents() == old(Contents()) && repr == old(repr)
    {
      hide Agrees, Snapshot, Reds, Sorted, RedBlack, Complete, RightSpine, Plug, Inorder, Nodes, Distinct;
      k := 0;
      if z.left == null || z.right == null || z.parent == null {
        assert z !in repr by { if z in repr { LinksHere(z); } }
        return;
      }
      ghost var s, zc, zt := repr, Top, Leaf;
      zc, zt := LocateNode(z);
      ghost var before, after := AroundNode(zc, zt);
      k := |before|;
      ghost var c, t := zc, zt;
      var y: Node := z;
      if !(z.left == nil || z.right == nil) {
        y, c, t := SuccessorFrom(z, zc, zt);
        AgreesPlug(c, t, root, nil, Snapshot(repr), Reds(repr));
      }
      NodeHere(repr, c, t);
      LeafTop(repr, c, t);
      var x: Node := if y.left == nil then y.right else y.left;
      if y != z {
        c, t := RemoveInner(z, y, x, s, zc, zt, c, t);
      } else {
        c, t := RemoveOuter(z, x, s, c, t);
      }
      FinishRemoval(z, s, c, t, before, after);
    }

    lemma LinksHere(z: Node)
      requires Valid() && z in repr && z != root
      ensures z.left != null && z.right != null && z.parent != null
    {
      var at := Locate(Top, tree, z);
      AgreesPlug(at.0, at.1, root, nil, Snapshot(repr), Reds(repr));
      NodeHere(repr, at.0, at.1);
    }

    lemma LocateNode(z: Node) returns (c: Context, t: Tree)
      requires Valid() && z in repr && z != root
      ensures Plug(c, t) == tree && t.Branch? && t.node == z && Agrees(c, t, root, nil, Snapshot(repr), Reds(repr))
      ensures z.left == TopOf(t.left, nil) && z.right == TopOf(t.right, nil)
      ensures t.left.Leaf? <==> z.left == nil
      ensures t.right.Leaf? <==> z.right == nil
      ensures Distinct(tree)
    {
      var at := Locate(Top, tree, z);
      c, t := at.0, at.1;
      AgreesPlug(c, t, root, nil, Snapshot(repr), Reds(repr));
      NodeHere(repr, c, t);
      LeafTop(repr, c, t);
    }

    /** Lines 536-539 of remove. */
    method ClearNode(z: Node, ghost s: set<Node>)
      modifies z
      ensures z.left == z.right == z.parent == null && !z.isRed
      ensures Snapshot(s - {z}) == old(Snapshot(s)) - {z} && Reds(s - {z}) == old(Reds(s)) - {z}
    {
      z.parent := null;
      z.left := null;
      z.right := null;
      z.isRed := false;
    }

    /** The tree is complete without `z`. */
    method FinishRemoval(z: Node, ghost s: set<Node>, ghost c: Context, ghost t: Tree, ghost before: seq<Node>,
        ghost after: seq<Node>)
      requires DeleteDone(c, t, s, before + after) && Inorder(tree) == before + [z] + after && Distinct(tree)
      requires Sorted(Inorder(tree)) && s == {root} + Nodes(tree) && z != root
      modifies this`tree, this`repr, z
      ensures Valid() && repr == s - {z} && Contents() == before + after
      ensures z.left == z.right == z.parent == null && !z.isRed
    {
      hide Agrees, Snapshot, Reds, RedBlack, Distinct, Sorted, Complete, Plug, Inorder, Nodes;
      CompleteWithout(z, s, c, t, before, after);
      ClearNode(z, s);
      tree := Plug(c, t);
      repr := s - {z};
    }

    lemma CompleteWithout(z: Node, s: set<Node>, c: Context, t: Tree, before: seq<Node>, after: seq<Node>)
      requires DeleteDone(c, t, s, before + after) && Inorder(tree) == before + [z] + after && Distinct(tree)
      requires Sorted(Inorder(tree)) && s == {root} + Nodes(tree) && z != root
      ensures RedBlack(Plug(c, t)) && !IsRed(Plug(c, t)) && Sorted(before + after) && z in s
      ensures Agrees(Top, Plug(c, t), root, nil, Snapshot(s) - {z}, Reds(s) - {z})
      ensures s - {z} == {root} + Nodes(Plug(c, t))
    {
      hide Agrees, Snapshot, Reds, Sorted, Inorder, Distinct, RedBlack, Plug, Nodes;
      var whole := Plug(c, t);
      PlugRedBlack(c, t);
      AgreesPlug(c, t, root, nil, Snapshot(s), Reds(s));
      SortedRemove(before, z, after);
      RemovedNodes(tree, whole, before, z, after);
      AgreesForget(Top, whole, z, root, nil, Snapshot(s), Reds(s));
      InorderNodes(tree, z);
      assert (before + [z] + after)[|before|] == z;
      assert ContextNodes(Top) == {};
    }
  }
}
