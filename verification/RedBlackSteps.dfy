/** The steps of the fix-up loops of media/common/RedBlackTree.cpp as functions on positions: what each
    case makes of the tree, that it keeps the in-order sequence, what it does to the invariants, and
    which link and colour assignments produce it. `Side` covers the two mirrored halves at once. */
module RedBlackSteps {
  import opened RedBlackShape
  import opened RedBlackLinks

  /** The state of the insertion loop: the top of `t` is red and may have a red parent; nothing else
      violates the red-black invariants. */
  ghost predicate InsertPending(c: Context, t: Tree) {
    IsRed(t) && RedBlack(t) && RedBlackContext(c, BlackHeight(t), false)
  }

  /** A red parent of the pending node is not the top node. */
  lemma InsertGrandparent(c: Context, t: Tree)
    requires InsertPending(c, t) && c.Under? && c.red
    ensures c.up.Under? && !c.up.red
  {
    assert RedBlackContext(c.up, BlackHeight(t), true);
  }

  function Lifted(c: Context, t: Tree): Tree
    requires c.Under?
  {
    Join(t, c.side, c.node, c.red, c.sibling)
  }

  lemma SameInorder(c: Context, t: Tree, t': Tree)
    requires Inorder(t) == Inorder(t')
    ensures Inorder(Plug(c, t)) == Inorder(Plug(c, t'))
  {
    PlugInorder(c, t);
    PlugInorder(c, t');
  }

  lemma Middle(t: Tree)
    requires t.Branch?
    ensures Inorder(t) == Inorder(t.left) + [t.node] + Inorder(t.right)
  {
  }

  lemma Regrouped(a: seq<Node>, l: seq<Node>, n: Node, r: seq<Node>, b: seq<Node>)
    ensures a + (l + [n] + r) + b == (a + l) + [n] + (r + b)
    ensures [n] + (r + b) == [n] + r + b
  {
  }

  /** A node's key bounds those before and after it. */
  lemma KeysAround(a: seq<Node>, n: Node, b: seq<Node>, key: int)
    requires Sorted(a + [n] + b)
    ensures n.key > key ==> AllAbove([n] + b, key)
    ensures n.key <= key ==> AllAtMost(a + [n], key)
    ensures n.key < key ==> forall i :: 0 <= i < |a + [n]| ==> (a + [n])[i].key < key
  {
    var s := a + [n] + b;
    assert s[|a|] == n;
    assert forall i :: 0 <= i < |[n] + b| ==> ([n] + b)[i] == s[|a| + i];
    assert forall i :: 0 <= i < |a + [n]| ==> (a + [n])[i] == s[i];
  }

  /** Going down to the side that the search key asks for keeps the nodes before the position at most
      as large as the key and the nodes after it larger. */
  lemma DescendOrder(c: Context, t: Tree, key: int)
    requires t.Branch? && Sorted(Before(c) + Inorder(t) + After(c))
    requires AllAtMost(Before(c), key) && AllAbove(After(c), key)
    ensures t.node.key > key ==> AllAbove([t.node] + Inorder(t.right) + After(c), key)
    ensures t.node.key <= key ==> AllAtMost(Before(c) + Inorder(t.left) + [t.node], key)
  {
    hide *;
    Middle(t);
    Regrouped(Before(c), Inorder(t.left), t.node, Inorder(t.right), After(c));
    KeysAround(Before(c) + Inorder(t.left), t.node, Inorder(t.right) + After(c), key);
  }

  /** The search for the place of `key` has come to position `c`, with `t` below it. */
  ghost predicate Searching(c: Context, t: Tree, whole: Tree, key: int) {
    Plug(c, t) == whole && AllAtMost(Before(c), key) && AllAbove(After(c), key) &&
    (c.Under? ==> (c.side.Left? <==> c.node.key > key))
  }

  lemma SearchStep(c: Context, t: Tree, whole: Tree, key: int, root: Node, nil: Node, m: LinkMap, reds: set<Node>)
    returns (c': Context, t': Tree)
    requires t.Branch? && Searching(c, t, whole, key) && Sorted(Inorder(whole)) && Agrees(c, t, root, nil, m, reds)
    ensures Searching(c', t', whole, key) && Agrees(c', t', root, nil, m, reds)
    ensures Owner(c', root) == t.node && t' == (if t.node.key > key then t.left else t.right)
  {
    PlugInorder(c, t);
    DescendOrder(c, t, key);
    if t.node.key > key {
      c', t' := Under(c, Left, t.node, t.red, t.right), t.left;
    } else {
      c', t' := Under(c, Right, t.node, t.red, t.left), t.right;
    }
    AgreesUp(c', t', root, nil, m, reds);
  }

  // ------------------------------------------------------------------ insertion steps

  /** Two trees whose sequences differ by `z` have node sets that differ by `z`. */
  lemma InsertedNodes(t: Tree, t': Tree, before: seq<Node>, z: Node, after: seq<Node>)
    requires Inorder(t) == before + after && Inorder(t') == before + [z] + after
    ensures Nodes(t') == Nodes(t) + {z}
  {
    forall n | n in Nodes(t') ensures n in Nodes(t) + {z} {
      InorderNodes(t, n);
      InorderNodes(t', n);
    }
    forall n | n in Nodes(t) + {z} ensures n in Nodes(t') {
      InorderNodes(t, n);
      InorderNodes(t', n);
    }
  }

  /** A new red node in place of an empty subtree is pending. */
  lemma PlacedPending(c: Context, z: Node, whole: Tree)
    requires Plug(c, Leaf) == whole && RedBlack(whole) && !IsRed(whole)
    ensures InsertPending(c, Branch(Leaf, z, true, Leaf))
    ensures Inorder(whole) == Before(c) + After(c)
    ensures Inorder(Plug(c, Branch(Leaf, z, true, Leaf))) == Before(c) + [z] + After(c)
  {
    PlugRedBlack(c, Leaf);
    PlugInorder(c, Leaf);
    PlugInorder(c, Branch(Leaf, z, true, Leaf));
  }

  /** A pending node without a red parent violates nothing once the top node is coloured black. */
  lemma PendingSettled(c: Context, t: Tree)
    requires InsertPending(c, t) && (c.Under? ==> !c.red)
    ensures var whole := Plug(c, t);
            whole.Branch? && RedBlack(whole.(red := false)) && Inorder(whole.(red := false)) == Inorder(whole)
  {
    PlugBranch(c, t);
    if c.Under? {
      PlugRedBlack(c, t);
      var whole := Plug(c, t);
      assert whole.(red := false) == whole;
    }
  }

  lemma {:induction false} PlugBranch(c: Context, t: Tree)
    requires t.Branch?
    ensures Plug(c, t).Branch?
    decreases c
  {
    if c.Under? { PlugBranch(c.up, Lifted(c, t)); }
  }

  /** Red parent, red uncle: parent and uncle turn black, the grandparent turns red and is pending. */
  function Recolouring(c: Context, t: Tree): Tree
    requires c.Under? && c.up.Under? && c.up.sibling.Branch?
  {
    Join(Join(t, c.side, c.node, false, c.sibling), c.up.side, c.up.node, true, c.up.sibling.(red := false))
  }

  lemma RecolouringPending(c: Context, t: Tree)
    requires InsertPending(c, t) && c.Under? && c.red && c.up.Under? && IsRed(c.up.sibling)
    ensures InsertPending(c.up.up, Recolouring(c, t))
  {
    assert RedBlackContext(c.up, BlackHeight(t), true);
  }

  lemma RecolouringInorder(c: Context, t: Tree)
    requires c.Under? && c.up.Under? && c.up.sibling.Branch?
    ensures Inorder(Plug(c.up.up, Recolouring(c, t))) == Inorder(Plug(c, t))
  {
    assert Inorder(c.up.sibling.(red := false)) == Inorder(c.up.sibling);
    assert Inorder(Join(t, c.side, c.node, false, c.sibling)) == Inorder(Lifted(c, t));
    SameInorder(c.up.up, Recolouring(c, t), Lifted(c.up, Lifted(c, t)));
  }

  lemma RecolouringAgrees(c: Context, t: Tree, root: Node, nil: Node, m: LinkMap, reds: set<Node>)
    requires c.Under? && c.up.Under? && c.up.sibling.Branch?
    requires Agrees(c, t, root, nil, m, reds)
    ensures Agrees(c.up.up, Recolouring(c, t), root, nil, m,
                   Recoloured(Recoloured(Recoloured(reds, c.node, false), c.up.sibling.node, false), c.up.node, true))
  {
    hide Agrees;
    var p, g, u := c.node, c.up, c.up.sibling;
    AgreesUp(c, t, root, nil, m, reds);
    AgreesRepaint(c.up, Lifted(c, t), false, root, nil, m, reds);
    var reds1 := Recoloured(reds, p, false);
    var pt := Join(t, c.side, p, false, c.sibling);
    AgreesUp(g, pt, root, nil, m, reds1);
    var onUncle := Under(g.up, Opposite(g.side), g.node, g.red, pt);
    AgreesUp(onUncle, u, root, nil, m, reds1);
    AgreesRepaint(onUncle, u, false, root, nil, m, reds1);
    var reds2 := Recoloured(reds1, u.node, false);
    AgreesUp(onUncle, u.(red := false), root, nil, m, reds2);
    AgreesRepaint(g.up, Lifted(onUncle, u.(red := false)), true, root, nil, m, reds2);
  }

  /** Inner grandchild: rotating the parent outwards leaves the parent pending, below the child. */
  function Straightened(c: Context, t: Tree): Context
    requires c.Under? && t.Branch?
  {
    Under(c.up, Opposite(c.side), t.node, t.red, if c.side.Left? then t.left else t.right)
  }

  function StraightTree(c: Context, t: Tree): Tree
    requires c.Under? && t.Branch?
  {
    Join(if c.side.Left? then t.right else t.left, c.side, c.node, c.red, c.sibling)
  }

  lemma StraightenedPending(c: Context, t: Tree)
    requires InsertPending(c, t) && c.Under? && c.red
    ensures InsertPending(Straightened(c, t), StraightTree(c, t))
    ensures Inorder(Plug(Straightened(c, t), StraightTree(c, t))) == Inorder(Plug(c, t))
  {
    RotatedInorder(Lifted(c, t), Opposite(c.side));
    assert Lifted(Straightened(c, t), StraightTree(c, t)) == Rotated(Lifted(c, t), Opposite(c.side));
    SameInorder(c.up, Lifted(c, t), Rotated(Lifted(c, t), Opposite(c.side)));
  }

  lemma StraightenedAgrees(c: Context, t: Tree, root: Node, nil: Node, m: LinkMap, reds: set<Node>)
    requires c.Under? && t.Branch? && Agrees(c, t, root, nil, m, reds)
    ensures Rotatable(m, c.node, Opposite(c.side), nil)
    ensures Agrees(Straightened(c, t), StraightTree(c, t), root, nil, Rotation(m, c.node, Opposite(c.side), nil), reds)
  {
    hide Agrees;
    AgreesUp(c, t, root, nil, m, reds);
    AgreesRotate(c.up, Lifted(c, t), Opposite(c.side), root, nil, m, reds);
    AgreesUp(Straightened(c, t), StraightTree(c, t), root, nil, Rotation(m, c.node, Opposite(c.side), nil), reds);
  }

  /** Outer grandchild: the parent turns black, the grandparent red and is rotated below the parent. */
  function Settled(c: Context): Context
    requires c.Under? && c.up.Under?
  {
    Under(c.up.up, c.side, c.node, false, Join(c.sibling, c.side, c.up.node, true, c.up.sibling))
  }

  lemma SettledPending(c: Context, t: Tree)
    requires InsertPending(c, t) && c.Under? && c.red && c.up.Under? && c.side == c.up.side && !IsRed(c.up.sibling)
    ensures InsertPending(Settled(c), t)
    ensures Inorder(Plug(Settled(c), t)) == Inorder(Plug(c, t))
  {
    assert RedBlackContext(c.up, BlackHeight(t), true);
    var g := Lifted(c.up, Lifted(c, t));
    RotatedInorder(g, Opposite(c.side));
    assert Inorder(Lifted(Settled(c), t)) == Inorder(Rotated(g, Opposite(c.side)));
    SameInorder(c.up.up, Lifted(Settled(c), t), g);
  }

  lemma SettledAgrees(c: Context, t: Tree, root: Node, nil: Node, m: LinkMap, reds: set<Node>)
    requires c.Under? && c.up.Under? && c.side == c.up.side && Agrees(c, t, root, nil, m, reds)
    ensures Rotatable(m, c.up.node, Opposite(c.side), nil)
    ensures Agrees(Settled(c), t, root, nil, Rotation(m, c.up.node, Opposite(c.side), nil),
                   Recoloured(Recoloured(reds, c.node, false), c.up.node, true))
  {
    hide Agrees;
    AgreesUp(c, t, root, nil, m, reds);
    AgreesRepaint(c.up, Lifted(c, t), false, root, nil, m, reds);
    var reds1 := Recoloured(reds, c.node, false);
    var pt := Join(t, c.side, c.node, false, c.sibling);
    AgreesUp(c.up, pt, root, nil, m, reds1);
    AgreesRepaint(c.up.up, Lifted(c.up, pt), true, root, nil, m, reds1);
    var reds2 := Recoloured(reds1, c.up.node, true);
    var gt := Join(pt, c.side, c.up.node, true, c.up.sibling);
    AgreesRotate(c.up.up, gt, Opposite(c.side), root, nil, m, reds2);
    var m' := Rotation(m, c.up.node, Opposite(c.side), nil);
    assert Rotated(gt, Opposite(c.side)) == Lifted(Settled(c), t);
    AgreesUp(Settled(c), t, root, nil, m', reds2);
  }

  // ------------------------------------------------------------------ deletion steps

  function Blackened(t: Tree): Tree {
    if t.Branch? then t.(red := false) else t
  }

  /** The state of the deletion loop: the paths through `t` lack one black node, which colouring its
      top black supplies if that top is red; nothing else violates the red-black invariants. */
  ghost predicate DeletePending(c: Context, t: Tree) {
    RedBlack(Blackened(t)) && RedBlackContext(c, BlackHeight(t) + 1, false)
  }

  ghost predicate Complete(c: Context, t: Tree) {
    RedBlack(t) && RedBlackContext(c, BlackHeight(t), IsRed(t))
  }

  lemma ContextAllowsBlack(c: Context, h: nat, red: bool)
    requires RedBlackContext(c, h, red)
    ensures RedBlackContext(c, h, false)
  {
  }

  /** The loop ends at a red node or at the top node. */
  lemma DeleteSettled(c: Context, t: Tree)
    requires DeletePending(c, t) && (IsRed(t) || c.Top?)
    ensures Complete(c, Blackened(t))
  {
  }

  /** A pending black position has a sibling node. */
  lemma DeleteSibling(c: Context, t: Tree)
    requires DeletePending(c, t) && c.Under?
    ensures c.sibling.Branch?
  {
  }

  function Near(w: Tree, side: Side): Tree
    requires w.Branch?
  {
    if side.Left? then w.left else w.right
  }

  function Far(w: Tree, side: Side): Tree
    requires w.Branch?
  {
    if side.Left? then w.right else w.left
  }

  /** Red sibling: it moves up and turns black, the parent turns red. */
  function SiblingRaised(c: Context): Context
    requires c.Under? && c.sibling.Branch?
  {
    Under(Under(c.up, c.side, c.sibling.node, false, Far(c.sibling, c.side)), c.side, c.node, true,
      Near(c.sibling, c.side))
  }

  lemma SiblingRaisedPending(c: Context, t: Tree)
    requires DeletePending(c, t) && c.Under? && IsRed(c.sibling)
    ensures DeletePending(SiblingRaised(c), t) && SiblingRaised(c).sibling.Branch? && !IsRed(SiblingRaised(c).sibling)
    ensures Inorder(Plug(SiblingRaised(c), t)) == Inorder(Plug(c, t))
  {
    var p := Lifted(c, t);
    RotatedInorder(p, c.side);
    var w := Lifted(SiblingRaised(c).up, Lifted(SiblingRaised(c), t));
    assert Inorder(w) == Inorder(Rotated(p, c.side));
    SameInorder(c.up, w, p);
  }

  lemma SiblingRaisedAgrees(c: Context, t: Tree, root: Node, nil: Node, m: LinkMap, reds: set<Node>)
    requires c.Under? && c.sibling.Branch? && Agrees(c, t, root, nil, m, reds)
    ensures Rotatable(m, c.node, c.side, nil)
    ensures Agrees(SiblingRaised(c), t, root, nil, Rotation(m, c.node, c.side, nil),
                   Recoloured(Recoloured(reds, c.sibling.node, false), c.node, true))
  {
    hide Agrees;
    var reds1 := Recoloured(reds, c.sibling.node, false);
    SiblingRepaint(c, t, false, root, nil, m, reds);
    var c1 := c.(sibling := c.sibling.(red := false));
    AgreesUp(c1, t, root, nil, m, reds1);
    AgreesRepaint(c.up, Lifted(c1, t), true, root, nil, m, reds1);
    var reds2 := Recoloured(reds1, c.node, true);
    var p := Lifted(c1, t).(red := true);
    AgreesRotate(c.up, p, c.side, root, nil, m, reds2);
    var m' := Rotation(m, c.node, c.side, nil);
    assert Rotated(p, c.side) == Lifted(SiblingRaised(c).up, Lifted(SiblingRaised(c), t));
    AgreesUp(SiblingRaised(c), t, root, nil, m', reds2);
    AgreesUp(SiblingRaised(c).up, Lifted(SiblingRaised(c), t), root, nil, m', reds2);
  }

  /** The position of the sibling. */
  function OnSibling(c: Context, t: Tree): Context
    requires c.Under?
  {
    Under(c.up, Opposite(c.side), c.node, c.red, t)
  }

  lemma AgreesSibling(c: Context, t: Tree, root: Node, nil: Node, m: LinkMap, reds: set<Node>)
    requires c.Under?
    ensures Agrees(c, t, root, nil, m, reds) <==> Agrees(OnSibling(c, t), c.sibling, root, nil, m, reds)
  {
    hide Agrees;
    AgreesUp(c, t, root, nil, m, reds);
    AgreesUp(OnSibling(c, t), c.sibling, root, nil, m, reds);
    assert Lifted(c, t) == Lifted(OnSibling(c, t), c.sibling);
  }

  lemma SiblingRepaint(c: Context, t: Tree, red: bool, root: Node, nil: Node, m: LinkMap, reds: set<Node>)
    requires c.Under? && c.sibling.Branch? && Agrees(c, t, root, nil, m, reds)
    ensures Agrees(c.(sibling := c.sibling.(red := red)), t, root, nil, m, Recoloured(reds, c.sibling.node, red))
  {
    hide Agrees;
    AgreesSibling(c, t, root, nil, m, reds);
    AgreesRepaint(OnSibling(c, t), c.sibling, red, root, nil, m, reds);
    AgreesSibling(c.(sibling := c.sibling.(red := red)), t, root, nil, m, Recoloured(reds, c.sibling.node, red));
  }

  /** Black sibling with black children: it turns red and the parent becomes the pending position. */
  function SiblingReddened(c: Context, t: Tree): Tree
    requires c.Under? && c.sibling.Branch?
  {
    Join(t, c.side, c.node, c.red, c.sibling.(red := true))
  }

  lemma SiblingReddenedPending(c: Context, t: Tree)
    requires DeletePending(c, t) && !IsRed(t) && c.Under? && c.sibling.Branch? && !c.sibling.red
    requires !IsRed(c.sibling.left) && !IsRed(c.sibling.right)
    ensures DeletePending(c.up, SiblingReddened(c, t))
    ensures Inorder(Plug(c.up, SiblingReddened(c, t))) == Inorder(Plug(c, t))
  {
    ContextAllowsBlack(c.up, BlackHeight(t) + 1 + (if c.red then 0 else 1), c.red);
    SameInorder(c.up, SiblingReddened(c, t), Lifted(c, t));
  }

  lemma SiblingReddenedAgrees(c: Context, t: Tree, root: Node, nil: Node, m: LinkMap, reds: set<Node>)
    requires c.Under? && c.sibling.Branch? && Agrees(c, t, root, nil, m, reds)
    ensures Agrees(c.up, SiblingReddened(c, t), root, nil, m, Recoloured(reds, c.sibling.node, true))
  {
    hide Agrees;
    SiblingRepaint(c, t, true, root, nil, m, reds);
    AgreesUp(c.(sibling := c.sibling.(red := true)), t, root, nil, m, Recoloured(reds, c.sibling.node, true));
  }

  /** Black sibling, near child red, far child black: the near child becomes the sibling. */
  function NearRaised(c: Context): Context
    requires c.Under? && c.sibling.Branch? && Near(c.sibling, c.side).Branch?
  {
    var n := Near(c.sibling, c.side);
    c.(sibling := Join(Near(n, c.side), c.side, n.node, false,
                       Join(Far(n, c.side), c.side, c.sibling.node, true, Far(c.sibling, c.side))))
  }

  lemma NearRaisedPending(c: Context, t: Tree)
    requires DeletePending(c, t) && c.Under? && c.sibling.Branch? && !c.sibling.red
    requires IsRed(Near(c.sibling, c.side)) && !IsRed(Far(c.sibling, c.side))
    ensures DeletePending(NearRaised(c), t)
    ensures Inorder(Plug(NearRaised(c), t)) == Inorder(Plug(c, t))
  {
    var n := Near(c.sibling, c.side);
    assert RedBlack(n) && RedBlack(Far(c.sibling, c.side));
    assert RedBlack(Join(Far(n, c.side), c.side, c.sibling.node, true, Far(c.sibling, c.side)));
    assert RedBlack(NearRaised(c).sibling);
    RotatedInorder(c.sibling, Opposite(c.side));
    assert Inorder(NearRaised(c).sibling) == Inorder(Rotated(c.sibling, Opposite(c.side)));
    SameInorder(c.up, Lifted(NearRaised(c), t), Lifted(c, t));
  }

  lemma NearRaisedAgrees(c: Context, t: Tree, root: Node, nil: Node, m: LinkMap, reds: set<Node>)
    requires c.Under? && c.sibling.Branch? && Near(c.sibling, c.side).Branch? && Agrees(c, t, root, nil, m, reds)
    ensures Rotatable(m, c.sibling.node, Opposite(c.side), nil)
    ensures Agrees(NearRaised(c), t, root, nil, Rotation(m, c.sibling.node, Opposite(c.side), nil),
                   Recoloured(Recoloured(reds, Near(c.sibling, c.side).node, false), c.sibling.node, true))
  {
    hide Agrees;
    var w, n, onW := c.sibling, Near(c.sibling, c.side), OnSibling(c, t);
    AgreesSibling(c, t, root, nil, m, reds);
    var onN := Under(onW, c.side, w.node, w.red, Far(w, c.side));
    AgreesUp(onN, n, root, nil, m, reds);
    AgreesRepaint(onN, n, false, root, nil, m, reds);
    var reds1 := Recoloured(reds, n.node, false);
    AgreesUp(onN, n.(red := false), root, nil, m, reds1);
    var w1 := Lifted(onN, n.(red := false));
    AgreesRepaint(onW, w1, true, root, nil, m, reds1);
    var reds2 := Recoloured(reds1, w.node, true);
    AgreesRotate(onW, w1.(red := true), Opposite(c.side), root, nil, m, reds2);
    var m' := Rotation(m, w.node, Opposite(c.side), nil);
    assert Rotated(w1.(red := true), Opposite(c.side)) == NearRaised(c).sibling;
    AgreesSibling(NearRaised(c), t, root, nil, m', reds2);
  }

  /** Black sibling, far child red: a rotation and the sibling's new colour supply the missing black. */
  function FarRaised(c: Context, t: Tree): Tree
    requires c.Under? && c.sibling.Branch? && Far(c.sibling, c.side).Branch?
  {
    Join(Join(t, c.side, c.node, false, Near(c.sibling, c.side)), c.side, c.sibling.node, c.red,
         Far(c.sibling, c.side).(red := false))
  }

  lemma FarRaisedComplete(c: Context, t: Tree)
    requires DeletePending(c, t) && !IsRed(t) && c.Under? && c.sibling.Branch? && !c.sibling.red
    requires IsRed(Far(c.sibling, c.side))
    ensures Complete(c.up, FarRaised(c, t))
    ensures Inorder(Plug(c.up, FarRaised(c, t))) == Inorder(Plug(c, t))
  {
    var p := Lifted(c, t);
    assert RedBlack(Join(t, c.side, c.node, false, Near(c.sibling, c.side)));
    assert RedBlack(Far(c.sibling, c.side)) && RedBlack(Far(c.sibling, c.side).(red := false));
    assert RedBlack(FarRaised(c, t));
    RotatedInorder(p, c.side);
    assert Inorder(FarRaised(c, t)) == Inorder(Rotated(p, c.side));
    SameInorder(c.up, FarRaised(c, t), p);
  }

  lemma FarRaisedAgrees(c: Context, t: Tree, root: Node, nil: Node, m: LinkMap, reds: set<Node>)
    requires c.Under? && c.sibling.Branch? && Far(c.sibling, c.side).Branch? && Agrees(c, t, root, nil, m, reds)
    ensures Rotatable(m, c.node, c.side, nil)
    ensures Agrees(c.up, FarRaised(c, t), root, nil, Rotation(m, c.node, c.side, nil),
      Recoloured(Recoloured(Recoloured(reds, c.sibling.node, c.red), c.node, false), Far(c.sibling, c.side).node,
        false))
  {
    hide Agrees;
    SiblingRepaint(c, t, c.red, root, nil, m, reds);
    var c1, reds1 := c.(sibling := c.sibling.(red := c.red)), Recoloured(reds, c.sibling.node, c.red);
    AgreesUp(c1, t, root, nil, m, reds1);
    AgreesRepaint(c.up, Lifted(c1, t), false, root, nil, m, reds1);
    var c2, reds2 := c1.(red := false), Recoloured(reds1, c.node, false);
    AgreesUp(c2, t, root, nil, m, reds2);
    var w, f, onW := c2.sibling, Far(c.sibling, c.side), OnSibling(c2, t);
    AgreesSibling(c2, t, root, nil, m, reds2);
    var onF := Under(onW, Opposite(c.side), w.node, w.red, Near(w, c.side));
    AgreesUp(onF, f, root, nil, m, reds2);
    AgreesRepaint(onF, f, false, root, nil, m, reds2);
    var reds3 := Recoloured(reds2, f.node, false);
    AgreesUp(onF, f.(red := false), root, nil, m, reds3);
    var c3 := c2.(sibling := Lifted(onF, f.(red := false)));
    AgreesSibling(c3, t, root, nil, m, reds3);
    AgreesUp(c3, t, root, nil, m, reds3);
    AgreesRotate(c.up, Lifted(c3, t), c.side, root, nil, m, reds3);
    assert Rotated(Lifted(c3, t), c.side) == FarRaised(c, t);
  }

  // ------------------------------------------------------------------ taking a node out

  /** The context with node `y` in the place of node `z` and in `z`'s colour. */
  function Substituted(c: Context, z: Node, y: Node): Context {
    match c
    case Top => Top
    case Under(up, side, n, red, s) =>
      if n == z then Under(up, side, y, red, s) else Under(Substituted(up, z, y), side, n, red, s)
  }

  lemma {:induction false} SubstitutedContext(c: Context, z: Node, y: Node, h: nat, red: bool)
    ensures RedBlackContext(Substituted(c, z, y), h, red) <==> RedBlackContext(c, h, red)
  {
    match c
    case Top =>
    case Under(up, _, n, nred, s) =>
      if n != z { SubstitutedContext(up, z, y, h + (if nred then 0 else 1), nred); }
  }

  /** The position is at the left end of the right subtree of `z`, which is at position `base`. */
  ghost predicate RightSpine(c: Context, base: Context, z: Node, zred: bool, zleft: Tree) {
    c.Under? &&
    (c == Under(base, Right, z, zred, zleft) ||
     (c.side.Left? && c.node != z && RightSpine(c.up, base, z, zred, zleft)))
  }

  /** The smallest node of z's right subtree follows z in order; putting it in z's place keeps the order
      of all others. */
  lemma {:induction false} SubstitutedOrder(c: Context, base: Context, z: Node, zred: bool, zleft: Tree, y: Node)
    requires RightSpine(c, base, z, zred, zleft)
    ensures Before(c) == Before(base) + Inorder(zleft) + [z]
    ensures Before(Substituted(c, z, y)) == Before(base) + Inorder(zleft) + [y]
    ensures After(Substituted(c, z, y)) == After(c)
  {
    if c != Under(base, Right, z, zred, zleft) {
      SubstitutedOrder(c.up, base, z, zred, zleft, y);
    }
  }

  /** What remove stores to put `y` in the place of `z`: `y` takes over z's links, and z's children and
      parent are made to point at `y`. */
  ghost predicate TakesPlace(m: LinkMap, m': LinkMap, z: Node, y: Node, nil: Node) {
    z in m && y in m' && y != z && m'[y] == m[z] && m[z].left != y && m[z].right != y && m[z].parent != y &&
    var l, r, p := m[z].left, m[z].right, m[z].parent;
    l != r && l != z && r != z && p != z && p != nil && p != l && p != r && p in m && p in m' && l != nil &&
    m'[p] == (if m[p].left == z then m[p].(left := y) else m[p].(right := y)) &&
    (l in m ==> l in m' && m'[l] == m[l].(parent := y)) &&
    (r != nil && r in m ==> r in m' && m'[r] == m[r].(parent := y)) &&
    (forall n :: n in m && n !in {z, y, l, r, p} ==> n in m' && m'[n] == m[n])
  }

  /** What the links say around a node on whose right `t` hangs, when `y` takes its place. */
  lemma TakesPlaceParts(c: Context, t: Tree, y: Node, root: Node, nil: Node, m: LinkMap, m': LinkMap, reds: set<Node>)
    requires c.Under? && c.side.Right? && c.sibling.Branch? && Agrees(c, t, root, nil, m, reds)
    requires TakesPlace(m, m', c.node, y, nil) && y !in Nodes(t) + ContextNodes(c) && y != root && y != nil
    ensures var z, l, up := c.node, c.sibling, c.up;
            && z in m && m[z] == Link(l.node, TopOf(t, nil), Owner(up, root)) && TopOf(l, nil) == l.node &&
               l.node in m && (t.Branch? ==> t.node in m)
            && Distinct(t) && Linked(t, z, nil, m) && z !in Nodes(t) && y !in Nodes(t) && l.node !in Nodes(t) &&
               Owner(up, root) !in Nodes(t) && nil !in Nodes(t)
            && Distinct(l) && Linked(l, z, nil, m) && z !in Nodes(l) && y !in Nodes(l) && TopOf(t, nil) !in Nodes(l) &&
               Owner(up, root) !in Nodes(l) && nil !in Nodes(l)
            && DistinctContext(up) && root !in ContextNodes(up) && LinkedContext(up, z, root, nil, m)
            && z !in ContextNodes(up) && y !in ContextNodes(up) && l.node !in ContextNodes(up) &&
               TopOf(t, nil) !in ContextNodes(up)
            && root != z && root != y && root != l.node && root != TopOf(t, nil) && z != nil
            && Painted(t, reds) && Painted(l, reds) && PaintedContext(up, reds)
  {
    hide TakesPlace;
    var p := Owner(c.up, root);
    assert p == root || p in ContextNodes(c.up);
    assert c.sibling.node in Nodes(c.sibling) && (t.Branch? ==> t.node in Nodes(t));
  }

  lemma SubtreeTaken(t: Tree, z: Node, y: Node, other: Node, nil: Node, m: LinkMap, m': LinkMap)
    requires TakesPlace(m, m', z, y, nil) && Distinct(t) && Linked(t, z, nil, m) && nil !in Nodes(t)
    requires (t.Branch? ==> t.node in m)
    requires (m[z].left == TopOf(t, nil) && m[z].right == other) || (m[z].left == other && m[z].right == TopOf(t, nil))
    requires z !in Nodes(t) && y !in Nodes(t) && other !in Nodes(t)
    requires forall p: Node :: p == m[z].parent ==> p !in Nodes(t)
    ensures Linked(t, y, nil, m')
  {
    hide Linked, Distinct;
    assert t.Branch? ==> t.node in Nodes(t);
    LinkedMove(t, z, y, nil, m, m');
  }

  lemma ContextTaken(up: Context, z: Node, y: Node, root: Node, nil: Node, m: LinkMap, m': LinkMap)
    requires TakesPlace(m, m', z, y, nil) && DistinctContext(up) && root !in ContextNodes(up)
    requires LinkedContext(up, z, root, nil, m)
    requires m[z].parent == Owner(up, root) && z !in ContextNodes(up) && y !in ContextNodes(up) && root != z
    requires root != y && z != nil
    requires forall x: Node :: x == m[z].left || x == m[z].right ==> x !in ContextNodes(up) && x != root
    ensures LinkedContext(up, y, root, nil, m')
  {
    hide LinkedContext, DistinctContext;
    OwnerTaken(up, z, y, root, nil, m);
    ContextRelink(up, z, y, root, nil, m, m');
  }

  /** The link of the owner to the position, and its other child. */
  lemma OwnerTaken(up: Context, z: Node, y: Node, root: Node, nil: Node, m: LinkMap)
    requires LinkedContext(up, z, root, nil, m)
    ensures up.Top? ==> m[root].left == z
    ensures up.Under? ==>
            (up.side.Left? ==> m[up.node].left == z) &&
              (up.side.Right? ==> m[up.node].right == z && m[up.node].left == TopOf(up.sibling, nil))
    ensures up.Under? && up.sibling.Branch? ==> up.sibling.node in ContextNodes(up)
  {
  }

  lemma ColoursTaken(c: Context, t: Tree, y: Node, reds: set<Node>)
    requires c.Under? && y !in Nodes(t) + ContextNodes(c) && Painted(t, reds) && Painted(c.sibling, reds)
    requires PaintedContext(c.up, reds)
    ensures var reds' := Recoloured(reds, y, c.red);
            Painted(t, reds') && Painted(c.sibling, reds') && PaintedContext(c.up, reds') && (y in reds' <==> c.red)
  {
    var reds' := Recoloured(reds, y, c.red);
    hide Painted, PaintedContext;
    PaintedFrame(t, reds, reds');
    PaintedFrame(c.sibling, reds, reds');
    PaintedContextFrame(c.up, reds, reds');
  }

  lemma AgreesSubstituted(c: Context, t: Tree, y: Node, root: Node, nil: Node, m: LinkMap, m': LinkMap,
      reds: set<Node>, reds': set<Node>)
    requires c.Under? && c.side.Right? && c.sibling.Branch? && Agrees(c, t, root, nil, m, reds)
    requires TakesPlace(m, m', c.node, y, nil) && y !in Nodes(t) + ContextNodes(c) && y != root && y != nil
    requires m[c.node] == Link(c.sibling.node, TopOf(t, nil), Owner(c.up, root))
    requires Linked(t, y, nil, m') && Linked(c.sibling, y, nil, m') && LinkedContext(c.up, y, root, nil, m')
    requires Painted(t, reds') && Painted(c.sibling, reds') && PaintedContext(c.up, reds') && (y in reds' <==> c.red)
    ensures Agrees(Substituted(c, c.node, y), t, root, nil, m', reds')
  {
    hide Linked;
    assert Substituted(c, c.node, y) == Under(c.up, c.side, y, c.red, c.sibling);
  }

  lemma TakesPlaceHere(c: Context, t: Tree, y: Node, root: Node, nil: Node, m: LinkMap, m': LinkMap, reds: set<Node>)
    requires c.Under? && c.side.Right? && c.sibling.Branch? && Agrees(c, t, root, nil, m, reds)
    requires TakesPlace(m, m', c.node, y, nil) && y !in Nodes(t) + ContextNodes(c) && y != root && y != nil
    ensures Agrees(Substituted(c, c.node, y), t, root, nil, m', Recoloured(reds, y, c.red))
  {
    hide *;
    var z, l, up := c.node, c.sibling, c.up;
    TakesPlaceParts(c, t, y, root, nil, m, m', reds);
    SubtreeTaken(t, z, y, l.node, nil, m, m');
    SubtreeTaken(l, z, y, TopOf(t, nil), nil, m, m');
    ContextTaken(up, z, y, root, nil, m, m');
    ColoursTaken(c, t, y, reds);
    AgreesSubstituted(c, t, y, root, nil, m, m', reds, Recoloured(reds, y, c.red));
  }

  lemma {:induction false} TakesPlaceAgrees(c: Context, t: Tree, base: Context, z: Node, zred: bool, zleft: Tree,
      y: Node,
      root: Node, nil: Node, m: LinkMap, m': LinkMap, reds: set<Node>)
    requires RightSpine(c, base, z, zred, zleft) && zleft.Branch? && Agrees(c, t, root, nil, m, reds)
    requires TakesPlace(m, m', z, y, nil) && y !in Nodes(t) + ContextNodes(c) && y != root && y != nil
    ensures Agrees(Substituted(c, z, y), t, root, nil, m', Recoloured(reds, y, zred))
    decreases c
  {
    if c == Under(base, Right, z, zred, zleft) {
      TakesPlaceHere(c, t, y, root, nil, m, m', reds);
    } else {
      AgreesUp(c, t, root, nil, m, reds);
      TakesPlaceAgrees(c.up, Lifted(c, t), base, z, zred, zleft, y, root, nil, m, m', reds);
      AgreesUp(Substituted(c, z, y), t, root, nil, m', Recoloured(reds, y, zred));
    }
  }

  /** Splicing out a node with an empty child: the other child takes its place. */
  lemma AgreesSplice(c: Context, t: Tree, x: Tree, root: Node, nil: Node, m: LinkMap, m': LinkMap, reds: set<Node>)
    requires t.Branch? && ((t.left.Leaf? && x == t.right) || (t.right.Leaf? && x == t.left))
    requires Agrees(c, t, root, nil, m, reds) && OwnerRelinked(c, TopOf(x, nil), root, m, m')
    requires x.Branch? ==> x.node in m && x.node in m' && m'[x.node] == m[x.node].(parent := Owner(c, root))
    requires forall n :: n in m && n != Owner(c, root) && n != TopOf(x, nil) && n != t.node ==> n in m' && m'[n] == m[n]
    ensures Agrees(c, x, root, nil, m', reds)
  {
    AgreesHere(c, t, root, nil, m, reds);
    assert x.Branch? ==> x.node in Nodes(t);
    assert t.node in Nodes(t);
    assert Owner(c, root) == root || Owner(c, root) in ContextNodes(c);
    LinkedMove(x, t.node, Owner(c, root), nil, m, m');
    ContextRelink(c, t.node, TopOf(x, nil), root, nil, m, m');
  }

  /** Splicing out a black node leaves its place pending, splicing out a red one completes the tree. */
  lemma SplicePending(c: Context, t: Tree, x: Tree)
    requires t.Branch? && ((t.left.Leaf? && x == t.right) || (t.right.Leaf? && x == t.left))
    requires RedBlack(t) && RedBlackContext(c, BlackHeight(t), IsRed(t))
    ensures if t.red then Complete(c, x) else DeletePending(c, x)
  {
    ContextAllowsBlack(c, BlackHeight(t), IsRed(t));
  }

  /** The node at the top of the tree, seen from a position below it. */
  function Highest(c: Context): Node
    requires c.Under?
  {
    if c.up.Top? then c.node else Highest(c.up)
  }

  lemma {:induction false} PlugTop(c: Context, t: Tree)
    requires c.Under?
    ensures Plug(c, t).Branch? && Plug(c, t).node == Highest(c)
    decreases c
  {
    if c.up.Under? { PlugTop(c.up, Lifted(c, t)); }
  }

  /** In a complete tree the top node is black. */
  lemma CompleteTop(c: Context, t: Tree, root: Node, nil: Node, m: LinkMap, reds: set<Node>)
    requires c.Under? && Complete(c, t) && Agrees(c, t, root, nil, m, reds)
    ensures Highest(c) !in reds && Highest(c) in m
  {
    PlugRedBlack(c, t);
    PlugTop(c, t);
    AgreesPlug(c, t, root, nil, m, reds);
    AgreesHere(Top, Plug(c, t), root, nil, m, reds);
  }

  // ------------------------------------------------------------------ positions of nodes

  /** The position of a node of `t`, which itself is at position `c`. */
  function Locate(c: Context, t: Tree, x: Node): (r: (Context, Tree))
    requires x in Nodes(t)
    ensures r.1.Branch? && r.1.node == x
    ensures Plug(r.0, r.1) == Plug(c, t)
    decreases t
  {
    if t.node == x then (c, t)
    else if x in Nodes(t.left) then Locate(Under(c, Left, t.node, t.red, t.right), t.left, x)
    else Locate(Under(c, Right, t.node, t.red, t.left), t.right, x)
  }

  lemma {:induction false} SpineAgrees(c: Context, t: Tree, base: Context, z: Node, zred: bool, zleft: Tree,
      root: Node, nil: Node, m: LinkMap, reds: set<Node>) returns (r: Tree)
    requires RightSpine(c, base, z, zred, zleft) && Agrees(c, t, root, nil, m, reds)
    ensures Agrees(base, Branch(zleft, z, zred, r), root, nil, m, reds)
    ensures Nodes(zleft) + Nodes(r) + {z} + ContextNodes(base) == Nodes(t) + ContextNodes(c)
    ensures if c == Under(base, Right, z, zred, zleft) then r == t else r.Branch? && c.node != z
    decreases c
  {
    hide Agrees;
    AgreesUp(c, t, root, nil, m, reds);
    if c == Under(base, Right, z, zred, zleft) {
      r := t;
    } else {
      r := SpineAgrees(c.up, Lifted(c, t), base, z, zred, zleft, root, nil, m, reds);
    }
  }

  lemma {:induction false} SubstitutedNodes(c: Context, base: Context, z: Node, zred: bool, zleft: Tree, y: Node)
    requires RightSpine(c, base, z, zred, zleft) && DistinctContext(c)
    ensures ContextNodes(Substituted(c, z, y)) == ContextNodes(c) - {z} + {y}
    decreases c
  {
    if c != Under(base, Right, z, zred, zleft) {
      SubstitutedNodes(c.up, base, z, zred, zleft, y);
      SpineNodes(c.up, base, z, zred, zleft);
    }
  }

  lemma {:induction false} SpineNodes(c: Context, base: Context, z: Node, zred: bool, zleft: Tree)
    requires RightSpine(c, base, z, zred, zleft)
    ensures z in ContextNodes(c)
    decreases c
  {
    if c != Under(base, Right, z, zred, zleft) { SpineNodes(c.up, base, z, zred, zleft); }
  }

  /** Forgetting a node that is not in the tree. */
  lemma AgreesForget(c: Context, t: Tree, z: Node, root: Node, nil: Node, m: LinkMap, reds: set<Node>)
    requires Agrees(c, t, root, nil, m, reds) && z !in Nodes(t) + ContextNodes(c) && z != root
    ensures Agrees(c, t, root, nil, m - {z}, reds - {z})
  {
    LinkedFrame(t, Owner(c, root), nil, m, m - {z});
    LinkedContextFrame(c, TopOf(t, nil), root, nil, m, m - {z});
    PaintedFrame(t, reds, reds - {z});
    PaintedContextFrame(c, reds, reds - {z});
  }

  /** The node at the left end of a subtree is the first of the nodes from that subtree on. */
  lemma LeftmostFirst(c0: Context, t0: Tree, c: Context, t: Tree)
    requires Plug(c, t) == Plug(c0, t0) && Before(c) == Before(c0) && t.Branch? && t.left.Leaf?
    ensures Inorder(t0) + After(c0) == [t.node] + (Inorder(t.right) + After(c))
  {
    PlugInorder(c0, t0);
    PlugInorder(c, t);
    CancelBefore(Before(c), t.node, Inorder(t.right), After(c), Inorder(t0), After(c0));
  }

  lemma CancelBefore<T>(b: seq<T>, n: T, r: seq<T>, a: seq<T>, u: seq<T>, w: seq<T>)
    requires b + ([] + [n] + r) + a == b + u + w
    ensures u + w == [n] + (r + a)
  {
    assert (b + ([] + [n] + r) + a)[|b|..] == [n] + (r + a);
    assert (b + u + w)[|b|..] == u + w;
  }

  /** The node at the right end of a subtree is the last of the nodes up to that subtree. */
  lemma RightmostLast(c0: Context, t0: Tree, c: Context, t: Tree)
    requires Plug(c, t) == Plug(c0, t0) && After(c) == After(c0) && t.Branch? && t.right.Leaf?
    ensures Before(c0) + Inorder(t0) == (Before(c) + Inorder(t.left)) + [t.node]
  {
    PlugInorder(c0, t0);
    PlugInorder(c, t);
    CancelAfter(Before(c), Inorder(t.left), t.node, After(c), Before(c0), Inorder(t0));
  }

  lemma CancelAfter<T>(b: seq<T>, l: seq<T>, n: T, a: seq<T>, u: seq<T>, w: seq<T>)
    requires b + (l + [n] + []) + a == u + w + a
    ensures u + w == (b + l) + [n]
  {
    assert (b + (l + [n] + []) + a)[..|b| + |l| + 1] == (b + l) + [n];
    assert (u + w + a)[..|u| + |w|] == u + w;
  }

  lemma AroundNode(c: Context, t: Tree) returns (before: seq<Node>, after: seq<Node>)
    requires t.Branch?
    ensures before == Before(c) + Inorder(t.left) && after == Inorder(t.right) + After(c)
    ensures Inorder(Plug(c, t)) == before + [t.node] + after
  {
    hide *;
    before, after := Before(c) + Inorder(t.left), Inorder(t.right) + After(c);
    PlugInorder(c, t);
    Middle(t);
    Regrouped(Before(c), Inorder(t.left), t.node, Inorder(t.right), After(c));
  }

  // ------------------------------------------------------------------ searching for a key

  /** All nodes before the position have smaller keys, all nodes after it larger ones. */
  ghost predicate Narrowed(c: Context, key: int) {
    (forall i :: 0 <= i < |Before(c)| ==> Before(c)[i].key < key) && AllAbove(After(c), key)
  }

  lemma NarrowedInto(c: Context, t: Tree, key: int, c': Context, t': Tree, before: seq<Node>, after: seq<Node>)
    requires t.Branch? && t.node.key != key && Narrowed(c, key)
    requires before == Before(c) + Inorder(t.left) && after == Inorder(t.right) + After(c)
    requires t.node.key > key ==>
             AllAbove([t.node] + after, key) && c' == Under(c, Left, t.node, t.red, t.right) && t' == t.left
    requires t.node.key < key ==> (forall i :: 0 <= i < |before + [t.node]| ==> (before + [t.node])[i].key < key) &&
                                  c' == Under(c, Right, t.node, t.red, t.left) && t' == t.right
    ensures Narrowed(c', key) && Plug(c', t') == Plug(c, t) && Depth(c') == Depth(c) + 1
  {
    hide Inorder;
    if t.node.key > key { assert After(c') == [t.node] + after; } else { assert Before(c') == before + [t.node]; }
  }

  lemma NarrowStep(c: Context, t: Tree, key: int) returns (c': Context, t': Tree)
    requires t.Branch? && t.node.key != key && Narrowed(c, key) && Sorted(Inorder(Plug(c, t)))
    ensures Narrowed(c', key) && Plug(c', t') == Plug(c, t) && Depth(c') == Depth(c) + 1
    ensures t' == (if t.node.key > key then t.left else t.right)
  {
    hide *;
    var before, after := AroundNode(c, t);
    KeysAround(before, t.node, after, key);
    c', t' := if t.node.key > key then Under(c, Left, t.node, t.red, t.right)
      else Under(c, Right, t.node, t.red, t.left),
              if t.node.key > key then t.left else t.right;
    NarrowedInto(c, t, key, c', t', before, after);
  }

  /** A leaf one level below the position's node, or the position itself. */
  lemma LeftmostOf(c: Context, t: Tree) returns (c': Context, t': Tree)
    ensures Plug(c', t') == Plug(c, t) && Depth(c') == Depth(c) + if t.Branch? then 1 else 0
  {
    c', t' := if t.Branch? then Under(c, Left, t.node, t.red, t.right) else c, if t.Branch? then t.left else t;
  }

  /** No path is longer than twice the logarithm of the size: 2^depth <= (n + 1)^2. */
  lemma DepthLogarithmic(c: Context, t: Tree)
    requires RedBlack(Plug(c, t)) && !IsRed(Plug(c, t))
    ensures var n := |Inorder(Plug(c, t))|; Pow2(Depth(c) + if t.Branch? then 1 else 0) <= (n + 1) * (n + 1)
  {
    hide *;
    var whole := Plug(c, t);
    var h, n := BlackHeight(whole), |Inorder(whole)|;
    var c', t' := LeftmostOf(c, t);
    PlugRedBlack(c', t');
    DepthBound(c', BlackHeight(t'), IsRed(t'));
    Pow2Monotone(Depth(c'), h + h);
    Pow2Sum(h, h);
    BlackHeightBound(whole);
    Squares(Pow2(h), n + 1);
  }

  lemma {:induction false} Pow2Monotone(a: nat, b: nat)
    requires a <= b
    ensures Pow2(a) <= Pow2(b)
    decreases b
  {
    if a < b { Pow2Monotone(a, b - 1); }
  }

  lemma Squares(a: nat, b: nat)
    requires a <= b
    ensures a * a <= b * b
  {
    assert a * a <= a * b;
    assert a * b <= b * b;
  }

  // ------------------------------------------------------------------ the sequence after a removal

  /** z itself is spliced out. */
  lemma RemovedOuter(c: Context, t: Tree, x: Tree)
    requires t.Branch? && ((t.left.Leaf? && x == t.right) || (t.right.Leaf? && x == t.left))
    ensures Inorder(Plug(c, x)) == (Before(c) + Inorder(t.left)) + (Inorder(t.right) + After(c))
  {
    PlugInorder(c, x);
    if t.left.Leaf? {
      assert Before(c) + [] == Before(c);
    }
  }

  /** The successor `y` of `z` is spliced out and put in z's place. */
  lemma RemovedInner(base: Context, zt: Tree, c: Context, t: Tree, z: Node, y: Node)
    requires zt.Branch? && z == zt.node && t.Branch? && t.left.Leaf? && y == t.node
    requires Plug(c, t) == Plug(base, zt) && RightSpine(c, base, z, zt.red, zt.left)
    ensures Inorder(Plug(Substituted(c, z, y), t.right)) ==
            (Before(base) + Inorder(zt.left)) + (Inorder(zt.right) + After(base))
  {
    SubstitutedOrder(c, base, z, zt.red, zt.left, y);
    var before, after := AroundNode(base, zt);
    PlugInorder(c, t);
    ReplaceMiddle(before, z, y, Inorder(t.right), After(c), after);
    PlugInorder(Substituted(c, z, y), t.right);
  }

  lemma ReplaceMiddle<T>(b: seq<T>, z: T, y: T, r: seq<T>, a: seq<T>, w: seq<T>)
    requires (b + [z]) + ([] + [y] + r) + a == b + [z] + w
    ensures (b + [y]) + r + a == b + w
  {
    assert ((b + [z]) + ([] + [y] + r) + a)[|b| + 1..] == [y] + r + a;
    assert (b + [z] + w)[|b| + 1..] == w;
  }

  /** The spliced-out node y is no longer at the position, nor in the context. */
  lemma SplicedApart(c: Context, t: Tree, x: Tree)
    requires Distinct(t) && DistinctContext(c) && Nodes(t) !! ContextNodes(c) && t.Branch?
    requires (t.left.Leaf? && x == t.right) || (t.right.Leaf? && x == t.left)
    ensures t.node !in Nodes(x) + ContextNodes(c)
  {
  }

  /** A tree whose sequence lacks `z`, of a tree with pairwise different nodes. */
  lemma RemovedNodes(t: Tree, t': Tree, before: seq<Node>, z: Node, after: seq<Node>)
    requires Inorder(t) == before + [z] + after && Inorder(t') == before + after && Distinct(t)
    ensures Nodes(t') == Nodes(t) - {z}
  {
    InsertedNodes(t', t, before, z, after);
    DistinctInorder(t);
    var s := before + [z] + after;
    forall i | 0 <= i < |before + after| ensures (before + after)[i] != z {
      assert s[|before|] == z && s[if i < |before| then i else i + 1] == (before + after)[i];
    }
    InorderNodes(t', z);
  }

  lemma {:induction false} DistinctInorder(t: Tree)
    requires Distinct(t)
    ensures forall i, j :: 0 <= i < j < |Inorder(t)| ==> Inorder(t)[i] != Inorder(t)[j]
  {
    match t
    case Leaf =>
    case Branch(l, n, _, r) =>
      DistinctInorder(l);
      DistinctInorder(r);
      forall i | 0 <= i < |Inorder(l)| ensures Inorder(l)[i] in Nodes(l) { InorderNodes(l, Inorder(l)[i]); }
      forall i | 0 <= i < |Inorder(r)| ensures Inorder(r)[i] in Nodes(r) { InorderNodes(r, Inorder(r)[i]); }
  }
}
