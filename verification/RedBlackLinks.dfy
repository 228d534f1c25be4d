/** Stored links and colours as values, and what the rotations of media/common/RedBlackTree.cpp do to
    them. A `LinkMap` is the content of the link fields of a set of nodes at one moment. */
module RedBlackLinks {
  import opened RedBlackShape

  datatype Link = Link(left: Node?, right: Node?, parent: Node?)

  type LinkMap = map<Node, Link>

  ghost function Snapshot(s: set<Node>): (m: LinkMap)
    reads s`left, s`right, s`parent
    ensures m.Keys == s
  {
    map n | n in s :: Link(n.left, n.right, n.parent)
  }

  ghost function Reds(s: set<Node>): set<Node>
    reads s`isRed
  {
    set n | n in s && n.isRed
  }

  // ------------------------------------------------------------------ agreement with a shape

  /** The node a link to this subtree points at: `nil` stands for the empty subtree. */
  function TopOf(t: Tree, nil: Node): Node {
    if t.Leaf? then nil else t.node
  }

  /** The parent of the position; `root` is the sentinel above the top node. */
  function Owner(c: Context, root: Node): Node {
    if c.Top? then root else c.node
  }

  /** The links of all nodes of `t` agree with its shape; its top hangs off `p`. */
  ghost predicate Linked(t: Tree, p: Node, nil: Node, m: LinkMap) {
    match t
    case Leaf => true
    case Branch(l, n, _, r) =>
      n in m && m[n] == Link(TopOf(l, nil), TopOf(r, nil), p) && Linked(l, n, nil, m) && Linked(r, n, nil, m)
  }

  /** The links around the position agree with the context; `x` is the node at the position. */
  ghost predicate LinkedContext(c: Context, x: Node, root: Node, nil: Node, m: LinkMap) {
    match c
    case Top => root in m && m[root] == Link(x, nil, nil)
    case Under(up, side, n, _, s) =>
      n in m && Linked(s, n, nil, m) && LinkedContext(up, n, root, nil, m) &&
      m[n] == (if side.Left? then Link(x, TopOf(s, nil), Owner(up, root)) else Link(TopOf(s, nil), x, Owner(up, root)))
  }

  ghost predicate Links(c: Context, t: Tree, root: Node, nil: Node, m: LinkMap) {
    Linked(t, Owner(c, root), nil, m) && LinkedContext(c, TopOf(t, nil), root, nil, m)
  }

  ghost predicate Painted(t: Tree, reds: set<Node>) {
    match t
    case Leaf => true
    case Branch(l, n, red, r) => (n in reds <==> red) && Painted(l, reds) && Painted(r, reds)
  }

  ghost predicate PaintedContext(c: Context, reds: set<Node>) {
    match c
    case Top => true
    case Under(up, _, n, red, s) => (n in reds <==> red) && Painted(s, reds) && PaintedContext(up, reds)
  }

  /** The nodes of the two parts are pairwise different and none is a sentinel. */
  ghost predicate Separate(c: Context, t: Tree, root: Node, nil: Node) {
    root != nil && Distinct(t) && DistinctContext(c) && Nodes(t) !! ContextNodes(c) &&
    root !in Nodes(t) + ContextNodes(c) && nil !in Nodes(t) + ContextNodes(c)
  }

  // ------------------------------------------------------------------ frames

  lemma {:induction false} LinkedFrame(t: Tree, p: Node, nil: Node, m: LinkMap, m': LinkMap)
    requires Linked(t, p, nil, m)
    requires forall n :: n in Nodes(t) && n in m ==> n in m' && m'[n] == m[n]
    ensures Linked(t, p, nil, m')
  {
    match t
    case Leaf =>
    case Branch(l, n, _, r) =>
      LinkedFrame(l, n, nil, m, m');
      LinkedFrame(r, n, nil, m, m');
  }

  lemma {:induction false} LinkedContextFrame(c: Context, x: Node, root: Node, nil: Node, m: LinkMap, m': LinkMap)
    requires LinkedContext(c, x, root, nil, m)
    requires forall n :: (n in ContextNodes(c) || n == root) && n in m ==> n in m' && m'[n] == m[n]
    ensures LinkedContext(c, x, root, nil, m')
  {
    match c
    case Top =>
    case Under(up, _, n, _, s) =>
      LinkedFrame(s, n, nil, m, m');
      LinkedContextFrame(up, n, root, nil, m, m');
  }

  /** A subtree keeps its inner links when only its top node's parent link is changed to `q`. */
  lemma LinkedMove(t: Tree, p: Node, q: Node, nil: Node, m: LinkMap, m': LinkMap)
    requires Distinct(t) && Linked(t, p, nil, m)
    requires forall n :: n in Nodes(t) && n in m && n != TopOf(t, nil) ==> n in m' && m'[n] == m[n]
    requires t.Branch? ==> t.node in m' && m'[t.node] == m[t.node].(parent := q)
    ensures Linked(t, q, nil, m')
  {
    if t.Branch? {
      LinkedFrame(t.left, t.node, nil, m, m');
      LinkedFrame(t.right, t.node, nil, m, m');
    }
  }

  /** The owner of a position gets another child there: nothing else around the position changes. */
  ghost predicate OwnerRelinked(c: Context, x: Node, root: Node, m: LinkMap, m': LinkMap) {
    var o := Owner(c, root);
    o in m && o in m' &&
    m'[o] == (if c.Under? && c.side.Right? then m[o].(right := x) else m[o].(left := x))
  }

  lemma ContextRelink(c: Context, x: Node, y: Node, root: Node, nil: Node, m: LinkMap, m': LinkMap)
    requires DistinctContext(c) && root !in ContextNodes(c)
    requires LinkedContext(c, x, root, nil, m) && OwnerRelinked(c, y, root, m, m')
    requires forall n ::
             (n in ContextNodes(c) || n == root) && n != Owner(c, root) && n in m ==> n in m' && m'[n] == m[n]
    ensures LinkedContext(c, y, root, nil, m')
  {
    match c
    case Top =>
    case Under(up, _, n, _, s) =>
      LinkedFrame(s, n, nil, m, m');
      LinkedContextFrame(up, n, root, nil, m, m');
  }

  lemma {:induction false} PaintedFrame(t: Tree, reds: set<Node>, reds': set<Node>)
    requires Painted(t, reds) && reds * Nodes(t) == reds' * Nodes(t)
    ensures Painted(t, reds')
  {
    match t
    case Leaf =>
    case Branch(l, n, _, r) =>
      assert forall k ::
             k in Nodes(t) ==> (k in reds <==> k in reds * Nodes(t)) && (k in reds' <==> k in reds' * Nodes(t));
      assert reds * Nodes(l) == reds' * Nodes(l) && reds * Nodes(r) == reds' * Nodes(r);
      PaintedFrame(l, reds, reds');
      PaintedFrame(r, reds, reds');
  }

  lemma {:induction false} PaintedContextFrame(c: Context, reds: set<Node>, reds': set<Node>)
    requires PaintedContext(c, reds) && reds * ContextNodes(c) == reds' * ContextNodes(c)
    ensures PaintedContext(c, reds')
  {
    match c
    case Top =>
    case Under(up, _, n, _, s) =>
      assert forall k ::
             k in ContextNodes(c) ==>
               (k in reds <==> k in reds * ContextNodes(c)) && (k in reds' <==> k in reds' * ContextNodes(c));
      assert reds * Nodes(s) == reds' * Nodes(s) && reds * ContextNodes(up) == reds' * ContextNodes(up);
      PaintedFrame(s, reds, reds');
      PaintedContextFrame(up, reds, reds');
  }

  // ------------------------------------------------------------------ rotations

  function WithLeft(m: LinkMap, n: Node, v: Node?): LinkMap
    requires n in m
  { m[n := m[n].(left := v)] }

  function WithRight(m: LinkMap, n: Node, v: Node?): LinkMap
    requires n in m
  { m[n := m[n].(right := v)] }

  function WithParent(m: LinkMap, n: Node, v: Node?): LinkMap
    requires n in m
  { m[n := m[n].(parent := v)] }

  function WithChild(m: LinkMap, n: Node, side: Side, v: Node?): LinkMap
    requires n in m
  { if side.Left? then WithLeft(m, n, v) else WithRight(m, n, v) }

  function Child(l: Link, side: Side): Node? {
    if side.Left? then l.left else l.right
  }

  function Opposite(side: Side): Side {
    if side.Left? then Right else Left
  }

  /** `x`, its child on the far side, that child's near child and `x`'s parent all exist. */
  predicate Rotatable(m: LinkMap, x: Node, side: Side, nil: Node) {
    x in m && m[x].parent in m &&
    var y := Child(m[x], Opposite(side));
    y in m && y != x && y != m[x].parent && m[x].parent != x &&
    var b := Child(m[y], side);
    b != x && b != y && b != m[x].parent && (b == nil || b in m)
  }

  /** The effect of a rotation of `x` towards `side` on the links. */
  function Rotation(m: LinkMap, x: Node, side: Side, nil: Node): LinkMap
    requires Rotatable(m, x, side, nil)
  {
    var y: Node := Child(m[x], Opposite(side));
    var b := Child(m[y], side);
    var p: Node := m[x].parent;
    var m1 := WithChild(m, x, Opposite(side), b);
    var m2 := if b != nil then WithParent(m1, b, x) else m1;
    var m3 := WithParent(m2, y, p);
    var m4 := WithChild(m3, p, if m3[p].left == x then Left else Right, y);
    WithParent(WithChild(m4, y, side, x), x, y)
  }

  function Rotated(t: Tree, side: Side): Tree
    requires t.Branch? && (if side.Left? then t.right.Branch? else t.left.Branch?)
  {
    if side.Left?
    then Branch(Branch(t.left, t.node, t.red, t.right.left), t.right.node, t.right.red, t.right.right)
    else Branch(t.left.left, t.left.node, t.left.red, Branch(t.left.right, t.node, t.red, t.right))
  }

  lemma RegroupRotation<T>(a: seq<T>, x: T, b: seq<T>, y: T, d: seq<T>)
    ensures a + [x] + (b + [y] + d) == (a + [x] + b) + [y] + d
  {}

  lemma RotatedInorder(t: Tree, side: Side)
    requires t.Branch? && (if side.Left? then t.right.Branch? else t.left.Branch?)
    ensures Inorder(Rotated(t, side)) == Inorder(t)
  {
    if side.Left? {
      RegroupRotation(Inorder(t.left), t.node, Inorder(t.right.left), t.right.node, Inorder(t.right.right));
    } else {
      RegroupRotation(Inorder(t.left.left), t.left.node, Inorder(t.left.right), t.node, Inorder(t.right));
    }
  }

  lemma RotatedNodes(t: Tree, side: Side)
    requires t.Branch? && (if side.Left? then t.right.Branch? else t.left.Branch?)
    ensures Nodes(Rotated(t, side)) == Nodes(t)
  {
  }

  lemma RotatedDistinct(t: Tree, side: Side)
    requires t.Branch? && (if side.Left? then t.right.Branch? else t.left.Branch?)
    requires Distinct(t)
    ensures Distinct(Rotated(t, side))
  {
    if side.Left? {
      assert Nodes(t.right) == Nodes(t.right.left) + {t.right.node} + Nodes(t.right.right);
    } else {
      assert Nodes(t.left) == Nodes(t.left.left) + {t.left.node} + Nodes(t.left.right);
    }
  }

  /** What a rotation stores, node by node, when the nodes involved are different. */
  lemma RotationAt(m: LinkMap, x: Node, side: Side, nil: Node)
    requires Rotatable(m, x, side, nil)
    ensures
      var y: Node, p := Child(m[x], Opposite(side)), m[x].parent;
      var b := Child(m[y], side);
      var m' := Rotation(m, x, side, nil);
      && m'.Keys == m.Keys
      && (forall n :: n in m && n != x && n != y && n != p && (n != b || n == nil) ==> n in m' && m'[n] == m[n])
      && x in m' && m'[x] == (if side.Left? then m[x].(right := b, parent := y) else m[x].(left := b, parent := y))
      && y in m' && m'[y] == (if side.Left? then m[y].(left := x, parent := p) else m[y].(right := x, parent := p))
      && p in m' && m'[p] == (if m[p].left == x then m[p].(left := y) else m[p].(right := y))
      && (b != nil ==> b in m' && m'[b] == m[b].(parent := x))
  {
  }

  /** The three subtrees below a rotation keep their links; the middle one moves from `y` to `x`. */
  lemma RotationPieces(a: Tree, b: Tree, d: Tree, x: Node, y: Node, p: Node, side: Side, nil: Node, m: LinkMap)
    requires Rotatable(m, x, side, nil) && y == Child(m[x], Opposite(side)) && p == m[x].parent
    requires TopOf(b, nil) == Child(m[y], side)
    requires Linked(a, x, nil, m) && Linked(b, y, nil, m) && Linked(d, y, nil, m) && Distinct(b)
    requires {x, y, p} !! Nodes(a) + Nodes(b) + Nodes(d) && nil !in Nodes(b)
    requires Nodes(b) !! Nodes(a) + Nodes(d) && nil != x && nil != y && nil != p
    ensures var m' := Rotation(m, x, side, nil);
            Linked(a, x, nil, m') && Linked(b, x, nil, m') && Linked(d, y, nil, m')
  {
    hide Rotation, Distinct, Linked;
    var m' := Rotation(m, x, side, nil);
    assert b.Branch? ==> b.node in Nodes(b);
    RotationAt(m, x, side, nil);
    LinkedFrame(a, x, nil, m, m');
    LinkedFrame(d, y, nil, m, m');
    LinkedMove(b, y, x, nil, m, m');
  }

  /** The preconditions of `RotationPieces` at a position of a tree. */
  lemma RotationApart(c: Context, t: Tree, side: Side, root: Node, nil: Node)
    requires t.Branch? && (if side.Left? then t.right.Branch? else t.left.Branch?)
    requires Separate(c, t, root, nil)
    ensures
      var inner := if side.Left? then t.right else t.left;
      var a := if side.Left? then t.left else t.right;
      var b := if side.Left? then inner.left else inner.right;
      var d := if side.Left? then inner.right else inner.left;
      var x, y, p := t.node, inner.node, Owner(c, root);
      && {x, y, p} !! Nodes(a) + Nodes(b) + Nodes(d)
      && Nodes(b) !! Nodes(a) + Nodes(d) && Distinct(b)
      && x != y && x != p && y != p && nil != x && nil != y && nil !in Nodes(b)
      && (b.Branch? ==> b.node in Nodes(b)) && x !in ContextNodes(c)
  {
    var inner := if side.Left? then t.right else t.left;
    assert Distinct(inner);
    assert Owner(c, root) == root || Owner(c, root) in ContextNodes(c);
  }

  /** The nodes that a rotation relinks. */
  lemma RotationReady(c: Context, t: Tree, side: Side, root: Node, nil: Node, m: LinkMap)
    requires t.Branch? && (if side.Left? then t.right.Branch? else t.left.Branch?)
    requires Separate(c, t, root, nil) && Links(c, t, root, nil, m)
    ensures
      var inner := if side.Left? then t.right else t.left;
      var a := if side.Left? then t.left else t.right;
      var b := if side.Left? then inner.left else inner.right;
      var d := if side.Left? then inner.right else inner.left;
      var x, y, p := t.node, inner.node, Owner(c, root);
      && Rotatable(m, x, side, nil) && y == Child(m[x], Opposite(side)) && p == m[x].parent &&
         TopOf(b, nil) == Child(m[y], side)
      && m[x] == (if side.Left? then Link(TopOf(a, nil), y, p) else Link(y, TopOf(a, nil), p))
      && m[y] == (if side.Left? then Link(TopOf(b, nil), TopOf(d, nil), x) else Link(TopOf(d, nil), TopOf(b, nil), x))
      && Linked(a, x, nil, m) && Linked(b, y, nil, m) && Linked(d, y, nil, m) && nil != p
      && DistinctContext(c) && root !in ContextNodes(c) && LinkedContext(c, x, root, nil, m)
      && y !in ContextNodes(c) && Nodes(b) !! ContextNodes(c)
      && root != x && root != y && root !in Nodes(b) && nil !in ContextNodes(c) + Nodes(b) && nil != root
      && x !in Nodes(b) && y !in Nodes(b)
  {
    hide DistinctContext;
    RotationApart(c, t, side, root, nil);
    assert c.Under? ==> Owner(c, root) in ContextNodes(c);
    var inner := if side.Left? then t.right else t.left;
    assert Linked(inner, t.node, nil, m) && Linked(if side.Left? then inner.left else inner.right, inner.node, nil, m);
    assert Owner(c, root) in m && Owner(c, root) != nil;
  }

  /** The links of a rotated tree, put together. */
  lemma LinksOfRotated(c: Context, t: Tree, side: Side, root: Node, nil: Node, m: LinkMap)
    requires t.Branch? && (if side.Left? then t.right.Branch? else t.left.Branch?)
    requires
      var inner := if side.Left? then t.right else t.left;
      var a := if side.Left? then t.left else t.right;
      var b := if side.Left? then inner.left else inner.right;
      var d := if side.Left? then inner.right else inner.left;
      var x, y, p := t.node, inner.node, Owner(c, root);
      && x in m
      && m[x] == (if side.Left? then Link(TopOf(a, nil), TopOf(b, nil), y) else Link(TopOf(b, nil), TopOf(a, nil), y))
      && y in m && m[y] == (if side.Left? then Link(x, TopOf(d, nil), p) else Link(TopOf(d, nil), x, p))
      && Linked(a, x, nil, m) && Linked(b, x, nil, m) && Linked(d, y, nil, m) && LinkedContext(c, y, root, nil, m)
    ensures Links(c, Rotated(t, side), root, nil, m)
  {
    hide LinkedContext;
    assert side.Left? ==> Linked(Branch(t.left, t.node, t.red, t.right.left), t.right.node, nil, m);
    assert side.Right? ==> Linked(Branch(t.left.right, t.node, t.red, t.right), t.left.node, nil, m);
  }

  /** A rotation turns the links of a tree into the links of the rotated tree, in place. */
  lemma RotationCorrect(c: Context, t: Tree, side: Side, root: Node, nil: Node, m: LinkMap)
    requires t.Branch? && (if side.Left? then t.right.Branch? else t.left.Branch?)
    requires Separate(c, t, root, nil) && Links(c, t, root, nil, m)
    ensures Rotatable(m, t.node, side, nil)
    ensures Links(c, Rotated(t, side), root, nil, Rotation(m, t.node, side, nil))
  {
    hide Rotation, Rotatable, Rotated, Linked, LinkedContext, Links, Separate, Distinct, DistinctContext, Nodes;
    hide ContextNodes;
    var inner := if side.Left? then t.right else t.left;
    var a := if side.Left? then t.left else t.right;
    var b := if side.Left? then inner.left else inner.right;
    var d := if side.Left? then inner.right else inner.left;
    var x, y, p := t.node, inner.node, Owner(c, root);
    RotationReady(c, t, side, root, nil, m);
    RotationApart(c, t, side, root, nil);
    RotationPieces(a, b, d, x, y, p, side, nil, m);
    RotationAt(m, x, side, nil);
    RotationContext(c, a, b, d, x, y, side, root, nil, m);
    LinksOfRotated(c, t, side, root, nil, Rotation(m, x, side, nil));
  }

  lemma RotationOwner(c: Context, x: Node, y: Node, root: Node, nil: Node, m: LinkMap, m': LinkMap)
    requires DistinctContext(c) && root !in ContextNodes(c) && x !in ContextNodes(c) && x != nil
    requires LinkedContext(c, x, root, nil, m)
    requires forall n ::
             (n in ContextNodes(c) || n == root) && n != Owner(c, root) && n in m ==> n in m' && m'[n] == m[n]
    requires Owner(c, root) in m && Owner(c, root) in m'
    requires m'[Owner(c, root)] ==
      (if m[Owner(c, root)].left == x then m[Owner(c, root)].(left := y) else m[Owner(c, root)].(right := y))
    ensures LinkedContext(c, y, root, nil, m')
  {
    if c.Under? && c.sibling.Branch? { assert c.sibling.node in ContextNodes(c); }
    ContextRelink(c, x, y, root, nil, m, m');
  }

  lemma RotationContext(c: Context, a: Tree, b: Tree, d: Tree, x: Node, y: Node, side: Side, root: Node, nil: Node,
      m: LinkMap)
    requires Rotatable(m, x, side, nil) && y == Child(m[x], Opposite(side)) && m[x].parent == Owner(c, root)
    requires TopOf(b, nil) == Child(m[y], side)
    requires DistinctContext(c) && root !in ContextNodes(c) && LinkedContext(c, x, root, nil, m)
    requires x !in ContextNodes(c) && y !in ContextNodes(c) && Nodes(b) !! ContextNodes(c)
    requires root != x && root != y && root !in Nodes(b) && nil !in ContextNodes(c) + Nodes(b) && nil != root
    requires nil != x && nil != y
    requires x !in Nodes(b) && y !in Nodes(b)
    ensures LinkedContext(c, y, root, nil, Rotation(m, x, side, nil))
  {
    hide Rotation, DistinctContext, LinkedContext;
    assert b.Branch? ==> b.node in Nodes(b);
    assert c.Under? ==> Owner(c, root) in ContextNodes(c);
    RotationAt(m, x, side, nil);
    RotationOwner(c, x, y, root, nil, m, Rotation(m, x, side, nil));
  }

  // ------------------------------------------------------------------ one predicate for a position

  /** Stored links `m` and colours `reds` are those of the tree with subtree `t` at position `c`. */
  ghost predicate Agrees(c: Context, t: Tree, root: Node, nil: Node, m: LinkMap, reds: set<Node>) {
    Separate(c, t, root, nil) && Links(c, t, root, nil, m) && Painted(t, reds) && PaintedContext(c, reds)
  }

  /** The same statement one level up. */
  lemma AgreesUp(c: Context, t: Tree, root: Node, nil: Node, m: LinkMap, reds: set<Node>)
    requires c.Under?
    ensures Agrees(c, t, root, nil, m, reds) <==>
            Agrees(c.up, Join(t, c.side, c.node, c.red, c.sibling), root, nil, m, reds)
  {
  }

  lemma {:induction false} AgreesPlug(c: Context, t: Tree, root: Node, nil: Node, m: LinkMap, reds: set<Node>)
    ensures Agrees(c, t, root, nil, m, reds) <==> Agrees(Top, Plug(c, t), root, nil, m, reds)
    decreases c
  {
    if c.Under? {
      AgreesUp(c, t, root, nil, m, reds);
      AgreesPlug(c.up, Join(t, c.side, c.node, c.red, c.sibling), root, nil, m, reds);
    }
  }

  function Recoloured(reds: set<Node>, n: Node, red: bool): set<Node> {
    if red then reds + {n} else reds - {n}
  }

  /** Colouring the top node of the subtree at the position. */
  lemma AgreesRepaint(c: Context, t: Tree, red: bool, root: Node, nil: Node, m: LinkMap, reds: set<Node>)
    requires t.Branch? && Agrees(c, t, root, nil, m, reds)
    ensures Agrees(c, t.(red := red), root, nil, m, Recoloured(reds, t.node, red))
  {
    var reds' := Recoloured(reds, t.node, red);
    PaintedFrame(t.left, reds, reds');
    PaintedFrame(t.right, reds, reds');
    PaintedContextFrame(c, reds, reds');
  }

  lemma AgreesRotate(c: Context, t: Tree, side: Side, root: Node, nil: Node, m: LinkMap, reds: set<Node>)
    requires t.Branch? && (if side.Left? then t.right.Branch? else t.left.Branch?)
    requires Agrees(c, t, root, nil, m, reds)
    ensures Rotatable(m, t.node, side, nil)
    ensures Agrees(c, Rotated(t, side), root, nil, Rotation(m, t.node, side, nil), reds)
  {
    RotationCorrect(c, t, side, root, nil, m);
    RotatedNodes(t, side);
    RotatedDistinct(t, side);
    assert Painted(if side.Left? then t.right else t.left, reds);
    assert Painted(Rotated(t, side), reds);
  }

  /** What the links say at a position. */
  lemma AgreesHere(c: Context, t: Tree, root: Node, nil: Node, m: LinkMap, reds: set<Node>)
    requires Agrees(c, t, root, nil, m, reds)
    ensures Owner(c, root) in m && Owner(c, root) != nil && Owner(c, root) !in Nodes(t)
    ensures t.Branch? ==> t.node in m && m[t.node] == Link(TopOf(t.left, nil), TopOf(t.right, nil), Owner(c, root))
    ensures t.Branch? ==> t.node != root && t.node != nil && (t.node in reds <==> t.red)
    ensures c.Top? ==> m[root] == Link(TopOf(t, nil), nil, nil)
    ensures c.Under? ==> c.node != root && c.node in m && (c.node in reds <==> c.red)
    ensures c.Under? && c.side.Left? ==> m[c.node] == Link(TopOf(t, nil), TopOf(c.sibling, nil), Owner(c.up, root))
    ensures c.Under? && c.side.Right? ==> m[c.node] == Link(TopOf(c.sibling, nil), TopOf(t, nil), Owner(c.up, root))
    ensures c.Under? && c.sibling.Branch? ==>
            c.sibling.node in m && c.sibling.node != nil && TopOf(t, nil) != c.sibling.node
    ensures c.Under? && c.sibling.Branch? ==> (c.sibling.node in reds <==> c.sibling.red)
  {
    assert c.Under? && c.sibling.Branch? ==> c.sibling.node in ContextNodes(c);
    assert t.Branch? ==> t.node in Nodes(t);
  }

  /** Hanging a childless node into an empty position. */
  lemma AgreesAttach(c: Context, z: Node, red: bool, root: Node, nil: Node, m: LinkMap, m': LinkMap, reds: set<Node>)
    requires Agrees(c, Leaf, root, nil, m, reds) && z !in m && z != nil
    requires m'.Keys == m.Keys + {z} && m'[z] == Link(nil, nil, Owner(c, root)) && OwnerRelinked(c, z, root, m, m')
    requires forall n :: n in m && n != Owner(c, root) ==> m'[n] == m[n]
    ensures Agrees(c, Branch(Leaf, z, red, Leaf), root, nil, m', Recoloured(reds, z, red))
  {
    ContextKnown(c, nil, root, nil, m);
    ContextRelink(c, nil, z, root, nil, m, m');
    assert z !in ContextNodes(c);
    PaintedContextFrame(c, reds, Recoloured(reds, z, red));
  }

  lemma {:induction false} TreeKnown(t: Tree, p: Node, nil: Node, m: LinkMap)
    requires Linked(t, p, nil, m)
    ensures Nodes(t) <= m.Keys
  {
    match t
    case Leaf =>
    case Branch(l, n, _, r) =>
      TreeKnown(l, n, nil, m);
      TreeKnown(r, n, nil, m);
  }

  lemma {:induction false} ContextKnown(c: Context, x: Node, root: Node, nil: Node, m: LinkMap)
    requires LinkedContext(c, x, root, nil, m)
    ensures ContextNodes(c) + {root} <= m.Keys
  {
    match c
    case Top =>
    case Under(up, _, n, _, s) =>
      TreeKnown(s, n, nil, m);
      ContextKnown(up, n, root, nil, m);
  }
}
