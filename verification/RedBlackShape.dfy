/** Shapes of the red-black tree of media/common/RedBlackTree.cpp.

    A `Tree` records the nodes of a (sub)tree with their colours; a `Context` is the same tree seen
    from one position: the path from that position to the top, with the subtrees that hang off it.
    Everything in this module is about values: colours, black heights and in-order sequences.
    RedBlackTree.dfy says when the links and colours stored in the nodes agree with such a value. */
module RedBlackShape {

  /** The source's RedBlackTree::Node. The key is what `getKey()` returns: a subclass must not change
      it while the node is in a tree. */
  class Node {
    const key: int
    var isRed: bool
    var left: Node?
    var right: Node?
    var parent: Node?

    constructor (key: int)
      ensures this.key == key && !isRed
      ensures left == null && right == null && parent == null
    {
      this.key := key;
      isRed := false;
      left, right, parent := null, null, null;
    }
  }

  datatype Tree = Leaf | Branch(left: Tree, node: Node, red: bool, right: Tree)

  datatype Side = Left | Right

  /** `side` says under which child of `node` the position lies; `sibling` is the other child. */
  datatype Context = Top | Under(up: Context, side: Side, node: Node, red: bool, sibling: Tree)

  // ------------------------------------------------------------------ plugging and in-order

  /** The tree one level up: the frame's node with `t` on its side. */
  function Join(t: Tree, side: Side, n: Node, red: bool, sibling: Tree): Tree {
    if side.Left? then Branch(t, n, red, sibling) else Branch(sibling, n, red, t)
  }

  function Plug(c: Context, t: Tree): Tree
    decreases c
  {
    match c
    case Top => t
    case Under(up, side, n, red, s) => Plug(up, Join(t, side, n, red, s))
  }

  function Inorder(t: Tree): seq<Node> {
    match t
    case Leaf => []
    case Branch(l, n, _, r) => Inorder(l) + [n] + Inorder(r)
  }

  /** The nodes that precede the position in order. */
  function Before(c: Context): seq<Node> {
    match c
    case Top => []
    case Under(up, side, n, _, s) => if side.Left? then Before(up) else Before(up) + Inorder(s) + [n]
  }

  /** The nodes that follow the position in order. */
  function After(c: Context): seq<Node> {
    match c
    case Top => []
    case Under(up, side, n, _, s) => if side.Left? then [n] + Inorder(s) + After(up) else After(up)
  }

  lemma RegroupLeft<T>(a: seq<T>, b: seq<T>, n: T, c: seq<T>, d: seq<T>)
    ensures a + (b + [n] + c) + d == a + b + ([n] + c + d)
  {}

  lemma RegroupRight<T>(a: seq<T>, b: seq<T>, n: T, c: seq<T>, d: seq<T>)
    ensures a + (b + [n] + c) + d == (a + b + [n]) + c + d
  {}

  lemma {:induction false} PlugInorder(c: Context, t: Tree)
    ensures Inorder(Plug(c, t)) == Before(c) + Inorder(t) + After(c)
    decreases c
  {
    match c
    case Top =>
    case Under(up, Left, n, red, s) =>
      PlugInorder(up, Branch(t, n, red, s));
      RegroupLeft(Before(up), Inorder(t), n, Inorder(s), After(up));
    case Under(up, Right, n, red, s) =>
      PlugInorder(up, Branch(s, n, red, t));
      RegroupRight(Before(up), Inorder(s), n, Inorder(t), After(up));
  }

  // ------------------------------------------------------------------ node sets

  function Nodes(t: Tree): set<Node> {
    match t
    case Leaf => {}
    case Branch(l, n, _, r) => Nodes(l) + {n} + Nodes(r)
  }

  function ContextNodes(c: Context): set<Node> {
    match c
    case Top => {}
    case Under(up, _, n, _, s) => ContextNodes(up) + {n} + Nodes(s)
  }

  /** No node occurs twice. */
  ghost predicate Distinct(t: Tree) {
    match t
    case Leaf => true
    case Branch(l, n, _, r) =>
      Distinct(l) && Distinct(r) && n !in Nodes(l) && n !in Nodes(r) && Nodes(l) !! Nodes(r)
  }

  ghost predicate DistinctContext(c: Context) {
    match c
    case Top => true
    case Under(up, _, n, _, s) =>
      DistinctContext(up) && Distinct(s) && n !in Nodes(s) && n !in ContextNodes(up) && Nodes(s) !! ContextNodes(up)
  }

  lemma {:induction false} PlugNodes(c: Context, t: Tree)
    ensures Nodes(Plug(c, t)) == ContextNodes(c) + Nodes(t)
    ensures Distinct(Plug(c, t)) <==> Distinct(t) && DistinctContext(c) && Nodes(t) !! ContextNodes(c)
    decreases c
  {
    match c
    case Top =>
    case Under(up, side, n, red, s) => PlugNodes(up, Join(t, side, n, red, s));
  }

  lemma {:induction false} InorderNodes(t: Tree, n: Node)
    ensures n in Inorder(t) <==> n in Nodes(t)
  {
    match t
    case Leaf =>
    case Branch(l, _, _, r) =>
      InorderNodes(l, n);
      InorderNodes(r, n);
  }

  // ------------------------------------------------------------------ red-black invariants

  function IsRed(t: Tree): bool {
    t.Branch? && t.red
  }

  /** Number of black nodes on the leftmost path; on a red-black tree, on every path. */
  function BlackHeight(t: Tree): nat {
    match t
    case Leaf => 0
    case Branch(l, _, red, _) => BlackHeight(l) + if red then 0 else 1
  }

  /** No red node has a red child and all paths have equally many black nodes. */
  ghost predicate RedBlack(t: Tree) {
    match t
    case Leaf => true
    case Branch(l, _, red, r) =>
      RedBlack(l) && RedBlack(r) && BlackHeight(l) == BlackHeight(r) && (red ==> !IsRed(l) && !IsRed(r))
  }

  /** What the surroundings demand of the subtree at the position: black height `h` and a root of the
      given colour make the whole a red-black tree with a black top. */
  ghost predicate RedBlackContext(c: Context, h: nat, red: bool) {
    match c
    case Top => !red
    case Under(up, _, _, nred, s) =>
      RedBlack(s) && BlackHeight(s) == h && (nred ==> !red && !IsRed(s)) &&
      RedBlackContext(up, h + (if nred then 0 else 1), nred)
  }

  lemma {:induction false} PlugRedBlack(c: Context, t: Tree)
    ensures RedBlack(Plug(c, t)) && !IsRed(Plug(c, t)) <==>
            RedBlack(t) && RedBlackContext(c, BlackHeight(t), IsRed(t))
    decreases c
  {
    match c
    case Top =>
    case Under(up, side, n, red, s) => PlugRedBlack(up, Join(t, side, n, red, s));
  }

  // ------------------------------------------------------------------ order

  /** Keys never decrease along the sequence: duplicates are allowed. */
  ghost predicate Sorted(s: seq<Node>) {
    forall i, j :: 0 <= i < j < |s| ==> s[i].key <= s[j].key
  }

  ghost predicate AllAtMost(s: seq<Node>, key: int) {
    forall i :: 0 <= i < |s| ==> s[i].key <= key
  }

  ghost predicate AllAbove(s: seq<Node>, key: int) {
    forall i :: 0 <= i < |s| ==> key < s[i].key
  }

  lemma SortedInsert(before: seq<Node>, z: Node, after: seq<Node>)
    requires Sorted(before + after) && AllAtMost(before, z.key) && AllAbove(after, z.key)
    ensures Sorted(before + [z] + after)
  {
    var s, t := before + after, before + [z] + after;
    forall i, j | 0 <= i < j < |t| ensures t[i].key <= t[j].key {
      var i' := if i > |before| then i - 1 else i;
      var j' := if j > |before| then j - 1 else j;
      if i != |before| && j != |before| { assert s[i'].key <= s[j'].key; }
      if j == |before| { assert t[i] == before[i]; }
      if i == |before| { assert t[j] == after[j - |before| - 1]; }
    }
  }

  lemma SortedRemove(before: seq<Node>, z: Node, after: seq<Node>)
    requires Sorted(before + [z] + after)
    ensures Sorted(before + after)
  {
    var s, t := before + [z] + after, before + after;
    forall i, j | 0 <= i < j < |t| ensures t[i].key <= t[j].key {
      var i' := if i >= |before| then i + 1 else i;
      var j' := if j >= |before| then j + 1 else j;
      assert s[i'].key <= s[j'].key;
    }
  }

  // ------------------------------------------------------------------ size and depth

  function Pow2(n: nat): (p: nat)
    ensures p >= 1
  {
    if n == 0 then 1 else 2 * Pow2(n - 1)
  }

  /** The length of the path from the position to the top. */
  function Depth(c: Context): nat {
    match c
    case Top => 0
    case Under(up, _, _, _, _) => 1 + Depth(up)
  }

  lemma {:induction false} Pow2Sum(a: nat, b: nat)
    ensures Pow2(a + b) == Pow2(a) * Pow2(b)
  {
    if a > 0 {
      Pow2Sum(a - 1, b);
      assert a - 1 + b == a + b - 1;
    }
  }

  /** A red-black tree of black height h has at least 2^h - 1 nodes. */
  lemma {:induction false} BlackHeightBound(t: Tree)
    requires RedBlack(t)
    ensures |Inorder(t)| + 1 >= Pow2(BlackHeight(t))
  {
    match t
    case Leaf =>
    case Branch(l, _, _, r) =>
      BlackHeightBound(l);
      BlackHeightBound(r);
  }

  /** Below every position there are as many blacks as above it are missing, so depth is at most
      twice the black height of the whole. */
  lemma {:induction false} DepthBound(c: Context, h: nat, red: bool)
    requires RedBlackContext(c, h, red)
    ensures forall t :: BlackHeight(t) == h ==> BlackHeight(Plug(c, t)) >= h
    ensures forall t :: BlackHeight(t) == h ==>
      Depth(c) <= 2 * (BlackHeight(Plug(c, t)) - h) - (if red then 1 else 0)
    decreases c
  {
    match c
    case Top =>
    case Under(up, side, n, nred, s) =>
      var h' := h + if nred then 0 else 1;
      DepthBound(up, h', nred);
      forall t | BlackHeight(t) == h
        ensures BlackHeight(Plug(c, t)) >= h
        ensures Depth(c) <= 2 * (BlackHeight(Plug(c, t)) - h) - (if red then 1 else 0)
      {
        var t' := Join(t, side, n, nred, s);
        assert Plug(c, t) == Plug(up, t');
        assert BlackHeight(t') == h';
      }
  }
}
