/**
 * Functional model of the AVL tree kept by TreeAVL.java.
 *
 * A `Tree` is the shape of the node graph together with every node's identity (`ref`, left generic as `R`),
 * key, value and the two cached fields the Java nodes carry (`height`, `bf` for balanceFactor).  Each step
 * that TreeAVL performs on the node graph has a function here that performs the same step on a `Tree`;
 * the class in tree_avl.dfy is proved to leave the heap in exactly the state these functions compute.
 *
 * Positions inside a tree are zippers: a `Path` lists the nodes from a focus position up to the root,
 * innermost first, each with the child it keeps on the other side.  TreeAVL walks back up through parent
 * links; here the walk is over a `Path`.
 */
module AVLSpec {

  datatype Option<T> = None | Some(value: T)

  function Max(a: int, b: int): int { if a >= b then a else b }

  datatype Side = Left | Right

  datatype Tree<R, V> =
    | Nil
    | Node(left: Tree<R, V>, ref: R, key: int, value: V, height: int, bf: int, right: Tree<R, V>)

  /** What an in-order walk sees of one node. */
  datatype Item<R, V> = Item(ref: R, key: int, value: V)

  /** A node on the way from a focus position to the root; the focus hangs on its `side`. */
  datatype Frame<R, V> = Frame(side: Side, ref: R, key: int, value: V, height: int, bf: int, sibling: Tree<R, V>)

  /** Innermost frame first: path[0] is the parent of the focus, the last frame is the root. */
  type Path<R, V> = seq<Frame<R, V>>

  /** A position in a tree: the subtree `node` reached along `path`. */
  datatype Spot<R, V> = Spot(path: Path<R, V>, node: Tree<R, V>)

  /** TreeAVL.getHeight: the cached height, 0 for a missing node. */
  function H<R, V>(t: Tree<R, V>): int { if t.Nil? then 0 else t.height }

  /** A node as the three-argument NodeAVL constructor makes it: height 1, balance factor 0, no children. */
  function Leaf<R, V>(m: R, k: int, v: V): Tree<R, V> { Node(Nil, m, k, v, 1, 0, Nil) }

  function Items<R, V>(t: Tree<R, V>): seq<Item<R, V>>
  {
    match t
    case Nil => []
    case Node(l, m, k, v, _, _, r) => Items(l) + [Item(m, k, v)] + Items(r)
  }

  /** TreeAVL.preorderIterator: a node's value, then its left subtree, then its right subtree. */
  function Preorder<R, V>(t: Tree<R, V>): seq<V>
  {
    match t
    case Nil => []
    case Node(l, _, _, v, _, _, r) => [v] + Preorder(l) + Preorder(r)
  }

  /** TreeAVL.inorderIterator: the left subtree, the node's value, the right subtree. */
  function Inorder<R, V>(t: Tree<R, V>): seq<V>
  {
    match t
    case Nil => []
    case Node(l, _, _, v, _, _, r) => Inorder(l) + [v] + Inorder(r)
  }

  /** TreeAVL.postorderIterator: the left subtree, the right subtree, then the node's value. */
  function Postorder<R, V>(t: Tree<R, V>): seq<V>
  {
    match t
    case Nil => []
    case Node(l, _, _, v, _, _, r) => Postorder(l) + Postorder(r) + [v]
  }

  ghost function Refs<R, V>(t: Tree<R, V>): set<R>
  {
    match t
    case Nil => {}
    case Node(l, m, _, _, _, _, r) => Refs(l) + {m} + Refs(r)
  }

  /** No node occurs twice. */
  ghost predicate Distinct<R, V>(t: Tree<R, V>)
  {
    t.Node? ==>
      && t.ref !in Refs(t.left) && t.ref !in Refs(t.right) && Refs(t.left) !! Refs(t.right)
      && Distinct(t.left) && Distinct(t.right)
  }

  /** The nodes on a path and in the siblings it keeps. */
  ghost function PathRefs<R, V>(path: Path<R, V>): set<R>
    decreases |path|
  {
    if path == [] then {} else {path[0].ref} + Refs(path[0].sibling) + PathRefs(path[1..])
  }

  /** No node occurs twice on a path or in the siblings it keeps. */
  ghost predicate DistinctPath<R, V>(path: Path<R, V>)
    decreases |path|
  {
    path != [] ==>
      && path[0].ref !in Refs(path[0].sibling) && Distinct(path[0].sibling)
      && ({path[0].ref} + Refs(path[0].sibling)) !! PathRefs(path[1..])
      && DistinctPath(path[1..])
  }

  /** Structural height, the quantity the cached `height` field stands for. */
  function Height<R, V>(t: Tree<R, V>): nat
  {
    if t.Nil? then 0 else 1 + Max(Height(t.left), Height(t.right))
  }

  /** Every cached height is at least 1: every write to the field stores 1 + max of two such values. */
  predicate PositiveHeights<R, V>(t: Tree<R, V>)
  {
    t.Node? ==> t.height >= 1 && PositiveHeights(t.left) && PositiveHeights(t.right)
  }

  predicate ChildrenPositive<R, V>(t: Tree<R, V>)
  {
    t.Node? && PositiveHeights(t.left) && PositiveHeights(t.right)
  }

  predicate PathPositive<R, V>(path: Path<R, V>)
  {
    forall i :: 0 <= i < |path| ==> PositiveHeights(path[i].sibling) && path[i].height >= 1
  }

  /** TreeAVL.setBalance (with reHeight): recompute both cached fields from the children's cached heights. */
  function SetBalance<R, V>(t: Tree<R, V>): Tree<R, V>
    requires t.Node?
  {
    t.(height := 1 + Max(H(t.left), H(t.right)), bf := H(t.right) - H(t.left))
  }

  /** TreeAVL.rightRotate: the left child b rises, b's right subtree becomes a's left; a then b re-balanced. */
  function RotateRight<R, V>(a: Tree<R, V>): (r: Tree<R, V>)
    requires a.Node? && a.left.Node?
    ensures r.Node? && (ChildrenPositive(a) ==> PositiveHeights(r))
  {
    var b := a.left;
    SetBalance(b.(right := SetBalance(a.(left := b.right))))
  }

  /** TreeAVL.leftRotate: the mirror image of RotateRight. */
  function RotateLeft<R, V>(a: Tree<R, V>): (r: Tree<R, V>)
    requires a.Node? && a.right.Node?
    ensures r.Node? && (ChildrenPositive(a) ==> PositiveHeights(r))
  {
    var b := a.right;
    SetBalance(b.(left := SetBalance(a.(right := b.left))))
  }

  /** TreeAVL.leftRightRotate: left-rotate the left child, then right-rotate the node. */
  function RotateLeftRight<R, V>(a: Tree<R, V>): (r: Tree<R, V>)
    requires a.Node? && a.left.Node? && a.left.right.Node?
    ensures r.Node? && (ChildrenPositive(a) ==> PositiveHeights(r))
  {
    RotateRight(a.(left := RotateLeft(a.left)))
  }

  /** TreeAVL.rightLeftRotate: right-rotate the right child, then left-rotate the node. */
  function RotateRightLeft<R, V>(a: Tree<R, V>): (r: Tree<R, V>)
    requires a.Node? && a.right.Node? && a.right.left.Node?
    ensures r.Node? && (ChildrenPositive(a) ==> PositiveHeights(r))
  {
    RotateLeft(a.(right := RotateRight(a.right)))
  }

  /**
   * One step of TreeAVL.reBalance on node t: setBalance, then the rotation that a balance factor of
   * -2 or +2 calls for.  The result is the subtree that now hangs where t hung.
   */
  function Fix<R, V>(t: Tree<R, V>): (r: Tree<R, V>)
    requires ChildrenPositive(t)
    ensures r.Node? && PositiveHeights(r)
  {
    var s := SetBalance(t);
    assert t.left.Node? ==> PositiveHeights(t.left.left) && PositiveHeights(t.left.right);
    assert t.right.Node? ==> PositiveHeights(t.right.left) && PositiveHeights(t.right.right);
    if s.bf == -2 then
      if H(s.left.left) >= H(s.left.right) then RotateRight(s) else RotateLeftRight(s)
    else if s.bf == 2 then
      if H(s.right.right) >= H(s.right.left) then RotateLeft(s) else RotateRightLeft(s)
    else s
  }

  function PlugOne<R, V>(f: Frame<R, V>, t: Tree<R, V>): Tree<R, V>
  {
    if f.side == Left then Node(t, f.ref, f.key, f.value, f.height, f.bf, f.sibling)
    else Node(f.sibling, f.ref, f.key, f.value, f.height, f.bf, t)
  }

  /** The whole tree with `t` put at the position `path` leads to. */
  function Plug<R, V>(path: Path<R, V>, t: Tree<R, V>): Tree<R, V>
    decreases |path|
  {
    if path == [] then t else Plug(path[1..], PlugOne(path[0], t))
  }

  /** The frame that records node t when the walk continues into its child on `side`. */
  function FrameOf<R, V>(t: Tree<R, V>, side: Side): Frame<R, V>
    requires t.Node?
  {
    Frame(side, t.ref, t.key, t.value, t.height, t.bf, if side == Left then t.right else t.left)
  }

  function Child<R, V>(t: Tree<R, V>, side: Side): Tree<R, V>
    requires t.Node?
  {
    if side == Left then t.left else t.right
  }

  /**
   * TreeAVL.reBalance(n) with n the root of `t` and `path` the chain of its ancestors: fix n, then
   * continue with the parent until there is none; the final subtree is the whole new tree.
   */
  function RebalanceUp<R, V>(path: Path<R, V>, t: Tree<R, V>): (r: Tree<R, V>)
    requires ChildrenPositive(t) && PathPositive(path)
    ensures r.Node? && PositiveHeights(r)
    decreases |path|
  {
    var u := Fix(t);
    if path == [] then u else RebalanceUp(path[1..], PlugOne(path[0], u))
  }

  /**
   * The descent of TreeAVL.insert: every node met whose key equals k has its value set to v, the walk
   * goes left exactly when k is smaller than the node's key, and it stops at the first missing child.
   * The result is the path from that empty slot to the root.
   */
  function Descend<R, V>(t: Tree<R, V>, k: int, v: V, path: Path<R, V>): (r: Path<R, V>)
    ensures |r| >= |path| && (t.Node? ==> |r| > |path|)
    ensures PositiveHeights(t) && PathPositive(path) ==> PathPositive(r)
    decreases t
  {
    if t.Nil? then path
    else
      var w := if t.key == k then t.(value := v) else t;
      if k < t.key then Descend(t.left, k, v, [FrameOf(w, Left)] + path)
      else Descend(t.right, k, v, [FrameOf(w, Right)] + path)
  }

  /** One step of the descent: set the value if the key matches, then move to the chosen child. */
  lemma DescendOne<R, V>(t: Tree<R, V>, k: int, v: V, path: Path<R, V>)
    requires t.Node?
    ensures var w := if t.key == k then t.(value := v) else t;
      var side := if k < w.key then Left else Right;
      Child(w, side) == Child(t, side) && Descend(t, k, v, path) == Descend(Child(t, side), k, v, [FrameOf(w, side)] + path)
  {
  }

  /** TreeAVL.insert(k, v), where m is the node it allocates. */
  function Insert<R, V>(t: Tree<R, V>, k: int, v: V, m: R): (r: Tree<R, V>)
    requires PositiveHeights(t)
    ensures r.Node? && PositiveHeights(r)
  {
    if t.Nil? then Leaf(m, k, v)
    else
      var p := Descend(t, k, v, []);
      RebalanceUp(p[1..], PlugOne(p[0], Leaf(m, k, v)))
  }

  /** The descent of insert that stops below the node of frame f, with `path` above it, ends at f's empty slot. */
  lemma InsertAt<R, V>(t: Tree<R, V>, k: int, v: V, m: R, f: Frame<R, V>, path: Path<R, V>)
    requires t.Node? && PositiveHeights(t) && Descend(t, k, v, []) == [f] + path
    ensures PathPositive(path) && f.height >= 1 && PositiveHeights(f.sibling)
    ensures Insert(t, k, v, m) == RebalanceUp(path, PlugOne(f, Leaf(m, k, v)))
  {
    var p := Descend(t, k, v, []);
    assert p[0] == f && p[1..] == path;
    assert forall i :: 0 <= i < |path| ==> path[i] == p[i + 1];
  }

  /**
   * The search loop of the public TreeAVL.delete: stop at the first node whose key is k, otherwise go
   * right when k is at least the node's key and left when it is smaller.
   */
  function Locate<R, V>(t: Tree<R, V>, k: int, path: Path<R, V>): (r: Option<Spot<R, V>>)
    ensures r.Some? ==> r.value.node.Node? && r.value.node.key == k
    ensures r.Some? && PositiveHeights(t) && PathPositive(path) ==>
      PathPositive(r.value.path) && PositiveHeights(r.value.node)
    decreases t
  {
    if t.Nil? then None
    else if t.key == k then Some(Spot(path, t))
    else if k >= t.key then Locate(t.right, k, [FrameOf(t, Right)] + path)
    else Locate(t.left, k, [FrameOf(t, Left)] + path)
  }

  /** `while (child.getRightNode() != null) child = child.getRightNode();` starting at t. */
  function RightmostFrom<R, V>(t: Tree<R, V>, path: Path<R, V>): (r: Spot<R, V>)
    requires t.Node?
    ensures r.node.Node? && r.node.right.Nil? && |Items(r.node)| <= |Items(t)| && |r.path| >= |path|
    ensures PositiveHeights(t) && PathPositive(path) ==> PathPositive(r.path) && PositiveHeights(r.node)
    decreases t
  {
    if t.right.Nil? then Spot(path, t) else RightmostFrom(t.right, [FrameOf(t, Right)] + path)
  }

  /** `while (child.getLeftNode() != null) child = child.getLeftNode();` starting at t. */
  function LeftmostFrom<R, V>(t: Tree<R, V>, path: Path<R, V>): (r: Spot<R, V>)
    requires t.Node?
    ensures r.node.Node? && r.node.left.Nil? && |Items(r.node)| <= |Items(t)| && |r.path| >= |path|
    ensures PositiveHeights(t) && PathPositive(path) ==> PathPositive(r.path) && PositiveHeights(r.node)
    decreases t
  {
    if t.left.Nil? then Spot(path, t) else LeftmostFrom(t.left, [FrameOf(t, Left)] + path)
  }

  /**
   * The recursion of the private TreeAVL.delete(n): a node with a left child hands the deletion on to
   * the rightmost node of its left subtree, a node with only a right child to the leftmost node of its
   * right subtree, and so on until a leaf is reached.  Nothing is copied into the nodes passed over.
   */
  function LeafChain<R, V>(s: Spot<R, V>): (r: Spot<R, V>)
    requires s.node.Node?
    ensures r.node.Node? && r.node.left.Nil? && r.node.right.Nil?
    ensures PositiveHeights(s.node) && PathPositive(s.path) ==> PathPositive(r.path) && PositiveHeights(r.node)
    decreases |Items(s.node)|
  {
    var n := s.node;
    if n.left.Nil? && n.right.Nil? then s
    else if n.left.Node? then LeafChain(RightmostFrom(n.left, [FrameOf(n, Left)] + s.path))
    else LeafChain(LeftmostFrom(n.right, [FrameOf(n, Right)] + s.path))
  }

  /**
   * The leaf case of the private TreeAVL.delete: a root leaf empties the tree; any other leaf is
   * unlinked from its parent and rebalancing starts at that parent.
   */
  function RemoveLeaf<R, V>(s: Spot<R, V>): (r: Tree<R, V>)
    requires PathPositive(s.path)
    ensures r.Nil? <==> s.path == []
    ensures PositiveHeights(r)
  {
    if s.path == [] then Nil else RebalanceUp(s.path[1..], PlugOne(s.path[0], Nil))
  }

  /** TreeAVL.delete(k). */
  function Delete<R, V>(t: Tree<R, V>, k: int): (r: Tree<R, V>)
    requires PositiveHeights(t)
    ensures PositiveHeights(r)
  {
    match Locate(t, k, [])
    case None => t
    case Some(s) => RemoveLeaf(LeafChain(s))
  }
}
