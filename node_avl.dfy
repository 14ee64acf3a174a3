/**
 * NodeAVL.java: the mutable node of the AVL tree, and the predicates that say which `Tree` a
 * graph of such nodes stands for.
 */
module AVLNodes {
  import opened AVLSpec
  import opened AVLStructure

  class NodeAVL<V> {
    var key: int
    var value: V
    var left: NodeAVL?<V>
    var right: NodeAVL?<V>
    var parent: NodeAVL?<V>
    var height: int
    var balanceFactor: int

    /** NodeAVL(k, v): no links; height and balance factor keep Java's default value 0. */
    constructor (k: int, v: V)
      ensures key == k && value == v
      ensures left == null && right == null && parent == null
      ensures height == 0 && balanceFactor == 0
    {
      key, value := k, v;
      left, right, parent := null, null, null;
      height, balanceFactor := 0, 0;
    }

    /** NodeAVL(k, v, parent): a new leaf under `p`, with height 1. */
    constructor WithParent(k: int, v: V, p: NodeAVL?<V>)
      ensures key == k && value == v && parent == p
      ensures left == null && right == null
      ensures height == 1 && balanceFactor == 0
    {
      key, value, parent := k, v, p;
      left, right := null, null;
      height, balanceFactor := 1, 0;
    }

    method SetValue(v: V)
      modifies this`value
      ensures value == v
    {
      value := v;
    }

    /** Java compares the boxed keys with `==`; the model compares key values. */
    function HasSameKey(k: int): (b: bool)
      reads this
      ensures b <==> key == k
    {
      key == k
    }

    method SetHeight(h: int)
      modifies this`height
      ensures height == h
    {
      height := h;
    }

    method SetBalanceFactor(b: int)
      modifies this`balanceFactor
      ensures balanceFactor == b
    {
      balanceFactor := b;
    }

    method SetParentNode(p: NodeAVL?<V>)
      modifies this`parent
      ensures parent == p
    {
      parent := p;
    }

    function HasLeftNode(): (b: bool)
      reads this
      ensures b <==> left != null
    {
      left != null
    }

    method ChangeLeftNode(n: NodeAVL?<V>)
      modifies this`left
      ensures left == n
    {
      left := n;
    }

    function HasRightNode(): (b: bool)
      reads this
      ensures b <==> right != null
    {
      right != null
    }

    method ChangeRightNode(n: NodeAVL?<V>)
      modifies this`right
      ensures right == n
    {
      right := n;
    }

    /**
     * NodeAVL.getMin: the value of the leftmost node below this one, which is the first node of the
     * in-order walk.  The ghost tree `t` is the subtree rooted here, whose root has parent `p`.
     */
    method GetMin(ghost t: NTree<V>, ghost p: NodeAVL?<V>) returns (v: V)
      requires t.Node? && t.ref == this && Distinct(t) && Holds(Shape(t, p))
      ensures v == Items(t)[0].value
      decreases t
    {
      SubShape(t, p);
      if HasLeftNode() {
        v := left.GetMin(t.left, this);
      } else {
        v := value;
      }
    }

    /** NodeAVL.getMax: the value of the rightmost node below this one, the last of the in-order walk. */
    method GetMax(ghost t: NTree<V>, ghost p: NodeAVL?<V>) returns (v: V)
      requires t.Node? && t.ref == this && Distinct(t) && Holds(Shape(t, p))
      ensures v == Items(t)[|Items(t)| - 1].value
      decreases t
    {
      SubShape(t, p);
      if HasRightNode() {
        v := right.GetMax(t.right, this);
      } else {
        v := value;
      }
    }

    /** NodeAVL.compareTo: nodes are ordered by their keys (Integer.compareTo gives -1, 0 or 1). */
    function CompareTo(o: NodeAVL<V>): (c: int)
      reads this, o
      ensures c < 0 <==> key < o.key
      ensures c == 0 <==> key == o.key
      ensures c > 0 <==> key > o.key
    {
      if key < o.key then -1 else if key == o.key then 0 else 1
    }
  }

  /** TreeAVL.getHeight: the cached height of a node, 0 for a missing one. */
  function HeightOf<V>(n: NodeAVL?<V>): int
    reads n
  {
    if n == null then 0 else n.height
  }

  type NTree<V> = Tree<NodeAVL<V>, V>
  type NPath<V> = Path<NodeAVL<V>, V>

  function RootRef<V>(t: NTree<V>): NodeAVL?<V> { if t.Nil? then null else t.ref }

  /** The parent of a focus position: the node of the innermost frame, none at the root. */
  function UpRef<V>(path: NPath<V>): NodeAVL?<V> { if path == [] then null else path[0].ref }

  /** The seven fields of one node. */
  datatype Links<V> = Links(left: NodeAVL?<V>, right: NodeAVL?<V>, parent: NodeAVL?<V>,
                            key: int, value: V, height: int, bf: int)

  ghost function Fields<V>(n: NodeAVL<V>): Links<V>
    reads n
  {
    Links(n.left, n.right, n.parent, n.key, n.value, n.height, n.balanceFactor)
  }

  /** The fields the root node of `t` must have when its parent is `p`. */
  function Entry<V>(t: NTree<V>, p: NodeAVL?<V>): Links<V>
    requires t.Node?
  {
    Links(RootRef(t.left), RootRef(t.right), p, t.key, t.value, t.height, t.bf)
  }

  /** The fields the node of frame `fr` must have when its child on the path side is `c`. */
  function FrameEntry<V>(fr: Frame<NodeAVL<V>, V>, c: NodeAVL?<V>, up: NodeAVL?<V>): Links<V>
  {
    if fr.side == Left then Links(c, RootRef(fr.sibling), up, fr.key, fr.value, fr.height, fr.bf)
    else Links(RootRef(fr.sibling), c, up, fr.key, fr.value, fr.height, fr.bf)
  }

  /** Every node of `t` (whose root has parent `p`) mapped to the fields it must have. */
  ghost function Shape<V>(t: NTree<V>, p: NodeAVL?<V>): map<NodeAVL<V>, Links<V>>
  {
    match t
    case Nil => map[]
    case Node(l, m, _, _, _, _, r) => (Shape(l, m) + Shape(r, m))[m := Entry(t, p)]
  }

  /** Every node of the frames of `path` and of their siblings, when the innermost frame's child is `c`. */
  ghost function PathShape<V>(path: NPath<V>, c: NodeAVL?<V>): map<NodeAVL<V>, Links<V>>
    decreases |path|
  {
    if path == [] then map[]
    else
      var m := path[0].ref;
      (Shape(path[0].sibling, m) + PathShape(path[1..], m))[m := FrameEntry(path[0], c, UpRef(path[1..]))]
  }

  /** The heap gives every node of `M` the fields `M` records for it. */
  ghost predicate Holds<V>(M: map<NodeAVL<V>, Links<V>>)
    reads M.Keys
  {
    forall n :: n in M ==> Fields(n) == M[n]
  }

  /** The node graph reachable from the root holds `t` exactly, with no node occurring twice. */
  ghost predicate Realises<V>(t: NTree<V>)
    reads Shape(t, null).Keys
  {
    Distinct(t) && Holds(Shape(t, null))
  }

  /** getHeight of the node at the root of a subtree the heap holds is the height the model records. */
  lemma HeightRealised<V>(t: NTree<V>, p: NodeAVL?<V>)
    requires Holds(Shape(t, p))
    ensures HeightOf(RootRef(t)) == H(t)
  {
    if t.Node? {
      assert t.ref in Shape(t, p);
    }
  }

  lemma ShapeKeys<V>(t: NTree<V>, p: NodeAVL?<V>)
    ensures Shape(t, p).Keys == Refs(t)
  {
  }

  lemma PathShapeKeys<V>(path: NPath<V>, c: NodeAVL?<V>)
    ensures PathShape(path, c).Keys == PathRefs(path)
    decreases |path|
  {
    if path != [] {
      ShapeKeys(path[0].sibling, path[0].ref);
      PathShapeKeys(path[1..], path[0].ref);
    }
  }

  /** The entries of a subtree are those its parent's map records for them. */
  lemma SubShape<V>(t: NTree<V>, p: NodeAVL?<V>)
    requires t.Node? && Distinct(t)
    ensures t.ref in Shape(t, p) && Shape(t, p)[t.ref] == Entry(t, p)
    ensures forall n :: n in Shape(t.left, t.ref) ==> n in Shape(t, p) && Shape(t, p)[n] == Shape(t.left, t.ref)[n]
    ensures forall n :: n in Shape(t.right, t.ref) ==> n in Shape(t, p) && Shape(t, p)[n] == Shape(t.right, t.ref)[n]
  {
    ShapeKeys(t.left, t.ref);
    ShapeKeys(t.right, t.ref);
  }

  /** A heap holding a tree holds both its subtrees, and the root has the fields the tree records. */
  lemma SubHolds<V>(t: NTree<V>, p: NodeAVL?<V>)
    requires t.Node? && Distinct(t) && Holds(Shape(t, p))
    ensures Fields(t.ref) == Entry(t, p) && Holds(Shape(t.left, t.ref)) && Holds(Shape(t.right, t.ref))
  {
    SubShape(t, p);
  }

  /** Only the root's own entry depends on the root's parent. */
  lemma ShapeParent<V>(t: NTree<V>, p: NodeAVL?<V>, q: NodeAVL?<V>)
    requires t.Node?
    ensures Shape(t, q) == Shape(t, p)[t.ref := Entry(t, q)]
  {
  }

  /** Only the root's own entry depends on the root's key, value and cached fields. */
  lemma ShapeRetag<V>(t: NTree<V>, t2: NTree<V>, p: NodeAVL?<V>)
    requires t.Node? && t2.Node? && t2.ref == t.ref && t2.left == t.left && t2.right == t.right
    ensures Shape(t2, p) == Shape(t, p)[t.ref := Entry(t2, p)]
  {
  }

  /** The map of a node hung from a frame: the two subtrees' maps and the node's own entry. */
  lemma ShapeHang<V>(fr: Frame<NodeAVL<V>, V>, x: NTree<V>, p: NodeAVL?<V>)
    ensures var u := PlugOne(fr, x);
      Shape(u, p) == (if fr.side == Left then Shape(x, fr.ref) + Shape(fr.sibling, fr.ref)
                      else Shape(fr.sibling, fr.ref) + Shape(x, fr.ref))[fr.ref := Entry(u, p)]
  {
  }

  /** A leaf's map holds its own entry only. */
  lemma ShapeLeaf<V>(l: NTree<V>, p: NodeAVL?<V>)
    requires l.Node? && l.left.Nil? && l.right.Nil?
    ensures Shape(l, p) == map[l.ref := Entry(l, p)]
  {
  }

  /** Only the innermost frame's entry depends on the child below it. */
  lemma PathShapeChild<V>(path: NPath<V>, c: NodeAVL?<V>, d: NodeAVL?<V>)
    requires path != []
    ensures PathShape(path, d) == PathShape(path, c)[path[0].ref := FrameEntry(path[0], d, UpRef(path[1..]))]
  {
  }

  /** Disjoint maps whose union is extended at a fresh key can be regrouped freely. */
  lemma Regroup<K, W>(A: map<K, W>, B: map<K, W>, P: map<K, W>, m: K, e: W)
    requires A.Keys !! B.Keys && A.Keys !! P.Keys && B.Keys !! P.Keys
    requires m !in A && m !in B && m !in P
    ensures P + (A + B)[m := e] == (A + P)[m := e] + B
    ensures P + (B + A)[m := e] == (A + P)[m := e] + B
  {
    assert (A + B) == (B + A);
  }

  /** The map of a whole tree splits into the part held by the path and the part below the focus. */
  lemma {:induction false} ShapePlug<V>(path: NPath<V>, t: NTree<V>)
    requires Distinct(Plug(path, t))
    ensures Shape(Plug(path, t), null) == PathShape(path, RootRef(t)) + Shape(t, UpRef(path))
    decreases |path|
  {
    PlugRefs(path, t);
    if path != [] {
      var fr := path[0];
      var m := fr.ref;
      var u := PlugOne(fr, t);
      PlugRefs(path[1..], u);
      ShapePlug(path[1..], u);
      ShapeKeys(t, m);
      ShapeKeys(fr.sibling, m);
      PathShapeKeys(path[1..], m);
      assert Entry(u, UpRef(path[1..])) == FrameEntry(fr, RootRef(t), UpRef(path[1..]));
      Regroup(Shape(fr.sibling, m), Shape(t, m), PathShape(path[1..], m), m, FrameEntry(fr, RootRef(t), UpRef(path[1..])));
    }
  }

  /**
   * What the map of the whole tree records for the focus node and for its parent.
   */
  lemma Focus<V>(path: NPath<V>, t: NTree<V>)
    requires Distinct(Plug(path, t))
    ensures var M := Shape(Plug(path, t), null);
      && M.Keys == PathRefs(path) + Refs(t)
      && (t.Node? ==> t.ref in M && M[t.ref] == Entry(t, UpRef(path)))
      && (path != [] ==> path[0].ref in M && M[path[0].ref] == FrameEntry(path[0], RootRef(t), UpRef(path[1..])))
  {
    ShapePlug(path, t);
    PlugRefs(path, t);
    ShapeKeys(t, UpRef(path));
    PathShapeKeys(path, RootRef(t));
  }

  /** What the map of the whole tree records for a node, its children and its parent. */
  lemma Around<V>(path: NPath<V>, t: NTree<V>)
    requires t.Node? && Distinct(Plug(path, t))
    ensures var M := Shape(Plug(path, t), null);
      && M.Keys == Refs(Plug(path, t))
      && t.ref in M && M[t.ref] == Entry(t, UpRef(path))
      && (t.left.Node? ==> t.left.ref in M && M[t.left.ref] == Entry(t.left, t.ref))
      && (t.right.Node? ==> t.right.ref in M && M[t.right.ref] == Entry(t.right, t.ref))
      && (path != [] ==> path[0].ref in M && M[path[0].ref] == FrameEntry(path[0], t.ref, UpRef(path[1..])))
  {
    PlugRefs(path, t);
    ShapeKeys(Plug(path, t), null);
    Focus(path, t);
    if t.left.Node? {
      PlugDown(path, t, Left);
      Focus([FrameOf(t, Left)] + path, t.left);
    }
    if t.right.Node? {
      PlugDown(path, t, Right);
      Focus([FrameOf(t, Right)] + path, t.right);
    }
  }

  /**
   * Replacing the focus subtree t by t2 changes nothing recorded for the path's nodes except the
   * innermost frame's child; the entries of the nodes below the focus are those of t2.
   */
  lemma Refocus<V>(path: NPath<V>, t: NTree<V>, t2: NTree<V>)
    requires Distinct(Plug(path, t)) && Distinct(Plug(path, t2))
    ensures var M, M2 := Shape(Plug(path, t), null), Shape(Plug(path, t2), null);
      && M.Keys == PathRefs(path) + Refs(t) && M2.Keys == PathRefs(path) + Refs(t2)
      && (forall n :: n in PathRefs(path) && n != UpRef(path) ==> M2[n] == M[n])
      && (path != [] ==> M2[path[0].ref] == FrameEntry(path[0], RootRef(t2), UpRef(path[1..])))
      && (forall n :: n in Refs(t2) ==> n in Shape(t2, UpRef(path)) && M2[n] == Shape(t2, UpRef(path))[n])
      && (forall n :: n in Refs(t) ==> n in Shape(t, UpRef(path)) && M[n] == Shape(t, UpRef(path))[n])
  {
    ShapePlug(path, t);
    ShapePlug(path, t2);
    PlugRefs(path, t);
    PlugRefs(path, t2);
    ShapeKeys(t, UpRef(path));
    ShapeKeys(t2, UpRef(path));
    PathShapeKeys(path, RootRef(t));
    PathShapeKeys(path, RootRef(t2));
    if path != [] {
      PathShapeChild(path, RootRef(t), RootRef(t2));
    }
  }

  /** Every node of an allocated tree is allocated, so a method call that changes other nodes leaves it alone. */
  lemma RefsAllocated<V>(t: NTree<V>)
    requires allocated(t)
    ensures forall r :: r in Refs(t) ==> allocated(r)
  {
    if t.Node? {
      RefsAllocated(t.left);
      RefsAllocated(t.right);
    }
  }
}
