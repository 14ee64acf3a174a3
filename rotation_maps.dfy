/**
 * The link maps of the trees the rebalancing steps produce are the maps AVLLinks computes from the
 * link map of the tree before the step: rotating the tree and rotating its nodes' fields agree.
 */
module AVLRotationMaps {
  import opened AVLSpec
  import opened AVLStructure
  import opened AVLNodes
  import opened AVLLinks

  /** The recorded height of the root of a subtree hanging in the map is its cached height. */
  lemma HeightInRoot<V>(M: LinkMap<V>, t: NTree<V>, p: NodeAVL?<V>)
    requires t.Node? ==> t.ref in M && M[t.ref] == Entry(t, p)
    ensures HeightIn(M, RootRef(t)) == H(t)
  {
  }

  /** Updating the right operand of a union at a key updates the union there. */
  lemma UpdateUnion<K, W>(P: map<K, W>, S: map<K, W>, n: K, e: W)
    ensures P + S[n := e] == (P + S)[n := e]
  {
  }

  /** What setBalance reads at the focus node, and the entry it leaves there. */
  lemma SetBalanceEntry<V>(path: NPath<V>, t: NTree<V>)
    requires t.Node? && Distinct(Plug(path, t))
    ensures var M, n := Shape(Plug(path, t), null), t.ref;
      && n in M && M[n].left != n && M[n].right != n
      && (M[n].left != null ==> M[n].left in M) && (M[n].right != null ==> M[n].right in M)
      && Balanced(M, n) == Entry(SetBalance(t), UpRef(path))
  {
    var M := Shape(Plug(path, t), null);
    PlugRefs(path, t);
    Around(path, t);
    if t.left.Node? {
      assert t.left.ref in Refs(t.left);
    }
    if t.right.Node? {
      assert t.right.ref in Refs(t.right);
    }
    HeightInRoot(M, t.left, t.ref);
    HeightInRoot(M, t.right, t.ref);
  }

  /**
   * Changing the key, value or cached fields of the focus node (setBalance, setValue) changes the map
   * of the whole tree at that node only.
   */
  lemma RetagMap<V>(path: NPath<V>, t: NTree<V>, t2: NTree<V>)
    requires t.Node? && t2.Node? && t2.ref == t.ref && t2.left == t.left && t2.right == t.right
    requires Distinct(Plug(path, t))
    ensures Distinct(Plug(path, t2))
    ensures Shape(Plug(path, t2), null) == Shape(Plug(path, t), null)[t.ref := Entry(t2, UpRef(path))]
  {
    PlugRefs(path, t);
    PlugRefs(path, t2);
    ShapePlug(path, t);
    ShapePlug(path, t2);
    ShapeRetag(t, t2, UpRef(path));
    UpdateUnion(PathShape(path, t.ref), Shape(t, UpRef(path)), t.ref, Entry(t2, UpRef(path)));
  }

  /** setBalance at the focus changes nothing in the map but the focus node's two cached fields. */
  lemma SetBalanceMap<V>(path: NPath<V>, t: NTree<V>)
    requires t.Node? && Distinct(Plug(path, t))
    ensures var M, n := Shape(Plug(path, t), null), t.ref;
      && n in M && M[n].left != n && M[n].right != n
      && (M[n].left != null ==> M[n].left in M) && (M[n].right != null ==> M[n].right in M)
      && Distinct(Plug(path, SetBalance(t)))
      && Shape(Plug(path, SetBalance(t)), null) == M[n := Balanced(M, n)]
  {
    SetBalanceEntry(path, t);
    RetagMap(path, t, SetBalance(t));
  }

  /** setValue at the focus changes nothing in the map but the focus node's value. */
  lemma SetValueMap<V>(path: NPath<V>, t: NTree<V>, v: V)
    requires t.Node? && Distinct(Plug(path, t))
    ensures var M, n := Shape(Plug(path, t), null), t.ref;
      && n in M && Distinct(Plug(path, t.(value := v)))
      && Refs(Plug(path, t.(value := v))) == Refs(Plug(path, t))
      && Shape(Plug(path, t.(value := v)), null) == M[n := M[n].(value := v)]
  {
    Around(path, t);
    RetagMap(path, t, t.(value := v));
    PlugRefs(path, t);
    PlugRefs(path, t.(value := v));
  }

  /** What reBalance reads below the focus node's child on `side`: that child's subtrees and their heights. */
  lemma ChildHeights<V>(path: NPath<V>, t: NTree<V>, side: Side)
    requires t.Node? && Child(t, side).Node? && Distinct(Plug(path, t))
    ensures var M, c := Shape(Plug(path, t), null), Child(t, side);
      && t.ref in M && c.ref in M && c.ref != t.ref
      && (if side == Left then M[t.ref].left else M[t.ref].right) == c.ref
      && M[c.ref].left == RootRef(c.left) && M[c.ref].right == RootRef(c.right)
      && (c.left.Node? ==> c.left.ref in M) && (c.right.Node? ==> c.right.ref in M)
      && HeightIn(M, RootRef(c.left)) == H(c.left) && HeightIn(M, RootRef(c.right)) == H(c.right)
  {
    var M, c := Shape(Plug(path, t), null), Child(t, side);
    Around(path, t);
    PlugDown(path, t, side);
    Around([FrameOf(t, side)] + path, c);
    HeightInRoot(M, c.left, c.ref);
    HeightInRoot(M, c.right, c.ref);
  }

  /**
   * Read off the nodes: the heights reBalance compares below the child on `side` of the focus node are
   * those of the tree, and neither is negative.
   */
  lemma ChildLinks<V>(path: NPath<V>, s: NTree<V>, side: Side)
    requires s.Node? && Child(s, side).Node? && ChildrenPositive(s) && Distinct(Plug(path, s))
    requires Holds(Shape(Plug(path, s), null))
    ensures var c, k := Child(s, side), if side == Left then s.ref.left else s.ref.right;
      && k != null && HeightOf(k.left) == H(c.left) && HeightOf(k.right) == H(c.right)
      && H(c.left) >= 0 && H(c.right) >= 0
  {
    var M, c := Shape(Plug(path, s), null), Child(s, side);
    ChildHeights(path, s, side);
    HeightHeld(M, M[c.ref].left);
    HeightHeld(M, M[c.ref].right);
    assert PositiveHeights(c.left) && PositiveHeights(c.right);
  }

  /** setBalance at the focus of reBalance: the map before and after, and what the new balance factor implies. */
  lemma SetBalanceStep<V>(path: NPath<V>, t: NTree<V>)
    requires ChildrenPositive(t) && Distinct(Plug(path, t))
    ensures var M, n, s := Shape(Plug(path, t), null), t.ref, SetBalance(t);
      && M.Keys == Refs(Plug(path, t)) && n in M && M[n].left != n && M[n].right != n
      && (M[n].left != null ==> M[n].left in M) && (M[n].right != null ==> M[n].right in M)
      && Distinct(Plug(path, s)) && Refs(Plug(path, s)) == Refs(Plug(path, t))
      && Shape(Plug(path, s), null) == M[n := Balanced(M, n)] && Balanced(M, n) == Entry(s, UpRef(path))
      && ChildrenPositive(s) && (s.bf == -2 ==> s.left.Node?) && (s.bf == 2 ==> s.right.Node?)
  {
    SetBalanceMap(path, t);
    SetBalanceEntry(path, t);
    ShapeKeys(Plug(path, t), null);
    SetBalanceRefs(t);
    PlugRefs(path, t);
    PlugRefs(path, SetBalance(t));
  }

  /** After one reBalance step, the node in the focus names the focus's parent and the tree has no repetition. */
  lemma FixParent<V>(path: NPath<V>, t: NTree<V>)
    requires ChildrenPositive(t) && Distinct(Plug(path, t))
    ensures var u := Fix(t); var M := Shape(Plug(path, u), null);
      && Distinct(Plug(path, u)) && u.ref in M && M[u.ref].parent == UpRef(path)
  {
    var u := Fix(t);
    FixRefs(t);
    PlugRefs(path, t);
    PlugRefs(path, u);
    Around(path, u);
  }

  /**
   * The walk of reBalance after one step: the tree has the same nodes, and the walk either stops at the
   * root or moves one level up.
   */
  lemma FixStep<V>(path: NPath<V>, t: NTree<V>)
    requires ChildrenPositive(t) && PathPositive(path)
    ensures var u := Fix(t);
      && Refs(Plug(path, u)) == Refs(Plug(path, t))
      && (path == [] ==> RebalanceUp(path, t) == u && Plug(path, u) == u)
      && (path != [] ==> && ChildrenPositive(PlugOne(path[0], u)) && PathPositive(path[1..])
                         && Plug(path[1..], PlugOne(path[0], u)) == Plug(path, u)
                         && RebalanceUp(path, t) == RebalanceUp(path[1..], PlugOne(path[0], u)))
  {
    var u := Fix(t);
    FixRefs(t);
    PlugRefs(path, t);
    PlugRefs(path, u);
    if path != [] {
      assert PositiveHeights(path[0].sibling);
      assert forall i :: 0 <= i < |path[1..]| ==> path[1..][i] == path[i + 1];
    }
  }

  /**
   * The case of reBalance for a node that leans left, read off the node graph M records: the heights the
   * code compares pick the rotation Fix picks, which is allowed on M and turns M into the map of the tree
   * with Fix(t) in t's place.
   */
  lemma LeftHeavyMap<V>(path: NPath<V>, t: NTree<V>)
    requires ChildrenPositive(t) && SetBalance(t).bf == -2 && SetBalance(t).left.Node?
    requires Distinct(Plug(path, SetBalance(t))) && Holds(Shape(Plug(path, SetBalance(t)), null))
    ensures var s := SetBalance(t); var M, a := Shape(Plug(path, s), null), t.ref;
      && M.Keys == Refs(Plug(path, t)) && a in M && a.left == M[a].left && a.left != null
      && (HeightOf(a.left.left) >= HeightOf(a.left.right) ==>
            CanRotateRight(M, a) && Fix(t).ref == M[a].left && Shape(Plug(path, Fix(t)), null) == RotatedRight(M, a))
      && (HeightOf(a.left.left) < HeightOf(a.left.right) ==>
            && M[a].right != M[a].left && CanRotateLeft(M, M[a].left) && M[M[a].left].parent == a
            && CanRotateRight(RotatedLeft(M, M[a].left), a) && Fix(t).ref == M[M[a].left].right
            && Shape(Plug(path, Fix(t)), null) == RotatedRight(RotatedLeft(M, M[a].left), a))
  {
    var s := SetBalance(t);
    assert ChildrenPositive(s);
    ChildLinks(path, s, Left);
    ChildHeights(path, s, Left);
    ShapeKeys(Plug(path, s), null);
    SetBalanceRefs(t);
    PlugRefs(path, t);
    PlugRefs(path, s);
    if H(s.left.left) >= H(s.left.right) {
      assert Fix(t) == RotateRight(s);
      RotateRightMap(path, s);
      RotateRightShape(s);
    } else {
      assert s.left.right.Node? && Fix(t) == RotateLeftRight(s);
      RotateLeftRightMap(path, s);
      RotateLeftShape(s.left);
      RotateRightShape(s.(left := RotateLeft(s.left)));
    }
  }

  /** The mirror of LeftHeavyMap, for a node that leans right. */
  lemma RightHeavyMap<V>(path: NPath<V>, t: NTree<V>)
    requires ChildrenPositive(t) && SetBalance(t).bf == 2 && SetBalance(t).right.Node?
    requires Distinct(Plug(path, SetBalance(t))) && Holds(Shape(Plug(path, SetBalance(t)), null))
    ensures var s := SetBalance(t); var M, a := Shape(Plug(path, s), null), t.ref;
      && M.Keys == Refs(Plug(path, t)) && a in M && a.right == M[a].right && a.right != null
      && (HeightOf(a.right.right) >= HeightOf(a.right.left) ==>
            CanRotateLeft(M, a) && Fix(t).ref == M[a].right && Shape(Plug(path, Fix(t)), null) == RotatedLeft(M, a))
      && (HeightOf(a.right.right) < HeightOf(a.right.left) ==>
            && M[a].left != M[a].right && CanRotateRight(M, M[a].right) && M[M[a].right].parent == a
            && CanRotateLeft(RotatedRight(M, M[a].right), a) && Fix(t).ref == M[M[a].right].left
            && Shape(Plug(path, Fix(t)), null) == RotatedLeft(RotatedRight(M, M[a].right), a))
  {
    var s := SetBalance(t);
    assert ChildrenPositive(s);
    ChildLinks(path, s, Right);
    ChildHeights(path, s, Right);
    ShapeKeys(Plug(path, s), null);
    SetBalanceRefs(t);
    PlugRefs(path, t);
    PlugRefs(path, s);
    if H(s.right.right) >= H(s.right.left) {
      assert Fix(t) == RotateLeft(s);
      RotateLeftMap(path, s);
      RotateLeftShape(s);
    } else {
      assert s.right.left.Node? && Fix(t) == RotateRightLeft(s);
      RotateRightLeftMap(path, s);
      RotateRightShape(s.right);
      RotateLeftShape(s.(right := RotateRight(s.right)));
    }
  }

  /**
   * One step down from node w to its child on `side`, as the walks of insert and delete take it: the
   * key the code compares and the child link it follows, read off the node graph, and the path one
   * level down, which plugs back to the same tree.
   */
  lemma StepDown<V>(path: NPath<V>, w: NTree<V>, side: Side)
    requires w.Node? && Realises(Plug(path, w)) && PositiveHeights(w) && PathPositive(path)
    ensures var p2, c := [FrameOf(w, side)] + path, Child(w, side);
      && w.ref.key == w.key && (if side == Left then w.ref.left else w.ref.right) == RootRef(c)
      && Plug(p2, c) == Plug(path, w) && PathPositive(p2) && PositiveHeights(c)
      && (c.Nil? <==> RootRef(c) == null)
  {
    var p2 := [FrameOf(w, side)] + path;
    Around(path, w);
    PlugDown(path, w, side);
    assert forall i :: 1 <= i < |p2| ==> p2[i] == path[i - 1];
  }

  /** A map extended by a fresh leaf hung below one of its nodes. */
  lemma AttachUnion<K, W>(P: map<K, W>, S: map<K, W>, w: K, m: K, e0: W, e: W, a: W)
    requires m !in P && m !in S && m != w
    ensures P + (map[m := a] + S)[w := e] == (P + (map[] + S)[w := e0])[w := e][m := a]
    ensures P + (S + map[m := a])[w := e] == (P + (S + map[])[w := e0])[w := e][m := a]
  {
  }

  /**
   * insert hangs a new leaf in the empty child slot of the last node w on its descent: the map gains
   * the leaf's entry and changes w's child link on that side.
   */
  lemma AttachMap<V>(path: NPath<V>, w: NTree<V>, side: Side, m: NodeAVL<V>, k: int, v: V)
    requires w.Node? && Child(w, side).Nil? && Distinct(Plug(path, w)) && m !in Refs(Plug(path, w))
    ensures var M, t2 := Shape(Plug(path, w), null), PlugOne(FrameOf(w, side), Leaf(m, k, v));
      && w.ref in M && Distinct(Plug(path, t2))
      && Shape(Plug(path, t2), null) ==
         M[w.ref := if side == Left then M[w.ref].(left := m) else M[w.ref].(right := m)][m := Entry(Leaf(m, k, v), w.ref)]
  {
    var fr, up := FrameOf(w, side), UpRef(path);
    var l, t2 := Leaf(m, k, v), PlugOne(fr, Leaf(m, k, v));
    PlugRefs(path, w);
    PlugRefs(path, t2);
    ShapePlug(path, w);
    ShapePlug(path, t2);
    ShapeKeys(fr.sibling, w.ref);
    PathShapeKeys(path, w.ref);
    assert PlugOne(fr, Nil) == w;
    ShapeHang(fr, Nil, up);
    ShapeHang(fr, l, up);
    ShapeLeaf(l, w.ref);
    AttachUnion(PathShape(path, w.ref), Shape(fr.sibling, w.ref), w.ref, m, Entry(w, up), Entry(t2, up), Entry(l, w.ref));
  }

  /** The fields of the node at the focus are those the tree gives it. */
  lemma NodeLinks<V>(path: NPath<V>, t: NTree<V>)
    requires t.Node? && Realises(Plug(path, t))
    ensures t.ref in Shape(Plug(path, t), null) && Fields(t.ref) == Entry(t, UpRef(path))
    ensures t.ref in Refs(Plug(path, t)) && (path == [] <==> UpRef(path) == null)
  {
    Around(path, t);
  }

  /** The tree insert hands to reBalance has the old nodes and the new one, all with positive heights. */
  lemma AttachRefs<V>(path: NPath<V>, w: NTree<V>, side: Side, m: NodeAVL<V>, k: int, v: V)
    requires w.Node? && Child(w, side).Nil? && PositiveHeights(w)
    ensures var t2 := PlugOne(FrameOf(w, side), Leaf(m, k, v));
      && Refs(Plug(path, t2)) == Refs(Plug(path, w)) + {m} && t2.ref == w.ref && ChildrenPositive(t2)
  {
    var t2 := PlugOne(FrameOf(w, side), Leaf(m, k, v));
    PlugRefs(path, w);
    PlugRefs(path, t2);
  }

  /** The tree delete hands to reBalance once the leaf at the focus is unlinked from its parent. */
  lemma DetachRefs<V>(path: NPath<V>, l: NTree<V>)
    requires path != [] && l.Node? && PathPositive(path)
    ensures var u := PlugOne(path[0], Nil);
      && u.Node? && u.ref == path[0].ref && ChildrenPositive(u) && PathPositive(path[1..])
      && Plug(path[1..], u) == Plug(path, Nil) && Refs(Plug(path, Nil)) <= Refs(Plug(path, l))
      && path[0].ref in Refs(Plug(path, l))
  {
    PlugRefs(path, l);
    PlugRefs(path, Nil);
    assert PositiveHeights(path[0].sibling);
    assert forall i :: 0 <= i < |path[1..]| ==> path[1..][i] == path[i + 1];
  }

  /** Dropping a key from a union that added it, after updating another key. */
  lemma DetachUnion<K, W>(P: map<K, W>, a: K, e: W, p: K, e2: W)
    requires a !in P && a != p
    ensures (P + map[a := e])[p := e2] - {a} == P[p := e2] + map[]
  {
  }

  /** What the map of the whole tree records for a focus leaf and its parent. */
  lemma DetachEntries<V>(path: NPath<V>, l: NTree<V>)
    requires path != [] && l.Node? && Distinct(Plug(path, l))
    ensures var M, p := Shape(Plug(path, l), null), path[0].ref;
      && p in M && M[p] == FrameEntry(path[0], l.ref, UpRef(path[1..])) && l.ref in M && l.ref != p
      && (path[0].side == Left <==> M[p].left == l.ref)
      && Distinct(Plug(path, Nil))
  {
    PlugRefs(path, l);
    PlugRefs(path, Nil);
    Focus(path, l);
    assert path[0].sibling.Node? ==> path[0].sibling.ref in Refs(path[0].sibling);
  }

  /** The entries of a tree whose focus leaf is unlinked from its parent. */
  lemma DetachMap<V>(path: NPath<V>, l: NTree<V>)
    requires path != [] && l.Node? && l.left.Nil? && l.right.Nil? && Distinct(Plug(path, l))
    ensures var M, p := Shape(Plug(path, l), null), path[0].ref;
      && p in M && M[p] == FrameEntry(path[0], l.ref, UpRef(path[1..])) && l.ref in M && l.ref != p
      && (path[0].side == Left <==> M[p].left == l.ref)
      && Distinct(Plug(path, Nil))
      && Shape(Plug(path, Nil), null) == M[p := FrameEntry(path[0], null, UpRef(path[1..]))] - {l.ref}
  {
    var up := UpRef(path);
    DetachEntries(path, l);
    PlugRefs(path, l);
    ShapePlug(path, l);
    ShapePlug(path, Nil);
    PathShapeKeys(path, l.ref);
    PathShapeChild(path, l.ref, null);
    ShapeLeaf(l, up);
    DetachUnion(PathShape(path, l.ref), l.ref, Entry(l, up), path[0].ref, FrameEntry(path[0], null, UpRef(path[1..])));
  }

  /** How rightRotate changes the map of the subtree it rotates: a, b and the moved subtree's root. */
  lemma RotateRightLocal<V>(f: NTree<V>, up: NodeAVL?<V>)
    requires f.Node? && f.left.Node? && Distinct(f)
    ensures var r, a, b, t2 := RotateRight(f), f.ref, f.left.ref, f.left.right;
      && Shape(r, up).Keys == Shape(f, up).Keys
      && (forall n :: n in Shape(f, up) && n != a && n != b && n != RootRef(t2) ==>
            Shape(r, up)[n] == Shape(f, up)[n])
      && Shape(r, up)[a] == Entry(r.right, b) && Shape(r, up)[b] == Entry(r, up)
      && (t2.Node? ==> t2.ref in Shape(f, up) && Shape(r, up)[t2.ref] == Entry(t2, a) && Shape(f, up)[t2.ref] == Entry(t2, b))
  {
    RotateRightShape(f);
    RotateRightNodes(f);
    var r, b := RotateRight(f), f.left;
    ShapeKeys(r, up);
    ShapeKeys(f, up);
    SubShape(f, up);
    SubShape(b, f.ref);
    SubShape(r, up);
    SubShape(r.right, b.ref);
    if b.right.Node? {
      SubShape(b.right, b.ref);
      SubShape(b.right, f.ref);
    }
  }

  /** What the map of the whole tree records for the nodes rightRotate reads. */
  lemma RotateRightBefore<V>(path: NPath<V>, f: NTree<V>)
    requires f.Node? && f.left.Node? && Distinct(Plug(path, f))
    ensures var a, b, c, up := f.ref, f.left.ref, RootRef(f.left.right), UpRef(path);
      var M := Shape(Plug(path, f), null);
      && M.Keys == Refs(Plug(path, f))
      && a in M && M[a] == Entry(f, up) && b in M && M[b] == Entry(f.left, a)
      && (c != null ==> c in M && M[c] == Entry(f.left.right, b))
      && (path != [] ==> path[0].ref in M && M[path[0].ref] == FrameEntry(path[0], a, UpRef(path[1..])))
      && (f.left.left.Node? ==> f.left.left.ref in M && M[f.left.left.ref] == Entry(f.left.left, b))
      && (f.right.Node? ==> f.right.ref in M && M[f.right.ref] == Entry(f.right, a))
  {
    Around(path, f);
    PlugDown(path, f, Left);
    Around([FrameOf(f, Left)] + path, f.left);
  }

  /** How rightRotate changes the map of the whole tree: only a, b, the moved subtree's root and a's parent. */
  lemma RotateRightAfter<V>(path: NPath<V>, f: NTree<V>)
    requires f.Node? && f.left.Node? && Distinct(Plug(path, f))
    ensures var a, b, c, up := f.ref, f.left.ref, RootRef(f.left.right), UpRef(path);
      var r := RotateRight(f);
      var M, M2 := Shape(Plug(path, f), null), Shape(Plug(path, r), null);
      && Distinct(Plug(path, r)) && M2.Keys == M.Keys && M.Keys == Refs(Plug(path, f))
      && a in M2 && b in M2 && (c != null ==> c in M2) && (path != [] ==> path[0].ref in M2)
      && M2[a] == Entry(r.right, b) && M2[b] == Entry(r, up)
      && (c != null ==> M2[c] == Entry(f.left.right, a))
      && (path != [] ==> M2[path[0].ref] == FrameEntry(path[0], b, UpRef(path[1..])))
      && (forall n :: n in M && n != a && n != b && n != c && n != up ==> M2[n] == M[n])
  {
    var r, up := RotateRight(f), UpRef(path);
    PlugRefs(path, f);
    RotateRightRefs(f);
    PlugRefs(path, r);
    Refocus(path, f, r);
    RotateRightLocal(f, up);
    RotateRightBefore(path, f);
  }

  /** The nodes of a realised tree are pairwise distinct where rightRotate needs them to be. */
  lemma RotateRightCan<V>(path: NPath<V>, f: NTree<V>)
    requires f.Node? && f.left.Node? && Distinct(Plug(path, f))
    ensures CanRotateRight(Shape(Plug(path, f), null), f.ref)
  {
    RotateRightBefore(path, f);
    PlugRefs(path, f);
    var up := UpRef(path);
    assert up != null ==> up in PathRefs(path);
    assert f.left.left.Node? ==> f.left.left.ref in Refs(f.left.left);
    assert f.left.right.Node? ==> f.left.right.ref in Refs(f.left.right);
    assert f.right.Node? ==> f.right.ref in Refs(f.right);
  }

  /** The entries of the two nodes that change most, a and b, agree. */
  lemma RotateRightMapTop<V>(path: NPath<V>, f: NTree<V>)
    requires f.Node? && f.left.Node? && Distinct(Plug(path, f))
    requires CanRotateRight(Shape(Plug(path, f), null), f.ref)
    ensures var M2, R := Shape(Plug(path, RotateRight(f)), null), RotatedRight(Shape(Plug(path, f), null), f.ref);
      && f.ref in M2 && f.left.ref in M2 && f.left.ref in R && M2[f.ref] == R[f.ref] && M2[f.left.ref] == R[f.left.ref]
  {
    RotateRightBefore(path, f);
    RotateRightAfter(path, f);
    RotateRightShape(f);
    var M := Shape(Plug(path, f), null);
    var a, b := f.ref, f.left.ref;
    HeightInRoot(M, f.left.right, b);
    HeightInRoot(M, f.right, a);
    HeightInRoot(M, f.left.left, b);
  }

  /** The entries of every other node agree. */
  lemma RotateRightMapAt<V>(path: NPath<V>, f: NTree<V>, n: NodeAVL<V>)
    requires f.Node? && f.left.Node? && Distinct(Plug(path, f))
    requires CanRotateRight(Shape(Plug(path, f), null), f.ref)
    requires n in Shape(Plug(path, f), null) && n != f.ref && n != f.left.ref
    ensures n in Shape(Plug(path, RotateRight(f)), null)
    ensures Shape(Plug(path, RotateRight(f)), null)[n] == RotatedRight(Shape(Plug(path, f), null), f.ref)[n]
  {
    RotateRightBefore(path, f);
    RotateRightAfter(path, f);
    var M := Shape(Plug(path, f), null);
    PlugRefs(path, f);
    if n == UpRef(path) && path[0].side == Left {
      assert path[0].sibling.Node? ==> path[0].sibling.ref in Refs(path[0].sibling);
      assert M[n].right != f.ref;
    }
  }

  /** Rotating the tree right at the focus and rotating the nodes' fields right agree. */
  lemma RotateRightMap<V>(path: NPath<V>, f: NTree<V>)
    requires f.Node? && f.left.Node? && Distinct(Plug(path, f))
    ensures CanRotateRight(Shape(Plug(path, f), null), f.ref)
    ensures Shape(Plug(path, RotateRight(f)), null) == RotatedRight(Shape(Plug(path, f), null), f.ref)
  {
    RotateRightCan(path, f);
    RotateRightAfter(path, f);
    var M, M2 := Shape(Plug(path, f), null), Shape(Plug(path, RotateRight(f)), null);
    var R := RotatedRight(M, f.ref);
    RotateRightMapTop(path, f);
    forall n | n in M2
      ensures M2[n] == R[n]
    {
      if n != f.ref && n != f.left.ref {
        RotateRightMapAt(path, f, n);
      }
    }
    assert M2 == R;
  }

  /** How leftRotate changes the map of the subtree it rotates: a, b and the moved subtree's root. */
  lemma RotateLeftLocal<V>(f: NTree<V>, up: NodeAVL?<V>)
    requires f.Node? && f.right.Node? && Distinct(f)
    ensures var r, a, b, t2 := RotateLeft(f), f.ref, f.right.ref, f.right.left;
      && Shape(r, up).Keys == Shape(f, up).Keys
      && (forall n :: n in Shape(f, up) && n != a && n != b && n != RootRef(t2) ==>
            Shape(r, up)[n] == Shape(f, up)[n])
      && Shape(r, up)[a] == Entry(r.left, b) && Shape(r, up)[b] == Entry(r, up)
      && (t2.Node? ==> t2.ref in Shape(f, up) && Shape(r, up)[t2.ref] == Entry(t2, a) && Shape(f, up)[t2.ref] == Entry(t2, b))
  {
    RotateLeftShape(f);
    RotateLeftNodes(f);
    var r, b := RotateLeft(f), f.right;
    ShapeKeys(r, up);
    ShapeKeys(f, up);
    SubShape(f, up);
    SubShape(b, f.ref);
    SubShape(r, up);
    SubShape(r.left, b.ref);
    if b.left.Node? {
      SubShape(b.left, b.ref);
      SubShape(b.left, f.ref);
    }
  }

  /** What the map of the whole tree records for the nodes leftRotate reads. */
  lemma RotateLeftBefore<V>(path: NPath<V>, f: NTree<V>)
    requires f.Node? && f.right.Node? && Distinct(Plug(path, f))
    ensures var a, b, c, up := f.ref, f.right.ref, RootRef(f.right.left), UpRef(path);
      var M := Shape(Plug(path, f), null);
      && M.Keys == Refs(Plug(path, f))
      && a in M && M[a] == Entry(f, up) && b in M && M[b] == Entry(f.right, a)
      && (c != null ==> c in M && M[c] == Entry(f.right.left, b))
      && (path != [] ==> path[0].ref in M && M[path[0].ref] == FrameEntry(path[0], a, UpRef(path[1..])))
      && (f.right.right.Node? ==> f.right.right.ref in M && M[f.right.right.ref] == Entry(f.right.right, b))
      && (f.left.Node? ==> f.left.ref in M && M[f.left.ref] == Entry(f.left, a))
  {
    Around(path, f);
    PlugDown(path, f, Right);
    Around([FrameOf(f, Right)] + path, f.right);
  }

  /** How leftRotate changes the map of the whole tree: only a, b, the moved subtree's root and a's parent. */
  lemma RotateLeftAfter<V>(path: NPath<V>, f: NTree<V>)
    requires f.Node? && f.right.Node? && Distinct(Plug(path, f))
    ensures var a, b, c, up := f.ref, f.right.ref, RootRef(f.right.left), UpRef(path);
      var r := RotateLeft(f);
      var M, M2 := Shape(Plug(path, f), null), Shape(Plug(path, r), null);
      && Distinct(Plug(path, r)) && M2.Keys == M.Keys && M.Keys == Refs(Plug(path, f))
      && a in M2 && b in M2 && (c != null ==> c in M2) && (path != [] ==> path[0].ref in M2)
      && M2[a] == Entry(r.left, b) && M2[b] == Entry(r, up)
      && (c != null ==> M2[c] == Entry(f.right.left, a))
      && (path != [] ==> M2[path[0].ref] == FrameEntry(path[0], b, UpRef(path[1..])))
      && (forall n :: n in M && n != a && n != b && n != c && n != up ==> M2[n] == M[n])
  {
    var r, up := RotateLeft(f), UpRef(path);
    PlugRefs(path, f);
    RotateLeftRefs(f);
    PlugRefs(path, r);
    Refocus(path, f, r);
    RotateLeftLocal(f, up);
    RotateLeftBefore(path, f);
  }

  /** The nodes of a realised tree are pairwise distinct where leftRotate needs them to be. */
  lemma RotateLeftCan<V>(path: NPath<V>, f: NTree<V>)
    requires f.Node? && f.right.Node? && Distinct(Plug(path, f))
    ensures CanRotateLeft(Shape(Plug(path, f), null), f.ref)
  {
    RotateLeftBefore(path, f);
    PlugRefs(path, f);
    var up := UpRef(path);
    assert up != null ==> up in PathRefs(path);
    assert f.right.right.Node? ==> f.right.right.ref in Refs(f.right.right);
    assert f.right.left.Node? ==> f.right.left.ref in Refs(f.right.left);
    assert f.left.Node? ==> f.left.ref in Refs(f.left);
  }

  lemma RotateLeftMapTop<V>(path: NPath<V>, f: NTree<V>)
    requires f.Node? && f.right.Node? && Distinct(Plug(path, f))
    requires CanRotateLeft(Shape(Plug(path, f), null), f.ref)
    ensures var M2, R := Shape(Plug(path, RotateLeft(f)), null), RotatedLeft(Shape(Plug(path, f), null), f.ref);
      && f.ref in M2 && f.right.ref in M2 && f.right.ref in R && M2[f.ref] == R[f.ref] && M2[f.right.ref] == R[f.right.ref]
  {
    RotateLeftBefore(path, f);
    RotateLeftAfter(path, f);
    RotateLeftShape(f);
    var M := Shape(Plug(path, f), null);
    var a, b := f.ref, f.right.ref;
    HeightInRoot(M, f.right.left, b);
    HeightInRoot(M, f.left, a);
    HeightInRoot(M, f.right.right, b);
  }

  lemma RotateLeftMapAt<V>(path: NPath<V>, f: NTree<V>, n: NodeAVL<V>)
    requires f.Node? && f.right.Node? && Distinct(Plug(path, f))
    requires CanRotateLeft(Shape(Plug(path, f), null), f.ref)
    requires n in Shape(Plug(path, f), null) && n != f.ref && n != f.right.ref
    ensures n in Shape(Plug(path, RotateLeft(f)), null)
    ensures Shape(Plug(path, RotateLeft(f)), null)[n] == RotatedLeft(Shape(Plug(path, f), null), f.ref)[n]
  {
    RotateLeftBefore(path, f);
    RotateLeftAfter(path, f);
    var M := Shape(Plug(path, f), null);
    PlugRefs(path, f);
    if n == UpRef(path) && path[0].side == Left {
      assert path[0].sibling.Node? ==> path[0].sibling.ref in Refs(path[0].sibling);
      assert M[n].right != f.ref;
    }
  }

  /** Rotating the tree left at the focus and rotating the nodes' fields left agree. */
  lemma RotateLeftMap<V>(path: NPath<V>, f: NTree<V>)
    requires f.Node? && f.right.Node? && Distinct(Plug(path, f))
    ensures CanRotateLeft(Shape(Plug(path, f), null), f.ref)
    ensures Shape(Plug(path, RotateLeft(f)), null) == RotatedLeft(Shape(Plug(path, f), null), f.ref)
  {
    RotateLeftCan(path, f);
    RotateLeftAfter(path, f);
    var M, M2 := Shape(Plug(path, f), null), Shape(Plug(path, RotateLeft(f)), null);
    var R := RotatedLeft(M, f.ref);
    RotateLeftMapTop(path, f);
    forall n | n in M2
      ensures M2[n] == R[n]
    {
      if n != f.ref && n != f.right.ref {
        RotateLeftMapAt(path, f, n);
      }
    }
    assert M2 == R;
  }

  /**
   * leftRightRotate: left-rotating the left child b hangs its risen child under a again, so the
   * following a.changeLeftNode changes nothing, and right-rotating a completes the double rotation.
   */
  lemma RotateLeftRightMap<V>(path: NPath<V>, f: NTree<V>)
    requires f.Node? && f.left.Node? && f.left.right.Node? && Distinct(Plug(path, f))
    ensures var M, a, b := Shape(Plug(path, f), null), f.ref, f.left.ref;
      && a in M && M[a].left == b && CanRotateLeft(M, b) && M[b].parent == a && M[a].right != b
      && CanRotateRight(RotatedLeft(M, b), a)
      && Shape(Plug(path, RotateLeftRight(f)), null) == RotatedRight(RotatedLeft(M, b), a)
  {
    var p' := [FrameOf(f, Left)] + path;
    var g := f.(left := RotateLeft(f.left));
    PlugDown(path, f, Left);
    RotateLeftMap(p', f.left);
    RotateLeftRefs(f.left);
    PlugRefs(p', f.left);
    PlugRefs(p', RotateLeft(f.left));
    PlugDown(path, g, Left);
    assert FrameOf(g, Left) == FrameOf(f, Left);
    RotateRightMap(path, g);
    Around(path, f);
    PlugRefs(path, f);
    if f.right.Node? {
      assert f.right.ref in Refs(f.right);
    }
  }

  /** rightLeftRotate, the mirror image. */
  lemma RotateRightLeftMap<V>(path: NPath<V>, f: NTree<V>)
    requires f.Node? && f.right.Node? && f.right.left.Node? && Distinct(Plug(path, f))
    ensures var M, a, b := Shape(Plug(path, f), null), f.ref, f.right.ref;
      && a in M && M[a].right == b && CanRotateRight(M, b) && M[b].parent == a && M[a].left != b
      && CanRotateLeft(RotatedRight(M, b), a)
      && Shape(Plug(path, RotateRightLeft(f)), null) == RotatedLeft(RotatedRight(M, b), a)
  {
    var p' := [FrameOf(f, Right)] + path;
    var g := f.(right := RotateRight(f.right));
    PlugDown(path, f, Right);
    RotateRightMap(p', f.right);
    RotateRightRefs(f.right);
    PlugRefs(p', f.right);
    PlugRefs(p', RotateRight(f.right));
    PlugDown(path, g, Right);
    assert FrameOf(g, Right) == FrameOf(f, Right);
    RotateLeftMap(path, g);
    Around(path, f);
    PlugRefs(path, f);
    if f.left.Node? {
      assert f.left.ref in Refs(f.left);
    }
  }
}
