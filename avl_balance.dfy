/**
 * The AVL invariant of TreeAVL.java: every cached height obeys the height equation and every cached
 * balance factor is the height difference of the children and lies in -1..1.  Insert and delete keep it.
 *
 * The proof walks the same zipper the operations walk.  A frame on the way down records its node as it
 * was before the operation, so its cached height tells what the subtree at the focus used to weigh;
 * `PathOK` says those records describe an AVL tree, and rebalancing upwards restores the invariant one
 * node at a time.
 */
module AVLBalance {
  import opened AVLSpec

  predicate Avl<R, V>(t: Tree<R, V>)
  {
    t.Node? ==>
      && Avl(t.left) && Avl(t.right)
      && t.height == 1 + Max(H(t.left), H(t.right))
      && t.bf == H(t.right) - H(t.left) && -1 <= t.bf <= 1
  }

  /** In an AVL tree the cached heights are the structural heights, hence positive. */
  lemma {:induction false} AvlHeights<R, V>(t: Tree<R, V>)
    requires Avl(t)
    ensures PositiveHeights(t) && H(t) == Height(t) && H(t) >= 0
  {
    if t.Node? {
      AvlHeights(t.left);
      AvlHeights(t.right);
    }
  }

  /**
   * setBalance recomputes a node's height from its children's and its balance factor as their
   * difference; over AVL children the node is then AVL exactly when that difference is within -1..1.
   */
  lemma SetBalanceAvl<R, V>(t: Tree<R, V>)
    requires t.Node? && Avl(t.left) && Avl(t.right)
    ensures H(SetBalance(t)) == 1 + Max(H(t.left), H(t.right)) && SetBalance(t).bf == H(t.right) - H(t.left)
    ensures Avl(SetBalance(t)) <==> -1 <= H(t.right) - H(t.left) <= 1
  {
  }

  /** rightRotate at a node whose left child is two taller and leans left or not at all. */
  lemma RotateRightAvl<R, V>(a: Tree<R, V>)
    requires a.Node? && a.left.Node? && Avl(a.left) && Avl(a.right)
    requires H(a.left) == H(a.right) + 2 && H(a.left.left) >= H(a.left.right)
    ensures Avl(RotateRight(a)) && H(a.left) <= H(RotateRight(a)) <= H(a.left) + 1
  {
    var b := a.left;
    AvlHeights(b.left);
    AvlHeights(b.right);
    AvlHeights(a.right);
    var a1 := SetBalance(a.(left := b.right));
    assert Avl(a1);
    assert RotateRight(a) == SetBalance(b.(right := a1));
  }

  lemma RotateLeftAvl<R, V>(a: Tree<R, V>)
    requires a.Node? && a.right.Node? && Avl(a.left) && Avl(a.right)
    requires H(a.right) == H(a.left) + 2 && H(a.right.right) >= H(a.right.left)
    ensures Avl(RotateLeft(a)) && H(a.right) <= H(RotateLeft(a)) <= H(a.right) + 1
  {
    var b := a.right;
    AvlHeights(b.left);
    AvlHeights(b.right);
    AvlHeights(a.left);
    var a1 := SetBalance(a.(right := b.left));
    assert Avl(a1);
    assert RotateLeft(a) == SetBalance(b.(left := a1));
  }

  /** leftRightRotate at a node whose left child is two taller and leans right. */
  lemma RotateLeftRightAvl<R, V>(a: Tree<R, V>)
    requires a.Node? && a.left.Node? && Avl(a.left) && Avl(a.right)
    requires H(a.left) == H(a.right) + 2 && H(a.left.left) < H(a.left.right)
    ensures a.left.right.Node? && Avl(RotateLeftRight(a)) && H(RotateLeftRight(a)) == H(a.left)
  {
    var l := a.left;
    AvlHeights(l.left);
    AvlHeights(a.right);
    var c := l.right;
    AvlHeights(c.left);
    AvlHeights(c.right);
    var x := SetBalance(l.(right := c.left));
    var y := SetBalance(a.(left := c.right));
    assert Avl(x) && Avl(y);
    var l1 := RotateLeft(l);
    assert l1 == SetBalance(c.(left := x));
    assert RotateLeftRight(a) == SetBalance(l1.(right := y));
  }

  lemma RotateRightLeftAvl<R, V>(a: Tree<R, V>)
    requires a.Node? && a.right.Node? && Avl(a.left) && Avl(a.right)
    requires H(a.right) == H(a.left) + 2 && H(a.right.right) < H(a.right.left)
    ensures a.right.left.Node? && Avl(RotateRightLeft(a)) && H(RotateRightLeft(a)) == H(a.right)
  {
    var r := a.right;
    AvlHeights(r.right);
    AvlHeights(a.left);
    var c := r.left;
    AvlHeights(c.left);
    AvlHeights(c.right);
    var x := SetBalance(r.(left := c.right));
    var y := SetBalance(a.(right := c.left));
    assert Avl(x) && Avl(y);
    var r1 := RotateRight(r);
    assert r1 == SetBalance(c.(right := x));
    assert RotateRightLeft(a) == SetBalance(r1.(left := y));
  }

  /**
   * One reBalance step at a node with AVL children whose heights differ by at most two gives an AVL
   * subtree; it is as tall as the height equation says when no rotation is needed, and otherwise at
   * most one taller than the taller child.
   */
  lemma FixAvl<R, V>(t: Tree<R, V>)
    requires ChildrenPositive(t) && Avl(t.left) && Avl(t.right) && -2 <= H(t.right) - H(t.left) <= 2
    ensures Avl(Fix(t))
    ensures Max(H(t.left), H(t.right)) <= H(Fix(t)) <= 1 + Max(H(t.left), H(t.right))
    ensures -1 <= H(t.right) - H(t.left) <= 1 ==> Fix(t) == SetBalance(t)
  {
    var s := SetBalance(t);
    AvlHeights(t.left);
    AvlHeights(t.right);
    if s.bf == -2 {
      if H(s.left.left) >= H(s.left.right) {
        RotateRightAvl(s);
      } else {
        RotateLeftRightAvl(s);
      }
    } else if s.bf == 2 {
      if H(s.right.right) >= H(s.right.left) {
        RotateLeftAvl(s);
      } else {
        RotateRightLeftAvl(s);
      }
    }
  }

  /**
   * The frames of `path` record an AVL tree in which the subtree at the focus was c tall: every kept
   * sibling is AVL and within one of c, and every frame's height is what the height equation gives.
   */
  predicate PathOK<R, V>(path: Path<R, V>, c: int)
    decreases |path|
  {
    path != [] ==>
      && Avl(path[0].sibling) && -1 <= c - H(path[0].sibling) <= 1
      && path[0].height == 1 + Max(c, H(path[0].sibling))
      && PathOK(path[1..], path[0].height)
  }

  /**
   * The upward walk of reBalance: if the subtree t is about to be fixed where a subtree of height c
   * used to be, and fixing it gives a height within one of c, the whole tree comes out AVL.
   */
  lemma {:induction false} RebalanceUpAvl<R, V>(path: Path<R, V>, t: Tree<R, V>, c: int)
    requires ChildrenPositive(t) && PathPositive(path)
    requires Avl(t.left) && Avl(t.right) && -2 <= H(t.right) - H(t.left) <= 2
    requires PathOK(path, c) && -1 <= H(Fix(t)) - c <= 1
    ensures Avl(RebalanceUp(path, t))
    decreases |path|
  {
    FixAvl(t);
    var u := Fix(t);
    AvlHeights(u);
    if path != [] {
      var f := path[0];
      AvlHeights(f.sibling);
      var p := PlugOne(f, u);
      FixAvl(p);
      assert PathPositive(path[1..]) by {
        assert forall i :: 0 <= i < |path[1..]| ==> path[1..][i] == path[i + 1];
      }
      RebalanceUpAvl(path[1..], p, f.height);
    }
  }

  /** Stepping from an AVL node to a child keeps the frames describing an AVL tree. */
  lemma StepAvl<R, V>(t: Tree<R, V>, w: Tree<R, V>, side: Side, path: Path<R, V>)
    requires t.Node? && Avl(t) && PathOK(path, H(t))
    requires w.Node? && w == t.(value := w.value)
    ensures Avl(Child(t, side)) && PathOK([FrameOf(w, side)] + path, H(Child(t, side)))
  {
    var p := [FrameOf(w, side)] + path;
    assert p[1..] == path;
  }

  /** The descent of insert ends at an empty slot of an AVL tree. */
  lemma {:induction false} DescendAvl<R, V>(t: Tree<R, V>, k: int, v: V, path: Path<R, V>)
    requires Avl(t) && PathOK(path, H(t))
    ensures PathOK(Descend(t, k, v, path), 0)
    decreases t
  {
    if t.Node? {
      var w := if t.key == k then t.(value := v) else t;
      var side := if k < t.key then Left else Right;
      StepAvl(t, w, side, path);
      DescendAvl(Child(t, side), k, v, [FrameOf(w, side)] + path);
    }
  }

  /** A new leaf hung below the frame f of an AVL tree leaves a subtree reBalance can fix. */
  lemma PlugLeafAvl<R, V>(f: Frame<R, V>, k: int, v: V, m: R, path: Path<R, V>)
    requires PathOK([f] + path, 0) && PositiveHeights(f.sibling)
    ensures var x := PlugOne(f, Leaf(m, k, v));
      && ChildrenPositive(x) && Avl(x.left) && Avl(x.right) && -2 <= H(x.right) - H(x.left) <= 2
      && PathOK(path, f.height) && -1 <= H(Fix(x)) - f.height <= 1
  {
    assert ([f] + path)[0] == f && ([f] + path)[1..] == path;
    AvlHeights(f.sibling);
    var x := PlugOne(f, Leaf(m, k, v));
    assert 0 <= H(f.sibling) <= 1 && f.height == 1 + H(f.sibling);
    FixAvl(x);
    assert H(Fix(x)) == 2;
  }

  /** Insertion keeps the AVL invariant. */
  lemma InsertAvl<R, V>(t: Tree<R, V>, k: int, v: V, m: R)
    requires Avl(t) && PositiveHeights(t)
    ensures Avl(Insert(t, k, v, m))
  {
    if t.Node? {
      var p := Descend(t, k, v, []);
      DescendAvl(t, k, v, []);
      var f := p[0];
      assert p == [f] + p[1..];
      InsertAt(t, k, v, m, f, p[1..]);
      PlugLeafAvl(f, k, v, m, p[1..]);
      RebalanceUpAvl(p[1..], PlugOne(f, Leaf(m, k, v)), f.height);
    }
  }

  /** The search loop of delete stops at a node of an AVL tree. */
  lemma {:induction false} LocateAvl<R, V>(t: Tree<R, V>, k: int, path: Path<R, V>)
    requires Avl(t) && PathOK(path, H(t))
    ensures var r := Locate(t, k, path); r.Some? ==> Avl(r.value.node) && PathOK(r.value.path, H(r.value.node))
    decreases t
  {
    if t.Node? && t.key != k {
      var side := if k >= t.key then Right else Left;
      StepAvl(t, t, side, path);
      LocateAvl(Child(t, side), k, [FrameOf(t, side)] + path);
    }
  }

  lemma {:induction false} RightmostAvl<R, V>(t: Tree<R, V>, path: Path<R, V>)
    requires t.Node? && Avl(t) && PathOK(path, H(t))
    ensures var r := RightmostFrom(t, path); Avl(r.node) && PathOK(r.path, H(r.node))
    decreases t
  {
    if t.right.Node? {
      StepAvl(t, t, Right, path);
      RightmostAvl(t.right, [FrameOf(t, Right)] + path);
    }
  }

  lemma {:induction false} LeftmostAvl<R, V>(t: Tree<R, V>, path: Path<R, V>)
    requires t.Node? && Avl(t) && PathOK(path, H(t))
    ensures var r := LeftmostFrom(t, path); Avl(r.node) && PathOK(r.path, H(r.node))
    decreases t
  {
    if t.left.Node? {
      StepAvl(t, t, Left, path);
      LeftmostAvl(t.left, [FrameOf(t, Left)] + path);
    }
  }

  /** The predecessor/successor chain of the private delete ends at a leaf of an AVL tree. */
  lemma {:induction false} LeafChainAvl<R, V>(s: Spot<R, V>)
    requires s.node.Node? && Avl(s.node) && PathOK(s.path, H(s.node))
    ensures Avl(LeafChain(s).node) && PathOK(LeafChain(s).path, H(LeafChain(s).node))
    decreases |Items(s.node)|
  {
    var n := s.node;
    if n.left.Node? {
      StepAvl(n, n, Left, s.path);
      RightmostAvl(n.left, [FrameOf(n, Left)] + s.path);
      LeafChainAvl(RightmostFrom(n.left, [FrameOf(n, Left)] + s.path));
    } else if n.right.Node? {
      StepAvl(n, n, Right, s.path);
      LeftmostAvl(n.right, [FrameOf(n, Right)] + s.path);
      LeafChainAvl(LeftmostFrom(n.right, [FrameOf(n, Right)] + s.path));
    }
  }

  /** Unlinking a leaf of an AVL tree and rebalancing from its parent gives an AVL tree. */
  lemma RemoveLeafAvl<R, V>(s: Spot<R, V>)
    requires s.node.Node? && s.node.left.Nil? && s.node.right.Nil? && PathPositive(s.path)
    requires Avl(s.node) && PathOK(s.path, H(s.node))
    ensures Avl(RemoveLeaf(s))
  {
    if s.path != [] {
      var f := s.path[0];
      AvlHeights(f.sibling);
      var x := PlugOne(f, Nil);
      FixAvl(x);
      assert PathPositive(s.path[1..]) by {
        assert forall i :: 0 <= i < |s.path[1..]| ==> s.path[1..][i] == s.path[i + 1];
      }
      RebalanceUpAvl(s.path[1..], x, f.height);
    }
  }

  /** Deletion keeps the AVL invariant. */
  lemma DeleteAvl<R, V>(t: Tree<R, V>, k: int)
    requires Avl(t) && PositiveHeights(t)
    ensures Avl(Delete(t, k))
  {
    LocateAvl(t, k, []);
    match Locate(t, k, [])
    case None =>
    case Some(s) =>
      LeafChainAvl(s);
      RemoveLeafAvl(LeafChain(s));
  }
}
