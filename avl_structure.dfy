/**
 * What rebalancing does not change: which nodes the tree holds, that no node occurs twice, and the
 * order in which an in-order walk meets them.
 */
module AVLStructure {
  import opened AVLSpec

  /** The in-order items before the focus of `path` (left siblings and frames the path leaves right). */
  function Before<R, V>(path: Path<R, V>): seq<Item<R, V>>
    decreases |path|
  {
    if path == [] then []
    else if path[0].side == Left then Before(path[1..])
    else Before(path[1..]) + Items(path[0].sibling) + [Item(path[0].ref, path[0].key, path[0].value)]
  }

  /** The in-order items after the focus of `path`. */
  function After<R, V>(path: Path<R, V>): seq<Item<R, V>>
    decreases |path|
  {
    if path == [] then []
    else if path[0].side == Right then After(path[1..])
    else [Item(path[0].ref, path[0].key, path[0].value)] + Items(path[0].sibling) + After(path[1..])
  }

  /** Regroupings of sequence concatenations, stated once so that the proofs using them stay small. */
  lemma RegroupLeft<T>(a: seq<T>, l: seq<T>, x: T, b: seq<T>)
    ensures a + l + [x] + b == a + (l + [x] + b)
  {
  }

  lemma RegroupRight<T>(a: seq<T>, x: T, r: seq<T>, b: seq<T>)
    ensures a + ([x] + r + b) == a + [x] + r + b
  {
  }

  lemma RegroupAfter<T>(b: seq<T>, t: seq<T>, y: T, s: seq<T>, a: seq<T>)
    ensures b + (t + [y] + s) + a == b + t + ([y] + s + a)
  {
  }

  lemma RegroupBefore<T>(b: seq<T>, s: seq<T>, y: T, t: seq<T>, a: seq<T>)
    ensures b + (s + [y] + t) + a == (b + s + [y]) + t + a
  {
  }

  /** An in-order walk of the whole tree meets the focus subtree between the two halves the path keeps. */
  lemma {:induction false} PlugItems<R, V>(path: Path<R, V>, t: Tree<R, V>)
    ensures Items(Plug(path, t)) == Before(path) + Items(t) + After(path)
    decreases |path|
  {
    if path != [] {
      var f, x := path[0], PlugOne(path[0], t);
      var y := Item(f.ref, f.key, f.value);
      PlugItems(path[1..], x);
      if f.side == Left {
        assert Items(x) == Items(t) + [y] + Items(f.sibling);
        assert After(path) == [y] + Items(f.sibling) + After(path[1..]);
        RegroupAfter(Before(path[1..]), Items(t), y, Items(f.sibling), After(path[1..]));
      } else {
        assert Items(x) == Items(f.sibling) + [y] + Items(t);
        assert Before(path) == Before(path[1..]) + Items(f.sibling) + [y];
        RegroupBefore(Before(path[1..]), Items(f.sibling), y, Items(t), After(path[1..]));
      }
    }
  }

  /** Plugging a subtree back into the frame it was taken from gives the tree back. */
  lemma PlugDown<R, V>(path: Path<R, V>, t: Tree<R, V>, side: Side)
    requires t.Node?
    ensures Plug([FrameOf(t, side)] + path, Child(t, side)) == Plug(path, t)
  {
    var p' := [FrameOf(t, side)] + path;
    assert p'[1..] == path;
  }

  lemma {:induction false} PlugRefs<R, V>(path: Path<R, V>, t: Tree<R, V>)
    ensures Refs(Plug(path, t)) == PathRefs(path) + Refs(t)
    ensures Distinct(Plug(path, t)) <==> DistinctPath(path) && Distinct(t) && PathRefs(path) !! Refs(t)
    decreases |path|
  {
    if path != [] {
      PlugRefs(path[1..], PlugOne(path[0], t));
    }
  }

  /** Re-computing the cached fields touches nothing else. */
  lemma SetBalanceRefs<R, V>(t: Tree<R, V>)
    requires t.Node?
    ensures Items(SetBalance(t)) == Items(t)
    ensures Refs(SetBalance(t)) == Refs(t) && (Distinct(t) <==> Distinct(SetBalance(t)))
  {
  }

  /** A node built from two subtrees and a node that share nothing is free of repetitions. */
  lemma JoinDistinct<R, V>(l: Tree<R, V>, m: R, k: int, v: V, h: int, b: int, r: Tree<R, V>)
    requires Distinct(l) && Distinct(r) && m !in Refs(l) && m !in Refs(r) && Refs(l) !! Refs(r)
    ensures Distinct(Node(l, m, k, v, h, b, r))
  {
  }

  /** The shape rightRotate leaves: b on top with its left subtree, a below it on the right. */
  lemma RotateRightShape<R, V>(a: Tree<R, V>)
    requires a.Node? && a.left.Node?
    ensures var b := a.left; var r := RotateRight(a);
      && r.Node? && r.left == b.left && r.ref == b.ref && r.key == b.key && r.value == b.value
      && r.right.Node? && r.right.left == b.right && r.right.ref == a.ref && r.right.key == a.key
      && r.right.value == a.value && r.right.right == a.right
  {
  }

  lemma RotateLeftShape<R, V>(a: Tree<R, V>)
    requires a.Node? && a.right.Node?
    ensures var b := a.right; var r := RotateLeft(a);
      && r.Node? && r.right == b.right && r.ref == b.ref && r.key == b.key && r.value == b.value
      && r.left.Node? && r.left.right == b.left && r.left.ref == a.ref && r.left.key == a.key
      && r.left.value == a.value && r.left.left == a.left
  {
  }

  lemma RotateRightItems<R, V>(a: Tree<R, V>)
    requires a.Node? && a.left.Node?
    ensures Items(RotateRight(a)) == Items(a)
  {
    RotateRightShape(a);
    var b := a.left;
    calc {
      Items(RotateRight(a));
      Items(b.left) + [Item(b.ref, b.key, b.value)] + (Items(b.right) + [Item(a.ref, a.key, a.value)] + Items(a.right));
      Items(a);
    }
  }

  lemma RotateRightNodes<R, V>(a: Tree<R, V>)
    requires a.Node? && a.left.Node?
    ensures Refs(RotateRight(a)) == Refs(a)
  {
    RotateRightShape(a);
    var b := a.left;
    assert Refs(RotateRight(a)) == Refs(b.left) + {b.ref} + (Refs(b.right) + {a.ref} + Refs(a.right));
  }

  lemma RotateRightDistinct<R, V>(a: Tree<R, V>)
    requires a.Node? && a.left.Node? && Distinct(a)
    ensures Distinct(RotateRight(a))
  {
    RotateRightShape(a);
    var b := a.left;
    var r := RotateRight(a);
    assert Refs(r.right) == Refs(b.right) + {a.ref} + Refs(a.right);
    assert Distinct(r.right);
  }

  lemma RotateLeftItems<R, V>(a: Tree<R, V>)
    requires a.Node? && a.right.Node?
    ensures Items(RotateLeft(a)) == Items(a)
  {
    RotateLeftShape(a);
    var b := a.right;
    calc {
      Items(RotateLeft(a));
      (Items(a.left) + [Item(a.ref, a.key, a.value)] + Items(b.left)) + [Item(b.ref, b.key, b.value)] + Items(b.right);
      Items(a);
    }
  }

  lemma RotateLeftNodes<R, V>(a: Tree<R, V>)
    requires a.Node? && a.right.Node?
    ensures Refs(RotateLeft(a)) == Refs(a)
  {
    RotateLeftShape(a);
    var b := a.right;
    assert Refs(RotateLeft(a)) == (Refs(a.left) + {a.ref} + Refs(b.left)) + {b.ref} + Refs(b.right);
  }

  lemma RotateLeftDistinct<R, V>(a: Tree<R, V>)
    requires a.Node? && a.right.Node? && Distinct(a)
    ensures Distinct(RotateLeft(a))
  {
    RotateLeftShape(a);
    var b := a.right;
    var r := RotateLeft(a);
    assert Refs(r.left) == Refs(a.left) + {a.ref} + Refs(b.left);
    assert Distinct(r.left);
  }

  lemma RotateRightRefs<R, V>(a: Tree<R, V>)
    requires a.Node? && a.left.Node?
    ensures Items(RotateRight(a)) == Items(a)
    ensures Refs(RotateRight(a)) == Refs(a) && (Distinct(a) ==> Distinct(RotateRight(a)))
  {
    RotateRightItems(a);
    RotateRightNodes(a);
    if Distinct(a) {
      RotateRightDistinct(a);
    }
  }

  lemma RotateLeftRefs<R, V>(a: Tree<R, V>)
    requires a.Node? && a.right.Node?
    ensures Items(RotateLeft(a)) == Items(a)
    ensures Refs(RotateLeft(a)) == Refs(a) && (Distinct(a) ==> Distinct(RotateLeft(a)))
  {
    RotateLeftItems(a);
    RotateLeftNodes(a);
    if Distinct(a) {
      RotateLeftDistinct(a);
    }
  }

  /** One reBalance step keeps the nodes, their distinctness and their in-order sequence. */
  lemma FixRefs<R, V>(t: Tree<R, V>)
    requires ChildrenPositive(t)
    ensures Items(Fix(t)) == Items(t)
    ensures Refs(Fix(t)) == Refs(t) && (Distinct(t) ==> Distinct(Fix(t)))
  {
    var s := SetBalance(t);
    SetBalanceRefs(t);
    assert t.left.Node? ==> PositiveHeights(t.left.left) && PositiveHeights(t.left.right);
    assert t.right.Node? ==> PositiveHeights(t.right.left) && PositiveHeights(t.right.right);
    if s.bf == -2 && s.left.Node? {
      if H(s.left.left) >= H(s.left.right) {
        RotateRightRefs(s);
      } else {
        RotateLeftRefs(s.left);
        var s1 := s.(left := RotateLeft(s.left));
        assert Items(s1) == Items(s) && Refs(s1) == Refs(s);
        if Distinct(s) {
          JoinDistinct(s1.left, s.ref, s.key, s.value, s.height, s.bf, s.right);
        }
        RotateRightRefs(s1);
        assert Fix(t) == RotateRight(s1);
      }
    } else if s.bf == 2 && s.right.Node? {
      if H(s.right.right) >= H(s.right.left) {
        RotateLeftRefs(s);
      } else {
        RotateRightRefs(s.right);
        var s1 := s.(right := RotateRight(s.right));
        assert Items(s1) == Items(s) && Refs(s1) == Refs(s);
        if Distinct(s) {
          JoinDistinct(s.left, s.ref, s.key, s.value, s.height, s.bf, s1.right);
        }
        RotateLeftRefs(s1);
        assert Fix(t) == RotateLeft(s1);
      }
    }
  }

  /** The upward walk keeps the tree's nodes, their distinctness and their in-order sequence. */
  lemma {:induction false} RebalanceUpRefs<R, V>(path: Path<R, V>, t: Tree<R, V>)
    requires ChildrenPositive(t) && PathPositive(path)
    ensures Items(RebalanceUp(path, t)) == Items(Plug(path, t))
    ensures Refs(RebalanceUp(path, t)) == Refs(Plug(path, t))
    ensures Distinct(Plug(path, t)) ==> Distinct(RebalanceUp(path, t))
    decreases |path|
  {
    FixRefs(t);
    var u := Fix(t);
    PlugItems(path, t);
    PlugItems(path, u);
    PlugRefs(path, t);
    PlugRefs(path, u);
    if path != [] {
      RebalanceUpRefs(path[1..], PlugOne(path[0], u));
    }
  }
}
