/**
 * TreeAVL.java: the tree object, its rebalancing, insertion, deletion and traversals, over the mutable
 * NodeAVL graph.  The ghost field `tree` is the functional tree the node graph realises; every public
 * operation is proved to leave the graph realising the tree the matching AVLSpec function computes.
 */
module AVLTrees {
  import opened AVLSpec
  import opened AVLStructure
  import opened AVLNodes
  import opened AVLLinks
  import opened AVLRotationMaps
  import opened AVLLists

  class TreeAVL<V> {
    var root: NodeAVL?<V>
    ghost var tree: NTree<V>

    /** The nodes reachable from `root` realise `tree`, whose cached heights are all positive. */
    ghost predicate Valid()
      reads this, Shape(tree, null).Keys
    {
      Realises(tree) && root == RootRef(tree) && PositiveHeights(tree)
    }

    constructor ()
      ensures Valid() && tree == Nil
    {
      root := null;
      tree := Nil;
    }

    /** TreeAVL.reHeight: one more than the larger cached height of the children. */
    method ReHeight(n: NodeAVL?<V>)
      modifies (if n == null then {} else {n})`height
      ensures n != null ==> n.height == 1 + Max(old(HeightOf(n.left)), old(HeightOf(n.right)))
    {
      if n != null {
        n.SetHeight(1 + Max(HeightOf(n.left), HeightOf(n.right)));
      }
    }

    /** TreeAVL.setBalance: reHeight, then the right height minus the left height. */
    method SetBalance(n: NodeAVL<V>)
      modifies n`height, n`balanceFactor
      ensures n.height == 1 + Max(old(HeightOf(n.left)), old(HeightOf(n.right)))
      ensures n.balanceFactor == HeightOf(n.right) - HeightOf(n.left)
    {
      ReHeight(n);
      n.SetBalanceFactor(HeightOf(n.right) - HeightOf(n.left));
    }

    /** TreeAVL.getBalance. */
    function GetBalance(n: NodeAVL<V>): int
      reads n
    {
      n.balanceFactor
    }

    /** getBalance of the root of a subtree the heap holds is the balance factor the model records. */
    lemma BalanceRealised(t: NTree<V>, p: NodeAVL?<V>)
      requires t.Node? && Holds(Shape(t, p))
      ensures GetBalance(t.ref) == t.bf
    {
      assert t.ref in Shape(t, p);
    }

    /** TreeAVL.rightRotate(a): returns a's former left child, now in a's place. */
    method RightRotate(a: NodeAVL<V>) returns (b: NodeAVL<V>)
      requires a.left != null && a.left != a
      requires a.left.right != a && a.left.right != a.left
      requires a.parent != a && a.parent != a.left && (a.parent != null ==> a.parent != a.left.right)
      requires a.right != a && a.right != a.left && a.left.left != a && a.left.left != a.left
      requires a.parent != null ==> a.left.left != a.parent
      modifies a`left, a`parent, a`height, a`balanceFactor, a.left`right, a.left`parent, a.left`height, a.left`balanceFactor
      modifies (if a.left.right == null then {} else {a.left.right})`parent
      modifies (if a.parent == null then {} else {a.parent})`left, (if a.parent == null then {} else {a.parent})`right
      ensures b == old(a.left) && RightRotated(a)
      ensures forall n: NodeAVL<V> :: old(allocated(n)) && n != a && n != old(a.left) && n != old(a.left.right) && n != old(a.parent) ==> Fields(n) == old(Fields(n))
    {
      b := a.left;
      b.SetParentNode(a.parent);
      a.ChangeLeftNode(b.right);
      if a.left != null {
        a.left.SetParentNode(a);
      }
      b.ChangeRightNode(a);
      a.SetParentNode(b);
      if b.parent != null {
        if b.parent.right == a {
          b.parent.ChangeRightNode(b);
        } else {
          b.parent.ChangeLeftNode(b);
        }
      }
      SetBalance(a);
      SetBalance(b);
    }

    /** TreeAVL.leftRotate(a): returns a's former right child, now in a's place. */
    method LeftRotate(a: NodeAVL<V>) returns (b: NodeAVL<V>)
      requires a.right != null && a.right != a
      requires a.right.left != a && a.right.left != a.right
      requires a.parent != a && a.parent != a.right && (a.parent != null ==> a.parent != a.right.left)
      requires a.left != a && a.left != a.right && a.right.right != a && a.right.right != a.right
      requires a.parent != null ==> a.right.right != a.parent
      modifies a`right, a`parent, a`height, a`balanceFactor, a.right`left, a.right`parent, a.right`height, a.right`balanceFactor
      modifies (if a.right.left == null then {} else {a.right.left})`parent
      modifies (if a.parent == null then {} else {a.parent})`left, (if a.parent == null then {} else {a.parent})`right
      ensures b == old(a.right) && LeftRotated(a)
      ensures forall n: NodeAVL<V> :: old(allocated(n)) && n != a && n != old(a.right) && n != old(a.right.left) && n != old(a.parent) ==> Fields(n) == old(Fields(n))
    {
      b := a.right;
      b.SetParentNode(a.parent);
      a.ChangeRightNode(b.left);
      if a.right != null {
        a.right.SetParentNode(a);
      }
      b.ChangeLeftNode(a);
      a.SetParentNode(b);
      if b.parent != null {
        if b.parent.right == a {
          b.parent.ChangeRightNode(b);
        } else {
          b.parent.ChangeLeftNode(b);
        }
      }
      SetBalance(a);
      SetBalance(b);
    }

    /** TreeAVL.leftRightRotate(a): left-rotate a's left child b, then right-rotate a. */
    method LeftRightRotate(a: NodeAVL<V>, ghost M: LinkMap<V>) returns (c: NodeAVL<V>)
      requires Holds(M) && a in M && M[a].left != null && M[a].right != M[a].left
      requires CanRotateLeft(M, M[a].left) && M[M[a].left].parent == a
      requires CanRotateRight(RotatedLeft(M, M[a].left), a)
      modifies M.Keys
      ensures c == M[M[a].left].right && Holds(RotatedRight(RotatedLeft(M, M[a].left), a))
    {
      ghost var Mid := RotatedLeft(M, M[a].left);
      label L:
      var l := LeftRotate(a.left);
      RotatedLeftStep@L((M, M[a].left));
      a.ChangeLeftNode(l);
      assert Holds(Mid);
      label L2:
      c := RightRotate(a);
      RotatedRightStep@L2((Mid, a));
    }

    /** TreeAVL.rightLeftRotate(a): right-rotate a's right child b, then left-rotate a. */
    method RightLeftRotate(a: NodeAVL<V>, ghost M: LinkMap<V>) returns (c: NodeAVL<V>)
      requires Holds(M) && a in M && M[a].right != null && M[a].left != M[a].right
      requires CanRotateRight(M, M[a].right) && M[M[a].right].parent == a
      requires CanRotateLeft(RotatedRight(M, M[a].right), a)
      modifies M.Keys
      ensures c == M[M[a].right].left && Holds(RotatedLeft(RotatedRight(M, M[a].right), a))
    {
      ghost var Mid := RotatedRight(M, M[a].right);
      label L:
      var r := RightRotate(a.right);
      RotatedRightStep@L((M, M[a].right));
      a.ChangeRightNode(r);
      assert Holds(Mid);
      label L2:
      c := LeftRotate(a);
      RotatedLeftStep@L2((Mid, a));
    }
    /** rightRotate(a) on a node graph that M records: the graph ends up recording RotatedRight(M, a). */
    method RightRotateIn(a: NodeAVL<V>, ghost M: LinkMap<V>) returns (b: NodeAVL<V>)
      requires Holds(M) && CanRotateRight(M, a)
      modifies M.Keys
      ensures b == M[a].left && Holds(RotatedRight(M, a))
    {
      RightRotateReady(M, a);
      label L:
      b := RightRotate(a);
      RotatedRightStep@L((M, a));
    }

    /** leftRotate(a) on a node graph that M records: the graph ends up recording RotatedLeft(M, a). */
    method LeftRotateIn(a: NodeAVL<V>, ghost M: LinkMap<V>) returns (b: NodeAVL<V>)
      requires Holds(M) && CanRotateLeft(M, a)
      modifies M.Keys
      ensures b == M[a].right && Holds(RotatedLeft(M, a))
    {
      LeftRotateReady(M, a);
      label L:
      b := LeftRotate(a);
      RotatedLeftStep@L((M, a));
    }

    /**
     * The rotation TreeAVL.reBalance(n) chooses when n leans left (balance factor -2 once setBalance has
     * run): a right rotation when n's left child is not heavier on its right, a left-right rotation
     * otherwise.  t is the subtree at n and s the same subtree with n's cached fields re-computed, which
     * the node graph realises in t's place; it ends up realising the tree with Fix(t) there.
     */
    method LeftHeavy(n: NodeAVL<V>, ghost path: NPath<V>, ghost t: NTree<V>) returns (m: NodeAVL<V>)
      requires ChildrenPositive(t) && t.ref == n && AVLSpec.SetBalance(t).bf == -2
      requires var s := AVLSpec.SetBalance(t);
        s.left.Node? && Distinct(Plug(path, s)) && Holds(Shape(Plug(path, s), null))
      modifies Refs(Plug(path, t))
      ensures m == Fix(t).ref && Holds(Shape(Plug(path, Fix(t)), null))
    {
      ghost var M := Shape(Plug(path, AVLSpec.SetBalance(t)), null);
      LeftHeavyMap(path, t);
      if HeightOf(n.left.left) >= HeightOf(n.left.right) {
        m := RightRotateIn(n, M);
      } else {
        m := LeftRightRotate(n, M);
      }
    }

    /** The mirror of LeftHeavy, for a balance factor of +2. */
    method RightHeavy(n: NodeAVL<V>, ghost path: NPath<V>, ghost t: NTree<V>) returns (m: NodeAVL<V>)
      requires ChildrenPositive(t) && t.ref == n && AVLSpec.SetBalance(t).bf == 2
      requires var s := AVLSpec.SetBalance(t);
        s.right.Node? && Distinct(Plug(path, s)) && Holds(Shape(Plug(path, s), null))
      modifies Refs(Plug(path, t))
      ensures m == Fix(t).ref && Holds(Shape(Plug(path, Fix(t)), null))
    {
      ghost var M := Shape(Plug(path, AVLSpec.SetBalance(t)), null);
      RightHeavyMap(path, t);
      if HeightOf(n.right.right) >= HeightOf(n.right.left) {
        m := LeftRotateIn(n, M);
      } else {
        m := RightLeftRotate(n, M);
      }
    }

    /**
     * One step of TreeAVL.reBalance(n), everything but the move to the parent: setBalance(n), then the
     * rotation a balance factor of -2 or +2 calls for.  t is the subtree rooted at n and path the chain
     * of its ancestors; the node graph ends up realising the tree with Fix(t) in t's place, and m is its root.
     */
    method FixNode(n: NodeAVL<V>, ghost path: NPath<V>, ghost t: NTree<V>) returns (m: NodeAVL<V>)
      requires t.Node? && t.ref == n && ChildrenPositive(t) && Realises(Plug(path, t))
      modifies Refs(Plug(path, t))
      ensures m == Fix(t).ref && m.parent == UpRef(path) && Realises(Plug(path, Fix(t)))
    {
      ghost var M, s := Shape(Plug(path, t), null), AVLSpec.SetBalance(t);
      SetBalanceStep(path, t);
      RefsAllocated(Plug(path, t));
      SetBalance(n);
      HoldsUpdate(M, n, Balanced(M, n));
      assert n.balanceFactor == s.bf by {
        assert Shape(Plug(path, s), null)[n] == Entry(s, UpRef(path));
      }
      if GetBalance(n) == -2 {
        m := LeftHeavy(n, path, t);
      } else if GetBalance(n) == 2 {
        m := RightHeavy(n, path, t);
      } else {
        m := n;
      }
      FixParent(path, t);
    }

    /**
     * TreeAVL.reBalance(n): n is the root of the subtree t, path the chain of its ancestors.  The node
     * graph ends up realising RebalanceUp(path, t), and root and tree name its root and the tree.
     */
    method ReBalance(n: NodeAVL<V>, ghost path: NPath<V>, ghost t: NTree<V>)
      requires t.Node? && t.ref == n && ChildrenPositive(t) && PathPositive(path) && Realises(Plug(path, t))
      modifies this`root, this`tree, Refs(Plug(path, t))
      ensures Realises(RebalanceUp(path, t)) && PositiveHeights(RebalanceUp(path, t))
      ensures root == RootRef(RebalanceUp(path, t)) && tree == RebalanceUp(path, t)
      decreases |path|
    {
      var m := FixNode(n, path, t);
      ghost var u := Fix(t);
      FixStep(path, t);
      if m.parent != null {
        ReBalance(m.parent, path[1..], PlugOne(path[0], u));
      } else {
        root := m;
        tree := u;
      }
    }

    /**
     * The end of TreeAVL.insert's walk: node p, the root of w, has no child on the side goLeft names.
     * Hang a new node holding (k, v) there, then rebalance from p; path holds p's ancestors.
     */
    method AttachLeaf(p: NodeAVL<V>, goLeft: bool, k: int, v: V, ghost path: NPath<V>, ghost w: NTree<V>)
      returns (ghost m: NodeAVL<V>)
      requires w.Node? && w.ref == p && Child(w, if goLeft then Left else Right).Nil?
      requires PositiveHeights(w) && PathPositive(path) && Realises(Plug(path, w))
      modifies this`root, this`tree, Refs(Plug(path, w))
      ensures fresh(m) && Valid()
      ensures tree == RebalanceUp(path, PlugOne(FrameOf(w, if goLeft then Left else Right), Leaf(m, k, v)))
    {
      ghost var side := if goLeft then Left else Right;
      ghost var M := Shape(Plug(path, w), null);
      ShapeKeys(Plug(path, w), null);
      PlugRefs(path, w);
      label A:
      var leaf := new NodeAVL.WithParent(k, v, p);
      m := leaf;
      if goLeft {
        p.ChangeLeftNode(leaf);
      } else {
        p.ChangeRightNode(leaf);
      }
      HeldUpdate@A((M, p));
      HoldsAdd(M[p := Fields(p)], m);
      AttachMap(path, w, side, m, k, v);
      AttachRefs(path, w, side, m, k, v);
      ReBalance(p, path, PlugOne(FrameOf(w, side), Leaf(m, k, v)));
    }

    /**
     * The first step of the insert loop at node n: if n holds the key k, its value becomes v.  focus is
     * the subtree at n and path its ancestors; w is the subtree at n afterwards.
     */
    method Overwrite(n: NodeAVL<V>, k: int, v: V, ghost path: NPath<V>, ghost focus: NTree<V>)
      returns (ghost w: NTree<V>)
      requires focus.Node? && focus.ref == n && Realises(Plug(path, focus))
      modifies n`value
      ensures w == (if focus.key == k then focus.(value := v) else focus)
      ensures Realises(Plug(path, w)) && Refs(Plug(path, w)) == Refs(Plug(path, focus))
    {
      ghost var M := Shape(Plug(path, focus), null);
      Around(path, focus);
      if n.HasSameKey(k) {
        label V:
        n.SetValue(v);
        HeldUpdate@V((M, n));
        SetValueMap(path, focus, v);
      }
      w := if focus.key == k then focus.(value := v) else focus;
    }

    /**
     * TreeAVL.insert(k, v): walk down from the root, setting the value of every node met whose key is k,
     * hang a new node holding (k, v) in the first missing child slot and rebalance from its parent.
     * An existing key therefore gets a second node.  m is the node the method allocates.
     */
    method Insert(k: int, v: V) returns (ghost m: NodeAVL<V>)
      requires Valid()
      modifies this`root, this`tree, Refs(tree)
      ensures Valid() && fresh(m) && tree == AVLSpec.Insert(old(tree), k, v, m)
    {
      if root == null {
        var leaf := new NodeAVL.WithParent(k, v, null);
        root, m := leaf, leaf;
        tree := Leaf(m, k, v);
        ShapeLeaf(tree, null);
        return;
      }
      ghost var t0, path: NPath<V>, focus := tree, [], tree;
      var currentNode := root;
      while true
        invariant focus.Node? && currentNode == focus.ref && PositiveHeights(focus) && PathPositive(path)
        invariant Realises(Plug(path, focus)) && Refs(Plug(path, focus)) == Refs(t0)
        invariant Descend(focus, k, v, path) == Descend(t0, k, v, [])
        invariant tree == t0 && root == old(root)
        decreases focus
      {
        PlugRefs(path, focus);
        ghost var w := Overwrite(currentNode, k, v, path, focus);
        DescendOne(focus, k, v, path);
        var parentNode := currentNode;
        var goLeft := k < currentNode.key;
        ghost var side := if goLeft then Left else Right;
        StepDown(path, w, side);
        currentNode := if goLeft then currentNode.left else currentNode.right;
        if currentNode == null {
          m := AttachLeaf(parentNode, goLeft, k, v, path, w);
          InsertAt(t0, k, v, m, FrameOf(w, side), path);
          break;
        }
        path, focus := [FrameOf(w, side)] + path, Child(focus, side);
      }
    }
    /**
     * The leaf case of the private TreeAVL.delete(n) when n has a parent: unlink n from the side of the
     * parent that holds it, then rebalance from the parent.  t is the leaf and path its ancestors.
     */
    method DetachLeaf(n: NodeAVL<V>, ghost path: NPath<V>, ghost t: NTree<V>)
      requires t.Node? && t.ref == n && t.left.Nil? && t.right.Nil? && path != [] && PathPositive(path)
      requires Valid() && tree == Plug(path, t)
      modifies this`root, this`tree, Refs(tree)
      ensures Valid() && tree == RebalanceUp(path[1..], PlugOne(path[0], Nil))
    {
      ghost var M := Shape(tree, null);
      DetachMap(path, t);
      DetachRefs(path, t);
      NodeLinks(path, t);
      var parentNode := n.parent;
      label L:
      if parentNode.left == n {
        parentNode.ChangeLeftNode(null);
      } else {
        parentNode.ChangeRightNode(null);
      }
      HeldUpdate@L((M, parentNode));
      HoldsRemove(M[parentNode := Fields(parentNode)], n);
      ReBalance(parentNode, path[1..], PlugOne(path[0], Nil));
    }

    /**
     * The private TreeAVL.delete(n): a leaf is unlinked (a root leaf empties the tree); a node with a
     * left child hands the deletion on to the rightmost node of its left subtree, a node with only a
     * right child to the leftmost node of its right subtree.  The hasSameKey call on n has no effect, so
     * nothing moves into n.  t is the subtree at n and path its ancestors.
     */
    method DeleteNode(n: NodeAVL<V>, ghost path: NPath<V>, ghost t: NTree<V>)
      requires t.Node? && t.ref == n && PositiveHeights(t) && PathPositive(path)
      requires Valid() && tree == Plug(path, t)
      modifies this`root, this`tree, Refs(tree)
      ensures Valid() && tree == RemoveLeaf(LeafChain(Spot(path, t)))
      decreases |Items(t)|
    {
      NodeLinks(path, t);
      if n.left == null && n.right == null {
        if n.parent == null {
          root := null;
          tree := Nil;
        } else {
          DetachLeaf(n, path, t);
        }
        return;
      }
      if n.left != null {
        StepDown(path, t, Left);
        var child := n.left;
        ghost var cpath, focus := [FrameOf(t, Left)] + path, t.left;
        while child.right != null
          invariant focus.Node? && child == focus.ref && PositiveHeights(focus) && PathPositive(cpath)
          invariant Plug(cpath, focus) == tree && Realises(Plug(cpath, focus))
          invariant RightmostFrom(focus, cpath) == RightmostFrom(t.left, [FrameOf(t, Left)] + path)
          modifies {}
          decreases focus
        {
          StepDown(cpath, focus, Right);
          child := child.right;
          cpath, focus := [FrameOf(focus, Right)] + cpath, focus.right;
        }
        StepDown(cpath, focus, Right);
        var sameKey := n.HasSameKey(child.key);
        DeleteNode(child, cpath, focus);
      } else {
        StepDown(path, t, Right);
        var child := n.right;
        ghost var cpath, focus := [FrameOf(t, Right)] + path, t.right;
        while child.left != null
          invariant focus.Node? && child == focus.ref && PositiveHeights(focus) && PathPositive(cpath)
          invariant Plug(cpath, focus) == tree && Realises(Plug(cpath, focus))
          invariant LeftmostFrom(focus, cpath) == LeftmostFrom(t.right, [FrameOf(t, Right)] + path)
          modifies {}
          decreases focus
        {
          StepDown(cpath, focus, Left);
          child := child.left;
          cpath, focus := [FrameOf(focus, Left)] + cpath, focus.left;
        }
        StepDown(cpath, focus, Left);
        var sameKey := n.HasSameKey(child.key);
        DeleteNode(child, cpath, focus);
      }
    }

    /**
     * TreeAVL.delete(k): walk down from the root, right when k is at least the node's key and left
     * otherwise, and delete the first node whose key is k; nothing changes when there is none.
     */
    method Delete(k: int)
      requires Valid()
      modifies this`root, this`tree, Refs(tree)
      ensures Valid() && tree == AVLSpec.Delete(old(tree), k)
    {
      if root == null {
        return;
      }
      ghost var t0, path: NPath<V>, focus := tree, [], tree;
      var child := root;
      while child != null
        invariant child == RootRef(focus) && PositiveHeights(focus) && PathPositive(path)
        invariant Valid() && tree == t0 && Plug(path, focus) == t0
        invariant Locate(focus, k, path) == Locate(t0, k, [])
        decreases focus
      {
        ghost var side := if k >= focus.key then Right else Left;
        StepDown(path, focus, side);
        var node := child;
        var cmpValue := k >= node.key;
        child := if cmpValue then node.right else node.left;
        if node.HasSameKey(k) {
          DeleteNode(node, path, focus);
          return;
        }
        path, focus := [FrameOf(focus, side)] + path, Child(focus, side);
      }
    }

    /** TreeAVL.getMin: the value of the first node of the in-order walk; the tree must not be empty. */
    method GetMin() returns (v: V)
      requires Valid() && root != null
      ensures v == Items(tree)[0].value
    {
      v := root.GetMin(tree, null);
    }

    /** TreeAVL.getMax: the value of the last node of the in-order walk; the tree must not be empty. */
    method GetMax() returns (v: V)
      requires Valid() && root != null
      ensures v == Items(tree)[|Items(tree)| - 1].value
    {
      v := root.GetMax(tree, null);
    }

    /** TreeAVL.preorderTraversal: a fresh list of the values in pre-order. */
    method PreorderTraversal() returns (resultList: ValueList<V>)
      requires Valid()
      ensures fresh(resultList) && resultList.contents == Preorder(tree)
    {
      label L:
      resultList := new ValueList();
      HeldStill@L(Shape(tree, null));
      PreorderIterator(root, resultList, tree, null);
    }

    /**
     * TreeAVL.preorderIterator(node, list): append the values of the subtree at node in pre-order.  The
     * ghost t is that subtree and p the parent of its root.
     */
    method PreorderIterator(node: NodeAVL?<V>, preorderList: ValueList<V>, ghost t: NTree<V>, ghost p: NodeAVL?<V>)
      requires node == RootRef(t) && Distinct(t) && Holds(Shape(t, p))
      modifies preorderList
      ensures preorderList.contents == old(preorderList.contents) + Preorder(t)
      decreases t
    {
      if node != null {
        SubShape(t, p);
        assert Holds(Shape(t.left, node)) && Holds(Shape(t.right, node));
        ghost var c0, pl, pr := preorderList.contents, Preorder(t.left), Preorder(t.right);
        label L:
        preorderList.Add(node.value);
        HeldStill@L(Shape(t, p));
        PreorderIterator(node.left, preorderList, t.left, node);
        PreorderIterator(node.right, preorderList, t.right, node);
        assert preorderList.contents == c0 + [node.value] + pl + pr;
        assert c0 + [node.value] + pl + pr == c0 + ([node.value] + pl + pr);
      }
    }

    /** TreeAVL.inorderTraversal: a fresh list of the values in in-order. */
    method InorderTraversal() returns (resultList: ValueList<V>)
      requires Valid()
      ensures fresh(resultList) && resultList.contents == Inorder(tree)
    {
      label L:
      resultList := new ValueList();
      HeldStill@L(Shape(tree, null));
      InorderIterator(root, resultList, tree, null);
    }

    /** TreeAVL.inorderIterator(node, list): append the values of the subtree at node in in-order. */
    method InorderIterator(node: NodeAVL?<V>, inorderList: ValueList<V>, ghost t: NTree<V>, ghost p: NodeAVL?<V>)
      requires node == RootRef(t) && Distinct(t) && Holds(Shape(t, p))
      modifies inorderList
      ensures inorderList.contents == old(inorderList.contents) + Inorder(t)
      decreases t
    {
      if node != null {
        SubShape(t, p);
        assert Holds(Shape(t.left, node)) && Holds(Shape(t.right, node));
        ghost var c0, il, ir := inorderList.contents, Inorder(t.left), Inorder(t.right);
        label L:
        InorderIterator(node.left, inorderList, t.left, node);
        inorderList.Add(node.value);
        HeldStill@L(Shape(t, p));
        InorderIterator(node.right, inorderList, t.right, node);
        assert inorderList.contents == c0 + il + [node.value] + ir;
        assert c0 + il + [node.value] + ir == c0 + (il + [node.value] + ir);
      }
    }

    /** TreeAVL.postorderTraversal: a fresh list of the values in post-order. */
    method PostorderTraversal() returns (resultList: ValueList<V>)
      requires Valid()
      ensures fresh(resultList) && resultList.contents == Postorder(tree)
    {
      label L:
      resultList := new ValueList();
      HeldStill@L(Shape(tree, null));
      PostorderIterator(root, resultList, tree, null);
    }

    /** TreeAVL.postorderIterator(node, list): append the values of the subtree at node in post-order. */
    method PostorderIterator(node: NodeAVL?<V>, postorderList: ValueList<V>, ghost t: NTree<V>, ghost p: NodeAVL?<V>)
      requires node == RootRef(t) && Distinct(t) && Holds(Shape(t, p))
      modifies postorderList
      ensures postorderList.contents == old(postorderList.contents) + Postorder(t)
      decreases t
    {
      if node != null {
        SubShape(t, p);
        assert Holds(Shape(t.left, node)) && Holds(Shape(t.right, node));
        ghost var c0, pl, pr := postorderList.contents, Postorder(t.left), Postorder(t.right);
        label L:
        PostorderIterator(node.left, postorderList, t.left, node);
        HeldStill@L(Shape(t, p));
        PostorderIterator(node.right, postorderList, t.right, node);
        ghost var c2 := postorderList.contents;
        assert c2 == c0 + pl + pr;
        postorderList.Add(node.value);
        assert c2 + [node.value] == c0 + (pl + pr + [node.value]);
      }
    }

  }
}
