/**
 * The private TreeAVL.delete(n), for a node n with children, walks to the rightmost node of n's left
 * subtree (or the leftmost node of its right subtree), evaluates n.hasSameKey(child.getKey()) and
 * drops the result, then deletes that child.  Nothing is copied into n, so n keeps the key being
 * deleted and the child's key leaves the tree instead (`InnerDeleteKeepsKey`).
 *
 * `DeleteCopying` is the deletion that call evidently stands for: every node of the chain takes the
 * key and value of the node found below it before that node is deleted.  For it, deleting a key that a
 * search finds removes exactly one occurrence of that key and keeps every other key
 * (`DeleteCopyingKeys`).
 */
module AVLDeleteFix {
  import opened AVLSpec
  import opened AVLStructure
  import opened AVLOrder
  import opened AVLBalance

  /** The keys of a tree, counted with repetition. */
  function KeyBag<R, V>(t: Tree<R, V>): multiset<int>
  {
    match t
    case Nil => multiset{}
    case Node(l, _, k, _, _, _, r) => KeyBag(l) + multiset{k} + KeyBag(r)
  }

  /** The keys of the nodes and siblings a path keeps. */
  function PathBag<R, V>(p: Path<R, V>): multiset<int>
    decreases |p|
  {
    if p == [] then multiset{} else PathBag(p[1..]) + multiset{p[0].key} + KeyBag(p[0].sibling)
  }

  lemma KeysAround<R, V>(a: seq<Item<R, V>>, x: Item<R, V>, b: seq<Item<R, V>>)
    ensures multiset(Keys(a + [x] + b)) == multiset(Keys(a)) + multiset{x.key} + multiset(Keys(b))
  {
    KeysAppend(a + [x], b);
    KeysAppend(a, [x]);
  }

  /** KeyBag counts the keys of the in-order items. */
  lemma {:induction false} KeyBagKeys<R, V>(t: Tree<R, V>)
    ensures KeyBag(t) == multiset(Keys(Items(t)))
    decreases t
  {
    if t.Node? {
      KeyBagKeys(t.left);
      KeyBagKeys(t.right);
      KeysAround(Items(t.left), ItemOf(t), Items(t.right));
    }
  }

  /** A tree with a subtree plugged in has the keys of the path and of the subtree. */
  lemma {:induction false} PlugBag<R, V>(p: Path<R, V>, x: Tree<R, V>)
    ensures KeyBag(Plug(p, x)) == PathBag(p) + KeyBag(x)
    decreases |p|
  {
    if p != [] {
      PlugBag(p[1..], PlugOne(p[0], x));
    }
  }

  /** The path p with the node of frame j now holding key k and value v. */
  function Retag<R, V>(p: Path<R, V>, j: nat, k: int, v: V): (q: Path<R, V>)
    requires j < |p|
    ensures |q| == |p| && q[j].key == k && q[j].value == v
    ensures forall i :: 0 <= i < |p| ==>
      q[i].side == p[i].side && q[i].ref == p[i].ref && q[i].height == p[i].height && q[i].sibling == p[i].sibling
    ensures forall i :: 0 <= i < |p| && i != j ==> q[i] == p[i]
  {
    p[j := p[j].(key := k, value := v)]
  }

  lemma SwapAt(a: multiset<int>, b: multiset<int>, x: int, k: int)
    ensures a + multiset{k} + b == (a + multiset{x} + b) - multiset{x} + multiset{k}
  {
  }

  lemma SwapBelow(a: multiset<int>, b: multiset<int>, x: int, y: int, k: int)
    requires x in a
    ensures (a - multiset{x} + multiset{k}) + multiset{y} + b == (a + multiset{y} + b) - multiset{x} + multiset{k}
  {
  }

  lemma SwapRest(a: multiset<int>, b: multiset<int>, x: int, k: int)
    requires x in a
    ensures (a - multiset{x} + multiset{k}) + b == (a + b) - multiset{x} + multiset{k}
  {
  }

  lemma RetagTail<R, V>(p: Path<R, V>, j: nat, k: int, v: V)
    requires 0 < j < |p|
    ensures Retag(p, j, k, v)[0] == p[0] && Retag(p, j, k, v)[1..] == Retag(p[1..], j - 1, k, v)
  {
  }

  /** The node of every frame of a path contributes its key. */
  lemma {:induction false} FrameKeyIn<R, V>(p: Path<R, V>, j: nat)
    requires j < |p|
    ensures p[j].key in PathBag(p)
    decreases |p|
  {
    var a, b := PathBag(p[1..]), KeyBag(p[0].sibling);
    if j == 0 {
      InSum(a, b, p[0].key, p[0].key);
    } else {
      assert p[1..][j - 1] == p[j];
      FrameKeyIn(p[1..], j - 1);
      InSum(a, b, p[0].key, p[j].key);
    }
  }

  lemma InSum(a: multiset<int>, b: multiset<int>, x: int, y: int)
    requires y == x || y in a
    ensures y in a + multiset{x} + b
  {
  }

  /** Giving one node of a path a new key replaces one occurrence of its old key by the new one. */
  lemma {:induction false} RetagBag<R, V>(p: Path<R, V>, j: nat, k: int, v: V)
    requires j < |p|
    ensures PathBag(Retag(p, j, k, v)) == PathBag(p) - multiset{p[j].key} + multiset{k}
    decreases |p|
  {
    var q := Retag(p, j, k, v);
    var x, y := p[j].key, p[0].key;
    var a, b := PathBag(p[1..]), KeyBag(p[0].sibling);
    if j == 0 {
      assert q[1..] == p[1..];
      SwapAt(a, b, x, k);
    } else {
      RetagTail(p, j, k, v);
      assert p[1..][j - 1] == p[j];
      RetagBag(p[1..], j - 1, k, v);
      FrameKeyIn(p[1..], j - 1);
      var a2 := PathBag(Retag(p[1..], j - 1, k, v));
      assert PathBag(q) == a2 + multiset{y} + b;
      SwapBelow(a, b, x, y, k);
    }
  }

  /** The walk to the rightmost node only adds frames below those it starts with. */
  lemma {:induction false} RightmostSuffix<R, V>(t: Tree<R, V>, path: Path<R, V>)
    requires t.Node?
    ensures var r := RightmostFrom(t, path); r.path[|r.path| - |path|..] == path
    decreases t
  {
    if t.right.Node? {
      var p := [FrameOf(t, Right)] + path;
      RightmostSuffix(t.right, p);
      var r := RightmostFrom(t.right, p);
      assert r.path[|r.path| - |path|..] == r.path[|r.path| - |p|..][1..];
    }
  }

  lemma {:induction false} LeftmostSuffix<R, V>(t: Tree<R, V>, path: Path<R, V>)
    requires t.Node?
    ensures var r := LeftmostFrom(t, path); r.path[|r.path| - |path|..] == path
    decreases t
  {
    if t.left.Node? {
      var p := [FrameOf(t, Left)] + path;
      LeftmostSuffix(t.left, p);
      var r := LeftmostFrom(t.left, p);
      assert r.path[|r.path| - |path|..] == r.path[|r.path| - |p|..][1..];
    }
  }

  /** A frame of the path, counted from the top, takes key k and value v. */
  function RetagFromTop<R, V>(p: Path<R, V>, above: nat, k: int, v: V): (q: Path<R, V>)
    requires above < |p|
    ensures |q| == |p|
    ensures PathPositive(p) ==> PathPositive(q)
  {
    Retag(p, |p| - above - 1, k, v)
  }

  /**
   * One step of the private delete as evidently intended: a node with a left child takes the key and
   * value of the rightmost node of that subtree, a node with only a right child those of the leftmost
   * node of that subtree, and the deletion goes on at that node.
   */
  function CopyStep<R, V>(s: Spot<R, V>): (r: Spot<R, V>)
    requires s.node.Node? && (s.node.left.Node? || s.node.right.Node?)
    ensures r.node.Node? && |Items(r.node)| < |Items(s.node)|
    ensures PositiveHeights(s.node) && PathPositive(s.path) ==> PathPositive(r.path) && PositiveHeights(r.node)
  {
    var n := s.node;
    var c := if n.left.Node? then RightmostFrom(n.left, [FrameOf(n, Left)] + s.path)
             else LeftmostFrom(n.right, [FrameOf(n, Right)] + s.path);
    Spot(RetagFromTop(c.path, |s.path|, c.node.key, c.node.value), c.node)
  }

  /** The copying steps repeated until a leaf is reached. */
  function CopyChain<R, V>(s: Spot<R, V>): (r: Spot<R, V>)
    requires s.node.Node?
    ensures r.node.Node? && r.node.left.Nil? && r.node.right.Nil?
    ensures PositiveHeights(s.node) && PathPositive(s.path) ==> PathPositive(r.path) && PositiveHeights(r.node)
    decreases |Items(s.node)|
  {
    if s.node.left.Nil? && s.node.right.Nil? then s else CopyChain(CopyStep(s))
  }

  /** The delete of TreeAVL.delete(k) with each node of the chain overwritten as above. */
  function DeleteCopying<R, V>(t: Tree<R, V>, k: int): (r: Tree<R, V>)
    requires PositiveHeights(t)
    ensures PositiveHeights(r)
  {
    match Locate(t, k, [])
    case None => t
    case Some(s) => RemoveLeaf(CopyChain(s))
  }

  /** One copying step replaces one occurrence of the current node's key by the key of the next node. */
  lemma CopyStepBag<R, V>(s: Spot<R, V>)
    requires s.node.Node? && (s.node.left.Node? || s.node.right.Node?)
    ensures var r := CopyStep(s);
      KeyBag(Plug(r.path, r.node)) == KeyBag(Plug(s.path, s.node)) - multiset{s.node.key} + multiset{r.node.key}
  {
    var n := s.node;
    var side := if n.left.Node? then Left else Right;
    var p := [FrameOf(n, side)] + s.path;
    var c := if n.left.Node? then RightmostFrom(n.left, p) else LeftmostFrom(n.right, p);
    if n.left.Node? {
      RightmostPlug(n.left, p);
      RightmostSuffix(n.left, p);
    } else {
      LeftmostPlug(n.right, p);
      LeftmostSuffix(n.right, p);
    }
    PlugDown(s.path, n, side);
    var j := |c.path| - |s.path| - 1;
    assert c.path[j] == FrameOf(n, side) by {
      assert c.path[|c.path| - |p|..][0] == p[0];
    }
    var r := CopyStep(s);
    assert r.path == Retag(c.path, j, c.node.key, c.node.value) && r.node == c.node;
    PlugBag(c.path, c.node);
    PlugBag(r.path, c.node);
    RetagBag(c.path, j, c.node.key, c.node.value);
    FrameKeyIn(c.path, j);
    SwapRest(PathBag(c.path), KeyBag(c.node), n.key, c.node.key);
  }

  lemma Cancel(a: multiset<int>, x: int)
    ensures a + multiset{x} - multiset{x} == a
  {
  }

  /**
   * Along the copying chain, the keys of the whole tree other than the one at the current node stay
   * the same.
   */
  lemma {:induction false} CopyChainBag<R, V>(s: Spot<R, V>)
    requires s.node.Node?
    ensures var l := CopyChain(s);
      KeyBag(Plug(l.path, l.node)) - multiset{l.node.key} == KeyBag(Plug(s.path, s.node)) - multiset{s.node.key}
    decreases |Items(s.node)|
  {
    if s.node.left.Node? || s.node.right.Node? {
      var r := CopyStep(s);
      CopyStepBag(s);
      CopyChainBag(r);
      Cancel(KeyBag(Plug(s.path, s.node)) - multiset{s.node.key}, r.node.key);
    }
  }

  /** The key a search finds is in the tree, with the rest of the tree around it. */
  lemma LocateBag<R, V>(t: Tree<R, V>, k: int)
    requires Locate(t, k, []).Some?
    ensures var s := Locate(t, k, []).value;
      k in KeyBag(t) && KeyBag(t) == KeyBag(Plug(s.path, s.node))
  {
    var s := Locate(t, k, []).value;
    LocatePlug(t, k, []);
    PlugBag(s.path, s.node);
  }

  /** Unlinking a leaf removes its key. */
  lemma RemoveLeafBag<R, V>(l: Spot<R, V>)
    requires l.node.Node? && l.node.left.Nil? && l.node.right.Nil? && PathPositive(l.path)
    ensures KeyBag(RemoveLeaf(l)) == KeyBag(Plug(l.path, l.node)) - multiset{l.node.key}
  {
    RemoveLeafPlug(l);
    KeyBagKeys(RemoveLeaf(l));
    KeyBagKeys(Plug(l.path, Nil));
    PlugBag(l.path, l.node);
    PlugBag(l.path, Nil);
    Cancel(PathBag(l.path), l.node.key);
  }

  /** The intended delete removes one occurrence of a key a search finds and keeps all other keys. */
  lemma DeleteCopyingKeys<R, V>(t: Tree<R, V>, k: int)
    requires PositiveHeights(t)
    ensures Locate(t, k, []).None? ==> DeleteCopying(t, k) == t
    ensures Locate(t, k, []).Some? ==> k in KeyBag(t) && KeyBag(DeleteCopying(t, k)) == KeyBag(t) - multiset{k}
  {
    if Locate(t, k, []).Some? {
      var s := Locate(t, k, []).value;
      LocateBag(t, k);
      CopyChainBag(s);
      RemoveLeafBag(CopyChain(s));
    }
  }

  /** Keys and values play no part in the height records of a path. */
  lemma {:induction false} RetagOK<R, V>(p: Path<R, V>, j: nat, k: int, v: V, c: int)
    requires j < |p| && PathOK(p, c)
    ensures PathOK(Retag(p, j, k, v), c)
    decreases |p|
  {
    if j == 0 {
      assert Retag(p, j, k, v)[1..] == p[1..];
    } else {
      RetagTail(p, j, k, v);
      RetagOK(p[1..], j - 1, k, v, p[0].height);
    }
  }

  /** The copying chain of an AVL tree ends at a leaf with the height records intact. */
  lemma {:induction false} CopyChainAvl<R, V>(s: Spot<R, V>)
    requires s.node.Node? && Avl(s.node) && PathOK(s.path, H(s.node))
    ensures Avl(CopyChain(s).node) && PathOK(CopyChain(s).path, H(CopyChain(s).node))
    decreases |Items(s.node)|
  {
    var n := s.node;
    if n.left.Node? || n.right.Node? {
      var p := if n.left.Node? then [FrameOf(n, Left)] + s.path else [FrameOf(n, Right)] + s.path;
      var c := if n.left.Node? then RightmostFrom(n.left, p) else LeftmostFrom(n.right, p);
      if n.left.Node? {
        StepAvl(n, n, Left, s.path);
        RightmostAvl(n.left, p);
      } else {
        StepAvl(n, n, Right, s.path);
        LeftmostAvl(n.right, p);
      }
      RetagOK(c.path, |c.path| - |s.path| - 1, c.node.key, c.node.value, H(c.node));
      CopyChainAvl(CopyStep(s));
    }
  }

  /** The intended delete keeps the AVL invariant too. */
  lemma DeleteCopyingAvl<R, V>(t: Tree<R, V>, k: int)
    requires Avl(t) && PositiveHeights(t)
    ensures Avl(DeleteCopying(t, k))
  {
    LocateAvl(t, k, []);
    match Locate(t, k, [])
    case None =>
    case Some(s) =>
      CopyChainAvl(s);
      RemoveLeafAvl(CopyChain(s));
  }

  /** In an ordered tree, the intended delete of a key that is present removes exactly one occurrence of it. */
  lemma DeleteCopyingRemoves<R, V>(t: Tree<R, V>, k: int)
    requires PositiveHeights(t) && Ordered(Items(t))
    ensures k in Keys(Items(t)) ==>
      multiset(Keys(Items(DeleteCopying(t, k)))) == multiset(Keys(Items(t))) - multiset{k}
    ensures k !in Keys(Items(t)) ==> DeleteCopying(t, k) == t
  {
    LocateComplete(t, k, []);
    DeleteCopyingKeys(t, k);
    KeyBagKeys(t);
    KeyBagKeys(DeleteCopying(t, k));
  }

  /** Plugging along a path made of an inner and an outer part. */
  lemma {:induction false} PlugAppend<R, V>(p: Path<R, V>, q: Path<R, V>, x: Tree<R, V>)
    ensures Plug(p + q, x) == Plug(q, Plug(p, x))
    decreases |p|
  {
    if p != [] {
      var y := PlugOne(p[0], x);
      assert (p + q)[0] == p[0] && (p + q)[1..] == p[1..] + q;
      assert Plug(p + q, x) == Plug(p[1..] + q, y);
      assert Plug(p, x) == Plug(p[1..], y);
      PlugAppend(p[1..], q, y);
    } else {
      assert p + q == q;
    }
  }

  /** Different subtrees plugged in along the same path give different trees. */
  lemma {:induction false} PlugInjective<R, V>(p: Path<R, V>, x: Tree<R, V>, y: Tree<R, V>)
    requires Plug(p, x) == Plug(p, y)
    ensures x == y
    decreases |p|
  {
    if p != [] {
      PlugInjective(p[1..], PlugOne(p[0], x), PlugOne(p[0], y));
    }
  }

  /** Replacing the first element of the outer part of a sequence made of two parts. */
  lemma UpdateJoint<T>(q: seq<T>, inner: seq<T>, p: seq<T>, f: T)
    requires q == inner + p && |p| > 0
    ensures q[|inner| := f] == inner + ([f] + p[1..])
  {
  }

  /**
   * One copying step leaves the whole tree as it was, except that the current node holds the key and
   * value of the node the step moves to.
   */
  lemma CopyStepPlug<R, V>(s: Spot<R, V>)
    requires s.node.Node? && (s.node.left.Node? || s.node.right.Node?)
    ensures var r := CopyStep(s);
      Plug(r.path, r.node) == Plug(s.path, s.node.(key := r.node.key, value := r.node.value))
  {
    var n := s.node;
    if n.left.Node? {
      var p := [FrameOf(n, Left)] + s.path;
      RightmostPlug(n.left, p);
      RightmostSuffix(n.left, p);
      var c := RightmostFrom(n.left, p);
      RetagPlug(s.path, n, Left, c.path, c.node);
    } else {
      var p := [FrameOf(n, Right)] + s.path;
      LeftmostPlug(n.right, p);
      LeftmostSuffix(n.right, p);
      var c := LeftmostFrom(n.right, p);
      RetagPlug(s.path, n, Right, c.path, c.node);
    }
  }

  /**
   * A subtree x reached below the child on the given side of n: giving the frame of n the key and value
   * of x rebuilds the tree with n holding them.
   */
  lemma RetagPlug<R, V>(sp: Path<R, V>, n: Tree<R, V>, side: Side, cp: Path<R, V>, x: Tree<R, V>)
    requires n.Node? && x.Node? && |cp| > |sp|
    requires cp[|cp| - |sp| - 1..] == [FrameOf(n, side)] + sp
    requires Plug(cp, x) == Plug([FrameOf(n, side)] + sp, Child(n, side))
    ensures Plug(Retag(cp, |cp| - |sp| - 1, x.key, x.value), x) == Plug(sp, n.(key := x.key, value := x.value))
  {
    var p := [FrameOf(n, side)] + sp;
    var j := |cp| - |sp| - 1;
    var inner := cp[..j];
    assert cp == inner + p;
    PlugAppend(inner, p, x);
    PlugInjective(p, Plug(inner, x), Child(n, side));
    var f := FrameOf(n, side).(key := x.key, value := x.value);
    UpdateJoint(cp, inner, p, f);
    PlugAppend(inner, [f] + sp, x);
    assert ([f] + sp)[1..] == sp;
    assert PlugOne(f, Child(n, side)) == n.(key := x.key, value := x.value);
  }

  /** The rightmost node of a subtree carries its last in-order item. */
  lemma {:induction false} RightmostLast<R, V>(t: Tree<R, V>, path: Path<R, V>)
    requires t.Node?
    ensures |Items(t)| > 0 && Items(t)[|Items(t)| - 1] == ItemOf(RightmostFrom(t, path).node)
    decreases t
  {
    var l, x, r := Items(t.left), ItemOf(t), Items(t.right);
    assert Items(t) == (l + [x]) + r;
    if t.right.Node? {
      RightmostLast(t.right, [FrameOf(t, Right)] + path);
    }
  }

  /** The leftmost node of a subtree carries its first in-order item. */
  lemma {:induction false} LeftmostFirst<R, V>(t: Tree<R, V>, path: Path<R, V>)
    requires t.Node?
    ensures |Items(t)| > 0 && Items(t)[0] == ItemOf(LeftmostFrom(t, path).node)
    decreases t
  {
    var l, x, r := Items(t.left), ItemOf(t), Items(t.right);
    assert Items(t) == l + ([x] + r);
    if t.left.Node? {
      LeftmostFirst(t.left, [FrameOf(t, Left)] + path);
    }
  }

  /**
   * An item of an ordered sequence may take the key of its neighbour before or after it without
   * breaking the order.
   */
  lemma OrderedUpdate<R, V>(s: seq<Item<R, V>>, p: nat, y: Item<R, V>)
    requires Ordered(s) && p < |s|
    requires (0 < p && y.key == s[p - 1].key) || (p + 1 < |s| && y.key == s[p + 1].key)
    ensures Ordered(s[p := y])
  {
    var s2 := s[p := y];
    forall i, j | 0 <= i < j < |s2|
      ensures s2[i].key <= s2[j].key
    {
      if i != p && j != p {
        assert s2[i] == s[i] && s2[j] == s[j];
      } else if j == p {
        assert s2[i] == s[i];
        if 0 < p && y.key == s[p - 1].key {
          assert i <= p - 1;
        } else {
          assert s[i].key <= s[p].key <= s[p + 1].key;
        }
      } else {
        assert s2[j] == s[j];
        if 0 < p && y.key == s[p - 1].key {
          assert s[p - 1].key <= s[p].key <= s[j].key;
        } else {
          assert p + 1 <= j;
        }
      }
    }
  }

  /** Where the item of a node and its neighbours sit in the in-order sequence of the whole tree. */
  lemma MiddleIndex<R, V>(b: seq<Item<R, V>>, l: seq<Item<R, V>>, x: Item<R, V>, r: seq<Item<R, V>>,
                          a: seq<Item<R, V>>, y: Item<R, V>)
    ensures var s, p := b + (l + [x] + r) + a, |b| + |l|;
      && p < |s| && b + (l + [y] + r) + a == s[p := y]
      && (|l| > 0 ==> s[p - 1] == l[|l| - 1])
      && (|r| > 0 ==> p + 1 < |s| && s[p + 1] == r[0])
  {
    var s, p := b + (l + [x] + r) + a, |b| + |l|;
    assert s == (b + l) + [x] + (r + a);
    assert b + (l + [y] + r) + a == (b + l) + [y] + (r + a);
  }

  /**
   * A node of an ordered tree may take the key of its in-order predecessor in its left subtree, or of
   * its in-order successor in its right subtree, without breaking the order.
   */
  lemma NeighbourKeyOrdered<R, V>(sp: Path<R, V>, n: Tree<R, V>, k: int, v: V)
    requires n.Node? && Ordered(Items(Plug(sp, n)))
    requires (|Items(n.left)| > 0 && k == Items(n.left)[|Items(n.left)| - 1].key)
          || (|Items(n.right)| > 0 && k == Items(n.right)[0].key)
    ensures Ordered(Items(Plug(sp, n.(key := k, value := v))))
  {
    var n2 := n.(key := k, value := v);
    PlugItems(sp, n);
    PlugItems(sp, n2);
    var b, a := Before(sp), After(sp);
    var l, x, x2, rt := Items(n.left), ItemOf(n), ItemOf(n2), Items(n.right);
    MiddleIndex(b, l, x, rt, a, x2);
    OrderedUpdate(b + (l + [x] + rt) + a, |b| + |l|, x2);
  }

  /** One copying step keeps the in-order keys of the whole tree non-decreasing. */
  lemma CopyStepOrdered<R, V>(s: Spot<R, V>)
    requires s.node.Node? && (s.node.left.Node? || s.node.right.Node?)
    requires Ordered(Items(Plug(s.path, s.node)))
    ensures var r := CopyStep(s); Ordered(Items(Plug(r.path, r.node)))
  {
    var n := s.node;
    var r := CopyStep(s);
    CopyStepPlug(s);
    if n.left.Node? {
      RightmostLast(n.left, [FrameOf(n, Left)] + s.path);
    } else {
      LeftmostFirst(n.right, [FrameOf(n, Right)] + s.path);
    }
    NeighbourKeyOrdered(s.path, n, r.node.key, r.node.value);
  }

  /** The whole copying chain keeps the in-order keys non-decreasing. */
  lemma {:induction false} CopyChainOrdered<R, V>(s: Spot<R, V>)
    requires s.node.Node? && Ordered(Items(Plug(s.path, s.node)))
    ensures var l := CopyChain(s); Ordered(Items(Plug(l.path, l.node)))
    decreases |Items(s.node)|
  {
    if s.node.left.Node? || s.node.right.Node? {
      CopyStepOrdered(s);
      CopyChainOrdered(CopyStep(s));
    }
  }

  /** Unlinking a leaf of an ordered tree and rebalancing keeps the in-order keys non-decreasing. */
  lemma RemoveLeafOrdered<R, V>(l: Spot<R, V>)
    requires l.node.Node? && l.node.left.Nil? && l.node.right.Nil? && PathPositive(l.path)
    requires Ordered(Items(Plug(l.path, l.node)))
    ensures Ordered(Items(RemoveLeaf(l)))
  {
    RemoveLeafPlug(l);
    PlugItems(l.path, l.node);
    PlugItems(l.path, Nil);
    assert Items(l.node) == [ItemOf(l.node)];
    assert Items(Plug(l.path, Nil)) == Before(l.path) + After(l.path);
    OrderedCut(Before(l.path), ItemOf(l.node), After(l.path));
  }

  /** The intended delete keeps the in-order keys non-decreasing. */
  lemma DeleteCopyingOrdered<R, V>(t: Tree<R, V>, k: int)
    requires PositiveHeights(t)
    ensures Ordered(Items(t)) ==> Ordered(Items(DeleteCopying(t, k)))
  {
    if Locate(t, k, []).Some? && Ordered(Items(t)) {
      var s := Locate(t, k, []).value;
      LocatePlug(t, k, []);
      CopyChainOrdered(s);
      RemoveLeafOrdered(CopyChain(s));
    }
  }

  /**
   * Inserting 2 and then 1 gives a root 2 with a left child 1.  TreeAVL.delete(2) leaves the key 2
   * and removes the key 1; the copying delete removes the key 2.
   */
  lemma InnerDeleteKeepsKey<R, V>(r1: R, r2: R, a: V, b: V)
    ensures var t := Insert(Insert(Nil, 2, b, r2), 1, a, r1);
      && Keys(Items(t)) == [1, 2]
      && Keys(Items(Delete(t, 2))) == [2]
      && Keys(Items(DeleteCopying(t, 2))) == [1]
  {
    var t0 := Leaf(r2, 2, b);
    var f := FrameOf(t0, Left);
    assert Descend(t0, 1, a, []) == [f];
    var t := Node(Leaf(r1, 1, a), r2, 2, b, 2, -1, Nil);
    assert Insert(t0, 1, a, r1) == t;
    var s := Spot([], t);
    assert Locate(t, 2, []) == Some(s);
    var g := FrameOf(t, Left);
    assert RightmostFrom(t.left, [g]) == Spot([g], Leaf(r1, 1, a));
    assert LeafChain(s) == Spot([g], Leaf(r1, 1, a));
    assert Delete(t, 2) == Node(Nil, r2, 2, b, 1, 0, Nil);
    assert Retag([g], 0, 1, a) == [g.(key := 1, value := a)];
    assert CopyChain(s) == Spot([g.(key := 1, value := a)], Leaf(r1, 1, a));
    assert DeleteCopying(t, 2) == Node(Nil, r2, 1, a, 1, 0, Nil);
  }

  /**
   * Inserting 1 and then 2 gives a root 1 with a right child 2.  TreeAVL.delete(1) leaves the key 1
   * and removes the key 2; the copying delete removes the key 1.
   */
  lemma InnerDeleteKeepsKeyRight<R, V>(r1: R, r2: R, a: V, b: V)
    ensures var t := Insert(Insert(Nil, 1, a, r1), 2, b, r2);
      && Keys(Items(t)) == [1, 2]
      && Keys(Items(Delete(t, 1))) == [1]
      && Keys(Items(DeleteCopying(t, 1))) == [2]
  {
    var t0 := Leaf(r1, 1, a);
    var f := FrameOf(t0, Right);
    assert Descend(t0, 2, b, []) == [f];
    var t := Node(Nil, r1, 1, a, 2, 1, Leaf(r2, 2, b));
    assert Insert(t0, 2, b, r2) == t;
    var s := Spot([], t);
    assert Locate(t, 1, []) == Some(s);
    var g := FrameOf(t, Right);
    assert LeftmostFrom(t.right, [g]) == Spot([g], Leaf(r2, 2, b));
    assert LeafChain(s) == Spot([g], Leaf(r2, 2, b));
    assert Delete(t, 1) == Node(Nil, r1, 1, a, 1, 0, Nil);
    assert Retag([g], 0, 2, b) == [g.(key := 2, value := b)];
    assert CopyChain(s) == Spot([g.(key := 2, value := b)], Leaf(r2, 2, b));
    assert DeleteCopying(t, 1) == Node(Nil, r1, 2, b, 1, 0, Nil);
  }
}
