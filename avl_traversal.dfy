/**
 * The three traversals of TreeAVL.java, and the run of AVL_Driver.java: insert key i with value i + 9
 * for i = 1..20 into an empty tree, then take the in-order traversal.
 */
module AVLTraversals {
  import opened AVLSpec
  import opened AVLBalance
  import opened AVLOrder

  /** The values of an item sequence, in order. */
  function Values<R, V>(s: seq<Item<R, V>>): (vs: seq<V>)
    ensures |vs| == |s| && forall i :: 0 <= i < |s| ==> vs[i] == s[i].value
  {
    seq(|s|, i requires 0 <= i < |s| => s[i].value)
  }

  lemma ValuesAppend<R, V>(a: seq<Item<R, V>>, b: seq<Item<R, V>>)
    ensures Values(a + b) == Values(a) + Values(b)
  {
  }

  /** The in-order traversal lists the values in the order of the in-order items. */
  lemma {:induction false} InorderValues<R, V>(t: Tree<R, V>)
    ensures Inorder(t) == Values(Items(t))
    decreases t
  {
    if t.Node? {
      InorderValues(t.left);
      InorderValues(t.right);
      ValuesAppend(Items(t.left) + [Item(t.ref, t.key, t.value)], Items(t.right));
      ValuesAppend(Items(t.left), [Item(t.ref, t.key, t.value)]);
    }
  }

  /** Every traversal lists one value per node; an empty tree gives three empty lists. */
  lemma {:induction false} TraversalLengths<R, V>(t: Tree<R, V>)
    ensures |Preorder(t)| == |Items(t)| && |Inorder(t)| == |Items(t)| && |Postorder(t)| == |Items(t)|
    ensures t.Nil? ==> Preorder(t) == [] && Inorder(t) == [] && Postorder(t) == []
    decreases t
  {
    if t.Node? {
      TraversalLengths(t.left);
      TraversalLengths(t.right);
    }
  }

  /** The three traversals list the same values, each as often, in different orders. */
  lemma {:induction false} TraversalsAgree<R, V>(t: Tree<R, V>)
    ensures multiset(Preorder(t)) == multiset(Inorder(t)) && multiset(Postorder(t)) == multiset(Inorder(t))
    decreases t
  {
    if t.Node? {
      TraversalsAgree(t.left);
      TraversalsAgree(t.right);
    }
  }

  /** Starting from a tree whose keys are all below k, the item of an insert of k comes last. */
  lemma {:induction false} SplitBelow<R, V>(t: Tree<R, V>, k: int, v: V)
    requires AllBelow(Items(t), k)
    ensures Lo(t, k, v) == Items(t) && Hi(t, k, v) == []
    decreases t
  {
    if t.Node? {
      var l, x, r := Items(t.left), ItemOf(t), Items(t.right);
      assert forall i :: 0 <= i < |l| ==> (l + [x] + r)[i] == l[i];
      assert forall i :: 0 <= i < |r| ==> (l + [x] + r)[|l| + 1 + i] == r[i];
      assert (l + [x] + r)[|l|] == x;
      SplitBelow(t.left, k, v);
      SplitBelow(t.right, k, v);
    }
  }

  lemma InsertAbove<R, V>(t: Tree<R, V>, k: int, v: V, m: R)
    requires PositiveHeights(t) && AllBelow(Items(t), k)
    ensures Items(Insert(t, k, v, m)) == Items(t) + [Item(m, k, v)]
  {
    InsertItems(t, k, v, m);
    SplitBelow(t, k, v);
  }

  /** The loop of AVL_Driver: key lo + i with value lo + i + 9, in the node ms[i], for i = 0, 1, ... */
  function InsertFrom<R>(t: Tree<R, int>, lo: int, ms: seq<R>): (r: Tree<R, int>)
    requires PositiveHeights(t)
    ensures PositiveHeights(r)
    decreases |ms|
  {
    if ms == [] then t else InsertFrom(Insert(t, lo, lo + 9, ms[0]), lo + 1, ms[1..])
  }

  lemma {:induction false} InsertFromItems<R>(t: Tree<R, int>, lo: int, ms: seq<R>)
    requires PositiveHeights(t) && AllBelow(Items(t), lo)
    ensures Items(InsertFrom(t, lo, ms)) == Items(t) + seq(|ms|, i requires 0 <= i < |ms| => Item(ms[i], lo + i, lo + i + 9))
    decreases |ms|
  {
    if ms != [] {
      var t1 := Insert(t, lo, lo + 9, ms[0]);
      InsertAbove(t, lo, lo + 9, ms[0]);
      InsertFromItems(t1, lo + 1, ms[1..]);
      var rest := seq(|ms| - 1, i requires 0 <= i < |ms| - 1 => Item(ms[1..][i], lo + 1 + i, lo + 1 + i + 9));
      var all := seq(|ms|, i requires 0 <= i < |ms| => Item(ms[i], lo + i, lo + i + 9));
      assert all == [Item(ms[0], lo, lo + 9)] + rest;
      assert Items(t1) + rest == Items(t) + all;
    }
  }

  lemma {:induction false} InsertFromAvl<R>(t: Tree<R, int>, lo: int, ms: seq<R>)
    requires PositiveHeights(t) && Avl(t)
    ensures Avl(InsertFrom(t, lo, ms))
    decreases |ms|
  {
    if ms != [] {
      InsertAvl(t, lo, lo + 9, ms[0]);
      InsertFromAvl(Insert(t, lo, lo + 9, ms[0]), lo + 1, ms[1..]);
    }
  }

  /**
   * AVL_Driver inserts i with value i + 9 for i = 1..20, whatever nodes are allocated: the tree
   * stays AVL, its in-order keys are 1..20 and its in-order traversal is [10, 11, ..., 29].
   */
  lemma DriverRun<R>(ms: seq<R>)
    requires |ms| == 20
    ensures Avl(InsertFrom(Nil, 1, ms))
    ensures Keys(Items(InsertFrom(Nil, 1, ms))) == seq(20, i => i + 1)
    ensures Inorder(InsertFrom(Nil, 1, ms)) == seq(20, i => i + 10)
  {
    InsertFromItems(Nil, 1, ms);
    InsertFromAvl(Nil, 1, ms);
    InorderValues(InsertFrom(Nil, 1, ms));
  }
}
