/**
 * What insert and delete do to the in-order sequence of the tree's items (node, key, value): insert adds
 * exactly one item between the keys it belongs between, after writing the new value into the nodes with
 * that key on its way down; delete removes exactly one item, the leaf at the end of the
 * predecessor / successor chain, and leaves the node holding the key in place.
 */
module AVLOrder {
  import opened AVLSpec
  import opened AVLStructure

  /** The keys of an item sequence, in order. */
  function Keys<R, V>(s: seq<Item<R, V>>): (ks: seq<int>)
    ensures |ks| == |s| && forall i :: 0 <= i < |s| ==> ks[i] == s[i].key
  {
    seq(|s|, i requires 0 <= i < |s| => s[i].key)
  }

  /** The in-order key sequence is non-decreasing. */
  predicate Ordered<R, V>(s: seq<Item<R, V>>)
  {
    forall i, j :: 0 <= i < j < |s| ==> s[i].key <= s[j].key
  }

  /** The in-order key sequence is strictly increasing. */
  predicate StrictlyOrdered<R, V>(s: seq<Item<R, V>>)
  {
    forall i, j :: 0 <= i < j < |s| ==> s[i].key < s[j].key
  }

  predicate AllAtMost<R, V>(s: seq<Item<R, V>>, k: int)
  {
    forall i :: 0 <= i < |s| ==> s[i].key <= k
  }

  predicate AllBelow<R, V>(s: seq<Item<R, V>>, k: int)
  {
    forall i :: 0 <= i < |s| ==> s[i].key < k
  }

  predicate AllAbove<R, V>(s: seq<Item<R, V>>, k: int)
  {
    forall i :: 0 <= i < |s| ==> s[i].key > k
  }

  /** s2 is s with the values of some items whose key is k set to v. */
  ghost predicate Rewritten<R, V>(s: seq<Item<R, V>>, s2: seq<Item<R, V>>, k: int, v: V)
  {
    && |s2| == |s|
    && forall i :: 0 <= i < |s| ==>
      && s2[i].ref == s[i].ref && s2[i].key == s[i].key
      && (s2[i].value == s[i].value || (s[i].key == k && s2[i].value == v))
  }

  function ItemOf<R, V>(t: Tree<R, V>): Item<R, V>
    requires t.Node?
  {
    Item(t.ref, t.key, t.value)
  }

  /** Splitting an ordered sequence around one item. */
  lemma OrderedParts<R, V>(a: seq<Item<R, V>>, x: Item<R, V>, b: seq<Item<R, V>>)
    requires Ordered(a + [x] + b)
    ensures Ordered(a) && Ordered(b) && AllAtMost(a, x.key)
    ensures forall i :: 0 <= i < |b| ==> x.key <= b[i].key
  {
    var s := a + [x] + b;
    forall i, j | 0 <= i < j < |a|
      ensures a[i].key <= a[j].key
    {
      assert s[i] == a[i] && s[j] == a[j];
    }
    forall i, j | 0 <= i < j < |b|
      ensures b[i].key <= b[j].key
    {
      assert s[|a| + 1 + i] == b[i] && s[|a| + 1 + j] == b[j];
    }
    forall i | 0 <= i < |a|
      ensures a[i].key <= x.key
    {
      assert s[i] == a[i] && s[|a|] == x;
    }
    forall i | 0 <= i < |b|
      ensures x.key <= b[i].key
    {
      assert s[|a|] == x && s[|a| + 1 + i] == b[i];
    }
  }

  /** Putting an item between two parts whose keys lie on either side of its key. */
  lemma OrderedJoin<R, V>(a: seq<Item<R, V>>, x: Item<R, V>, b: seq<Item<R, V>>)
    requires Ordered(a + b) && AllAtMost(a, x.key) && AllAbove(b, x.key)
    ensures Ordered(a + [x] + b)
  {
    var s, s2 := a + b, a + [x] + b;
    forall i, j | 0 <= i < j < |s2|
      ensures s2[i].key <= s2[j].key
    {
      if j < |a| {
        assert s2[i] == s[i] && s2[j] == s[j];
      } else if j == |a| {
        assert s2[i] == a[i];
      } else if i < |a| {
        assert s2[i] == s[i] && s2[j] == s[j - 1];
      } else if i == |a| {
        assert s2[j] == b[j - |a| - 1];
      } else {
        assert s2[i] == s[i - 1] && s2[j] == s[j - 1];
      }
    }
  }

  lemma StrictlyOrderedJoin<R, V>(a: seq<Item<R, V>>, x: Item<R, V>, b: seq<Item<R, V>>)
    requires StrictlyOrdered(a + b) && AllBelow(a, x.key) && AllAbove(b, x.key)
    ensures StrictlyOrdered(a + [x] + b)
  {
    var s, s2 := a + b, a + [x] + b;
    forall i, j | 0 <= i < j < |s2|
      ensures s2[i].key < s2[j].key
    {
      if j < |a| {
        assert s2[i] == s[i] && s2[j] == s[j];
      } else if j == |a| {
        assert s2[i] == a[i];
      } else if i < |a| {
        assert s2[i] == s[i] && s2[j] == s[j - 1];
      } else if i == |a| {
        assert s2[j] == b[j - |a| - 1];
      } else {
        assert s2[i] == s[i - 1] && s2[j] == s[j - 1];
      }
    }
  }

  /** Removing one item keeps the order. */
  lemma OrderedCut<R, V>(a: seq<Item<R, V>>, x: Item<R, V>, b: seq<Item<R, V>>)
    requires Ordered(a + [x] + b)
    ensures Ordered(a + b)
  {
    var s, s2 := a + b, a + [x] + b;
    forall i, j | 0 <= i < j < |s|
      ensures s[i].key <= s[j].key
    {
      assert s[i] == s2[if i < |a| then i else i + 1] && s[j] == s2[if j < |a| then j else j + 1];
    }
  }

  lemma StrictlyOrderedCut<R, V>(a: seq<Item<R, V>>, x: Item<R, V>, b: seq<Item<R, V>>)
    requires StrictlyOrdered(a + [x] + b)
    ensures StrictlyOrdered(a + b)
  {
    var s, s2 := a + b, a + [x] + b;
    forall i, j | 0 <= i < j < |s|
      ensures s[i].key < s[j].key
    {
      assert s[i] == s2[if i < |a| then i else i + 1] && s[j] == s2[if j < |a| then j else j + 1];
    }
  }

  lemma RewrittenJoin<R, V>(a: seq<Item<R, V>>, a2: seq<Item<R, V>>, b: seq<Item<R, V>>, b2: seq<Item<R, V>>, k: int, v: V)
    requires Rewritten(a, a2, k, v) && Rewritten(b, b2, k, v)
    ensures Rewritten(a + b, a2 + b2, k, v)
  {
    assert forall i :: 0 <= i < |a| ==> (a + b)[i] == a[i] && (a2 + b2)[i] == a2[i];
    assert forall i :: |a| <= i < |a| + |b| ==> (a + b)[i] == b[i - |a|] && (a2 + b2)[i] == b2[i - |a|];
  }

  /** A rewritten sequence has the same keys. */
  lemma RewrittenKeys<R, V>(s: seq<Item<R, V>>, s2: seq<Item<R, V>>, k: int, v: V)
    requires Rewritten(s, s2, k, v)
    ensures Keys(s2) == Keys(s)
    ensures Ordered(s) ==> Ordered(s2)
    ensures StrictlyOrdered(s) ==> StrictlyOrdered(s2)
  {
  }

  /** The items the descent of insert leaves to the left of the empty slot it reaches. */
  function Lo<R, V>(t: Tree<R, V>, k: int, v: V): seq<Item<R, V>>
  {
    if t.Nil? then []
    else if k < t.key then Lo(t.left, k, v)
    else Items(t.left) + [Item(t.ref, t.key, if t.key == k then v else t.value)] + Lo(t.right, k, v)
  }

  /** The items the descent of insert leaves to the right of the empty slot it reaches. */
  function Hi<R, V>(t: Tree<R, V>, k: int, v: V): seq<Item<R, V>>
  {
    if t.Nil? then []
    else if k < t.key then Hi(t.left, k, v) + [ItemOf(t)] + Items(t.right)
    else Hi(t.right, k, v)
  }

  /** The descent of insert splits the tree at the slot where the new node goes. */
  lemma DescendSplit<R, V>(t: Tree<R, V>, k: int, v: V, path: Path<R, V>)
    ensures var p := Descend(t, k, v, path);
      && Before(p) == Before(path) + Lo(t, k, v) && After(p) == Hi(t, k, v) + After(path)
      && PathRefs(p) == PathRefs(path) + Refs(t)
  {
    DescendBefore(t, k, v, path);
    DescendAfter(t, k, v, path);
    DescendRefs(t, k, v, path);
  }

  lemma {:induction false} DescendBefore<R, V>(t: Tree<R, V>, k: int, v: V, path: Path<R, V>)
    ensures Before(Descend(t, k, v, path)) == Before(path) + Lo(t, k, v)
    decreases t
  {
    if t.Node? {
      var w := if t.key == k then t.(value := v) else t;
      var side := if k < t.key then Left else Right;
      var p := [FrameOf(w, side)] + path;
      assert p[1..] == path;
      DescendBefore(Child(t, side), k, v, p);
      if side == Right {
        var x := Item(t.ref, t.key, if t.key == k then v else t.value);
        assert Before(p) == Before(path) + Items(t.left) + [x];
        assert Lo(t, k, v) == Items(t.left) + [x] + Lo(t.right, k, v);
        RegroupLeft(Before(path), Items(t.left), x, Lo(t.right, k, v));
      }
    }
  }

  lemma {:induction false} DescendAfter<R, V>(t: Tree<R, V>, k: int, v: V, path: Path<R, V>)
    ensures After(Descend(t, k, v, path)) == Hi(t, k, v) + After(path)
    decreases t
  {
    if t.Node? {
      var w := if t.key == k then t.(value := v) else t;
      var side := if k < t.key then Left else Right;
      var p := [FrameOf(w, side)] + path;
      assert p[1..] == path;
      DescendAfter(Child(t, side), k, v, p);
      if side == Left {
        assert w == t;
        assert After(p) == [ItemOf(t)] + Items(t.right) + After(path);
        assert Hi(t, k, v) == Hi(t.left, k, v) + [ItemOf(t)] + Items(t.right);
        RegroupRight(Hi(t.left, k, v), ItemOf(t), Items(t.right), After(path));
      }
    }
  }

  lemma {:induction false} DescendRefs<R, V>(t: Tree<R, V>, k: int, v: V, path: Path<R, V>)
    ensures PathRefs(Descend(t, k, v, path)) == PathRefs(path) + Refs(t)
    decreases t
  {
    if t.Node? {
      var w := if t.key == k then t.(value := v) else t;
      var side := if k < t.key then Left else Right;
      var p := [FrameOf(w, side)] + path;
      assert p[1..] == path;
      DescendRefs(Child(t, side), k, v, p);
    }
  }

  /** Lo and Hi cover the whole tree, with the descent's values written in. */
  lemma {:induction false} SplitItems<R, V>(t: Tree<R, V>, k: int, v: V)
    ensures Rewritten(Items(t), Lo(t, k, v) + Hi(t, k, v), k, v)
    decreases t
  {
    if t.Node? {
      SplitItems(t.left, k, v);
      SplitItems(t.right, k, v);
      var l, r := Items(t.left), Items(t.right);
      var x := ItemOf(t);
      var x2 := Item(t.ref, t.key, if t.key == k then v else t.value);
      assert Rewritten([x], [x2], k, v);
      assert Rewritten(l, l, k, v) && Rewritten(r, r, k, v);
      if k < t.key {
        RewrittenJoin([x], [x], r, r, k, v);
        RewrittenJoin(l, Lo(t.left, k, v) + Hi(t.left, k, v), [x] + r, [x] + r, k, v);
        assert Lo(t, k, v) + Hi(t, k, v) == (Lo(t.left, k, v) + Hi(t.left, k, v)) + ([x] + r);
      } else {
        RewrittenJoin(l, l, [x], [x2], k, v);
        RewrittenJoin(l + [x], l + [x2], r, Lo(t.right, k, v) + Hi(t.right, k, v), k, v);
        assert Lo(t, k, v) + Hi(t, k, v) == (l + [x2]) + (Lo(t.right, k, v) + Hi(t.right, k, v));
      }
    }
  }

  /** In an ordered tree the slot insert reaches has the keys up to k on its left and the larger ones on its right. */
  lemma {:induction false} SplitBounds<R, V>(t: Tree<R, V>, k: int, v: V)
    requires Ordered(Items(t))
    ensures AllAtMost(Lo(t, k, v), k) && AllAbove(Hi(t, k, v), k)
    decreases t
  {
    if t.Node? {
      var l, r := Items(t.left), Items(t.right);
      var x := ItemOf(t);
      OrderedParts(l, x, r);
      SplitBounds(t.left, k, v);
      SplitBounds(t.right, k, v);
      if k < t.key {
        assert AllAbove(Hi(t.left, k, v) + [x] + r, k);
      } else {
        var x2 := Item(t.ref, t.key, if t.key == k then v else t.value);
        assert AllAtMost(l + [x2] + Lo(t.right, k, v), k);
      }
    }
  }

  /** The node a search for k stops at is on the descent of insert, which writes v into it. */
  lemma {:induction false} LocateWritten<R, V>(t: Tree<R, V>, k: int, v: V, path: Path<R, V>)
    ensures var r := Locate(t, k, path); r.Some? ==> Item(r.value.node.ref, k, v) in Lo(t, k, v)
    decreases t
  {
    if t.Node? && t.key != k {
      if k >= t.key {
        LocateWritten(t.right, k, v, [FrameOf(t, Right)] + path);
      } else {
        LocateWritten(t.left, k, v, [FrameOf(t, Left)] + path);
      }
    }
  }

  /** Rebalancing after insert keeps the items and nodes of the tree with the new leaf in its slot. */
  lemma InsertPlug<R, V>(t: Tree<R, V>, k: int, v: V, m: R)
    requires t.Node? && PositiveHeights(t)
    ensures var q := Plug(Descend(t, k, v, []), Leaf(m, k, v));
      Items(Insert(t, k, v, m)) == Items(q) && Refs(Insert(t, k, v, m)) == Refs(q)
  {
    var p := Descend(t, k, v, []);
    var f := p[0];
    assert p == [f] + p[1..];
    InsertAt(t, k, v, m, f, p[1..]);
    var x := PlugOne(f, Leaf(m, k, v));
    RebalanceUpRefs(p[1..], x);
    assert Plug(p[1..], x) == Plug(p, Leaf(m, k, v));
  }

  /** TreeAVL.insert puts the new item exactly at the slot the descent reached. */
  lemma InsertItems<R, V>(t: Tree<R, V>, k: int, v: V, m: R)
    requires PositiveHeights(t)
    ensures Items(Insert(t, k, v, m)) == Lo(t, k, v) + [Item(m, k, v)] + Hi(t, k, v)
  {
    if t.Node? {
      var p := Descend(t, k, v, []);
      var leaf := Leaf(m, k, v);
      InsertPlug(t, k, v, m);
      PlugItems(p, leaf);
      DescendSplit(t, k, v, []);
      assert Before(p) == Lo(t, k, v) && After(p) == Hi(t, k, v) by {
        assert [] + Lo(t, k, v) == Lo(t, k, v) && Hi(t, k, v) + [] == Hi(t, k, v);
      }
      assert Items(leaf) == [Item(m, k, v)];
    }
  }

  /** TreeAVL.insert adds exactly the node it allocates. */
  lemma InsertRefs<R, V>(t: Tree<R, V>, k: int, v: V, m: R)
    requires PositiveHeights(t)
    ensures Refs(Insert(t, k, v, m)) == Refs(t) + {m}
  {
    if t.Node? {
      var p := Descend(t, k, v, []);
      var leaf := Leaf(m, k, v);
      InsertPlug(t, k, v, m);
      PlugRefs(p, leaf);
      DescendSplit(t, k, v, []);
      assert PathRefs(p) == Refs(t) by {
        assert PathRefs(p) == {} + Refs(t);
      }
      assert Refs(leaf) == {m};
    }
  }

  /**
   * Insert always adds exactly one node, carrying k and v, and the node that a search for k finds now
   * holds v.  An empty tree becomes the new leaf.
   */
  lemma InsertContents<R, V>(t: Tree<R, V>, k: int, v: V, m: R)
    requires PositiveHeights(t)
    ensures t.Nil? ==> Insert(t, k, v, m) == Leaf(m, k, v)
    ensures |Items(Insert(t, k, v, m))| == |Items(t)| + 1
    ensures Refs(Insert(t, k, v, m)) == Refs(t) + {m}
    ensures Item(m, k, v) in Items(Insert(t, k, v, m))
    ensures Locate(t, k, []).Some? ==> Item(Locate(t, k, []).value.node.ref, k, v) in Items(Insert(t, k, v, m))
  {
    InsertItems(t, k, v, m);
    InsertRefs(t, k, v, m);
    SplitItems(t, k, v);
    LocateWritten(t, k, v, []);
  }

  lemma KeysAppend<R, V>(a: seq<Item<R, V>>, b: seq<Item<R, V>>)
    ensures Keys(a + b) == Keys(a) + Keys(b)
  {
  }

  /** A sequence of items with one item put in the middle has that item's key once more. */
  lemma KeysMiddle<R, V>(before: seq<Item<R, V>>, after: seq<Item<R, V>>, lo: seq<Item<R, V>>, x: Item<R, V>, hi: seq<Item<R, V>>)
    requires after == lo + [x] + hi && Keys(lo + hi) == Keys(before)
    ensures multiset(Keys(after)) == multiset(Keys(before)) + multiset{x.key}
  {
    KeysAppend(lo + [x], hi);
    KeysAppend(lo, [x]);
    KeysAppend(lo, hi);
    var a, b := Keys(lo), Keys(hi);
    assert multiset(a + [x.key] + b) == multiset(a + b) + multiset{x.key};
  }

  /** Insert adds the key k once to the keys of the tree and keeps every other key. */
  lemma InsertKeys<R, V>(t: Tree<R, V>, k: int, v: V, m: R)
    requires PositiveHeights(t)
    ensures multiset(Keys(Items(Insert(t, k, v, m)))) == multiset(Keys(Items(t))) + multiset{k}
  {
    var lo, hi := Lo(t, k, v), Hi(t, k, v);
    InsertItems(t, k, v, m);
    SplitItems(t, k, v);
    RewrittenKeys(Items(t), lo + hi, k, v);
    KeysMiddle(Items(t), Items(Insert(t, k, v, m)), lo, Item(m, k, v), hi);
  }

  /** Insert keeps the in-order keys non-decreasing. */
  lemma InsertOrdered<R, V>(t: Tree<R, V>, k: int, v: V, m: R)
    requires PositiveHeights(t) && Ordered(Items(t))
    ensures Ordered(Items(Insert(t, k, v, m)))
  {
    InsertItems(t, k, v, m);
    SplitItems(t, k, v);
    SplitBounds(t, k, v);
    RewrittenKeys(Items(t), Lo(t, k, v) + Hi(t, k, v), k, v);
    OrderedJoin(Lo(t, k, v), Item(m, k, v), Hi(t, k, v));
  }

  /** Inserting a key not yet present keeps the in-order keys strictly increasing. */
  lemma InsertStrictlyOrdered<R, V>(t: Tree<R, V>, k: int, v: V, m: R)
    requires PositiveHeights(t) && StrictlyOrdered(Items(t)) && k !in Keys(Items(t))
    ensures StrictlyOrdered(Items(Insert(t, k, v, m)))
  {
    InsertItems(t, k, v, m);
    SplitItems(t, k, v);
    LoBelow(t, k, v);
    RewrittenKeys(Items(t), Lo(t, k, v) + Hi(t, k, v), k, v);
    StrictlyOrderedJoin(Lo(t, k, v), Item(m, k, v), Hi(t, k, v));
  }

  /** In an ordered tree without the key k, the items left of k's slot all have smaller keys. */
  lemma LoBelow<R, V>(t: Tree<R, V>, k: int, v: V)
    requires StrictlyOrdered(Items(t)) && k !in Keys(Items(t))
    ensures AllBelow(Lo(t, k, v), k) && AllAbove(Hi(t, k, v), k)
  {
    var lo, hi := Lo(t, k, v), Hi(t, k, v);
    SplitItems(t, k, v);
    assert Ordered(Items(t));
    SplitBounds(t, k, v);
    RewrittenKeys(Items(t), lo + hi, k, v);
    forall i | 0 <= i < |lo|
      ensures lo[i].key < k
    {
      assert lo[i] == (lo + hi)[i] && Keys(Items(t))[i] == lo[i].key;
    }
  }

  /** Going down a recorded frame keeps the whole tree. */
  lemma {:induction false} LocatePlug<R, V>(t: Tree<R, V>, k: int, path: Path<R, V>)
    ensures var r := Locate(t, k, path); r.Some? ==> Plug(r.value.path, r.value.node) == Plug(path, t)
    decreases t
  {
    if t.Node? && t.key != k {
      var side := if k >= t.key then Right else Left;
      PlugDown(path, t, side);
      LocatePlug(Child(t, side), k, [FrameOf(t, side)] + path);
    }
  }

  /** A key occurs among the items exactly when one of them carries it. */
  lemma KeyIn<R, V>(s: seq<Item<R, V>>, k: int)
    ensures k in Keys(s) <==> exists i :: 0 <= i < |s| && s[i].key == k
  {
    if k in Keys(s) {
      var i :| 0 <= i < |s| && Keys(s)[i] == k;
      assert s[i].key == k;
    }
  }

  /** The keys of a node's items: those of the left part, its own, those of the right part. */
  lemma KeysIn3<R, V>(l: seq<Item<R, V>>, x: Item<R, V>, r: seq<Item<R, V>>, k: int)
    ensures k in Keys(l + [x] + r) <==> k in Keys(l) || k == x.key || k in Keys(r)
  {
    KeysAppend(l + [x], r);
    KeysAppend(l, [x]);
    assert Keys([x]) == [x.key];
    assert Keys(l + [x] + r) == Keys(l) + [x.key] + Keys(r);
  }

  /** No key above a bound occurs among items whose keys are at most that bound. */
  lemma AboveAbsent<R, V>(l: seq<Item<R, V>>, b: int, k: int)
    requires AllAtMost(l, b) && k > b
    ensures k !in Keys(l)
  {
    KeyIn(l, k);
  }

  /** No key below a bound occurs among items whose keys are at least that bound. */
  lemma BelowAbsent<R, V>(r: seq<Item<R, V>>, b: int, k: int)
    requires (forall i :: 0 <= i < |r| ==> b <= r[i].key) && k < b
    ensures k !in Keys(r)
  {
    KeyIn(r, k);
  }

  /** In an ordered tree the search of delete finds k exactly when k is one of the tree's keys. */
  lemma {:induction false} LocateComplete<R, V>(t: Tree<R, V>, k: int, path: Path<R, V>)
    requires Ordered(Items(t))
    ensures Locate(t, k, path).Some? <==> k in Keys(Items(t))
    decreases t
  {
    if t.Node? {
      var l, x, r := Items(t.left), ItemOf(t), Items(t.right);
      OrderedParts(l, x, r);
      KeysIn3(l, x, r, k);
      if t.key != k {
        if k >= t.key {
          AboveAbsent(l, t.key, k);
          LocateComplete(t.right, k, [FrameOf(t, Right)] + path);
        } else {
          BelowAbsent(r, t.key, k);
          LocateComplete(t.left, k, [FrameOf(t, Left)] + path);
        }
      }
    }
  }

  /**
   * In an ordered tree, delete of a key that is present removes exactly one item, and delete of a key
   * that is absent changes nothing.
   */
  lemma DeletePresent<R, V>(t: Tree<R, V>, k: int)
    requires PositiveHeights(t) && Ordered(Items(t))
    ensures k in Keys(Items(t)) ==> |Items(Delete(t, k))| == |Items(t)| - 1
    ensures k !in Keys(Items(t)) ==> Delete(t, k) == t
  {
    LocateComplete(t, k, []);
    DeleteContents(t, k);
  }

  lemma {:induction false} RightmostPlug<R, V>(t: Tree<R, V>, path: Path<R, V>)
    requires t.Node?
    ensures var r := RightmostFrom(t, path); Plug(r.path, r.node) == Plug(path, t) && Refs(r.node) <= Refs(t)
    decreases t
  {
    if t.right.Node? {
      PlugDown(path, t, Right);
      RightmostPlug(t.right, [FrameOf(t, Right)] + path);
    }
  }

  lemma {:induction false} LeftmostPlug<R, V>(t: Tree<R, V>, path: Path<R, V>)
    requires t.Node?
    ensures var r := LeftmostFrom(t, path); Plug(r.path, r.node) == Plug(path, t) && Refs(r.node) <= Refs(t)
    decreases t
  {
    if t.left.Node? {
      PlugDown(path, t, Left);
      LeftmostPlug(t.left, [FrameOf(t, Left)] + path);
    }
  }

  /**
   * The chain of the private delete keeps the whole tree, stays at a leaf, and otherwise ends at a
   * node below the one it started from.
   */
  lemma {:induction false} LeafChainPlug<R, V>(s: Spot<R, V>)
    requires s.node.Node?
    ensures var l := LeafChain(s); Plug(l.path, l.node) == Plug(s.path, s.node)
    ensures s.node.left.Nil? && s.node.right.Nil? ==> LeafChain(s) == s
    ensures s.node.left.Node? || s.node.right.Node? ==>
      LeafChain(s).node.ref in Refs(s.node.left) + Refs(s.node.right)
    decreases |Items(s.node)|
  {
    var n := s.node;
    if n.left.Node? {
      var r := RightmostFrom(n.left, [FrameOf(n, Left)] + s.path);
      RightmostPlug(n.left, [FrameOf(n, Left)] + s.path);
      PlugDown(s.path, n, Left);
      LeafChainPlug(r);
    } else if n.right.Node? {
      var r := LeftmostFrom(n.right, [FrameOf(n, Right)] + s.path);
      LeftmostPlug(n.right, [FrameOf(n, Right)] + s.path);
      PlugDown(s.path, n, Right);
      LeafChainPlug(r);
    }
  }

  /** Unlinking a leaf and rebalancing keeps the items and nodes of the rest of the tree. */
  lemma RemoveLeafPlug<R, V>(l: Spot<R, V>)
    requires PathPositive(l.path)
    ensures Items(RemoveLeaf(l)) == Items(Plug(l.path, Nil)) && Refs(RemoveLeaf(l)) == Refs(Plug(l.path, Nil))
  {
    if l.path != [] {
      var x := PlugOne(l.path[0], Nil);
      assert PathPositive(l.path[1..]) by {
        assert forall i :: 0 <= i < |l.path[1..]| ==> l.path[1..][i] == l.path[i + 1];
      }
      RebalanceUpRefs(l.path[1..], x);
      assert Plug(l.path[1..], x) == Plug(l.path, Nil);
    }
  }

  /** Delete unlinks the leaf the chain ends at and keeps the items and nodes of the rest. */
  lemma DeletePlug<R, V>(t: Tree<R, V>, k: int)
    requires PositiveHeights(t) && Locate(t, k, []).Some?
    ensures var l := LeafChain(Locate(t, k, []).value);
      && Plug(l.path, l.node) == t
      && Items(Delete(t, k)) == Items(Plug(l.path, Nil)) && Refs(Delete(t, k)) == Refs(Plug(l.path, Nil))
  {
    var s := Locate(t, k, []).value;
    LocatePlug(t, k, []);
    LeafChainPlug(s);
    RemoveLeafPlug(LeafChain(s));
  }

  /** The items of the tree before and after delete, around the leaf it removes. */
  lemma DeleteItems<R, V>(t: Tree<R, V>, k: int)
    requires PositiveHeights(t) && Locate(t, k, []).Some?
    ensures var l := LeafChain(Locate(t, k, []).value);
      && Items(t) == Before(l.path) + [ItemOf(l.node)] + After(l.path)
      && Items(Delete(t, k)) == Before(l.path) + After(l.path)
  {
    var l := LeafChain(Locate(t, k, []).value);
    DeletePlug(t, k);
    PlugItems(l.path, l.node);
    PlugItems(l.path, Nil);
    assert Items(l.node) == [ItemOf(l.node)];
  }

  /**
   * Delete of a key a search does not find changes nothing; otherwise exactly one item goes, the one of
   * the leaf at the end of the chain, and in a tree without repeated nodes exactly that node goes.
   */
  lemma DeleteContents<R, V>(t: Tree<R, V>, k: int)
    requires PositiveHeights(t)
    ensures Locate(t, k, []).None? ==> Delete(t, k) == t
    ensures Locate(t, k, []).Some? ==>
      var l := LeafChain(Locate(t, k, []).value);
      && |Items(Delete(t, k))| == |Items(t)| - 1
      && multiset(Items(Delete(t, k))) + multiset{ItemOf(l.node)} == multiset(Items(t))
  {
    if Locate(t, k, []).Some? {
      DeleteItems(t, k);
    }
  }

  /** In a tree without repeated nodes, delete removes exactly the node of the leaf the chain ends at. */
  lemma DeleteRefs<R, V>(t: Tree<R, V>, k: int)
    requires PositiveHeights(t) && Distinct(t) && Locate(t, k, []).Some?
    ensures Refs(Delete(t, k)) == Refs(t) - {LeafChain(Locate(t, k, []).value).node.ref}
  {
    var l := LeafChain(Locate(t, k, []).value);
    DeletePlug(t, k);
    PlugRefs(l.path, l.node);
    PlugRefs(l.path, Nil);
  }

  /**
   * The node a search for k finds: a childless root leaves an empty tree, a leaf is the node removed,
   * and a node with children keeps its key and value while another node goes.
   */
  lemma DeleteTarget<R, V>(t: Tree<R, V>, k: int)
    requires PositiveHeights(t) && Distinct(t) && Locate(t, k, []).Some?
    ensures var n := Locate(t, k, []).value.node;
      && (t == n && n.left.Nil? && n.right.Nil? ==> Delete(t, k) == Nil)
      && (n.left.Nil? && n.right.Nil? ==> Refs(Delete(t, k)) == Refs(t) - {n.ref})
      && (n.left.Node? || n.right.Node? ==> n.ref in Refs(Delete(t, k)) && ItemOf(n) in Items(Delete(t, k)))
  {
    var s := Locate(t, k, []).value;
    var n := s.node;
    var l := LeafChain(s);
    LocatePlug(t, k, []);
    LeafChainPlug(s);
    DeleteContents(t, k);
    DeleteRefs(t, k);
    if n.left.Node? || n.right.Node? {
      DeleteItems(t, k);
      PlugRefs(s.path, n);
      PlugItems(s.path, n);
      assert ItemOf(n) in Items(n);
      assert ItemOf(n) != ItemOf(l.node);
      assert ItemOf(n) in Before(l.path) + [ItemOf(l.node)] + After(l.path);
    }
  }

  /** Delete keeps the in-order keys non-decreasing, and strictly increasing ones strictly increasing. */
  lemma DeleteOrdered<R, V>(t: Tree<R, V>, k: int)
    requires PositiveHeights(t)
    ensures Ordered(Items(t)) ==> Ordered(Items(Delete(t, k)))
    ensures StrictlyOrdered(Items(t)) ==> StrictlyOrdered(Items(Delete(t, k)))
  {
    if Locate(t, k, []).Some? {
      var l := LeafChain(Locate(t, k, []).value);
      DeleteItems(t, k);
      if Ordered(Items(t)) {
        OrderedCut(Before(l.path), ItemOf(l.node), After(l.path));
      }
      if StrictlyOrdered(Items(t)) {
        StrictlyOrderedCut(Before(l.path), ItemOf(l.node), After(l.path));
      }
    }
  }

  /**
   * In an ordered tree the first in-order item, which getMin returns, has the smallest key, and the
   * last, which getMax returns, the largest.
   */
  lemma ExtremesOrdered<R, V>(t: Tree<R, V>)
    requires t.Node? && Ordered(Items(t))
    ensures |Items(t)| > 0
    ensures forall i :: 0 <= i < |Items(t)| ==> Items(t)[0].key <= Items(t)[i].key <= Items(t)[|Items(t)| - 1].key
  {
    var s := Items(t);
    assert s == Items(t.left) + [ItemOf(t)] + Items(t.right);
    forall i | 0 <= i < |s|
      ensures s[0].key <= s[i].key <= s[|s| - 1].key
    {
      if 0 < i {
        assert s[0].key <= s[i].key;
      }
      if i < |s| - 1 {
        assert s[i].key <= s[|s| - 1].key;
      }
    }
  }
}
