/**
 * The node-level effect of the TreeAVL steps, stated on the map from nodes to the fields they hold.
 *
 * Each step the Java code performs on a few nodes (setBalance, rightRotate, leftRotate) has a function
 * here computing the new map from the old one, a predicate saying which fields those few nodes hold
 * after the step in terms of the old map, and a lemma saying that such a heap, where every other node
 * still has its old fields, holds the new map.  None of this mentions trees; rotation_maps.dfy shows
 * that the new maps are those of the rotated trees.
 */
module AVLLinks {
  import opened AVLSpec
  import opened AVLNodes

  type LinkMap<V> = map<NodeAVL<V>, Links<V>>

  /** TreeAVL.getHeight on the fields a map records: 0 for a missing node. */
  ghost function HeightIn<V>(M: LinkMap<V>, n: NodeAVL?<V>): int
  {
    if n != null && n in M then M[n].height else 0
  }

  /** Node n with height and balance factor recomputed from its children's recorded heights. */
  ghost function Balanced<V>(M: LinkMap<V>, n: NodeAVL<V>): Links<V>
    requires n in M
  {
    var hl, hr := HeightIn(M, M[n].left), HeightIn(M, M[n].right);
    M[n].(height := 1 + Max(hl, hr), bf := hr - hl)
  }

  /** Every node of M other than those `except` admits holds the fields M records for it. */
  ghost predicate HoldsBut<V>(M: LinkMap<V>, except: set<NodeAVL<V>>)
    reads M.Keys
  {
    forall n :: n in M && n !in except ==> Fields(n) == M[n]
  }

  /** A heap that agrees with M everywhere but at n, where it holds e, holds M updated at n. */
  lemma HoldsUpdate<V>(M: LinkMap<V>, n: NodeAVL<V>, e: Links<V>)
    requires HoldsBut(M, {n}) && Fields(n) == e
    ensures Holds(M[n := e])
  {
  }

  /** A node's present fields may be added to a held map. */
  lemma HoldsAdd<V>(M: LinkMap<V>, m: NodeAVL<V>)
    requires Holds(M)
    ensures Holds(M[m := Fields(m)])
  {
  }

  /** Forgetting a node keeps a map held. */
  lemma HoldsRemove<V>(M: LinkMap<V>, m: NodeAVL<V>)
    requires Holds(M)
    ensures Holds(M - {m})
  {
  }

  /** TreeAVL.getHeight of a held node is the height the map records. */
  lemma HeightHeld<V>(M: LinkMap<V>, x: NodeAVL?<V>)
    requires Holds(M) && (x != null ==> x in M)
    ensures HeightOf(x) == HeightIn(M, x)
  {
  }

  /** Where the recorded fields allow rightRotate(a), the nodes meet what the method asks of them. */
  lemma RightRotateReady<V>(M: LinkMap<V>, a: NodeAVL<V>)
    requires Holds(M) && CanRotateRight(M, a)
    ensures a in M && a.left != null && a.left in M && (a.left.right != null ==> a.left.right in M)
    ensures a.parent != null ==> a.parent in M
    ensures a.left != a && a.left.right != a && a.left.right != a.left
    ensures a.parent != a && a.parent != a.left && (a.parent != null ==> a.parent != a.left.right)
    ensures a.right != a && a.right != a.left && a.left.left != a && a.left.left != a.left
    ensures a.parent != null ==> a.left.left != a.parent
  {
  }

  /** The mirror of RightRotateReady. */
  lemma LeftRotateReady<V>(M: LinkMap<V>, a: NodeAVL<V>)
    requires Holds(M) && CanRotateLeft(M, a)
    ensures a in M && a.right != null && a.right in M && (a.right.left != null ==> a.right.left in M)
    ensures a.parent != null ==> a.parent in M
    ensures a.right != a && a.right.left != a && a.right.left != a.right
    ensures a.parent != a && a.parent != a.right && (a.parent != null ==> a.parent != a.right.left)
    ensures a.left != a && a.left != a.right && a.right.right != a && a.right.right != a.right
    ensures a.parent != null ==> a.right.right != a.parent
  {
  }

  /** The nodes rightRotate(a) reads are recorded and distinct where the code needs them to be. */
  ghost predicate CanRotateRight<V>(M: LinkMap<V>, a: NodeAVL<V>)
  {
    && a in M && M[a].left != null && M[a].left in M
    && var b, up, t4 := M[a].left, M[a].parent, M[a].right;
    var c, t1 := M[b].right, M[b].left;
    && (c != null ==> c in M) && (up != null ==> up in M)
    && (t1 != null ==> t1 in M) && (t4 != null ==> t4 in M)
    && b != a && c != a && c != b && up != a && up != b && (up != null ==> up != c)
    && t1 != a && t1 != b && t4 != a && t4 != b
    && (t1 != null ==> t1 != c && t1 != up && t1 != t4) && (t4 != null ==> t4 != c && t4 != up)
  }

  /**
   * The fields after rightRotate(a): b = a.left takes a's place under a's parent, a becomes b's right
   * child, b's former right subtree c becomes a's left, and a then b get fresh height and balance factor.
   */
  ghost function RotatedRight<V>(M: LinkMap<V>, a: NodeAVL<V>): LinkMap<V>
    requires CanRotateRight(M, a)
  {
    var b, up, t4 := M[a].left, M[a].parent, M[a].right;
    var c, t1 := M[b].right, M[b].left;
    var ha := 1 + Max(HeightIn(M, c), HeightIn(M, t4));
    map n | n in M ::
      if n == a then M[a].(left := c, parent := b, height := ha, bf := HeightIn(M, t4) - HeightIn(M, c))
      else if n == b then M[b].(right := a, parent := up, height := 1 + Max(HeightIn(M, t1), ha), bf := ha - HeightIn(M, t1))
      else if n == c then M[n].(parent := a)
      else if n == up then (if M[n].right == a then M[n].(right := b) else M[n].(left := b))
      else M[n]
  }

  /**
   * The heap gives a, b = a.left, c = b.right and a's parent the fields rightRotate(a) leaves on them,
   * the fields before being those M records.
   */
  ghost predicate RightRotatedFrom<V>(M: LinkMap<V>, a: NodeAVL<V>)
    requires CanRotateRight(M, a)
    reads M.Keys
  {
    var b, up, t4 := M[a].left, M[a].parent, M[a].right;
    var c, t1 := M[b].right, M[b].left;
    && a.left == c && a.parent == b && a.right == t4 && a.key == M[a].key && a.value == M[a].value
    && b.right == a && b.parent == up && b.left == t1 && b.key == M[b].key && b.value == M[b].value
    && a.height == 1 + Max(HeightOf(c), HeightOf(t4)) && a.balanceFactor == HeightOf(t4) - HeightOf(c)
    && b.height == 1 + Max(HeightOf(t1), a.height) && b.balanceFactor == a.height - HeightOf(t1)
    && (c != null ==> Fields(c) == M[c].(parent := a))
    && (up != null ==> Fields(up) == if M[up].right == a then M[up].(right := b) else M[up].(left := b))
  }

  lemma RotatedRightHolds<V>(M: LinkMap<V>, a: NodeAVL<V>)
    requires CanRotateRight(M, a) && RightRotatedFrom(M, a)
    requires forall n :: n in M && n != a && n != M[a].left && n != M[M[a].left].right && n != M[a].parent ==>
      Fields(n) == M[n]
    ensures Holds(RotatedRight(M, a))
  {
  }

  /** The nodes leftRotate(a) reads are recorded and distinct where the code needs them to be. */
  ghost predicate CanRotateLeft<V>(M: LinkMap<V>, a: NodeAVL<V>)
  {
    && a in M && M[a].right != null && M[a].right in M
    && var b, up, t1 := M[a].right, M[a].parent, M[a].left;
    var c, t4 := M[b].left, M[b].right;
    && (c != null ==> c in M) && (up != null ==> up in M)
    && (t1 != null ==> t1 in M) && (t4 != null ==> t4 in M)
    && b != a && c != a && c != b && up != a && up != b && (up != null ==> up != c)
    && t1 != a && t1 != b && t4 != a && t4 != b
    && (t4 != null ==> t4 != c && t4 != up && t4 != t1) && (t1 != null ==> t1 != c && t1 != up)
  }

  /**
   * The fields after leftRotate(a): b = a.right takes a's place under a's parent, a becomes b's left
   * child, b's former left subtree c becomes a's right, and a then b get fresh height and balance factor.
   */
  ghost function RotatedLeft<V>(M: LinkMap<V>, a: NodeAVL<V>): LinkMap<V>
    requires CanRotateLeft(M, a)
  {
    var b, up, t1 := M[a].right, M[a].parent, M[a].left;
    var c, t4 := M[b].left, M[b].right;
    var ha := 1 + Max(HeightIn(M, t1), HeightIn(M, c));
    map n | n in M ::
      if n == a then M[a].(right := c, parent := b, height := ha, bf := HeightIn(M, c) - HeightIn(M, t1))
      else if n == b then M[b].(left := a, parent := up, height := 1 + Max(ha, HeightIn(M, t4)), bf := HeightIn(M, t4) - ha)
      else if n == c then M[n].(parent := a)
      else if n == up then (if M[n].right == a then M[n].(right := b) else M[n].(left := b))
      else M[n]
  }

  /**
   * The heap gives a, b = a.right, c = b.left and a's parent the fields leftRotate(a) leaves on them,
   * the fields before being those M records.
   */
  ghost predicate LeftRotatedFrom<V>(M: LinkMap<V>, a: NodeAVL<V>)
    requires CanRotateLeft(M, a)
    reads M.Keys
  {
    var b, up, t1 := M[a].right, M[a].parent, M[a].left;
    var c, t4 := M[b].left, M[b].right;
    && a.right == c && a.parent == b && a.left == t1 && a.key == M[a].key && a.value == M[a].value
    && b.left == a && b.parent == up && b.right == t4 && b.key == M[b].key && b.value == M[b].value
    && a.height == 1 + Max(HeightOf(t1), HeightOf(c)) && a.balanceFactor == HeightOf(c) - HeightOf(t1)
    && b.height == 1 + Max(a.height, HeightOf(t4)) && b.balanceFactor == HeightOf(t4) - a.height
    && (c != null ==> Fields(c) == M[c].(parent := a))
    && (up != null ==> Fields(up) == if M[up].right == a then M[up].(right := b) else M[up].(left := b))
  }

  lemma RotatedLeftHolds<V>(M: LinkMap<V>, a: NodeAVL<V>)
    requires CanRotateLeft(M, a) && LeftRotatedFrom(M, a)
    requires forall n :: n in M && n != a && n != M[a].right && n != M[M[a].right].left && n != M[a].parent ==>
      Fields(n) == M[n]
    ensures Holds(RotatedLeft(M, a))
  {
  }
  /**
   * What rightRotate(a) leaves on the heap, against the heap before it: b = a.left takes a's place
   * under a's parent, a becomes b's right child with b's former right subtree c on its left, a then b
   * get height and balance factor from their new children, and nothing else changes.
   */
  twostate predicate RightRotated<V>(a: NodeAVL<V>)
    reads *
  {
    && old(a.left) != null
    && var b, c, up := old(a.left), old(a.left.right), old(a.parent);
    && a.left == c && a.parent == b && a.right == old(a.right) && a.key == old(a.key) && a.value == old(a.value)
    && b.right == a && b.parent == up && b.left == old(b.left) && b.key == old(b.key) && b.value == old(b.value)
    && a.height == 1 + Max(HeightOf(a.left), HeightOf(a.right)) && a.balanceFactor == HeightOf(a.right) - HeightOf(a.left)
    && b.height == 1 + Max(HeightOf(b.left), a.height) && b.balanceFactor == a.height - HeightOf(b.left)
    && (c != null ==> c.parent == a && c.left == old(c.left) && c.right == old(c.right) && c.key == old(c.key)
                      && c.value == old(c.value) && c.height == old(c.height) && c.balanceFactor == old(c.balanceFactor))
    && (up != null ==>
          && (if old(up.right) == a then up.right == b && up.left == old(up.left) else up.left == b && up.right == old(up.right))
          && up.parent == old(up.parent) && up.key == old(up.key) && up.value == old(up.value)
          && up.height == old(up.height) && up.balanceFactor == old(up.balanceFactor))
  }

  twostate predicate LeftRotated<V>(a: NodeAVL<V>)
    reads *
  {
    && old(a.right) != null
    && var b, c, up := old(a.right), old(a.right.left), old(a.parent);
    && a.right == c && a.parent == b && a.left == old(a.left) && a.key == old(a.key) && a.value == old(a.value)
    && b.left == a && b.parent == up && b.right == old(b.right) && b.key == old(b.key) && b.value == old(b.value)
    && a.height == 1 + Max(HeightOf(a.left), HeightOf(a.right)) && a.balanceFactor == HeightOf(a.right) - HeightOf(a.left)
    && b.height == 1 + Max(a.height, HeightOf(b.right)) && b.balanceFactor == HeightOf(b.right) - a.height
    && (c != null ==> c.parent == a && c.left == old(c.left) && c.right == old(c.right) && c.key == old(c.key)
                      && c.value == old(c.value) && c.height == old(c.height) && c.balanceFactor == old(c.balanceFactor))
    && (up != null ==>
          && (if old(up.right) == a then up.right == b && up.left == old(up.left) else up.left == b && up.right == old(up.right))
          && up.parent == old(up.parent) && up.key == old(up.key) && up.value == old(up.value)
          && up.height == old(up.height) && up.balanceFactor == old(up.balanceFactor))
  }

  /** A heap that held M before a step that changed no node holds M after it. */
  twostate lemma HeldStill<V>(M: LinkMap<V>)
    requires old(Holds(M))
    requires forall n: NodeAVL<V> :: old(allocated(n)) ==> Fields(n) == old(Fields(n))
    ensures Holds(M)
  {
    forall n | n in M
      ensures Fields(n) == M[n]
    {
      assert old(allocated(n));
    }
  }

  /** A heap that held M before a step that changed only node n holds M with n's present fields. */
  twostate lemma HeldUpdate<V>(x: (LinkMap<V>, NodeAVL<V>))
    requires old(Holds(x.0))
    requires forall n: NodeAVL<V> :: old(allocated(n)) && n != x.1 ==> Fields(n) == old(Fields(n))
    ensures Holds(x.0[x.1 := Fields(x.1)])
  {
    var (M, a) := x;
    forall n | n in M && n != a
      ensures Fields(n) == M[n]
    {
      assert old(allocated(n));
    }
  }

  /** A heap that held M before rightRotate(a) holds M rotated after it. */
  twostate lemma RotatedRightStep<V>(x: (LinkMap<V>, NodeAVL<V>))
    requires old(Holds(x.0)) && CanRotateRight(x.0, x.1) && RightRotated(x.1)
    requires forall n: NodeAVL<V> :: old(allocated(n)) && n != x.1 && n != old(x.1.left) && n != old(x.1.left.right) && n != old(x.1.parent) ==> Fields(n) == old(Fields(n))
    ensures Holds(RotatedRight(x.0, x.1))
  {
    var (M, a) := x;
    forall n | n in M && n != a && n != M[a].left && n != M[M[a].left].right && n != M[a].parent
      ensures Fields(n) == M[n]
    {
      assert old(allocated(n));
    }
    RotatedRightHolds(M, a);
  }

  /** A heap that held M before leftRotate(a) holds M rotated after it. */
  twostate lemma RotatedLeftStep<V>(x: (LinkMap<V>, NodeAVL<V>))
    requires old(Holds(x.0)) && CanRotateLeft(x.0, x.1) && LeftRotated(x.1)
    requires forall n: NodeAVL<V> :: old(allocated(n)) && n != x.1 && n != old(x.1.right) && n != old(x.1.right.left) && n != old(x.1.parent) ==> Fields(n) == old(Fields(n))
    ensures Holds(RotatedLeft(x.0, x.1))
  {
    var (M, a) := x;
    forall n | n in M && n != a && n != M[a].right && n != M[M[a].right].left && n != M[a].parent
      ensures Fields(n) == M[n]
    {
      assert old(allocated(n));
    }
    RotatedLeftHolds(M, a);
  }
}
