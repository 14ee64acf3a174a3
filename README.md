# AVL tree: a verified Dafny model

This project models the AVL tree of `TreeAVL.java` and its node class `NodeAVL.java`. It is an
ordered key/value store built from mutable nodes. Each node holds a key, a value, left/right/parent
links, a cached `height` and a cached `balanceFactor`. The tree supports insert, delete (by key),
min/max and three traversals. Rebalancing runs after every structural change and walks upward
through the parent links, applying one of four rotations where a balance factor reaches ±2.

The model has three layers.

- **Functional specification** (`avl_spec.dfy`, module `AVLSpec`).
  - A `Tree` datatype stores every node's cached height and balance factor together with the
    node's identity, a generic reference `R`.
  - Every step of the Java code is a function on such trees: `SetBalance`, the four rotations,
    `Fix` (one `reBalance` step), `RebalanceUp` (the walk up), `Descend` (the insert walk),
    `Locate` (the delete search), `RightmostFrom`/`LeftmostFrom`/`LeafChain` (the private delete's
    predecessor/successor chain) and `RemoveLeaf`.
  - A `Path` of `Frame`s stands in for the parent links: `Plug(path, t)` rebuilds the whole tree
    around a subtree.
- **Heap layer** (`node_avl.dfy`, `link_maps.dfy`, `rotation_maps.dfy`, `tree_avl.dfy`,
  `value_list.dfy`).
  - `NodeAVL` and `TreeAVL` are classes with the Java fields. Their methods update nodes in place,
    with field-granular `modifies` clauses.
  - `TreeAVL` has a ghost field `tree`. `Valid()` says the nodes reachable from `root` realise
    it: `Shape(tree, null)` maps every node to exactly the fields the heap holds, no node occurs
    twice, and parent links point back.
  - `Insert` and `Delete` are the Java loops. They are proved to leave the heap realising exactly
    `AVLSpec.Insert(old(tree), …)` and `AVLSpec.Delete(old(tree), k)`.
  - The traversals are proved to fill a `ValueList` (the `ArrayList`) with `Preorder`, `Inorder`
    or `Postorder` of the tree.
- **Properties of the specification** (`avl_structure.dfy`, `avl_balance.dfy`, `avl_order.dfy`,
  `avl_traversal.dfy`, `delete_fix.dfy`):
  - rotations and rebalancing keep the in-order items and the set of nodes;
  - insert and delete keep the AVL invariant (height equation and balance factor in {-1, 0, 1});
  - insert adds exactly one node and keeps the in-order keys ordered;
  - delete removes exactly one node, the leaf at the end of the chain;
  - the three traversals list every value, the in-order one in key order;
  - the driver's twenty inserts give the in-order list [10, …, 29].

Keys are `int` (Java's `Comparable` keys are fixed to integers). Values are a type parameter `V`.

The model follows the code where it departs from the textbook AVL algorithm:

- Insert of a key already present sets the value of every node on the walk that holds that key.
  The walk then goes on to the right (`k < key` is false on equality) and hangs a *second* node
  with that key. Keys are therefore not unique. Ordering is stated as "in-order keys are
  non-decreasing", and as strictly increasing only when the inserted key is new.
- Delete of a node with children copies nothing into it, because the result of `hasSameKey` is
  discarded. The node keeps its key and value, and the leaf at the end of the
  predecessor/successor chain is what gets removed. This is reported under "Findings".

## Model

| member | source | states |
|---|---|---|
| AVLNodes.NodeAVL.constructor | NodeAVL.java:16-19 | the two-argument constructor stores key and value, leaves all three links null and height and balance factor 0 |
| AVLNodes.NodeAVL.WithParent | NodeAVL.java:21-26 | the three-argument constructor stores key, value and parent, leaves both child links null, height 1 and balance factor 0 |
| AVLNodes.NodeAVL.SetValue | NodeAVL.java:29-31 | the value becomes v and no other field of any object changes |
| AVLNodes.NodeAVL.HasSameKey | NodeAVL.java:37-39 | true exactly when the stored key equals k |
| AVLNodes.NodeAVL.SetHeight | NodeAVL.java:46-48 | the height becomes h and nothing else changes |
| AVLNodes.NodeAVL.SetBalanceFactor | NodeAVL.java:54-56 | the balance factor becomes b and nothing else changes |
| AVLNodes.NodeAVL.SetParentNode | NodeAVL.java:67-69 | the parent link becomes p and nothing else changes |
| AVLNodes.NodeAVL.HasLeftNode | NodeAVL.java:72-74 | true exactly when the left link is not null |
| AVLNodes.NodeAVL.ChangeLeftNode | NodeAVL.java:76-78 | the left link becomes n and nothing else changes |
| AVLNodes.NodeAVL.HasRightNode | NodeAVL.java:85-87 | true exactly when the right link is not null |
| AVLNodes.NodeAVL.ChangeRightNode | NodeAVL.java:93-95 | the right link becomes n and nothing else changes |
| AVLNodes.NodeAVL.GetMin | NodeAVL.java:98-106 | for a node whose reachable nodes realise the tree t, returns the value of the first in-order item of t (the leftmost descendant) |
| AVLNodes.NodeAVL.GetMax | NodeAVL.java:109-117 | returns the value of the last in-order item (the rightmost descendant) |
| AVLNodes.NodeAVL.CompareTo | NodeAVL.java:119-122 | negative, zero or positive exactly when this key is smaller than, equal to or larger than the other's |
| AVLTrees.TreeAVL.constructor | TreeAVL.java:9-11 | a new tree is valid and empty (root null) |
| AVLTrees.TreeAVL.ReHeight | TreeAVL.java:30-35 | a non-null node's height becomes one more than the larger child height (0 for a missing child); only that field changes |
| AVLTrees.TreeAVL.SetBalance | TreeAVL.java:38-41 | the height as above and the balance factor becomes right height minus left height; only those two fields change |
| AVLTrees.TreeAVL.RightRotate | TreeAVL.java:172-198 | returns a's former left child b; afterwards b's right child is a, a's left child is b's former right subtree, whose parent is now a; b has a's former parent, which now points to b on the side that held a; a and then b have recomputed height and balance; keys, values and all other nodes are unchanged |
| AVLTrees.TreeAVL.LeftRotate | TreeAVL.java:211-237 | the mirror image of RightRotate |
| AVLTrees.TreeAVL.RightRotateIn | TreeAVL.java:172-198 | on a node graph described by a link map, rightRotate produces exactly the map RotatedRight describes |
| AVLTrees.TreeAVL.LeftRotateIn | TreeAVL.java:211-237 | the same for leftRotate and RotatedLeft |
| AVLTrees.TreeAVL.LeftRightRotate | TreeAVL.java:250-253 | returns the left child's former right child; the graph is the left rotation of the left child followed by the right rotation of the node |
| AVLTrees.TreeAVL.RightLeftRotate | TreeAVL.java:266-269 | returns the right child's former left child; the graph is the right rotation of the right child followed by the left rotation of the node |
| AVLTrees.TreeAVL.LeftHeavy | TreeAVL.java:128-135 | at balance -2, the single or double rotation chosen by the left child's subtree heights leaves the graph realising Fix(t) and returns its root |
| AVLTrees.TreeAVL.RightHeavy | TreeAVL.java:137-144 | the mirror case at balance +2 |
| AVLTrees.TreeAVL.FixNode | TreeAVL.java:126-144 | setBalance and the rotation reBalance chooses leave the graph realising Fix(t) in place of t, with the new subtree root's parent the old parent |
| AVLTrees.TreeAVL.ReBalance | TreeAVL.java:125-153 | rebalancing from a node up to the root leaves the graph realising RebalanceUp(path, t), with `root` its top node |
| AVLTrees.TreeAVL.Overwrite | TreeAVL.java:53-55 | a node holding key k gets value v, any other node is left as it is, and the graph realises the updated tree |
| AVLTrees.TreeAVL.AttachLeaf | TreeAVL.java:61-70 | a fresh node holding (k, v) with its parent set is hung in the empty slot, then rebalancing runs from the parent |
| AVLTrees.TreeAVL.Insert | TreeAVL.java:44-73 | the tree stays valid and becomes AVLSpec.Insert(old tree, k, v, m) for the freshly allocated node m |
| AVLTrees.TreeAVL.DetachLeaf | TreeAVL.java:80-89 | a leaf with a parent is unlinked from the side holding it and rebalancing runs from the parent |
| AVLTrees.TreeAVL.DeleteNode | TreeAVL.java:75-107 | the private delete leaves the tree RemoveLeaf(LeafChain(spot)): a root leaf empties the tree, any other node hands the deletion down the predecessor/successor chain to a leaf |
| AVLTrees.TreeAVL.Delete | TreeAVL.java:109-123 | the tree stays valid and becomes AVLSpec.Delete(old tree, k) |
| AVLTrees.TreeAVL.GetMin | TreeAVL.java:21-23 | for a non-empty tree, returns the value of the first in-order item |
| AVLTrees.TreeAVL.GetMax | TreeAVL.java:25-27 | for a non-empty tree, returns the value of the last in-order item |
| AVLTrees.TreeAVL.PreorderTraversal | TreeAVL.java:271-276 | returns a fresh list holding exactly the preorder values of the tree |
| AVLTrees.TreeAVL.PreorderIterator | TreeAVL.java:278-287 | appends the root-left-right values of the subtree to the list |
| AVLTrees.TreeAVL.InorderTraversal | TreeAVL.java:289-294 | returns a fresh list holding exactly the in-order values of the tree |
| AVLTrees.TreeAVL.InorderIterator | TreeAVL.java:296-305 | appends the left-root-right values of the subtree to the list |
| AVLTrees.TreeAVL.PostorderTraversal | TreeAVL.java:307-312 | returns a fresh list holding exactly the postorder values of the tree |
| AVLTrees.TreeAVL.PostorderIterator | TreeAVL.java:314-323 | appends the left-right-root values of the subtree to the list |
| AVLLists.ValueList.Add | TreeAVL.java:281 | ArrayList.add appends one value at the end |
| AVLSpec.Locate | TreeAVL.java:113-121 | the node the search loop stops at holds the key k |
| AVLSpec.RightmostFrom | TreeAVL.java:94-96 | the walk ends at a node without a right child, inside the subtree it started from |
| AVLSpec.LeftmostFrom | TreeAVL.java:101-103 | the walk ends at a node without a left child, inside the subtree it started from |
| AVLSpec.LeafChain | TreeAVL.java:93-106 | the recursion of the private delete always ends at a leaf |
| AVLSpec.RotateRight | TreeAVL.java:172-198 | rightRotate always yields a node, and keeps every cached height positive when the node's children had positive heights |
| AVLSpec.RotateLeft | TreeAVL.java:211-237 | leftRotate always yields a node, and keeps every cached height positive |
| AVLSpec.RotateLeftRight | TreeAVL.java:250-253 | the left-right double rotation always yields a node, and keeps every cached height positive |
| AVLSpec.RotateRightLeft | TreeAVL.java:266-269 | the right-left double rotation always yields a node, and keeps every cached height positive |
| AVLSpec.Fix | TreeAVL.java:125-144 | one reBalance step (setBalance, then the rotation a balance of -2 or 2 calls for) yields a node with positive cached heights |
| AVLSpec.RebalanceUp | TreeAVL.java:125-153 | reBalance carried up to the root always yields a non-empty tree with positive cached heights |
| AVLSpec.Descend | TreeAVL.java:50-60 | the walk of insert adds one frame per node it visits, at least one for a non-empty tree, and every frame keeps positive heights |
| AVLSpec.Insert | TreeAVL.java:44-73 | insert always yields a non-empty tree with positive cached heights |
| AVLSpec.RemoveLeaf | TreeAVL.java:76-91 | unlinking a leaf empties the tree exactly when the leaf is the root; the result has positive cached heights |
| AVLSpec.Delete | TreeAVL.java:109-123 | delete keeps every cached height positive |
| AVLStructure.SetBalanceRefs | TreeAVL.java:30-41 | setBalance changes no item, no node and no key or value |
| AVLBalance.SetBalanceAvl | TreeAVL.java:30-41 | setBalance makes the height one more than the taller child's and the balance factor right minus left; over AVL children the node is then AVL exactly when the children differ in height by at most one |
| AVLStructure.RotateRightShape | TreeAVL.java:172-198 | after rightRotate the left child b is on top with its left subtree, and the old node a is b's right child, holding b's old right subtree and a's right subtree |
| AVLStructure.RotateLeftShape | TreeAVL.java:211-237 | after leftRotate the right child b is on top with its right subtree, and the old node a is b's left child, holding a's left subtree and b's old left subtree |
| AVLNodes.HeightRealised | TreeAVL.java:14-19 | getHeight gives 0 for null and the recorded height for the root of a subtree the heap holds |
| AVLTrees.TreeAVL.BalanceRealised | TreeAVL.java:156-158 | getBalance gives the balance factor recorded for the root of a subtree the heap holds |
| AVLStructure.RotateRightItems | TreeAVL.java:172-198 | a right rotation keeps the in-order sequence of (node, key, value) items |
| AVLStructure.RotateLeftItems | TreeAVL.java:211-237 | a left rotation keeps the in-order items |
| AVLStructure.RotateRightRefs | TreeAVL.java:172-198 | a right rotation keeps the items and the set of nodes, and creates no repeated node |
| AVLStructure.RotateLeftRefs | TreeAVL.java:211-237 | a left rotation keeps the items and the set of nodes, and creates no repeated node |
| AVLStructure.FixRefs | TreeAVL.java:126-144 | one rebalancing step keeps the in-order items and the set of nodes |
| AVLStructure.RebalanceUpRefs | TreeAVL.java:125-153 | rebalancing up to the root keeps the in-order items and the set of nodes of the whole tree |
| AVLBalance.AvlHeights | TreeAVL.java:14-19 | in an AVL tree every cached height is positive and equals the structural height |
| AVLBalance.RotateRightAvl | TreeAVL.java:172-198 | a left-left imbalance of 2 is repaired by a right rotation into an AVL subtree at most one taller than the child |
| AVLBalance.RotateLeftAvl | TreeAVL.java:211-237 | a right-right imbalance of 2 is repaired by a left rotation |
| AVLBalance.RotateLeftRightAvl | TreeAVL.java:250-253 | a left-right imbalance is repaired by the double rotation, giving the height of the left child |
| AVLBalance.RotateRightLeftAvl | TreeAVL.java:266-269 | a right-left imbalance is repaired by the double rotation |
| AVLBalance.FixAvl | TreeAVL.java:125-144 | with AVL children whose heights differ by at most 2, one reBalance step gives an AVL subtree whose height is within one of the taller child; with difference at most 1 it only recomputes height and balance |
| AVLBalance.RebalanceUpAvl | TreeAVL.java:146-152 | if the subtree being fixed stays within one of the height its position had, rebalancing up to the root gives an AVL tree |
| AVLBalance.InsertAvl | TreeAVL.java:44-73 | insert keeps the tree AVL |
| AVLBalance.LeafChainAvl | TreeAVL.java:93-106 | the predecessor/successor chain of an AVL tree ends at a leaf with the recorded heights still describing an AVL tree |
| AVLBalance.RemoveLeafAvl | TreeAVL.java:76-89 | unlinking a leaf and rebalancing from its parent gives an AVL tree |
| AVLBalance.DeleteAvl | TreeAVL.java:109-123 | delete keeps the tree AVL |
| AVLOrder.InsertItems | TreeAVL.java:44-73 | the in-order items after insert are those left of the slot reached, the new item (m, k, v), then those right of it, with the values of nodes holding k along the walk set to v |
| AVLOrder.InsertRefs | TreeAVL.java:61-70 | insert adds exactly the node m to the set of nodes |
| AVLOrder.InsertContents | TreeAVL.java:44-73 | insert into an empty tree gives the single leaf (m, k, v); otherwise there is one more item, the new item is among them, and the node a search for k finds holds v |
| AVLOrder.InsertKeys | TreeAVL.java:44-73 | the multiset of keys grows by exactly one k |
| AVLOrder.InsertOrdered | TreeAVL.java:52-72 | insert keeps the in-order keys non-decreasing |
| AVLOrder.InsertStrictlyOrdered | TreeAVL.java:52-72 | insert of a key not yet present keeps the in-order keys strictly increasing |
| AVLOrder.LocateComplete | TreeAVL.java:113-121 | in an ordered tree the search loop of delete finds a node exactly when k is one of the tree's keys |
| AVLOrder.DeletePresent | TreeAVL.java:109-123 | in an ordered tree, delete of a key that is present removes exactly one item, and delete of a key that is absent changes nothing |
| AVLOrder.DeleteContents | TreeAVL.java:109-123 | delete of a key the search does not find changes nothing; otherwise exactly one item goes, that of the leaf at the end of the chain |
| AVLOrder.DeleteRefs | TreeAVL.java:75-107 | in a tree without repeated nodes, delete removes exactly the node of that leaf |
| AVLOrder.DeleteTarget | TreeAVL.java:76-106 | deleting a childless root empties the tree; deleting a leaf removes that node; deleting a node with children keeps that node with its key and value |
| AVLOrder.DeleteOrdered | TreeAVL.java:75-123 | delete keeps the in-order keys non-decreasing, and strictly increasing if they were |
| AVLOrder.ExtremesOrdered | NodeAVL.java:98-117 | in an ordered tree the first in-order item (getMin's) has the smallest key and the last (getMax's) the largest |
| AVLTraversals.InorderValues | TreeAVL.java:296-305 | the in-order traversal lists the values of the in-order items, so in key order |
| AVLTraversals.TraversalLengths | TreeAVL.java:271-323 | each traversal has one value per node, and all three are empty for an empty tree |
| AVLTraversals.TraversalsAgree | TreeAVL.java:271-323 | the three traversals hold the same values, each as often |
| AVLTraversals.InsertAbove | TreeAVL.java:44-73 | inserting a key larger than all present appends its item at the end of the in-order items |
| AVLTraversals.InsertFromItems | AVL_Driver.java:22-24 | the driver's loop of inserts of increasing keys lists the inserted items in order |
| AVLTraversals.InsertFromAvl | AVL_Driver.java:22-24 | the driver's loop keeps the tree AVL |
| AVLTraversals.DriverRun | AVL_Driver.java:22-46 | after inserting i with value i + 9 for i = 1..20, the tree is AVL, its in-order keys are 1..20 and the in-order traversal is [10, …, 29] |
| AVLDeleteFix.InnerDeleteKeepsKey | TreeAVL.java:93-99 | after inserting 2 and then 1, the code's delete(2) leaves the keys [2], so key 2 stays and key 1 is gone |
| AVLDeleteFix.InnerDeleteKeepsKeyRight | TreeAVL.java:100-106 | after inserting 1 and then 2, the code's delete(1) leaves the keys [1], so key 1 stays and key 2 is gone |
| AVLDeleteFix.DeleteCopyingKeys | TreeAVL.java:93-106 | the corrected delete removes one occurrence of a key the search finds and keeps every other key; a key not found changes nothing |
| AVLDeleteFix.DeleteCopyingAvl | TreeAVL.java:93-106 | the corrected delete keeps the tree AVL |
| AVLDeleteFix.DeleteCopying | TreeAVL.java:93-106 | the corrected delete keeps every cached height positive |
| AVLDeleteFix.CopyStepPlug | TreeAVL.java:93-106 | one copying step leaves the whole tree as it was, except that the current node takes the key and value of its in-order predecessor (or successor) |
| AVLDeleteFix.DeleteCopyingRemoves | TreeAVL.java:93-123 | in an ordered tree, the corrected delete of a present key removes exactly one k from the multiset of keys; an absent key changes nothing |
| AVLDeleteFix.DeleteCopyingOrdered | TreeAVL.java:93-106 | the corrected delete keeps the in-order keys non-decreasing |

## Left out

- Printing (`printTree`, `printNode`, `printWhitespaces`, `maxLevel`, `isAllElementsNull`,
  `printNodeValue`, `printBalance`, `printTree2`) is console and stream I/O. It is not modelled.
- `AVL_Driver.java` is not modelled beyond its insert loop and its in-order traversal. File
  streams and console output are left out.
- `hasSameKey` compares boxed keys by reference in Java (`this.key == k`). That agrees with value
  equality only for small cached integers. The model uses value equality on `int` keys.
- Generic `Comparable` keys are fixed to `int`. `compareTo` is integer comparison.
- AVLTrees.TreeAVL.GetMin, AVLTrees.TreeAVL.GetMax: the null dereference on an empty tree is replaced by the precondition `root != null`.
- The plain getters (`getKey`, `getValue`, `getHeight`, `getBalanceFactor`, `getParentNode`,
  `getLeftNode`, `getRightNode`) are reads of the class fields. `TreeAVL.getHeight` and
  `TreeAVL.getBalance` are the functions `HeightOf` and `GetBalance`. Their meaning is stated by
  `HeightRealised` and `BalanceRealised`, by the contracts of `ReHeight`, `SetBalance` and `FixNode`
  that use them, and by `AvlHeights`.
- The AVL invariant is not part of `TreeAVL.Valid()`. The class's contracts tie the heap to the
  functional tree exactly. That an insert or delete keeps the invariant is stated on that tree by
  `InsertAvl` and `DeleteAvl`.
- Integer overflow of the `int` height fields is not modelled. Heights are bounded by the number
  of nodes.
- `ValueList` stands for `java.util.ArrayList` and models only `add`.

## Findings

| source | as written | input that shows it | evidently intended | confidence | as-written member | corrected member |
|---|---|---|---|---|---|---|
| TreeAVL.java:97 | for a node with a left child, `n.hasSameKey(child.getKey())` discards its result, then `delete(child)` removes the predecessor; nothing moves into n | insert(2, b), insert(1, a), delete(2): key 2 stays, key 1 and its value are gone | copy the predecessor's key and value into n before deleting the predecessor, so that exactly the key 2 leaves the tree | not executed | AVLDeleteFix.InnerDeleteKeepsKey | AVLDeleteFix.DeleteCopyingKeys |
| TreeAVL.java:104 | the same for a node with only a right child and its successor | insert(1, a), insert(2, b), delete(1): key 1 stays, key 2 is gone | copy the successor's key and value into n before deleting the successor | not executed | AVLDeleteFix.InnerDeleteKeepsKeyRight | AVLDeleteFix.DeleteCopyingKeys |

The class method `AVLTrees.TreeAVL.Delete` models the code as written. `AVLDeleteFix.DeleteCopying`
is the corrected deletion on the functional tree. Its chain (`CopyChain`) gives each node the key
and value of the next chain node before descending. Its key multiset loses exactly one `k`
(`DeleteCopyingKeys`; in an ordered tree exactly when `k` is present, `DeleteCopyingRemoves`). It keeps
the AVL invariant (`DeleteCopyingAvl`) and the order of the keys (`DeleteCopyingOrdered`).
