# Multidimensional binary tree, modelled in Dafny

The repository is a generic binary-search-tree interface and, on top of it, a "tree of
trees". The tree of trees is a map keyed by composite keys: fixed-length tuples of
`dimensions` integers.

## The base tree: module `BaseTree`, file `binary_tree.dfy`

This module models the base contract.
- **Comparator.** A three-valued integer comparator.
- **Nodes.** A node carries a key, a payload, a height and two owned children. The source's parent back-reference is not a field: it is derived from the node's position (see below).
- **Node navigation:**
  - recursive key descent;
  - iterative minimum and maximum descent;
  - the successor, found by walking up the parent links.
- **Tree wrappers.** These answer `None` on an empty tree.

Nodes are values of the datatype `Node`. A node of a tree is named by its position: the
`Path` of `Left`/`Right` steps that leads to it from the root. Its parent back-reference
is that path without its last step (`Parent`), so the successor's upward walk pops the
path one step at a time.

The loops of the source stay loops:
- `MinDescendant` and `MaxDescendant`, the walks down the left or right children;
- `ClimbRightChildren`, the upward walk inside `SuccessorNode`.

The tree's `GetMinNode`, `GetMaxNode` and `GetSuccessorNode` do not loop: they handle the
empty tree and delegate to these node operations.

A tree is `Valid` when it satisfies two predicates:
- `Ordered`: the binary-search-tree order;
- `HeightsOk`: every height is one more than the larger of the children's heights, and an absent child counts as -1.

The source leaves insertion and deletion to a balancing strategy. Here they are given by a
plain unbalanced strategy:
- an existing key is overwritten;
- a node with two children is replaced by the minimum of its right subtree;
- heights are recomputed along the way back up.

`Tree.Insert` and `Tree.Delete` state the contract any strategy must meet. They keep the
tree `Valid`, and they change its content map exactly as a map insert or removal would.

## The tree of trees: module `MultiDimensional`, file `multi_tree.dfy`

This module models `MultiTree`. It is a class whose field `trees` is an arena of base
trees. The kind of a payload depends on the tree's dimension:
- a node of a tree of the first `dimensions - 1` dimensions carries `Subtree(h)`, and `h` is the handle of the next dimension's tree;
- a node of a last-dimension tree carries `Data(v)`, where `v` is an `Option` so that a stored `None` is a value.

`trees[0]` is the first dimension's tree. Updating `trees[h]` is updating that tree object
in place.

The ghost field `prefix` records the composite-key prefix under which each tree hangs. The
ghost function `Lookup(K)` (`Get`) is the map that the structure stands for. Every
operation is proved against `Lookup`:
- **Insert** maps the key to the data and changes no other entry. Its two loops reuse the existing trees along the key and then append exactly one new tree per missing inner dimension (`InsertShape`).
- **Delete** accepts keys of 1 to `dimensions` components:
  - it does nothing for other lengths, or when a tree along the key is missing;
  - otherwise it deletes the last component from the tree reached, which unmaps every composite key that extends the deleted key.
- **FindNodeByKey** succeeds exactly when the key is mapped. **FindDataByKey** collapses "absent" and "stored None" into one answer, as the source does.
- **The minimum and maximum** descents find the lexicographically least and greatest mapped composite keys.

Deleting the last entry of a tree below the first dimension leaves that empty tree hanging from its parent
entry; the source does this too. Such a stale tree makes the minimum and maximum descents
stop. `NoStaleSubtrees` expresses the absence of such trees, and the contracts of
`GetMinNode` and its relatives say what holds with and without it. A new structure has no
stale tree and `Insert` creates none, so a structure built by inserts alone always gets
its minimum and maximum found (`SingleInsertMin` shows one such use).

Both files are given to Dafny together. `multi_tree.dfy` imports `BaseTree`.

## Model

| member | source | states |
|---|---|---|
| BaseTree.CompareIntegers | BaseTreeInterface.py:7-17 | the result is one of 0, 1, -1; 0 exactly when a == b, 1 exactly when a > b, -1 exactly when a < b |
| BaseTree.CompareIntegersAntisymmetric | BaseTreeInterface.py:12-17 | compare(a, b) is "bigger" exactly when compare(b, a) is "smaller", and "equal" is symmetric |
| BaseTree.Parent | BaseTreeInterface.py:26-27 | a node has no parent exactly when it is the root; otherwise the parent's position followed by the last step is the node's position |
| BaseTree.NewNode | BaseTreeInterface.py:26-36 | a new node has the given key and data, height 0 and no children; it is ordered, its heights hold, and its content is the single entry |
| BaseTree.DescendantNode | BaseTreeInterface.py:58-74 | a found node has the searched key and was reached by going left only for smaller keys and right only for larger ones; in an ordered subtree, the search fails exactly when the key is absent |
| BaseTree.HeightOf | BaseTreeInterface.py:76-81 | an absent node has height -1 and a present node its stored height, so the height equation can treat a missing child as one level below a leaf |
| BaseTree.HeightIsDepth | BaseTreeInterface.py:76-85 | where the height equation holds, the height of a node (-1 for an absent node) is the length of its longest downward path |
| BaseTree.UpdateHeight | BaseTreeInterface.py:83-85 | only the height changes; key, data, children, content and ordering are kept; with correct children the node's height equation holds, and a childless node gets height 0 |
| BaseTree.MinDescendant | BaseTreeInterface.py:87-95 | the node reached by left steps only has no left child and holds a key of the subtree; it is the node itself when there is no left child; in an ordered subtree its key is the least |
| BaseTree.MaxDescendant | BaseTreeInterface.py:97-105 | by right steps only: no right child, the node itself when there is no right child, and in an ordered subtree the greatest key |
| BaseTree.ClimbRightChildren | BaseTreeInterface.py:115-121 | the upward walk stops at the first position that is not a right child; every step it climbed was a right step; in an ordered tree the subtree reached has the start key as its greatest key |
| BaseTree.SuccessorNode | BaseTreeInterface.py:107-123 | with a right child, the answer is reached from the right child by left steps only and has no left child; otherwise it is the ancestor reached from a left child after right steps only, and None only when every step from the root was a right step; in an ordered tree the answer holds the least key above the node's key, and None means the node's key is the greatest |
| BaseTree.Tree.FindNodeByKey | BaseTreeInterface.py:147-152 | None exactly when the key is not in the tree; a found node has the key and the payload the tree maps it to |
| BaseTree.Tree.GetMinNode | BaseTreeInterface.py:154-159 | None exactly for the empty tree; otherwise a node of the tree whose key is the least of the tree, with its payload |
| BaseTree.Tree.GetMaxNode | BaseTreeInterface.py:161-166 | None exactly for the empty tree; otherwise the node with the greatest key, with its payload |
| BaseTree.Tree.GetSuccessorNode | BaseTreeInterface.py:168-174 | None when the key is not in the tree; a found node holds the least key above the given key; None for a present key means it is the tree's greatest |
| BaseTree.InsertNode | BaseTreeInterface.py:38-40 | node insertion adds the key to the subtree, keeps ordering and the height equation, and updates the content map at the key (overwriting) |
| BaseTree.DetachMin | BaseTreeInterface.py:42-44 | detaching the minimum returns the least key and its payload, and the remaining subtree, ordered, with that key removed from the content |
| BaseTree.RemoveRoot | BaseTreeInterface.py:42-44 | a node deleting itself leaves an ordered subtree with correct heights whose content is the old content without the node's key |
| BaseTree.DeleteNode | BaseTreeInterface.py:42-44 | deletion below a node keeps ordering and the height equation and removes the key from the content map (a no-op when absent) |
| BaseTree.Tree.Insert | BaseTreeInterface.py:139-141 | the tree stays valid, is non-empty, and its content becomes the old content with key mapped to data |
| BaseTree.Tree.Delete | BaseTreeInterface.py:143-145 | the tree stays valid, its content loses the key, and the removed payload is returned (None when the key was absent) |
| BaseTree.EmptyTree | BaseTreeInterface.py:136-137 | a new tree has no root, is valid and maps nothing |
| MultiDimensional.MultiTree.constructor | MultidimensionalBinaryTree.py:11-23 | a new structure holds one empty first-dimension tree, maps no composite key and has no stale subtree |
| MultiDimensional.GetLength | MultidimensionalBinaryTree.py:5-9 | in a well-formed structure every mapped composite key has exactly dimensions components |
| MultiDimensional.MultiTree.Insert | MultidimensionalBinaryTree.py:27-54 | the structure stays well formed; the first dimensions components of the key map to data and every other composite key keeps its lookup; the arena changes by the shape InsertShape describes: reused trees along the key, one new tree per missing inner dimension holding only the next key component, and nothing else touched; a structure without stale subtrees keeps none |
| MultiDimensional.MultiTree.DeepestTree | MultidimensionalBinaryTree.py:32-42 | the first loop stops at the depth and tree of ReusedDepth / ReusedTree: the tree reached by the key's first i components, where either the last dimension is reached or key[i] is absent |
| MultiDimensional.ReusedIsDeepest | MultidimensionalBinaryTree.py:35-42 | the depth where the first loop stops is reachable through existing trees, and below the last dimension the next component is absent there, so no existing tree is rebuilt |
| MultiDimensional.GraftMissing | MultidimensionalBinaryTree.py:44-51 | the second loop keeps the structure well formed and every lookup unchanged while appending one grafted tree per missing dimension, ending at the tree of the last dimension |
| MultiDimensional.GraftWf | MultidimensionalBinaryTree.py:47-49 | grafting a new empty tree under a key of an inner-dimension tree keeps the structure well formed |
| MultiDimensional.GraftGet | MultidimensionalBinaryTree.py:47-49 | grafting a new empty tree under an absent key changes no lookup |
| MultiDimensional.CompleteInsert | MultidimensionalBinaryTree.py:44-54 | the second loop followed by the final store maps the key to data, changes no other lookup, and yields the InsertShape arena |
| MultiDimensional.InsertData | MultidimensionalBinaryTree.py:54 | storing the data in the last-dimension tree reached by the key maps exactly that key to data and keeps the structure well formed |
| MultiDimensional.MultiTree.Delete | MultidimensionalBinaryTree.py:56-76 | a key of length outside 1..dimensions, or one whose tree along the way is missing, gives None and no change; otherwise exactly the reached tree is replaced by its deletion of the last component, the removed payload is returned, every composite key extending the key becomes unmapped and every other lookup is unchanged |
| MultiDimensional.MissingBelow | MultidimensionalBinaryTree.py:69-72 | if the descent misses a component, the terminal tree does not exist and nothing under the key is mapped |
| MultiDimensional.DeleteEntry | MultidimensionalBinaryTree.py:76 | deleting the last component from the reached tree keeps the structure well formed and unmaps exactly the composite keys that extend the deleted key |
| MultiDimensional.MultiTree.FindNodeByKey | MultidimensionalBinaryTree.py:80-93 | None exactly when the first dimensions components of the key are unmapped; a found node is a node of the structure whose composite key is that key and whose payload is the mapped data, and it stands in the tree that descending along the key's inner components reaches |
| MultiDimensional.MultiTree.GetMinNode | MultidimensionalBinaryTree.py:95-100 | a found node is a last-dimension node whose composite key is the lexicographically least mapped key, with its data, in the tree reached along its prefix; None means nothing is mapped when no stale subtree exists |
| MultiDimensional.MultiTree.GetMaxNode | MultidimensionalBinaryTree.py:102-107 | the same for the lexicographically greatest mapped key |
| MultiDimensional.MultiTree.FindNode | MultidimensionalBinaryTree.py:87-93 | the descent for a key of exactly dimensions components: None exactly when the key is unmapped; a found node has that composite key and its data, and stands in the tree reached along the key's inner components |
| MultiDimensional.MultiTree.GetExtremeNode | MultidimensionalBinaryTree.py:95-107 | the descent through the least (or greatest) node of each dimension's tree ends at the lexicographically least (or greatest) mapped key, in a tree reachable from the first dimension's tree along its prefix |
| MultiDimensional.InsertKeepsFresh | MultidimensionalBinaryTree.py:44-54 | insertion leaves no stale subtree where there was none: each appended tree holds one entry, the reused tree gains one, and every other reachable tree was reachable before |
| MultiDimensional.ExtremeBound | MultidimensionalBinaryTree.py:97-98 | taking the least (greatest) key of the tree reached keeps every mapped composite key on the far side of, or under, the longer prefix |
| MultiDimensional.ExtremeFound | MultidimensionalBinaryTree.py:100 | the least (greatest) key of the last-dimension tree completes the lexicographically least (greatest) mapped key and carries its data |
| MultiDimensional.ExtremeUnique | MultidimensionalBinaryTree.py:95-107 | the lexicographically least (greatest) mapped key is unique |
| MultiDimensional.EmptyReached | MultidimensionalBinaryTree.py:98-100 | when the descent meets an empty tree, nothing is mapped if no stale subtree exists |
| MultiDimensional.MultiTree.FindDataByKey | MultidimensionalBinaryTree.py:111-120 | the stored data when the key is mapped, None when it is not: a stored None and an absent key give the same answer |
| MultiDimensional.MultiTree.GetExtremeData | MultidimensionalBinaryTree.py:122-142 | a data result is the data of the lexicographically least (or greatest) mapped key; without stale subtrees the result is that key's data whenever such a key exists |
| MultiDimensional.MultiTree.GetMinData | MultidimensionalBinaryTree.py:122-131 | a data result is the data of the lexicographically least mapped key; without stale subtrees the result is that key's data whenever such a key exists |
| MultiDimensional.MultiTree.GetMaxData | MultidimensionalBinaryTree.py:133-142 | the same for the lexicographically greatest mapped key |

## Left out

- AVLTree.py, the balancing strategy, is not part of this model. Insertion and deletion use a plain unbalanced strategy that meets the same content, ordering and height contract. Neither rotations nor logarithmic height are modelled.
- Node objects are values, and a node is identified by its path from the root. The parent back-reference is the path's prefix, so aliasing of node objects and the in-place mutation of `parent_node`, `left` and `right` are not modelled.
- BaseTree.UpdateHeight: the in-place assignment of the height field is modelled as a function that returns the node with its height recomputed.
- The pluggable `key_compare_function` is not modelled: keys are integers compared by `CompareIntegers`, the source's default.
- The accessors `get_key`, `get_data`, `get_small_child` and `get_large_child` are the datatype's fields.
- The `__main__` demonstration and its printing are left out: it is I/O with no logic.
- MultiDimensional.MultiTree.Insert requires at least `dimensions` key components; shorter keys are excluded. On a shorter key the source fails with an index error, but not always before it changes the structure. For example, with two dimensions and the key `(5,)` where 5 is absent, it first grafts an empty second-dimension tree under 5 and then fails reading the second component. That tree is left behind as a stale subtree. This partial update is not modelled. Components beyond `dimensions` are ignored, as in the source.
- MultiDimensional.MultiTree.FindNodeByKey requires at least `dimensions` key components; shorter keys are excluded. On a shorter key the source does not always fail. When the descent misses a component before it runs out of key, the source answers None without error: with two dimensions and the key `(5,)` where 5 is absent, the answer is None. When the descent gets further, it fails with an index error. The model does not capture the None answer on such short keys. Its docstring asks for exactly `dimensions` components; the model follows the code for longer keys.
- MultiDimensional.MultiTree.FindDataByKey requires at least `dimensions` key components, since it calls FindNodeByKey. The short keys on which the source answers None are excluded here too.
- MultiDimensional.MultiTree.GetMinNode answers None where the source would dereference None. That happens when one of the first `dimensions - 1` trees along the descent is empty. This is the first dimension's tree of an empty structure when `dimensions` is at least 2, or, when `dimensions` is at least 3, a stale tree of dimensions 2 to `dimensions - 1` left by a delete. An empty last-dimension tree, such as the one left after inserting `(1, 5)` and deleting `(1, 5)` with two dimensions, is not such a case: the source itself answers None there, as the model does. Its guarantee that None means "nothing mapped" holds only when there are no stale subtrees.
- MultiDimensional.MultiTree.GetMaxNode: the same as GetMinNode.
- MultiDimensional.MultiTree.GetMinData and MultiDimensional.MultiTree.GetMaxData inherit this from GetMinNode and GetMaxNode. Without stale subtrees their answer is the extreme key's data.
- MultiDimensional.MultiTree.GetExtremeNode: the source calls `find_min` and `find_max`, which the base tree does not define. They are modelled as the base tree's `get_min_node` and `get_max_node`.
- BaseTree.Tree.GetSuccessorNode: the source calls `next_larger`, which the node does not define. It is modelled as the node's `get_successor_node`.
- BaseTree.SuccessorNode returns None for the greatest node, as the code does. The doc comment, which says the node returns itself, is not followed.
- MultiDimensional.MultiTree.Delete returns whatever the reached tree's `delete` returns, which depends on the balancing strategy. The model returns the removed payload, or None when the key was absent.
- The stale empty subtree that a delete can leave behind stays in place, as in the source. No pruning is modelled, and a later insert along that path reuses the stale tree.
