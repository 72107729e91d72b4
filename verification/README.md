# Two ordered maps as binary search trees

This project models the two key→value maps of the repository in Dafny:

- `BST` (`src/BST.java`): an unbalanced binary search tree. `add` inserts a key or
  overwrites the value of a key that is already there. `get`/`contains` look a key up.
  `set` overwrites a present key and throws `IllegalArgumentException` for an absent
  one. `remove` uses Hibbard deletion: a node with two children is replaced by the
  minimum of its right subtree, which `removeMin` splices out. A `size` field counts
  the nodes.
- `AVLTree` (`src/AVLTree.java`): the same map, with a cached `height` per node. It
  also has the diagnostics `isBST` and `isBalanced`. Despite its name it never
  rotates. `add` recomputes the heights on the way back up from an insertion and only
  prints a message when a balance factor's absolute value exceeds 1. `remove`,
  `removeMin` and `removeMax` never assign a height.

The trees are immutable datatypes (`wrappers.dfy`, `bst.dfy`, `avl_tree.dfy`). Each
recursive helper takes a subtree and returns the new root of that subtree, as in the
Java code. Java's `size++`/`size--` side effects become a counter that each helper
takes in and hands back. The class invariant is `Valid()`: the tree satisfies the
search-tree ordering, and `size` equals the node count. Three ghost functions give
the abstract view of a subtree: `Keys`, `Content` (the `map<int, V>` it stands for)
and `Count`. `AVLTree.Erase` drops the cached heights, so every map operation of
`AVLTree` is stated as its `BST` twin on the erased tree. On top of that, it has direct map
contracts and facts about the cached heights.

An AVL tree would rotate to restore balance after insertion and removal. This code
does not, and the model follows the code: there are no rotations.
`AVLTree.AddMayLeaveUnbalanced` shows a tree built by `add` that `isBalanced`
rejects. `AVLTree.RemoveMayLeaveStaleHeights` shows `remove` leaving a stale cached
height.

## Model

| member | source | states |
|---|---|---|
| `BST.Empty` | src/BST.java:21-24 | A new map is valid and has no entries. |
| `BST.AddAt` | src/BST.java:33-48 | The counter grows by 0 or 1, exactly as the node count does. The key set gains `key`. On a search tree the result is a search tree, its map is the old map with `key ↦ value`, and the counter stays the same iff the key was present. |
| `BST.Add` | src/BST.java:26-48 | `add` keeps the invariant. The abstract map becomes `old[key := value]`. `size` grows by one exactly when the key was absent. |
| `BST.GetNode` | src/BST.java:51-63 | Any node found holds `key`. On a search tree a node is found iff the key is present, and it carries the key's value. |
| `BST.Get` | src/BST.java:157-161 | `get` returns `Some` of the bound value when the key is present, and `None` (Java `null`) otherwise. |
| `BST.Contains` | src/BST.java:151-155 | `contains` holds iff the key is in the map, which is exactly when `get` is present. |
| `BST.SetAt` | src/BST.java:163-170 | The in-place value write keeps the shape, the keys and the count. An absent key leaves the tree identical. On a search tree, only that key's value changes. |
| `BST.Set` | src/BST.java:163-170 | `set` fails with `IllegalArgument(key)` iff the key is absent. Otherwise the map becomes `old[key := newValue]`, and `size` and the tree shape are unchanged. |
| `BST.Minimum` | src/BST.java:78-84 | The returned node has no left child, lies in the subtree, carries its key's value, and has the smallest key there. |
| `BST.RemoveMinAt` | src/BST.java:88-98 | Exactly one node goes, and `size` drops by one. On a search tree, order is kept and exactly the minimum key leaves the map. |
| `BST.RemoveMaxAt` | src/BST.java:102-113 | Exactly one node goes, and `size` drops by one. On a search tree, order is kept and exactly the maximum key leaves the map. |
| `BST.RemoveAt` | src/BST.java:117-149 | An absent key returns the very same subtree and counter. Otherwise the counter drops by one along with the node count. On a search tree, order is kept and the map loses exactly `key`. |
| `BST.Remove` | src/BST.java:66-75 | `remove` returns the key's old value, or `None` if the key is absent. An absent key leaves the map object unchanged. A present key is removed with every other entry kept, and `size` drops by one. The invariant is kept. |
| `BST.GetSize` | src/BST.java:172-175 | `getSize` is the number of distinct keys in the map. |
| `BST.IsEmpty` | src/BST.java:177-180 | `isEmpty` holds iff the map has no entries, which is iff the root is null. |
| `BST.CountIsKeyCount` | src/BST.java:18-19 | In a search tree the node count equals the number of distinct keys. |
| `BST.AddPresentKeepsShape` | src/BST.java:43-45 | Adding a key that is present keeps every link and key in place. |
| `BST.SetIsAddOfPresentKey` | src/BST.java:163-170 | On a present key, `set` builds the same tree as `add`, and `add` leaves the counter alone. |
| `BST.RemoveTwoChildrenPromotesSuccessor` | src/BST.java:138-146 | When a node has two children, the new subtree root is the in-order successor. That is the smallest key above the removed one, taken from the right subtree, with its value. The old left subtree is kept, and the right subtree loses exactly the successor's key. |
| `BST.SuccessorRemovalExample` | src/BST.java:138-146 | Removing root 13 from 13{1, 26{24, ·}} gives 24{1, 26}, `size` 3, and returns the old value. |
| `AVLTree.Empty` | src/AVLTree.java:23-26 | A new map is valid, has exact heights, and has no entries. |
| `AVLTree.GetHeight` | src/AVLTree.java:76-80 | When cached heights are exact, `getHeight` is the real height, and 0 for null. |
| `AVLTree.GetBalanceFactor` | src/AVLTree.java:69-73 | A null link has balance factor 0. When heights are exact, a node's balance factor is the real height of its left child minus that of its right child. |
| `AVLTree.IsBalancedAt` | src/AVLTree.java:57-66 | `isBalanced(node)` holds iff every node below has a cached balance factor in [-1, 1]. |
| `AVLTree.IsBalanced` | src/AVLTree.java:52-54 | `isBalanced()` holds iff every node has a cached balance factor in [-1, 1]. |
| `AVLTree.InOrder` | src/AVLTree.java:42-49 | The in-order key list has one entry per node and holds exactly the tree's keys. |
| `AVLTree.IsBST` | src/AVLTree.java:29-40 | `isBST` returns true iff the in-order keys are non-decreasing, and it returns true on every valid tree. |
| `AVLTree.OrderedIffInOrderIncreasing` | src/AVLTree.java:29-49 | A tree satisfies the search-tree invariant iff its in-order keys strictly increase. |
| `AVLTree.Refresh` | src/AVLTree.java:103-104 | Recomputing a node's height from children with exact heights gives it an exact height. |
| `AVLTree.AddAt` | src/AVLTree.java:90-113 | With heights erased, the result is exactly the plain tree's `add` on the same input, counter included, so nothing is restructured. Every node on the search path has `height = 1 + max(children)`. Every subtree off the search path is carried over unchanged, cached heights included. Exact heights stay exact. |
| `AVLTree.Add` | src/AVLTree.java:84-113 | `add` is the plain tree's `add` with heights erased. It keeps the invariant, the map becomes `old[key := value]`, `size` grows by one exactly on a new key. Every node on the search path gets `height = 1 + max(children)`, every subtree off it keeps its cached heights, and exact heights stay exact. |
| `AVLTree.GetNode` | src/AVLTree.java:116-128 | With heights erased, `getNode` finds the node the plain tree's `getNode` finds. |
| `AVLTree.Get` | src/AVLTree.java:222-226 | `get` agrees with the plain tree's `get` on the erased map. It returns `Some` of the bound value, or `None` when the key is absent. |
| `AVLTree.Contains` | src/AVLTree.java:216-220 | `contains` agrees with the plain tree's `contains`. It holds iff the key is present, which is exactly when `get` is present. |
| `AVLTree.SetAt` | src/AVLTree.java:228-235 | The value write is the plain tree's. It keeps every (key, cached height) pair and the real height, so exact heights stay exact. |
| `AVLTree.Set` | src/AVLTree.java:228-235 | `set` fails exactly when the plain tree's `set` does, which is iff the key is absent. On success it gives the plain tree's result with heights erased: only that key's value changes, and `size` and every cached height are kept. |
| `AVLTree.Minimum` | src/AVLTree.java:143-149 | `minimum` is the plain tree's minimum, and it is one of the subtree's nodes with its own cached height. |
| `AVLTree.RemoveMinAt` | src/AVLTree.java:153-163 | `removeMin` is the plain tree's `removeMin`, and no new (key, height) pair appears. |
| `AVLTree.RemoveMaxAt` | src/AVLTree.java:167-178 | `removeMax` is the plain tree's `removeMax`, and no new (key, height) pair appears. |
| `AVLTree.RemoveAt` | src/AVLTree.java:182-214 | `remove(node, key)` is the plain tree's Hibbard deletion. No height is assigned: every resulting (key, height) pair was already in the input, and the successor keeps its old cached height. |
| `AVLTree.Remove` | src/AVLTree.java:131-140 | `remove` equals the plain tree's `remove` on the erased map. It returns the old value or `None`, and an absent key changes nothing. A present key is removed, and `size` drops by one. No cached height is assigned. |
| `AVLTree.GetSize` | src/AVLTree.java:237-240 | `getSize` agrees with the plain tree's and is the number of distinct keys. |
| `AVLTree.IsEmpty` | src/AVLTree.java:242-245 | `isEmpty` agrees with the plain tree's. It holds iff the map has no entries, which is iff the root is null. |
| `AVLTree.AddMayLeaveUnbalanced` | src/AVLTree.java:107-111 | Inserting 1, 2, 3 gives a valid tree with exact heights on which `isBalanced` is false, because `add` only reports the imbalance. |
| `AVLTree.RemoveMayLeaveStaleHeights` | src/AVLTree.java:182-214 | Removing 2 from the exact tree 1→2 leaves the root caching height 2 with no children. |

## Left out

- The two `main` methods (src/BST.java:182-202, src/AVLTree.java:247-270) are left out. They read a text file through `FileOperation`, which is not part of this model, and print to the console.
- The `System.out.println` that reports an imbalance in `add` is left out. It is a no-op in the model; the tree it leaves behind is what `AVLTree.AddMayLeaveUnbalanced` shows.
- The `Map<K, V>` interface both classes implement is left out. It is not part of this model, and the operations are modelled directly.
- Keys are `int`, not a generic `Comparable`. `compareTo` becomes integer comparison, which is a total order consistent with equality.
- Java `null` values are left out. A Java caller could store `null` as a value, which would make `get` ambiguous. In the model a value is always present, and absence is `None`.
- The `int` fields `size` and `height` are unbounded integers. A 32-bit overflow would need more than 2^31 nodes.
- Object identity, aliasing and the clearing of child links before a node is dropped (src/BST.java:130, src/BST.java:145) are left out. These only matter to the garbage collector, and immutable trees make them moot.
- Rotations and rebalancing are left out. The source has none.
