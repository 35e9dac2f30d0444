# KD-tree and binary search tree, modelled in Dafny

This project models the two tree components of a C++ data-structures
assignment and proves what they promise.

- **KD-tree (`KDT`).** `build` sorts a batch of points on the current dimension and makes the median the root. It recurses on the two halves with the next dimension, cycling `0, 1, …, numDim-1, 0, …`. `findNearestNeighbor` is a branch-and-bound search: near side first, far side only when the squared gap to the splitting plane is below the best distance so far, then the node itself. `rangeSearch` collects the points inside an axis-aligned box with closed bounds. `size` and `height` are counters kept up to date by `build`.
- **Binary search tree (`BST`, `BSTNode`, `BSTIterator`).** `insert` rejects duplicates and tracks the height. `find` returns an iterator. `begin` is the leftmost node and `end` is the null pointer. The iterator advances through `successor`, which walks parent pointers, and `inorder` collects the keys through the iterator.

Modules and files:

| file | module | models |
|---|---|---|
| wrappers.dfy | `Wrappers` | `Option` and `Max` |
| kd_point.dfy | `KdPoint` | points as `seq<int>`, squared distance, closed intervals and regions |
| kd_sort.dfy | `DimSort` | sorting a batch on one coordinate |
| kdt_tree.dfy | `KdTree` | the tree, the partition invariant, `build`, `buildSubtree`, `size`, `height` |
| kdt_nearest.dfy | `KdNearest` | `findNearestNeighbor`, `findNNHelper` |
| kdt_range.dfy | `KdRange` | `rangeSearch`, `rangeSearchHelper` |
| bst_node.dfy | `BstNode` | nodes with parent pointers, the node constructor, `successor` |
| bst_iterator.dfy | `BstIterator` | `operator*`, both `operator++`, `operator==`, `operator!=` |
| bst.dfy | `Bst` | `insert`, `find`, `first`, `begin`, `end`, `inorder`, `size`, `height`, `empty` |

How the model represents the source:
- **Pure functions over immutable trees.** `rangeSearch` returns the tree with its refilled `pointsInRange` together with the result. `findNearestNeighbor` threads the best candidate through the walk and returns only the point. A BST insertion returns the new tree and the `bool` result.
- **Pointers.**
  - A BST node carries an address, so `operator==` compares addresses as the source compares pointers.
  - A pointer to a node is a *position*: the node together with its ancestors, nearest first, each recorded with the side the path came down.
  - Walking up through `parent` is moving along that path, so parent and child links are consistent by construction.
  - `Plug` rebuilds the whole tree from any position. `Before` and `After` are the parts of the in-order walk on either side of the subtree.
- **Nearest-neighbour state.** The search keeps `threshold` and `nearestNeighbor` as one optional candidate. `None` stands for the threshold at its initial maximum.
- **Integer coordinates and keys.** The source reads coordinates as `int` in the helpers (src/kdt/KDT.hpp:201-202, 249, 269). For coordinates within the range of `int` that conversion is the identity, and the model's coordinates are such integers, unbounded. BST keys are `int`; the template needs only `<`.
- **Build height.** The height after `build` is ⌊log2 n⌋: the root is at height 0, and the larger half of the median split is the left one with `n / 2` points. test/kdt/test_KDT.cpp:91 expects 2 for 5 points, and test/kdt/test_KDT.cpp:140 expects 3 for 10 points.
- **Empty-tree insertion.** src/bst/BST.hpp:44 assigns `node` to `root` before `node` is declared at line 51, so the file does not compile as written. The model does what is evidently intended: a new node with the key becomes the root, the size becomes 1 and the height 0.

## Model

| member | source | states |
|---|---|---|
| KdPoint.SqIsProduct | src/kdt/KDT.hpp:212 | the squared gap used for pruning equals `x * x`, the value `std::pow(x, 2)` computes |
| KdPoint.SqDistAtLeastGap | src/kdt/KDT.hpp:211-222 | the squared gap on one coordinate never exceeds the squared distance, which is what makes pruning on that gap safe |
| KdPoint.SqDistZeroIffEqual | src/kdt/KDT.hpp:226-227 | a point is at squared distance 0 from the query exactly when it equals the query |
| DimSort.SortByDim | src/kdt/KDT.hpp:164-165 | sorting a range on `curDim` yields a permutation of it, ordered on that coordinate |
| DimSort.InsertByDimSorted | src/kdt/KDT.hpp:164-165 | inserting one point into a range ordered on a coordinate keeps it ordered |
| KdTree.MedianSplitHeight | src/kdt/KDT.hpp:168 | splitting `n` points at index `n / 2` gives a tree whose height is one more than its taller half, i.e. ⌊log2 n⌋ |
| KdTree.BuildSubtree | src/kdt/KDT.hpp:156-186 | the subtree holds exactly the range's points (as a multiset, duplicates kept); it is partitioned on `curDim` with the dimension cycling below; its height is ⌊log2 n⌋; `isize` grows by n and `iheight` ends at the deepest depth reached |
| KdTree.MedianNodeBuilt | src/kdt/KDT.hpp:164-185 | the median of the sorted range over the two subtrees built from its halves is a correct subtree for the whole range |
| KdTree.CounterAfterIsDeepest | src/kdt/KDT.hpp:172-177 | after building n points below a node at `height`, `iheight` is the larger of its old value and `height + 1 + ⌊log2 n⌋` |
| KdTree.Build | src/kdt/KDT.hpp:61-88 | an empty batch changes nothing; otherwise `numDim` comes from the first point, the tree holds exactly the batch, is partitioned from dimension 0, and has height ⌊log2 n⌋ |
| KdTree.BuildValid | src/kdt/KDT.hpp:61-88 | after `build` on a new tree the counters match the tree, the size is the batch length and the height is ⌊log2 n⌋ |
| KdTree.Size | src/kdt/KDT.hpp:139 | on a valid tree `size()` is the number of stored points |
| KdTree.Height | src/kdt/KDT.hpp:145 | on a valid tree `height()` is the tree's height, -1 exactly for an empty tree |
| KdTree.NewKDT | src/kdt/KDT.hpp:48-53 | a new tree holds no points, has size 0 and height -1, and satisfies the invariant |
| KdNearest.NearestIn | src/kdt/KDT.hpp:194-231 | the search on a subtree leaves the best candidate as it was or replaces it by a point of the subtree that is strictly nearer, so a point only as near as the incoming candidate never displaces it; the recorded distance is the true squared distance |
| KdNearest.NearestInIsNearest | src/kdt/KDT.hpp:194-231 | on a partitioned subtree the final candidate is no farther from the query than any point of the subtree: pruning never discards a strictly nearer point |
| KdNearest.FarSideBound | src/kdt/KDT.hpp:211-222 | when the squared gap to the splitting plane is not below the threshold, no point on the far side is nearer than the threshold |
| KdNearest.NodeOffer | src/kdt/KDT.hpp:225-230 | offering the node after both sides keeps the candidate no farther than every point of the subtree |
| KdNearest.FindNearestNeighbor | src/kdt/KDT.hpp:109-121 | no result exactly when the size is 0; otherwise the result is a stored point |
| KdNearest.FindNearestIsNearest | src/kdt/KDT.hpp:109-121 | no stored point is strictly nearer to the query than the returned one |
| KdRange.Filter | src/kdt/KDT.hpp:124-127 | the reference answer: the points of a sequence that lie inside the region, in order |
| KdRange.FilterMissing | src/kdt/KDT.hpp:252-259 | a side whose points all lie below or all above the region's interval on one coordinate contributes nothing |
| KdRange.OtherDimsInRegion | src/kdt/KDT.hpp:260-275 | the in-range test on `curDim` followed by the loop over the other dimensions accepts a point exactly when every coordinate lies in its closed interval |
| KdRange.OtherDimsIn | src/kdt/KDT.hpp:264-275 | the loop over the dimensions other than `curDim`, failing at the first coordinate outside its interval; what it accepts is stated by `KdRange.OtherDimsInCycle` and `KdRange.OtherDimsInRegion` |
| KdRange.OtherDimsInCycle | src/kdt/KDT.hpp:267-275 | the loop from `nextDim` back round to `curDim` checks exactly the dimensions on that cycle |
| KdRange.RangeIn | src/kdt/KDT.hpp:241-282 | the helper only appends to the result container, and everything it appends is a point of the subtree inside the region |
| KdRange.RangeInAppends | src/kdt/KDT.hpp:241-282 | what the helper appends does not depend on what the container already held |
| KdRange.RangeInIsFilter | src/kdt/KDT.hpp:252-281 | on a partitioned subtree the helper collects exactly the subtree's points inside the region, duplicates included: skipping a side never loses a point |
| KdRange.RangeSearch | src/kdt/KDT.hpp:128-134 | the result is the stored points inside the region (as a multiset and by membership) and is also left in `pointsInRange`; nothing else in the tree changes |
| KdRange.RangeSearchRepeatable | src/kdt/KDT.hpp:129-133 | because the container is reset first, searching twice gives the same result |
| BstNode.NewNode | src/bst/BSTNode.hpp:20 | a new node has no parent and no children: it is a whole tree of one entry and has no successor |
| BstNode.Leftmost | src/bst/BSTNode.hpp:29-35 | walking down left children stays in the same tree and stops at a node with no left child, the first of the subtree in in-order |
| BstNode.SuccessorUp | src/bst/BSTNode.hpp:36-49 | climbing while the current node is a right child lands on the in-order entry right after the subtree left behind, and yields null exactly when nothing follows it |
| BstNode.Successor | src/bst/BSTNode.hpp:27-53 | the successor is the next node of the in-order walk of the same tree, and there is none exactly at the last node |
| BstNode.SuccessorIsNextLarger | src/bst/BSTNode.hpp:22-53 | in an ordered tree the successor holds the smallest key larger than this node's, and there is none exactly when no key is larger |
| BstIterator.Deref | src/bst/BSTIterator.hpp:20 | dereferencing gives the key at the iterator's rank of the in-order walk |
| BstIterator.PreIncrement | src/bst/BSTIterator.hpp:23-26 | the iterator moves to the next rank of the same tree, and past the last node it becomes the end iterator |
| BstIterator.PostIncrement | src/bst/BSTIterator.hpp:29-33 | returns the iterator itself, unchanged, together with the pre-incremented one, which stands one rank further in the same tree |
| BstIterator.Equal | src/bst/BSTIterator.hpp:38-40 | compares the two node pointers, two end iterators being equal; what that means over one tree is stated by `BstIterator.EqualIffSameRank` |
| BstIterator.NotEqual | src/bst/BSTIterator.hpp:45-47 | the negation of `==`; over one tree it holds exactly when the ranks differ, by `BstIterator.EqualIffSameRank` |
| BstIterator.EqualIffSameRank | src/bst/BSTIterator.hpp:35-47 | over one tree with distinct node addresses, two iterators are equal exactly when they stand at the same rank, and `!=` is the negation |
| Bst.NewBST | src/bst/BST.hpp:28 | a new tree satisfies the invariant, has size 0 and height -1, is `empty()`, and `begin()` equals `end()` |
| Bst.SearchTreeIffAscending | src/bst/BST.hpp:133-136 | the ordering invariant holds exactly when the in-order keys are strictly ascending |
| Bst.InsertAt | src/bst/BST.hpp:52-81 | a rejected descent leaves the tree as it was; an accepted one gives a tree whose height is the larger of the old height and the new node's depth |
| Bst.InsertAtKeys | src/bst/BST.hpp:57-76 | an accepted descent adds exactly one occurrence of the key |
| Bst.InsertAtEntries | src/bst/BST.hpp:57-76 | the new node enters the in-order walk at one place and every other node keeps its relative order |
| Bst.InsertAtSearch | src/bst/BST.hpp:57-76 | on an ordered tree the descent adds a node exactly when the key is absent, and the tree stays ordered |
| Bst.Insert | src/bst/BST.hpp:41-85 | a duplicate returns false and changes nothing (keys, size, height); a success grows the size by one |
| Bst.InsertValid | src/bst/BST.hpp:41-85 | inserting with a fresh node keeps the invariant (order, distinct addresses, size and height counters), succeeds exactly for an absent key, and adds that key and nothing else |
| Bst.Find | src/bst/BST.hpp:92-106 | the iterator returned points into the tree; if it is not `end()` it holds the key; on an ordered tree it is `end()` exactly when the key is absent |
| Bst.First | src/bst/BST.hpp:153-164 | null exactly for the empty tree; otherwise the node at rank 0 of the in-order walk |
| Bst.Begin | src/bst/BST.hpp:126 | the iterator at rank 0, which on an empty tree is the end |
| Bst.End | src/bst/BST.hpp:131 | the iterator one past the last rank |
| Bst.BeginIsSmallest | src/bst/BST.hpp:126 | on a valid non-empty tree `begin()` points to the smallest key |
| Bst.InorderWalk | src/bst/BST.hpp:137-146 | the loop from `begin()` to `end()` collects exactly the in-order keys of the tree |
| Bst.InorderWalkAscending | src/bst/BST.hpp:133-146 | on a valid tree those keys are strictly ascending and as many as `size()` |
| Bst.Size | src/bst/BST.hpp:111 | on a valid tree `size()` is the number of keys |
| Bst.Height | src/bst/BST.hpp:116 | on a valid tree `height()` is the tree's height |
| Bst.Empty | src/bst/BST.hpp:121 | on a valid tree `empty()` holds exactly when there are no keys |

## Left out

- Point.hpp is not part of this model. A point is a `seq<int>`, and its distance to the query is the squared Euclidean distance, which is the quantity the pruning test compares against.
- Floating point: coordinates are `double` in the source and are read as `int` by the helpers. The model uses integer coordinates throughout and does not model `std::pow` rounding.
- The bounding box that `build` computes and `rangeSearch` passes around is never read, so it is left out.
- `deleteAll`, destructors and memory ownership are left out. That includes the nodes leaked when `build` runs on an already built tree.
- Allocation is a parameter: `Bst.Insert` is given the address of its new node, and `Bst.InsertValid` assumes it is fresh, as `new` guarantees.
- `operator<<` and all printing are left out.
- The mutable `distToQuery` field that the nearest-neighbour search writes into each node's point is left out; the model computes the distance where it is compared.
- `build` sorts the caller's vector in place. The model does not return the reordered vector.
- `std::sort` leaves the order of equal coordinates unspecified. The model uses one particular sort, and its proofs use only "a permutation ordered on that coordinate". So tree shape under ties and the order of range-search results are stated as multisets.
- KdTree.Build: a second `build` on a non-empty tree keeps adding to the size counter as the source does, so the invariant is proved only for a build on a new tree.
- BST keys are `int` rather than a template parameter with `operator<`.
- Integer width: coordinates and keys are unbounded integers. The conversion of `double` coordinates to `int` (src/kdt/KDT.hpp:201-202, 249, 269) is undefined in C++ outside the range of `int`. The differences `nodeVal - queryVal` (src/kdt/KDT.hpp:212, 220) can overflow. Neither is modelled.
- Iterators are snapshots. A position records the tree as it was when the iterator was made, so the iterator keeps walking that tree. In the source an iterator is a raw pointer into the live tree (src/bst/BSTIterator.hpp:11), and `insert` links new nodes in place (src/bst/BST.hpp:70-76). An iterator taken before an insertion therefore sees the new node in the source but not in the model. The model's contracts speak only of iterators into the current tree.
- KdNearest.FindNearestNeighbor: the source returns a pointer to its `nearestNeighbor` field; the model returns the point itself.
- `threshold` and `nearestNeighbor` are not kept as fields of the tree. In the source they are members that keep their values after `findNearestNeighbor` returns (src/kdt/KDT.hpp:31, 37, 115, 228-229). The model threads them through the walk as one optional candidate and hands back only the point.
- KdNearest.NearestIn: the contract does not fix which of several equally near points inside one subtree is returned. It states only that the incoming candidate is kept unless a strictly nearer point is found. The source's strict `<` at the node (src/kdt/KDT.hpp:227) keeps the point found first in its subtrees, and the function body follows it, but no contract states that order.
