# k-d tree: construction and pre-order printing

A Dafny model of the k-d tree library `kd_tree`. It covers the following parts:

- **The axis comparator `CompareAxis`.** It orders two points by their coordinate on one axis.
- **The tree node.** A point with two optional subtrees.
- **`KdTree::buildKdTree`.** Builds the tree recursively:
  1. If the working list is empty, the result is the empty subtree.
  2. Otherwise, the split axis at depth `d` is `d mod k`, where `k` is the coordinate count of the list's first point.
  3. The list is sorted ascending on that axis with the comparator.
  4. The element at index `n/2` becomes the node's point.
  5. The strict prefix before it and the strict suffix after it are built one level deeper.
- **`KdTree::traverseTree`.** Walks the tree in pre-order and prints one line per node. The root has no indent, and each level below adds two columns.
- **The `KdTree` object.** It builds its tree once, when it is created.
- **The demonstration program.** It builds the tree for the six points (2,3), (5,4), (9,6), (4,7), (8,1), (7,2) and prints it.

The files and modules:

- `kdtypes.dfy` (`KdTypes`): points, the comparator and the `Tree` datatype. It also defines the tree invariants:
  - the k-d partitioning property `IsKdTree`;
  - the median-split shape `MedianSplit`.
- `kdsort.dfy` (`KdSort`): the sort step. It is an in-place sort of an array of points, comparing only through the comparator. It is specified as "ascending on the axis, and a permutation of the input". The file also proves what every such outcome has in common.
- `kdbuild.dfy` (`KdBuild`): construction, as a recursive method over a copied and sorted array. The library sort is unstable, so the method is specified by a relation, `Built`. The relation holds when the tree is the outcome of SOME ascending ordering at every node. The lemmas then prove what every such tree satisfies.
- `kdtraverse.dfy` (`KdTraverse`): the printed walk. Each printed line is modelled as a pair of its indent and its point.
- `kdtree.dfy` (`KdTrees`): the `KdTree` class, with its root set once by the constructor.
- `kdexample.dfy` (`KdExample`): the demonstration input. It proves exactly which tree the input yields and which lines are printed.

`k` is re-read from the first point of each sub-list at every level (src/kdtree.cpp:27); `KdBuild.SplitAxis` does the same.

## Model

| member | source | states |
|---|---|---|
| KdTypes.CompareAxisIsStrictWeakOrder | include/kdtree/kdtree.h:49-66 | The axis comparator is a strict weak ordering, which a sort needs. It is irreflexive, asymmetric and transitive. Its equivalence is transitive. Two points are either ordered one way or the other, or equal on the axis. |
| KdTypes.MedianSplitHeight | src/kdtree.cpp:30-35 | In a median-split tree, sibling subtrees differ in size by at most one. The height is exactly floor(log2 n) + 1 for n > 0 nodes. |
| KdSort.SortOnAxis | src/kdtree.cpp:29 | After the sort, the array holds the same points, each as often as before, ascending on the axis. |
| KdSort.SortedKeysAgree | src/kdtree.cpp:29 | Any two outcomes of the sort agree on the axis coordinate at every index, however ties were ordered. |
| KdSort.SortedPermutationUnique | src/kdtree.cpp:29 | When no two points share the axis coordinate, the sort has exactly one outcome. |
| KdBuild.SplitAxis | src/kdtree.cpp:27-28 | The split axis at a depth is always an axis of the first point of the working list. |
| KdBuild.BuildKdTree | src/kdtree.cpp:21-37 | The result is a possible outcome of the construction (`Built`). It is empty exactly when the list is empty. It holds every input point once, with its multiplicity. It satisfies the k-d partitioning property from the start depth. It is split at the median at every node. |
| KdBuild.BuiltKeepsPoints | src/kdtree.cpp:30-35 | Every possible outcome of construction stores exactly the input points, one node per point. |
| KdBuild.BuiltIsKdTree | src/kdtree.cpp:27-35 | Every possible outcome has the k-d partitioning property at depth d, on axis d mod k. Points of a node's left subtree are not above the node's point on that axis. Points of its right subtree are not below it. |
| KdBuild.BuiltIsMedianSplit | src/kdtree.cpp:30-32 | Every node of an outcome keeps n/2 of its n points on the left and n - n/2 - 1 on the right. |
| KdBuild.BuiltHeight | src/kdtree.cpp:21-37 | A tree built from n > 0 points has height floor(log2 n) + 1, so the recursion is that deep. |
| KdBuild.BuiltShapeDeterministic | src/kdtree.cpp:29-35 | Any two lists of the same length build trees of the same shape, whatever the sort does with ties. |
| KdBuild.BuiltRootIsMedian | src/kdtree.cpp:29-33 | The node's point has, on the split axis, the coordinate at index n/2 of every ascending ordering of the list. |
| KdBuild.BuiltFromDistinctKeys | src/kdtree.cpp:29-35 | With no tie on the split axis, the node's point and the two lists its subtrees are built from are fixed: the element at n/2 of the sorted list, its prefix, and its suffix. |
| KdBuild.BuiltDeterministic | src/kdtree.cpp:21-37 | When no two points of the list share a coordinate on any axis, building from the same list at the same depth always gives the same tree, node for node and point for point. |
| KdTraverse.Traverse | src/kdtree.cpp:44-57 | The walk prints one line per node of the subtree, and nothing for an empty subtree. |
| KdTraverse.TraverseVisitsEveryNodeOnce | src/kdtree.cpp:44-57 | The printed points are exactly the stored points, with multiplicity: every node once, none invented. |
| KdTraverse.TraverseIndentIsTwiceDepth | src/kdtree.cpp:50-56 | Walked from indent i, the lines with indent i + 2d print exactly the points stored at depth d, each as often as it is stored there. No line has any other indent. |
| KdTraverse.TraverseIndentBounds | src/kdtree.cpp:50-56 | Every indent is an even number of columns past the start and lies below the start plus twice the height. |
| KdTraverse.SetWidth | src/kdtree.cpp:52 | A value written in a field of a given width is right-aligned after fill characters. A value wider than the field is written whole. |
| KdTraverse.Padding | src/kdtree.cpp:50-53 | What `setw(indent) << ' '` writes is exactly `indent` spaces; at indent 0 nothing is written. |
| KdTrees.KdTree.constructor | include/kdtree/kdtree.h:75-78 | The tree object's root is a possible outcome of construction from depth 0. It holds exactly the given points, is a k-d tree and is median-split. Its height is floor(log2 n) + 1. |
| KdTrees.KdTree.TraverseTree | src/kdtree.cpp:39-42 | Printing the whole tree starts at indent 0 with the root's line. It prints every stored point once, at even indents below twice the height. |
| KdExample.ExampleBuildsExampleTree | src/kdtree_node.cpp:15-16 | The six demonstration points can only build one tree: (7,2) at the root, (5,4) over (2,3) and (4,7) on the left, and (9,6) over (8,1) on the right. |
| KdExample.ExampleTraversal | src/kdtree_node.cpp:17 | That tree prints (7,2) at indent 0, (5,4) at 2, (2,3) and (4,7) at 4, (9,6) at 2, and (8,1) at 4. |
| KdExample.BuildAndTraverseExample | src/kdtree_node.cpp:13-19 | The demonstration program prints exactly those six lines. |

The node structure (include/kdtree/kdtree.h:25-42) and its constructor become the `Tree` datatype and its `Node` constructor.

## Left out

- KdBuild.BuildKdTree: requires every point to have the same number k > 0 of coordinates. The code demands less. It fails only when a comparison meets a point too short for the axis (`at` throws) or when the first point of a list has no coordinates (the axis is taken modulo zero). Mixed sizes that never meet such a comparison are accepted by the code but not by the model.
- KdTrees.KdTree.constructor: the same requirement as `KdBuild.BuildKdTree`, for the same reason.
- KdBuild.BuiltShapeDeterministic: when points share a coordinate on a split axis, only the tree's shape is proved to be fixed, not which of the tied points goes where. The library sort's order among ties is unspecified, and `Built` allows any of them; `KdBuild.BuiltDeterministic` fixes the whole tree when there are no ties.
- KdSort.SortOnAxis: an insertion sort stands in for the library sort. Only the library sort's contract (ascending and a permutation) is relied on, and its choice among tied points is left open. The relation `Built` allows any ascending ordering at every node.
- Coordinates are integers, not doubles. The code only compares coordinates with `<`, so any totally ordered type behaves the same. NaN and other floating-point corner cases are not modelled.
- `printNode` (src/kdtree.cpp:59-80), the text rendering of a point's coordinates, is not modelled. A printed line is modelled as its indent and the point itself, not as characters written to the output stream.
- Shared pointers and reference counting are not modelled. Nodes are never shared or changed after construction, so a tree value captures them, and `Nil` stands for the null pointer.
- The error conditions (a missing axis, a zero-dimensional first point) are modelled as preconditions, not as reported errors. The code does not report them either: it throws or has undefined behaviour.
- The `size_t` depth and indent are unbounded naturals, and the indent passed to `std::setw` (an `int`, src/kdtree.cpp:52) is not narrowed. The indent grows by 2 per level (src/kdtree.cpp:55-56), so it would wrap after 2^63 levels and be narrowed past 2^31 - 1, about 2^30 levels. Neither can happen: a tree built from n points has floor(log2 n) + 1 levels (`KdBuild.BuiltHeight`), so a list of fewer than 2^64 points gives at most 64 levels and indents below 128.
