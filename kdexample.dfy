/** The demonstration program's input: six points in the plane, built into
    a tree and printed. Their coordinates are distinct on both axes, so the
    sort has one outcome at every node and the tree is fully determined. */
module KdExample {
  import opened KdTypes
  import opened KdSort
  import opened KdBuild
  import opened KdTraverse
  import opened KdTrees

  const ExamplePoints: seq<Point> := [[2, 3], [5, 4], [9, 6], [4, 7], [8, 1], [7, 2]]

  /** The tree the input yields: (7, 2) at the root, (5, 4) and (9, 6) below
      it, and the remaining three points as leaves. */
  const ExampleTree: Tree :=
    Node([7, 2],
      Node([5, 4], Node([2, 3], Nil, Nil), Node([4, 7], Nil, Nil)),
      Node([9, 6], Node([8, 1], Nil, Nil), Nil))

  /** The lines the walk prints for it, with their indents. */
  const ExampleLines: seq<Line> :=
    [Line(0, [7, 2]), Line(2, [5, 4]), Line(4, [2, 3]), Line(4, [4, 7]), Line(2, [9, 6]), Line(4, [8, 1])]

  /** A single point always becomes a leaf. */
  lemma BuiltSingleton(t: Tree, p: Point, depth: nat)
    requires Built(t, [p], depth) && 0 < |p|
    ensures t == Node(p, Nil, Nil)
  {
    BuiltFromDistinctKeys(t, [p], depth, [p]);
  }

  /** The split axis alternates from one depth to the next in the plane. */
  lemma NextDepthParity(depth: nat)
    ensures (depth + 1) % 2 == 1 - depth % 2
  {
  }

  /** The left half ordered on axis 1. */
  const LeftByY: seq<Point> := [[2, 3], [5, 4], [4, 7]]

  /** LeftByY is an ascending ordering of the left half on axis 1, with no
      repeated key. */
  lemma LeftByYIsTheOrdering(points: seq<Point>)
    requires points == [[2, 3], [4, 7], [5, 4]]
    ensures IsSortedPermutation(LeftByY, points, 1)
    ensures forall i | 0 <= i < |LeftByY| - 1 :: LeftByY[i][1] < LeftByY[i + 1][1]
  {
    assert multiset(LeftByY) == multiset(points);
  }

  /** Split on axis 1, the left half keeps (5, 4) and passes (2, 3) and
      (4, 7) down, one to each side. */
  lemma LeftSplit(t: Tree, points: seq<Point>, depth: nat)
    requires points == [[2, 3], [4, 7], [5, 4]] && depth % 2 == 1 && Built(t, points, depth)
    ensures t.Node? && t.point == [5, 4]
    ensures Built(t.left, [[2, 3]], depth + 1) && Built(t.right, [[4, 7]], depth + 1)
  {
    LeftByYIsTheOrdering(points);
    assert SplitAxis(points, depth) == 1;
    BuiltFromDistinctKeys(t, points, depth, LeftByY);
    assert LeftByY[..|LeftByY| / 2] == [[2, 3]] && LeftByY[|LeftByY| / 2 + 1..] == [[4, 7]];
  }

  /** The left half, [(2, 3), (4, 7), (5, 4)], split on axis 1 (any odd
      depth), gives (5, 4) over the leaves (2, 3) and (4, 7). */
  lemma ExampleLeftSubtree(t: Tree, points: seq<Point>, depth: nat)
    requires points == [[2, 3], [4, 7], [5, 4]] && depth % 2 == 1 && Built(t, points, depth)
    ensures t == Node([5, 4], Node([2, 3], Nil, Nil), Node([4, 7], Nil, Nil))
  {
    LeftSplit(t, points, depth);
    BuiltSingleton(t.left, [2, 3], depth + 1);
    BuiltSingleton(t.right, [4, 7], depth + 1);
  }

  /** The right half, [(8, 1), (9, 6)], split on axis 1 (any odd depth),
      gives (9, 6) over the single left leaf (8, 1). */
  lemma ExampleRightSubtree(t: Tree, points: seq<Point>, depth: nat)
    requires points == [[8, 1], [9, 6]] && depth % 2 == 1 && Built(t, points, depth)
    ensures t == Node([9, 6], Node([8, 1], Nil, Nil), Nil)
  {
    BuiltFromDistinctKeys(t, points, depth, points);
    assert points[..1] == [[8, 1]] && points[2..] == [];
    BuiltSingleton(t.left, [8, 1], depth + 1);
  }

  /** The input ordered on axis 0. */
  const ByX: seq<Point> := [[2, 3], [4, 7], [5, 4], [7, 2], [8, 1], [9, 6]]

  /** ByX holds the input's points. */
  lemma ByXIsPermutation()
    ensures multiset(ByX) == multiset(ExamplePoints)
  {
    var m := multiset(ExamplePoints);
    assert m == multiset{[2, 3], [5, 4], [9, 6], [4, 7], [8, 1], [7, 2]};
    assert multiset(ByX) == multiset{[2, 3], [4, 7], [5, 4], [7, 2], [8, 1], [9, 6]};
  }

  /** ByX is an ascending ordering of the input on axis 0, with no repeated
      key. */
  lemma ByXIsTheOrdering(s: seq<Point>, points: seq<Point>)
    requires s == ByX && points == ExamplePoints
    ensures IsSortedPermutation(s, points, 0)
    ensures forall i | 0 <= i < |s| - 1 :: s[i][0] < s[i + 1][0]
  {
    ByXIsPermutation();
    AdjacentAscending(s, 0);
  }

  /** The middle of ByX and the lists on either side of it. */
  lemma ByXHalves()
    ensures ByX[|ByX| / 2] == [7, 2]
    ensures ByX[..|ByX| / 2] == [[2, 3], [4, 7], [5, 4]]
    ensures ByX[|ByX| / 2 + 1..] == [[8, 1], [9, 6]]
  {
    assert ByX[..3] == [[2, 3], [4, 7], [5, 4]];
    assert ByX[4..] == [[8, 1], [9, 6]];
  }

  /** Split on axis 0, the input keeps the middle of its ordering s and
      passes the lists on either side of it down. */
  lemma ExampleSplitByX(t: Tree, points: seq<Point>, depth: nat, s: seq<Point>)
    requires points == ExamplePoints && s == ByX && depth % 2 == 0 && Built(t, points, depth)
    ensures t.Node? && 0 < |s| && t.point == s[|s| / 2]
    ensures Built(t.left, s[..|s| / 2], depth + 1)
    ensures Built(t.right, s[|s| / 2 + 1..], depth + 1)
  {
    ByXIsTheOrdering(s, points);
    assert SplitAxis(points, depth) == 0;
    BuiltFromDistinctKeys(t, points, depth, s);
  }

  /** Split on axis 0, the input keeps (7, 2) and passes the three points
      before it and the two after it down. */
  lemma ExampleSplit(t: Tree, points: seq<Point>, depth: nat)
    requires points == ExamplePoints && depth % 2 == 0 && Built(t, points, depth)
    ensures t.Node? && t.point == [7, 2]
    ensures Built(t.left, [[2, 3], [4, 7], [5, 4]], depth + 1)
    ensures Built(t.right, [[8, 1], [9, 6]], depth + 1)
  {
    ExampleSplitByX(t, points, depth, ByX);
    ByXHalves();
  }

  /** Building from the demonstration input, at depth 0 or any other even
      depth, can only give ExampleTree: ordered on axis 0 the input reads
      (2, 3), (4, 7), (5, 4), (7, 2), (8, 1), (9, 6), and the element at
      index 3 is the root. */
  lemma ExampleBuildsExampleTree(t: Tree, points: seq<Point>, depth: nat)
    requires points == ExamplePoints && depth % 2 == 0 && Built(t, points, depth)
    ensures t == ExampleTree
  {
    ExampleSplit(t, points, depth);
    NextDepthParity(depth);
    ExampleLeftSubtree(t.left, [[2, 3], [4, 7], [5, 4]], depth + 1);
    ExampleRightSubtree(t.right, [[8, 1], [9, 6]], depth + 1);
  }

  /** The walk of ExampleTree prints ExampleLines. */
  lemma ExampleTraversal()
    ensures Traverse(ExampleTree, 0) == ExampleLines
  {
  }

  /** The demonstration program: build the tree from the six points and
      walk it. The root (7, 2) is printed first, then its left subtree two
      columns in, then its right subtree. */
  method BuildAndTraverseExample() returns (lines: seq<Line>)
    ensures lines == ExampleLines
  {
    var tree := new KdTree(ExamplePoints, 2);
    ExampleBuildsExampleTree(tree.head, ExamplePoints, 0);
    ExampleTraversal();
    lines := tree.TraverseTree();
  }
}
