/** Tree construction: sort the working list on the depth's axis, keep the
    element at index n/2 as the node's point, and build the subtrees from
    the strict prefix and the strict suffix one level deeper. */
module KdBuild {
  import opened KdTypes
  import opened KdSort

  /** The split axis at a depth: the depth modulo the coordinate count of
      the first point of the (unsorted) working list. */
  function SplitAxis(points: seq<Point>, depth: nat): (axis: nat)
    requires points != [] && 0 < |points[0]|
    ensures axis < |points[0]|
  {
    depth % |points[0]|
  }

  /** t is a possible result of building from `points` at `depth`: the
      empty list gives the empty tree; otherwise, for some ascending
      ordering s of the list on the split axis (the sort may order ties
      either way), the node holds s[n/2] and its subtrees are built from
      s[..n/2] and s[n/2+1..] one level deeper. */
  ghost predicate Built(t: Tree, points: seq<Point>, depth: nat)
    decreases t
  {
    match t
    case Nil => points == []
    case Node(p, l, r) =>
      && points != []
      && 0 < |points[0]|
      && exists s {:trigger IsMedianChoice(s, points, SplitAxis(points, depth), p)}
           :: IsMedianChoice(s, points, SplitAxis(points, depth), p)
                     && Built(l, s[..|s| / 2], depth + 1)
                     && Built(r, s[|s| / 2 + 1..], depth + 1)
  }

  /** s is an ascending ordering of the points on the axis and p is its
      element at index n/2. */
  ghost predicate IsMedianChoice(s: seq<Point>, points: seq<Point>, axis: nat, p: Point)
  {
    IsSortedPermutation(s, points, axis) && 0 < |s| && p == s[|s| / 2]
  }

  /** A permutation of a list of k-dimensional points is one too. */
  lemma UniformPermutation(s: seq<Point>, points: seq<Point>, k: nat)
    requires multiset(s) == multiset(points) && Uniform(points, k)
    ensures Uniform(s, k)
  {
    forall i | 0 <= i < |s|
      ensures |s[i]| == k
    {
      assert s[i] in multiset(points);
    }
  }

  /** Builds the subtree for `points` at `depth`. The list is copied, sorted
      in place on the split axis, and split around its element at n/2.
      Every point must have k > 0 coordinates, so that the split axis is
      defined and every comparison finds its coordinate. */
  method BuildKdTree(points: seq<Point>, depth: nat, ghost k: nat) returns (t: Tree)
    requires Uniform(points, k)
    ensures Built(t, points, depth)
    ensures t == Nil <==> points == []
    ensures Points(t) == multiset(points) && Size(t) == |points|
    ensures IsKdTree(t, depth, k)
    ensures MedianSplit(t)
    decreases |points|
  {
    if |points| == 0 {
      return Nil;
    }
    var dim := |points[0]|;
    var axis := depth % dim;
    var a := new Point[|points|](i requires 0 <= i < |points| => points[i]);
    assert a[..] == points;
    SortOnAxis(a, axis);
    var sorted := a[..];
    var median := |sorted| / 2;
    assert IsMedianChoice(sorted, points, SplitAxis(points, depth), sorted[median]);
    UniformPermutation(sorted, points, k);
    assert Uniform(sorted[..median], k) && Uniform(sorted[median + 1..], k);
    var left := BuildKdTree(sorted[..median], depth + 1, k);
    var right := BuildKdTree(sorted[median + 1..], depth + 1, k);
    t := Node(sorted[median], left, right);
    BuiltFromSplit(t, points, depth, sorted);
    BuiltProperties(t, points, depth, k);
  }

  /** A node made of s[n/2] over trees built from s[..n/2] and s[n/2+1..],
      for an ascending ordering s of the points, is built from the points. */
  lemma BuiltFromSplit(t: Tree, points: seq<Point>, depth: nat, s: seq<Point>)
    requires points != [] && 0 < |points[0]| && t.Node?
    requires IsMedianChoice(s, points, SplitAxis(points, depth), t.point)
    requires Built(t.left, s[..|s| / 2], depth + 1)
    requires Built(t.right, s[|s| / 2 + 1..], depth + 1)
    ensures Built(t, points, depth)
  {
  }

  /** What a built tree is: a k-d tree holding exactly the input points,
      split at the median at every node. */
  lemma BuiltProperties(t: Tree, points: seq<Point>, depth: nat, k: nat)
    requires Built(t, points, depth) && Uniform(points, k)
    ensures Points(t) == multiset(points) && Size(t) == |points|
    ensures IsKdTree(t, depth, k)
    ensures MedianSplit(t)
  {
    BuiltKeepsPoints(t, points, depth);
    BuiltIsKdTree(t, points, depth, k);
    BuiltIsMedianSplit(t, points, depth);
  }

  /** A list is its prefix, the element at m, and its suffix. */
  lemma SplitAround(s: seq<Point>, m: nat)
    requires m < |s|
    ensures s == s[..m] + [s[m]] + s[m + 1..]
    ensures multiset(s) == multiset(s[..m]) + multiset{s[m]} + multiset(s[m + 1..])
  {
    assert s == s[..m] + [s[m]] + s[m + 1..];
  }

  /** The ordering a built node was split from. */
  lemma BuiltNode(t: Tree, points: seq<Point>, depth: nat) returns (s: seq<Point>)
    requires Built(t, points, depth) && t.Node?
    ensures points != [] && 0 < |points[0]|
    ensures IsMedianChoice(s, points, SplitAxis(points, depth), t.point)
    ensures Built(t.left, s[..|s| / 2], depth + 1)
    ensures Built(t.right, s[|s| / 2 + 1..], depth + 1)
  {
    s :| IsMedianChoice(s, points, SplitAxis(points, depth), t.point)
         && Built(t.left, s[..|s| / 2], depth + 1)
         && Built(t.right, s[|s| / 2 + 1..], depth + 1);
  }

  /** A node holding s[m] over subtrees holding s[..m] and s[m+1..] holds
      the points of s. */
  lemma NodeKeepsPoints(p: Point, l: Tree, r: Tree, s: seq<Point>, m: nat)
    requires m < |s| && p == s[m]
    requires Points(l) == multiset(s[..m]) && Points(r) == multiset(s[m + 1..])
    ensures Points(Node(p, l, r)) == multiset(s)
  {
    SplitAround(s, m);
  }

  /** The built tree stores exactly the input points, each as often as it
      occurs, in one node each. */
  lemma {:induction false} BuiltKeepsPoints(t: Tree, points: seq<Point>, depth: nat)
    requires Built(t, points, depth)
    ensures Points(t) == multiset(points)
    ensures Size(t) == |points|
  {
    if t.Node? {
      var s := BuiltNode(t, points, depth);
      var m := |s| / 2;
      BuiltKeepsPoints(t.left, s[..m], depth + 1);
      BuiltKeepsPoints(t.right, s[m + 1..], depth + 1);
      NodeKeepsPoints(t.point, t.left, t.right, s, m);
    }
    assert |Points(t)| == |multiset(points)|;
  }

  /** Every node keeps n/2 points on its left and n - n/2 - 1 on its right,
      so the right side is never the larger one. */
  lemma {:induction false} BuiltIsMedianSplit(t: Tree, points: seq<Point>, depth: nat)
    requires Built(t, points, depth)
    ensures MedianSplit(t)
  {
    if t.Node? {
      var s := BuiltNode(t, points, depth);
      var m := |s| / 2;
      BuiltKeepsPoints(t.left, s[..m], depth + 1);
      BuiltKeepsPoints(t.right, s[m + 1..], depth + 1);
      BuiltIsMedianSplit(t.left, s[..m], depth + 1);
      BuiltIsMedianSplit(t.right, s[m + 1..], depth + 1);
      NodeIsMedianSplit(t.point, t.left, t.right, |s|);
    }
  }

  /** A node over subtrees of n/2 and n - n/2 - 1 points, each split at its
      median, is split at its median. */
  lemma NodeIsMedianSplit(p: Point, l: Tree, r: Tree, n: nat)
    requires 0 < n && Size(l) == n / 2 && Size(r) == n - n / 2 - 1
    requires MedianSplit(l) && MedianSplit(r)
    ensures MedianSplit(Node(p, l, r))
  {
  }

  /** The built tree is as shallow as a binary tree over its points can
      be: floor(log2 n) + 1 levels for n > 0 points. */
  lemma BuiltHeight(t: Tree, points: seq<Point>, depth: nat)
    requires Built(t, points, depth)
    ensures Height(t) == if |points| == 0 then 0 else Log2(|points|) + 1
  {
    BuiltKeepsPoints(t, points, depth);
    BuiltIsMedianSplit(t, points, depth);
    MedianSplitHeight(t);
  }

  /** In a list ascending on an axis, the element at m is not below anything
      before it and not above anything after it. */
  lemma SortedSplitPartitions(s: seq<Point>, m: nat, axis: nat)
    requires m < |s| && HasAxis(s, axis) && SortedOnAxis(s, axis)
    ensures forall q | q in multiset(s[..m]) :: axis < |q| && q[axis] <= s[m][axis]
    ensures forall q | q in multiset(s[m + 1..]) :: axis < |q| && s[m][axis] <= q[axis]
  {
    forall q | q in multiset(s[..m])
      ensures axis < |q| && q[axis] <= s[m][axis]
    {
      var i :| 0 <= i < m && s[..m][i] == q;
      assert s[i] == q;
    }
    forall q | q in multiset(s[m + 1..])
      ensures axis < |q| && s[m][axis] <= q[axis]
    {
      var i :| 0 <= i < |s| - m - 1 && s[m + 1..][i] == q;
      assert s[m + 1 + i] == q;
    }
  }

  /** A node split from an ordering sorted on its axis satisfies the
      partitioning invariant when its subtrees do. */
  lemma NodeIsKdTree(p: Point, l: Tree, r: Tree, s: seq<Point>, m: nat, depth: nat, k: nat)
    requires m < |s| && p == s[m] && Uniform(s, k)
    requires SortedOnAxis(s, depth % k)
    requires Points(l) == multiset(s[..m]) && Points(r) == multiset(s[m + 1..])
    requires IsKdTree(l, depth + 1, k) && IsKdTree(r, depth + 1, k)
    ensures IsKdTree(Node(p, l, r), depth, k)
  {
    SortedSplitPartitions(s, m, depth % k);
    NotAboveMeansPoints(l, depth % k, p[depth % k]);
    NotBelowMeansPoints(r, depth % k, p[depth % k]);
  }

  /** The partitioning invariant: at depth d, points in a node's left
      subtree are not above it on axis d % k and points in its right
      subtree are not below it. */
  lemma {:induction false} BuiltIsKdTree(t: Tree, points: seq<Point>, depth: nat, k: nat)
    requires Built(t, points, depth) && Uniform(points, k)
    ensures IsKdTree(t, depth, k)
  {
    if t.Node? {
      var s := BuiltNode(t, points, depth);
      var m := |s| / 2;
      UniformPermutation(s, points, k);
      assert SortedOnAxis(s, depth % k);
      assert Uniform(s[..m], k) && Uniform(s[m + 1..], k);
      BuiltKeepsPoints(t.left, s[..m], depth + 1);
      BuiltKeepsPoints(t.right, s[m + 1..], depth + 1);
      BuiltIsKdTree(t.left, s[..m], depth + 1, k);
      BuiltIsKdTree(t.right, s[m + 1..], depth + 1, k);
      NodeIsKdTree(t.point, t.left, t.right, s, m, depth, k);
    }
  }

  /** Two trees have the same shape: the same nodes in the same positions,
      whatever points they hold. */
  predicate SameShape(t1: Tree, t2: Tree)
  {
    match (t1, t2)
    case (Nil, Nil) => true
    case (Node(_, l1, r1), Node(_, l2, r2)) => SameShape(l1, l2) && SameShape(r1, r2)
    case _ => false
  }

  /** The shape of a median-split tree depends on nothing but its size. */
  lemma {:induction false} MedianSplitShape(t1: Tree, t2: Tree)
    requires MedianSplit(t1) && MedianSplit(t2) && Size(t1) == Size(t2)
    ensures SameShape(t1, t2)
  {
    match (t1, t2)
    case (Nil, Nil) =>
    case (Node(_, l1, r1), Node(_, l2, r2)) =>
      MedianSplitShape(l1, l2);
      MedianSplitShape(r1, r2);
  }

  /** Construction is deterministic in shape: any two lists of the same
      length give trees of the same shape, however the sort orders ties. */
  lemma BuiltShapeDeterministic(t1: Tree, points1: seq<Point>, t2: Tree, points2: seq<Point>, depth: nat)
    requires Built(t1, points1, depth) && Built(t2, points2, depth)
    requires |points1| == |points2|
    ensures SameShape(t1, t2)
  {
    BuiltKeepsPoints(t1, points1, depth);
    BuiltKeepsPoints(t2, points2, depth);
    BuiltIsMedianSplit(t1, points1, depth);
    BuiltIsMedianSplit(t2, points2, depth);
    MedianSplitShape(t1, t2);
  }

  /** The node's point has the coordinate of the element at n/2 of every
      ascending ordering of the list on the split axis: ties aside, the
      root is the median. */
  lemma BuiltRootIsMedian(t: Tree, points: seq<Point>, depth: nat, s: seq<Point>)
    requires Built(t, points, depth) && points != [] && 0 < |points[0]|
    requires IsSortedPermutation(s, points, SplitAxis(points, depth))
    ensures t.Node? && |s| == |points|
    ensures t.point[SplitAxis(points, depth)] == s[|s| / 2][SplitAxis(points, depth)]
  {
    var axis := SplitAxis(points, depth);
    var s' := BuiltNode(t, points, depth);
    assert |multiset(s)| == |multiset(points)|;
    SortedKeysAgree(s', s, axis);
  }

  /** When no two points share their coordinate on the split axis (so an
      ascending ordering rises strictly from each point to the next), the
      sort has exactly one outcome, so the node and the lists its subtrees
      are built from are fixed. */
  lemma BuiltFromDistinctKeys(t: Tree, points: seq<Point>, depth: nat, s: seq<Point>)
    requires Built(t, points, depth) && points != [] && 0 < |points[0]|
    requires IsSortedPermutation(s, points, SplitAxis(points, depth))
    requires forall i | 0 <= i < |s| - 1 :: s[i][SplitAxis(points, depth)] < s[i + 1][SplitAxis(points, depth)]
    ensures t.Node? && 0 < |s| && t.point == s[|s| / 2]
    ensures Built(t.left, s[..|s| / 2], depth + 1)
    ensures Built(t.right, s[|s| / 2 + 1..], depth + 1)
  {
    var s' := BuiltNode(t, points, depth);
    AdjacentAscending(s, SplitAxis(points, depth));
    SortedPermutationUnique(s', s, SplitAxis(points, depth));
  }

  /** No two entries of the list share a coordinate on any axis both have. */
  predicate DistinctKeys(points: seq<Point>)
  {
    forall i, j, a: nat | 0 <= i < j < |points| && a < |points[i]| && a < |points[j]| :: points[i][a] != points[j][a]
  }

  /** A point with at least one coordinate occurs at most once in a list
      with distinct keys. */
  lemma {:induction false} OccursAtMostOnce(points: seq<Point>, x: Point)
    requires DistinctKeys(points) && 0 < |x|
    ensures multiset(points)[x] <= 1
  {
    if points != [] {
      var rest := points[1..];
      assert points == [points[0]] + rest;
      assert DistinctKeys(rest) by {
        forall i, j, a: nat | 0 <= i < j < |rest| && a < |rest[i]| && a < |rest[j]|
          ensures rest[i][a] != rest[j][a]
        {
          assert rest[i] == points[i + 1] && rest[j] == points[j + 1];
        }
      }
      OccursAtMostOnce(rest, x);
      if points[0] == x {
        forall k | 0 <= k < |rest|
          ensures rest[k] != x
        {
          assert rest[k] == points[k + 1];
          if 0 < |points[k + 1]| {
            assert points[0][0] != points[k + 1][0];
          }
        }
        assert x !in multiset(rest);
      }
    }
  }

  /** Two different indices holding the same point count it twice. */
  lemma TwoIndices(s: seq<Point>, i: nat, j: nat)
    requires i < j < |s| && s[i] == s[j]
    ensures multiset(s)[s[i]] >= 2
  {
    assert s == s[..j] + [s[j]] + s[j + 1..];
    assert s[..j][i] == s[i];
    assert s[i] in multiset(s[..j]);
  }

  /** Reordering a list keeps its keys distinct. */
  lemma DistinctKeysPermutation(s: seq<Point>, points: seq<Point>)
    requires multiset(s) == multiset(points) && DistinctKeys(points)
    ensures DistinctKeys(s)
  {
    forall i, j, a: nat | 0 <= i < j < |s| && a < |s[i]| && a < |s[j]|
      ensures s[i][a] != s[j][a]
    {
      assert s[i] in multiset(points) && s[j] in multiset(points);
      var i' :| 0 <= i' < |points| && points[i'] == s[i];
      var j' :| 0 <= j' < |points| && points[j'] == s[j];
      OccursAtMostOnce(points, s[i]);
      if s[i] == s[j] {
        TwoIndices(s, i, j);
      }
      assert s[i] != s[j];
      assert i' != j';
      if i' < j' {
        assert points[i'][a] != points[j'][a];
      } else {
        assert points[j'][a] != points[i'][a];
      }
    }
  }

  /** Slices of a list with distinct keys have distinct keys. */
  lemma DistinctKeysSlices(s: seq<Point>, m: nat)
    requires m < |s| && DistinctKeys(s)
    ensures DistinctKeys(s[..m]) && DistinctKeys(s[m + 1..])
  {
    var right := s[m + 1..];
    forall i, j, a: nat | 0 <= i < j < |right| && a < |right[i]| && a < |right[j]|
      ensures right[i][a] != right[j][a]
    {
      assert right[i] == s[m + 1 + i] && right[j] == s[m + 1 + j];
    }
  }

  /** An ascending ordering of a list with distinct keys rises strictly
      from each point to the next. */
  lemma DistinctSortedRises(s: seq<Point>, axis: nat)
    requires HasAxis(s, axis) && SortedOnAxis(s, axis) && DistinctKeys(s)
    ensures forall i | 0 <= i < |s| - 1 :: s[i][axis] < s[i + 1][axis]
  {
    forall i | 0 <= i < |s| - 1
      ensures s[i][axis] < s[i + 1][axis]
    {
      assert s[i][axis] <= s[i + 1][axis] && s[i][axis] != s[i + 1][axis];
    }
  }

  /** Construction is deterministic: when no two points of the list share a
      coordinate on any axis, the sort never meets a tie, so building from
      the same list at the same depth always gives the same tree, point for
      point. */
  lemma {:induction false} BuiltDeterministic(t1: Tree, t2: Tree, points: seq<Point>, depth: nat)
    requires Built(t1, points, depth) && Built(t2, points, depth) && DistinctKeys(points)
    ensures t1 == t2
    decreases |points|
  {
    if t1.Node? {
      var s := BuiltNode(t1, points, depth);
      var m := |s| / 2;
      var axis := SplitAxis(points, depth);
      assert |multiset(s)| == |multiset(points)|;
      DistinctKeysPermutation(s, points);
      DistinctSortedRises(s, axis);
      BuiltFromDistinctKeys(t2, points, depth, s);
      DistinctKeysSlices(s, m);
      BuiltDeterministic(t1.left, t2.left, s[..m], depth + 1);
      BuiltDeterministic(t1.right, t2.right, s[m + 1..], depth + 1);
    }
  }
}
