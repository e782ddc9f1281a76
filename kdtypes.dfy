/** The value types of the k-d tree header: points, the axis comparator used
    as the sort key, and the tree node. */
module KdTypes {

  /** A coordinate. The C++ code stores a double but only ever compares two
      coordinates with `<`, so any totally ordered type will do. */
  type Coord = int

  /** A k-dimensional point: its coordinates in axis order. */
  type Point = seq<Coord>

  /** The sort key object: remembers which axis to compare on. */
  datatype CompareAxis = CompareAxis(axis: nat)

  /** True when the first point lies strictly below the second on the
      comparator's axis. Both points must have that axis; the C++ code's
      bounds-checked access throws otherwise. */
  predicate Less(cmp: CompareAxis, p1: Point, p2: Point)
    requires cmp.axis < |p1| && cmp.axis < |p2|
  {
    p1[cmp.axis] < p2[cmp.axis]
  }

  /** Points are equivalent under a comparator when neither is less. */
  predicate Equivalent(cmp: CompareAxis, p1: Point, p2: Point)
    requires cmp.axis < |p1| && cmp.axis < |p2|
  {
    !Less(cmp, p1, p2) && !Less(cmp, p2, p1)
  }

  /** The comparator is a strict weak ordering, which is what a sort
      requires of it: irreflexive, asymmetric, transitive, and with a
      transitive equivalence. Its verdict depends only on the one axis. */
  lemma CompareAxisIsStrictWeakOrder(cmp: CompareAxis, p1: Point, p2: Point, p3: Point)
    requires cmp.axis < |p1| && cmp.axis < |p2| && cmp.axis < |p3|
    ensures !Less(cmp, p1, p1)
    ensures Less(cmp, p1, p2) ==> !Less(cmp, p2, p1)
    ensures Less(cmp, p1, p2) && Less(cmp, p2, p3) ==> Less(cmp, p1, p3)
    ensures Equivalent(cmp, p1, p2) && Equivalent(cmp, p2, p3) ==> Equivalent(cmp, p1, p3)
    ensures Less(cmp, p1, p2) || Less(cmp, p2, p1) || p1[cmp.axis] == p2[cmp.axis]
  {
  }

  /** A node of the tree: a point and two (possibly empty) subtrees. The
      C++ code's shared pointers are never shared or mutated after
      construction, so a tree value captures them; `Nil` is the null
      pointer. */
  datatype Tree = Nil | Node(point: Point, left: Tree, right: Tree)

  /** Number of nodes. */
  function Size(t: Tree): nat
  {
    match t
    case Nil => 0
    case Node(_, l, r) => Size(l) + Size(r) + 1
  }

  /** The multiset of points stored in the tree. */
  function Points(t: Tree): (m: multiset<Point>)
    ensures |m| == Size(t)
  {
    match t
    case Nil => multiset{}
    case Node(p, l, r) => multiset{p} + Points(l) + Points(r)
  }

  /** Number of nodes on the longest root-to-leaf path. */
  function Height(t: Tree): nat
  {
    match t
    case Nil => 0
    case Node(_, l, r) => 1 + (if Height(l) < Height(r) then Height(r) else Height(l))
  }

  /** Every point of the list has exactly k > 0 coordinates. */
  predicate Uniform(points: seq<Point>, k: nat)
  {
    0 < k && forall i | 0 <= i < |points| :: |points[i]| == k
  }

  /** Every point of the tree has the axis and is not above v on it. */
  predicate AllNotAbove(t: Tree, axis: nat, v: Coord)
  {
    match t
    case Nil => true
    case Node(p, l, r) =>
      axis < |p| && p[axis] <= v && AllNotAbove(l, axis, v) && AllNotAbove(r, axis, v)
  }

  /** Every point of the tree has the axis and is not below v on it. */
  predicate AllNotBelow(t: Tree, axis: nat, v: Coord)
  {
    match t
    case Nil => true
    case Node(p, l, r) =>
      axis < |p| && v <= p[axis] && AllNotBelow(l, axis, v) && AllNotBelow(r, axis, v)
  }

  /** A point is stored in a node exactly when it is the node's own point
      or is stored in one of its subtrees. */
  lemma InNode(p: Point, l: Tree, r: Tree)
    ensures forall q :: q in Points(Node(p, l, r)) <==> q == p || q in Points(l) || q in Points(r)
  {
  }

  /** The upper bound says that every stored point is not above v. */
  lemma {:induction false} NotAboveMeansPoints(t: Tree, axis: nat, v: Coord)
    ensures AllNotAbove(t, axis, v) <==> forall q | q in Points(t) :: axis < |q| && q[axis] <= v
  {
    match t
    case Nil =>
    case Node(p, l, r) =>
      NotAboveMeansPoints(l, axis, v);
      NotAboveMeansPoints(r, axis, v);
      InNode(p, l, r);
  }

  /** The lower bound says that every stored point is not below v. */
  lemma {:induction false} NotBelowMeansPoints(t: Tree, axis: nat, v: Coord)
    ensures AllNotBelow(t, axis, v) <==> forall q | q in Points(t) :: axis < |q| && v <= q[axis]
  {
    match t
    case Nil =>
    case Node(p, l, r) =>
      NotBelowMeansPoints(l, axis, v);
      NotBelowMeansPoints(r, axis, v);
      InNode(p, l, r);
  }

  /** The k-d partitioning invariant for a subtree rooted at the given
      depth: each node holds a k-dimensional point, every point of its left
      subtree is not above it on axis depth % k, every point of its right
      subtree is not below it on that axis, and both subtrees satisfy the
      invariant one level deeper. */
  predicate IsKdTree(t: Tree, depth: nat, k: nat)
    requires 0 < k
  {
    match t
    case Nil => true
    case Node(p, l, r) =>
      var a := depth % k;
      && |p| == k
      && AllNotAbove(l, a, p[a])
      && AllNotBelow(r, a, p[a])
      && IsKdTree(l, depth + 1, k)
      && IsKdTree(r, depth + 1, k)
  }

  /** At every node, the left subtree holds exactly n/2 of the node's n
      points and the right one the remaining n - n/2 - 1. */
  predicate MedianSplit(t: Tree)
  {
    match t
    case Nil => true
    case Node(_, l, r) =>
      && Size(l) == Size(t) / 2
      && Size(r) == Size(t) - Size(t) / 2 - 1
      && MedianSplit(l)
      && MedianSplit(r)
  }

  /** Floor of the base-2 logarithm of a positive number. */
  function Log2(n: nat): nat
    requires 0 < n
  {
    if n == 1 then 0 else 1 + Log2(n / 2)
  }

  lemma {:induction false} Log2Monotone(m: nat, n: nat)
    requires 0 < m <= n
    ensures Log2(m) <= Log2(n)
  {
    if m != 1 {
      Log2Monotone(m / 2, n / 2);
    }
  }

  /** A median-split tree is balanced: sizes of sibling subtrees differ by
      at most one, and its height is exactly floor(log2 n) + 1 for n > 0
      nodes. */
  lemma {:induction false} MedianSplitHeight(t: Tree)
    requires MedianSplit(t)
    ensures t.Node? ==> Size(t.right) <= Size(t.left) <= Size(t.right) + 1
    ensures Height(t) == if Size(t) == 0 then 0 else Log2(Size(t)) + 1
  {
    match t
    case Nil =>
    case Node(_, l, r) =>
      MedianSplitHeight(l);
      MedianSplitHeight(r);
      if Size(r) > 0 {
        Log2Monotone(Size(r), Size(l));
      }
  }
}
