/** The tree object: built once from a list of points when it is created,
    and walked for printing afterwards. */
module KdTrees {
  import opened KdTypes
  import opened KdBuild
  import opened KdTraverse

  class KdTree {
    /** The root of the tree; Nil when it was built from no points. */
    const head: Tree

    /** Builds the tree from the list, starting at depth 0. Every point must
        have the same number k > 0 of coordinates. */
    constructor (points: seq<Point>, ghost k: nat)
      requires Uniform(points, k)
      ensures Built(head, points, 0)
      ensures head == Nil <==> points == []
      ensures Points(head) == multiset(points)
      ensures IsKdTree(head, 0, k) && MedianSplit(head)
      ensures Height(head) == if points == [] then 0 else Log2(|points|) + 1
    {
      var root := BuildKdTree(points, 0, k);
      BuiltHeight(root, points, 0);
      head := root;
    }

    /** The printed walk of the whole tree: from the root at indent 0, every
        stored point once, the root's line first. */
    function TraverseTree(): (lines: seq<Line>)
      ensures Visited(lines) == Points(head)
      ensures head.Node? ==> lines[0] == Line(0, head.point)
      ensures forall i | 0 <= i < |lines| :: lines[i].indent % 2 == 0 && lines[i].indent < 2 * Height(head)
    {
      TraverseVisitsEveryNodeOnce(head, 0);
      TraverseIndentBounds(head, 0);
      Traverse(head, 0)
    }
  }
}
