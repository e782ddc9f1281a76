/** The pre-order walk that prints the tree: each node's point on a line of
    its own, indented two columns per level below the root. The printed
    text of a point is not modelled; a line is its indent and its point. */
module KdTraverse {
  import opened KdTypes

  /** One printed line: the indent before the point, and the point. */
  datatype Line = Line(indent: nat, point: Point)

  /** Walks the subtree root first, then the left subtree, then the right
      one, two columns deeper; an empty subtree prints nothing. One line is
      printed per node. */
  function Traverse(t: Tree, indent: nat): (lines: seq<Line>)
    ensures |lines| == Size(t)
  {
    match t
    case Nil => []
    case Node(p, l, r) => [Line(indent, p)] + Traverse(l, indent + 2) + Traverse(r, indent + 2)
  }

  /** The points that a list of lines prints, counted with multiplicity. */
  function Visited(lines: seq<Line>): multiset<Point>
  {
    if lines == [] then multiset{} else multiset{lines[0].point} + Visited(lines[1..])
  }

  lemma {:induction false} VisitedAppend(a: seq<Line>, b: seq<Line>)
    ensures Visited(a + b) == Visited(a) + Visited(b)
  {
    if a != [] {
      assert (a + b)[1..] == a[1..] + b;
      VisitedAppend(a[1..], b);
    } else {
      assert a + b == b;
    }
  }

  /** The walk prints every stored point exactly as often as the tree holds
      it: each node once, none invented. */
  lemma {:induction false} TraverseVisitsEveryNodeOnce(t: Tree, indent: nat)
    ensures Visited(Traverse(t, indent)) == Points(t)
  {
    match t
    case Nil =>
    case Node(p, l, r) =>
      TraverseVisitsEveryNodeOnce(l, indent + 2);
      TraverseVisitsEveryNodeOnce(r, indent + 2);
      VisitedAppend([Line(indent, p)] + Traverse(l, indent + 2), Traverse(r, indent + 2));
      VisitedAppend([Line(indent, p)], Traverse(l, indent + 2));
  }

  /** The points stored at the given depth below the root, with
      multiplicity. */
  function LevelPoints(t: Tree, depth: nat): multiset<Point>
  {
    match t
    case Nil => multiset{}
    case Node(p, l, r) => if depth == 0 then multiset{p} else LevelPoints(l, depth - 1) + LevelPoints(r, depth - 1)
  }

  /** The points printed with the given indent, with multiplicity. */
  function AtIndent(lines: seq<Line>, indent: nat): multiset<Point>
  {
    if lines == [] then multiset{}
    else (if lines[0].indent == indent then multiset{lines[0].point} else multiset{}) + AtIndent(lines[1..], indent)
  }

  lemma {:induction false} AtIndentAppend(a: seq<Line>, b: seq<Line>, indent: nat)
    ensures AtIndent(a + b, indent) == AtIndent(a, indent) + AtIndent(b, indent)
  {
    if a != [] {
      assert (a + b)[1..] == a[1..] + b;
      AtIndentAppend(a[1..], b, indent);
    } else {
      assert a + b == b;
    }
  }

  /** The points at a given indent are the node's own point, if its line
      has that indent, and those of its subtrees' lines. */
  lemma NodeAtIndent(p: Point, left: seq<Line>, right: seq<Line>, indent: nat, w: nat)
    ensures AtIndent([Line(indent, p)] + left + right, w)
            == (if w == indent then multiset{p} else multiset{}) + AtIndent(left, w) + AtIndent(right, w)
  {
    AtIndentAppend([Line(indent, p)] + left, right, w);
    AtIndentAppend([Line(indent, p)], left, w);
    assert AtIndent([Line(indent, p)], w) == if w == indent then multiset{p} else multiset{};
  }

  /** The points a subtree walked from `indent` should print at column w:
      those stored at depth d when w is indent + 2d, none otherwise. */
  function LevelAtIndent(t: Tree, indent: nat, w: nat): multiset<Point>
  {
    if indent <= w && (w - indent) % 2 == 0 then LevelPoints(t, (w - indent) / 2) else multiset{}
  }

  /** A node should print its own point at its own indent, and its
      subtrees' points two columns deeper. */
  lemma NodeLevelAtIndent(p: Point, l: Tree, r: Tree, indent: nat, w: nat)
    ensures LevelAtIndent(Node(p, l, r), indent, w)
            == (if w == indent then multiset{p} else multiset{}) + LevelAtIndent(l, indent + 2, w) + LevelAtIndent(r, indent + 2, w)
  {
    if indent + 2 <= w && (w - indent) % 2 == 0 {
      var d := (w - indent) / 2;
      assert (w - (indent + 2)) % 2 == 0 && (w - (indent + 2)) / 2 == d - 1;
    }
  }

  /** Indentation is twice the depth: walked from indent i, the lines with
      indent i + 2d print exactly the points stored at depth d, each as
      often as it is stored there, and no line has any other indent. */
  lemma {:induction false} TraverseIndentIsTwiceDepth(t: Tree, indent: nat, w: nat)
    ensures AtIndent(Traverse(t, indent), w)
            == if indent <= w && (w - indent) % 2 == 0 then LevelPoints(t, (w - indent) / 2) else multiset{}
  {
    TraverseAtIndent(t, indent, w);
  }

  lemma {:induction false} TraverseAtIndent(t: Tree, indent: nat, w: nat)
    ensures AtIndent(Traverse(t, indent), w) == LevelAtIndent(t, indent, w)
  {
    match t
    case Nil =>
    case Node(p, l, r) =>
      TraverseAtIndent(l, indent + 2, w);
      TraverseAtIndent(r, indent + 2, w);
      assert Traverse(t, indent) == [Line(indent, p)] + Traverse(l, indent + 2) + Traverse(r, indent + 2);
      NodeAtIndent(p, Traverse(l, indent + 2), Traverse(r, indent + 2), indent, w);
      NodeLevelAtIndent(p, l, r, indent, w);
  }

  /** Every line's indent is at least lo, below hi, and an even number of
      columns past lo. */
  predicate IndentsWithin(lines: seq<Line>, lo: nat, hi: nat)
  {
    forall i | 0 <= i < |lines| :: lo <= lines[i].indent < hi && (lines[i].indent - lo) % 2 == 0
  }

  lemma IndentsWithinAppend(a: seq<Line>, b: seq<Line>, lo: nat, hi: nat)
    requires IndentsWithin(a, lo, hi) && IndentsWithin(b, lo, hi)
    ensures IndentsWithin(a + b, lo, hi)
  {
    forall i | 0 <= i < |a + b|
      ensures lo <= (a + b)[i].indent < hi && ((a + b)[i].indent - lo) % 2 == 0
    {
      if i >= |a| {
        assert (a + b)[i] == b[i - |a|];
      }
    }
  }

  /** Bounds for a subtree walked two columns deeper hold, widened, for the
      parent. */
  lemma IndentsWithinWiden(lines: seq<Line>, lo: nat, hi: nat, hi': nat)
    requires IndentsWithin(lines, lo + 2, hi) && hi <= hi'
    ensures IndentsWithin(lines, lo, hi')
  {
    forall i | 0 <= i < |lines|
      ensures lo <= lines[i].indent < hi' && (lines[i].indent - lo) % 2 == 0
    {
      assert (lines[i].indent - lo - 2) % 2 == 0;
    }
  }

  /** A node's line followed by its subtrees' lines, each walked two
      columns deeper, keeps the bounds. */
  lemma NodeIndentsWithin(p: Point, left: seq<Line>, right: seq<Line>, indent: nat, hl: nat, hr: nat, hi: nat)
    requires IndentsWithin(left, indent + 2, indent + 2 + 2 * hl)
    requires IndentsWithin(right, indent + 2, indent + 2 + 2 * hr)
    requires indent + 2 + 2 * hl <= hi && indent + 2 + 2 * hr <= hi
    ensures IndentsWithin([Line(indent, p)] + left + right, indent, hi)
  {
    IndentsWithinWiden(left, indent, indent + 2 + 2 * hl, hi);
    IndentsWithinWiden(right, indent, indent + 2 + 2 * hr, hi);
    assert IndentsWithin([Line(indent, p)], indent, hi);
    IndentsWithinAppend([Line(indent, p)], left, indent, hi);
    IndentsWithinAppend([Line(indent, p)] + left, right, indent, hi);
  }

  /** Every line's indent lies between the starting indent and the deepest
      level of the tree, an even number of columns in. */
  lemma {:induction false} TraverseIndentBounds(t: Tree, indent: nat)
    ensures IndentsWithin(Traverse(t, indent), indent, indent + 2 * Height(t))
  {
    match t
    case Nil =>
    case Node(p, l, r) =>
      TraverseIndentBounds(l, indent + 2);
      TraverseIndentBounds(r, indent + 2);
      NodeIndentsWithin(p, Traverse(l, indent + 2), Traverse(r, indent + 2), indent, Height(l), Height(r), indent + 2 * Height(t));
  }

  /** `count` copies of the stream's fill character, a space by default. */
  function Fill(count: nat): (s: string)
    ensures |s| == count && forall i | 0 <= i < count :: s[i] == ' '
  {
    if count == 0 then "" else Fill(count - 1) + " "
  }

  /** Writes s right-aligned in a field of the given width, as a stream
      with that width set does: fill characters first, then s; a value
      wider than the field is written whole. */
  function SetWidth(width: nat, s: string): (r: string)
    ensures |r| == if |s| < width then width else |s|
    ensures r[|r| - |s|..] == s
    ensures forall i | 0 <= i < |r| - |s| :: r[i] == ' '
  {
    if |s| < width then Fill(width - |s|) + s else s
  }

  /** What is written before a node's point: nothing at indent 0, otherwise
      a single space in a field of `indent` columns. */
  function Padding(indent: nat): (pad: string)
    ensures |pad| == indent
    ensures forall i | 0 <= i < |pad| :: pad[i] == ' '
  {
    if indent != 0 then SetWidth(indent, " ") else ""
  }
}
