/** The sort step of tree construction: ordering the working list ascending
    on one axis with the axis comparator, and what any such ordering is
    bound to look like. */
module KdSort {
  import opened KdTypes

  /** Every point of the list has the given axis. */
  predicate HasAxis(s: seq<Point>, axis: nat)
  {
    forall i | 0 <= i < |s| :: axis < |s[i]|
  }

  /** The list is ascending on the axis: no later point is less than an
      earlier one. */
  predicate SortedOnAxis(s: seq<Point>, axis: nat)
    requires HasAxis(s, axis)
  {
    forall i, j | 0 <= i < j < |s| :: s[i][axis] <= s[j][axis]
  }

  /** The list s is one possible outcome of sorting `points` on the axis:
      a permutation of it that is ascending on the axis. */
  ghost predicate IsSortedPermutation(s: seq<Point>, points: seq<Point>, axis: nat)
  {
    multiset(s) == multiset(points) && HasAxis(s, axis) && SortedOnAxis(s, axis)
  }

  /** The first n points of the list are ascending on the axis. */
  predicate SortedPrefix(s: seq<Point>, n: nat, axis: nat)
    requires HasAxis(s, axis)
  {
    forall m, k | 0 <= m < k < n && k < |s| :: s[m][axis] <= s[k][axis]
  }

  /** The state of one insertion pass: the first i + 1 points are ascending
      once the point at j, which is being moved down, is set aside, and
      that point is not above anything after it in the range. */
  predicate Inserting(s: seq<Point>, i: nat, j: nat, axis: nat)
    requires HasAxis(s, axis) && j <= i < |s|
  {
    && (forall m, k | 0 <= m < k <= i && m != j && k != j :: s[m][axis] <= s[k][axis])
    && (forall m, k | 0 <= m < j < k <= i :: s[m][axis] <= s[k][axis])
    && (forall k | j < k <= i :: s[j][axis] <= s[k][axis])
  }

  /** The list with its elements at j - 1 and j exchanged. */
  function Swap(s: seq<Point>, j: nat): (r: seq<Point>)
    requires 0 < j < |s|
    ensures |r| == |s| && r[j - 1] == s[j] && r[j] == s[j - 1]
    ensures forall m | 0 <= m < |s| && m != j - 1 && m != j :: r[m] == s[m]
    ensures multiset(r) == multiset(s)
  {
    s[j - 1 := s[j]][j := s[j - 1]]
  }

  /** A pass starts with the new point at the end of the sorted prefix. */
  lemma StartInserting(s: seq<Point>, i: nat, axis: nat)
    requires HasAxis(s, axis) && i < |s| && SortedPrefix(s, i, axis)
    ensures Inserting(s, i, i, axis)
  {
  }

  /** Moving the point down past a larger neighbour keeps the pass's
      state. */
  lemma SwapKeepsInserting(s: seq<Point>, i: nat, j: nat, axis: nat)
    requires HasAxis(s, axis) && 0 < j <= i < |s| && Inserting(s, i, j, axis)
    requires s[j][axis] < s[j - 1][axis]
    ensures HasAxis(Swap(s, j), axis) && Inserting(Swap(s, j), i, j - 1, axis)
  {
    var r := Swap(s, j);
    assert forall m | 0 <= m < |r| :: r[m] == s[if m == j - 1 then j else if m == j then j - 1 else m];
  }

  /** The pass ends when the point has no larger neighbour below it: the
      first i + 1 points are then ascending. */
  lemma StopInserting(s: seq<Point>, i: nat, j: nat, axis: nat)
    requires HasAxis(s, axis) && j <= i < |s| && Inserting(s, i, j, axis)
    requires j == 0 || s[j - 1][axis] <= s[j][axis]
    ensures SortedPrefix(s, i + 1, axis)
  {
  }

  /** Sorts the array in place, ascending on the axis, comparing points only
      through the axis comparator (an insertion sort standing for the
      library sort). */
  method SortOnAxis(a: array<Point>, axis: nat)
    requires HasAxis(a[..], axis)
    modifies a
    ensures IsSortedPermutation(a[..], old(a[..]), axis)
  {
    var cmp := CompareAxis(axis);
    var i := 0;
    while i < a.Length
      invariant i <= a.Length
      invariant HasAxis(a[..], axis) && SortedPrefix(a[..], i, axis)
      invariant multiset(a[..]) == multiset(old(a[..]))
    {
      StartInserting(a[..], i, axis);
      var j := i;
      while 0 < j && Less(cmp, a[j], a[j - 1])
        invariant 0 <= j <= i < a.Length
        invariant HasAxis(a[..], axis) && Inserting(a[..], i, j, axis)
        invariant multiset(a[..]) == multiset(old(a[..]))
      {
        ghost var before := a[..];
        SwapKeepsInserting(before, i, j, axis);
        a[j - 1], a[j] := a[j], a[j - 1];
        assert a[..] == Swap(before, j);
        j := j - 1;
      }
      StopInserting(a[..], i, j, axis);
      i := i + 1;
    }
  }

  /** The list without its element at index j. */
  function RemoveAt(s: seq<Point>, j: nat): (r: seq<Point>)
    requires j < |s|
    ensures |r| == |s| - 1
    ensures forall m | 0 <= m < |r| :: r[m] == if m < j then s[m] else s[m + 1]
    ensures multiset(r) == multiset(s) - multiset{s[j]}
  {
    assert s == s[..j] + [s[j]] + s[j + 1..];
    s[..j] + s[j + 1..]
  }

  /** Dropping an element keeps a sorted list sorted. */
  lemma RemoveAtSorted(s: seq<Point>, j: nat, axis: nat)
    requires j < |s| && HasAxis(s, axis) && SortedOnAxis(s, axis)
    ensures HasAxis(RemoveAt(s, j), axis) && SortedOnAxis(RemoveAt(s, j), axis)
  {
    var r := RemoveAt(s, j);
    forall m, n | 0 <= m < n < |r|
      ensures r[m][axis] <= r[n][axis]
    {
      assert r[m] == s[if m < j then m else m + 1];
      assert r[n] == s[if n < j then n else n + 1];
    }
  }

  /** In a sorted list, the first element has the least key of all. */
  lemma SortedFirstIsLeast(s: seq<Point>, x: Point, axis: nat)
    requires HasAxis(s, axis) && SortedOnAxis(s, axis) && x in multiset(s)
    ensures s[0][axis] <= x[axis]
  {
    var i :| 0 <= i < |s| && s[i] == x;
    assert i == 0 || s[0][axis] <= s[i][axis];
  }

  /** Sorting is unstable, but its outcome is fixed up to ties: any two
      sorted permutations of the same points agree on every position's
      axis coordinate. */
  lemma {:induction false} SortedKeysAgree(s1: seq<Point>, s2: seq<Point>, axis: nat)
    requires IsSortedPermutation(s1, s2, axis)
    requires HasAxis(s2, axis) && SortedOnAxis(s2, axis)
    ensures |s1| == |s2|
    ensures forall i | 0 <= i < |s1| :: s1[i][axis] == s2[i][axis]
    decreases |s1|
  {
    assert |multiset(s1)| == |multiset(s2)|;
    if |s1| == 0 {
      return;
    }
    assert s1[0] in multiset(s2);
    var j :| 0 <= j < |s2| && s2[j] == s1[0];
    SortedFirstIsLeast(s1, s2[0], axis);
    SortedFirstIsLeast(s2, s1[0], axis);
    var rest1 := RemoveAt(s1, 0);
    var rest2 := RemoveAt(s2, j);
    RemoveAtSorted(s1, 0, axis);
    RemoveAtSorted(s2, j, axis);
    SortedKeysAgree(rest1, rest2, axis);
    KeysAgreeAroundFirst(s1, s2, j, axis);
  }

  /** If the lists agree on the first key and agree on their keys once the
      first point of s1 and its occurrence at j in s2 are removed, they
      agree on every key. */
  lemma KeysAgreeAroundFirst(s1: seq<Point>, s2: seq<Point>, j: nat, axis: nat)
    requires HasAxis(s1, axis) && HasAxis(s2, axis) && SortedOnAxis(s2, axis)
    requires 0 <= j < |s2| && |s1| == |s2| && s2[j] == s1[0] && s1[0][axis] == s2[0][axis]
    requires forall i | 0 <= i < |s1| - 1 :: RemoveAt(s1, 0)[i][axis] == RemoveAt(s2, j)[i][axis]
    ensures forall i | 0 <= i < |s1| :: s1[i][axis] == s2[i][axis]
  {
    var rest1 := RemoveAt(s1, 0);
    var rest2 := RemoveAt(s2, j);
    forall i | 0 < i < |s1|
      ensures s1[i][axis] == s2[i][axis]
    {
      assert s1[i] == rest1[i - 1];
      if i - 1 < j {
        assert rest2[i - 1] == s2[i - 1];
        assert s2[0][axis] <= s2[i - 1][axis];
        assert s2[i][axis] <= s2[j][axis];
      } else {
        assert rest2[i - 1] == s2[i];
      }
    }
  }

  /** Keys that rise from each point to the next rise across the whole
      list. */
  lemma {:induction false} AdjacentAscending(s: seq<Point>, axis: nat)
    requires HasAxis(s, axis)
    requires forall i | 0 <= i < |s| - 1 :: s[i][axis] < s[i + 1][axis]
    ensures forall i, j | 0 <= i < j < |s| :: s[i][axis] < s[j][axis]
  {
    if 1 < |s| {
      var tail := s[1..];
      assert forall i | 0 <= i < |tail| :: tail[i] == s[i + 1];
      AdjacentAscending(tail, axis);
      forall i, j | 0 <= i < j < |s|
        ensures s[i][axis] < s[j][axis]
      {
        if 0 < i {
          assert s[i] == tail[i - 1] && s[j] == tail[j - 1];
        } else if 1 < j {
          assert s[1] == tail[0] && s[j] == tail[j - 1];
        }
      }
    }
  }

  /** When the keys of a sorted list are strictly increasing, it is the only
      sorted permutation of its points: sorting is then deterministic. */
  lemma SortedPermutationUnique(s1: seq<Point>, s2: seq<Point>, axis: nat)
    requires IsSortedPermutation(s1, s2, axis)
    requires HasAxis(s2, axis)
    requires forall i, j | 0 <= i < j < |s2| :: s2[i][axis] < s2[j][axis]
    ensures s1 == s2
  {
    SortedKeysAgree(s1, s2, axis);
    forall i | 0 <= i < |s1|
      ensures s1[i] == s2[i]
    {
      assert s1[i] in multiset(s2);
      var j :| 0 <= j < |s2| && s2[j] == s1[i];
      assert s2[j][axis] == s2[i][axis];
    }
  }
}
