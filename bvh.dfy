/** The node tree of the median-split hierarchy and the shape every tree the
    builder returns has over the (reordered) triangle array. */
module BvhTree {
  import opened Geometry

  /** Largest number of triangles the median-split builder puts in a leaf. */
  const LeafSize: nat := 6

  /** A node covers the half-open range [start, end) of the triangle array.
      A leaf has no children; an interior node owns both children and records
      the axis along which its range was sorted before it was split. */
  datatype Node =
    | Leaf(box: AABB, start: nat, end: nat)
    | Interior(box: AABB, start: nat, end: nat, axis: Axis, left: Node, right: Node)

  /** Sort key of a triangle along an axis: its doubled centroid coordinate. */
  function Key(t: Triangle, a: Axis): int { Coord(t.Centroid2(), a) }

  /** The split point of a range. */
  function Mid(start: nat, end: nat): nat
    requires start <= end
  {
    start + (end - start) / 2
  }

  ghost predicate SortedOn(s: seq<Triangle>, lo: nat, hi: nat, a: Axis)
    requires lo <= hi <= |s|
  {
    forall i, j :: lo <= i < j < hi ==> Key(s[i], a) <= Key(s[j], a)
  }

  /** Every triangle of [lo, mid) is at most every triangle of [mid, hi) along `a`. */
  ghost predicate Partitioned(s: seq<Triangle>, lo: nat, mid: nat, hi: nat, a: Axis)
    requires lo <= mid <= hi <= |s|
  {
    forall i, j :: lo <= i < mid <= j < hi ==> Key(s[i], a) <= Key(s[j], a)
  }

  /** `n` is a median-split hierarchy over s[start..end): exact ranges, a leaf
      exactly when the range holds at most LeafSize triangles, a leaf box that
      is the bounds of its triangles, an interior box that is the union of its
      children's boxes, children that split the range at its midpoint, and
      siblings ordered along the node's axis. */
  ghost predicate IsBvh(n: Node, s: seq<Triangle>, start: nat, end: nat)
    decreases n
  {
    start < end <= |s| && n.start == start && n.end == end &&
    match n
    case Leaf(box, _, _) =>
      end - start <= LeafSize && box == Bounds(s, start, end)
    case Interior(box, _, _, axis, left, right) =>
      var mid := Mid(start, end);
      LeafSize < end - start &&
      IsBvh(left, s, start, mid) && IsBvh(right, s, mid, end) &&
      box == Union(left.box, right.box) &&
      Partitioned(s, start, mid, end, axis)
  }

  /** What traversal needs of a tree: every leaf range lies inside the array. */
  predicate LeavesInBounds(n: Node, len: nat) {
    match n
    case Leaf(_, start, end) => start <= end <= len
    case Interior(_, _, _, _, left, right) =>
      LeavesInBounds(left, len) && LeavesInBounds(right, len)
  }

  datatype Span = Span(start: nat, end: nat)

  /** The leaf ranges of a tree, left to right. */
  function LeafSpans(n: Node): seq<Span> {
    match n
    case Leaf(_, start, end) => [Span(start, end)]
    case Interior(_, _, _, _, left, right) => LeafSpans(left) + LeafSpans(right)
  }

  /** A hierarchy depends only on s[start..end]: it stays one when
      the array changes outside its range. */
  lemma {:induction false} IsBvhFrame(n: Node, s: seq<Triangle>, t: seq<Triangle>, start: nat, end: nat)
    requires IsBvh(n, s, start, end)
    requires end <= |t|
    requires forall i :: start <= i < end ==> s[i] == t[i]
    ensures IsBvh(n, t, start, end)
    decreases n
  {
    match n
    case Leaf(_, _, _) =>
      assert s[start..end] == t[start..end];
      BoundsPermutation(s, t, start, end);
    case Interior(_, _, _, _, left, right) =>
      var mid := Mid(start, end);
      IsBvhFrame(left, s, t, start, mid);
      IsBvhFrame(right, s, t, mid, end);
  }

  /** Every node's box is exactly the bounds of the triangles in its range. */
  lemma {:induction false} IsBvhBoxIsBounds(n: Node, s: seq<Triangle>, start: nat, end: nat)
    requires IsBvh(n, s, start, end)
    ensures n.box == Bounds(s, start, end)
    decreases n
  {
    match n
    case Leaf(_, _, _) =>
    case Interior(_, _, _, _, left, right) =>
      var mid := Mid(start, end);
      IsBvhBoxIsBounds(left, s, start, mid);
      IsBvhBoxIsBounds(right, s, mid, end);
      BoundsSplit(s, start, mid, end);
  }

  /** Every node's box encloses the box of every triangle in its range, and is
      enclosed by every box that does. */
  lemma IsBvhEncloses(n: Node, s: seq<Triangle>, start: nat, end: nat)
    requires IsBvh(n, s, start, end)
    ensures forall i :: start <= i < end ==> Contains(n.box, BoxOf(s[i]))
    ensures forall c :: (forall i :: start <= i < end ==> Contains(c, BoxOf(s[i]))) ==> Contains(c, n.box)
  {
    IsBvhBoxIsBounds(n, s, start, end);
    BoundsEncloses(s, start, end);
    forall c | forall i :: start <= i < end ==> Contains(c, BoxOf(s[i]))
      ensures Contains(c, n.box)
    {
      BoundsIsLeast(s, start, end, c);
    }
  }

  lemma {:induction false} IsBvhLeavesInBounds(n: Node, s: seq<Triangle>, start: nat, end: nat)
    requires IsBvh(n, s, start, end)
    ensures LeavesInBounds(n, |s|)
    decreases n
  {
    match n
    case Leaf(_, _, _) =>
    case Interior(_, _, _, _, left, right) =>
      IsBvhLeavesInBounds(left, s, start, Mid(start, end));
      IsBvhLeavesInBounds(right, s, Mid(start, end), end);
  }

  /** The leaves of a hierarchy over [start, end) tile that range, left to
      right, without gaps or overlaps, with 1 to LeafSize triangles each. */
  lemma {:induction false} LeavesTile(n: Node, s: seq<Triangle>, start: nat, end: nat)
    requires IsBvh(n, s, start, end)
    ensures var l := LeafSpans(n);
            |l| > 0 && l[0].start == start && l[|l| - 1].end == end &&
            (forall k :: 0 <= k < |l| - 1 ==> l[k].end == l[k + 1].start) &&
            (forall k :: 0 <= k < |l| ==> 0 < l[k].end - l[k].start <= LeafSize)
    decreases n
  {
    match n
    case Leaf(_, _, _) =>
    case Interior(_, _, _, _, left, right) =>
      var mid := Mid(start, end);
      LeavesTile(left, s, start, mid);
      LeavesTile(right, s, mid, end);
      var ll, lr := LeafSpans(left), LeafSpans(right);
      var l := ll + lr;
      assert l[|ll| - 1] == ll[|ll| - 1] && l[|ll|] == lr[0];
      forall k | 0 <= k < |l| - 1
        ensures l[k].end == l[k + 1].start
      {
        if k < |ll| - 1 {
          assert l[k] == ll[k] && l[k + 1] == ll[k + 1];
        } else if k >= |ll| {
          assert l[k] == lr[k - |ll|] && l[k + 1] == lr[k + 1 - |ll|];
        }
      }
  }
}
