/** The median-split builder: it reorders a range of the triangle array in
    place and returns the node tree over it. */
module Builder {
  import opened Geometry
  import opened BvhTree

  /** The leaf box loop: start from the first triangle's corners and widen by
      the corners of every following triangle of [start, end). */
  method ComputeLeafBox(tris: array<Triangle>, start: nat, end: nat) returns (box: AABB)
    requires start < end <= tris.Length
    ensures box == Bounds(tris[..], start, end)
  {
    box := AABB(tris[start].Min(), tris[start].Max());
    var i := start + 1;
    while i < end
      invariant start < i <= end
      invariant box == Bounds(tris[..], start, i)
    {
      box := AABB(MinVec(box.lo, tris[i].Min()), MaxVec(box.hi, tris[i].Max()));
      i := i + 1;
    }
  }

  /** The centroid box loop, on doubled coordinates: start from the first
      triangle's full corners and widen by the centroid of every following one. */
  method ComputeCentroidBox(tris: array<Triangle>, start: nat, end: nat) returns (box: AABB)
    requires start < end <= tris.Length
    ensures box == CentroidBounds(tris[..], start, end)
  {
    box := AABB(Twice(tris[start].Min()), Twice(tris[start].Max()));
    var i := start + 1;
    while i < end
      invariant start < i <= end
      invariant box == CentroidBounds(tris[..], start, i)
    {
      var c := tris[i].Centroid2();
      box := AABB(MinVec(box.lo, c), MaxVec(box.hi, c));
      i := i + 1;
    }
  }

  /** The three std::sort calls with their centroid comparators: sorts
      tris[start..end) by centroid along `axis` and touches nothing else. */
  method SortByCentroid(tris: array<Triangle>, start: nat, end: nat, axis: Axis)
    requires start <= end <= tris.Length
    modifies tris
    ensures SortedOn(tris[..], start, end, axis)
    ensures multiset(tris[..]) == old(multiset(tris[..]))
    ensures forall k :: 0 <= k < tris.Length && !(start <= k < end) ==> tris[k] == old(tris[k])
  {
    SortByKey(tris, start, end, t => Key(t, axis));
  }

  /** std::sort on [start, end) with the comparator key(x) < key(y). Only
      sortedness and the permutation are promised, as for std::sort, which
      leaves the order of equal keys unspecified. */
  method SortByKey<T>(a: array<T>, start: nat, end: nat, key: T -> int)
    requires start <= end <= a.Length
    modifies a
    ensures forall p, q :: start <= p < q < end ==> key(a[p]) <= key(a[q])
    ensures multiset(a[..]) == old(multiset(a[..]))
    ensures forall k :: 0 <= k < a.Length && !(start <= k < end) ==> a[k] == old(a[k])
  {
    if start == end {
      return;
    }
    var i := start + 1;
    while i < end
      invariant start < i <= end
      invariant forall p, q :: start <= p < q < i ==> key(a[p]) <= key(a[q])
      invariant multiset(a[..]) == old(multiset(a[..]))
      invariant forall k :: 0 <= k < a.Length && !(start <= k < end) ==> a[k] == old(a[k])
    {
      InsertLeft(a, start, i, key);
      i := i + 1;
    }
  }

  /** One insertion step: moves a[i] left into the sorted run [start, i). */
  method InsertLeft<T>(a: array<T>, start: nat, i: nat, key: T -> int)
    requires start <= i < a.Length
    requires forall p, q :: start <= p < q < i ==> key(a[p]) <= key(a[q])
    modifies a
    ensures forall p, q :: start <= p < q <= i ==> key(a[p]) <= key(a[q])
    ensures multiset(a[..]) == old(multiset(a[..]))
    ensures forall k :: 0 <= k < a.Length && !(start <= k <= i) ==> a[k] == old(a[k])
  {
    var j := i;
    while j > start && key(a[j - 1]) > key(a[j])
      invariant start <= j <= i
      invariant forall p, q :: start <= p < q <= i && p != j && q != j ==> key(a[p]) <= key(a[q])
      invariant forall q :: j < q <= i ==> key(a[j]) < key(a[q])
      invariant multiset(a[..]) == old(multiset(a[..]))
      invariant forall k :: 0 <= k < a.Length && !(start <= k <= i) ==> a[k] == old(a[k])
    {
      Swap(a, j - 1, j);
      j := j - 1;
    }
  }

  method Swap<T>(a: array<T>, i: nat, j: nat)
    requires i < j < a.Length
    modifies a
    ensures a[i] == old(a[j]) && a[j] == old(a[i])
    ensures forall k :: 0 <= k < a.Length && k != i && k != j ==> a[k] == old(a[k])
    ensures multiset(a[..]) == old(multiset(a[..]))
  {
    a[i], a[j] := a[j], a[i];
  }

  /** Two arrays that agree outside [lo, hi) and hold the same multiset agree
      as multisets on [lo, hi). */
  lemma SegmentMultiset<T>(s: seq<T>, t: seq<T>, lo: nat, hi: nat)
    requires lo <= hi <= |s| == |t|
    requires multiset(s) == multiset(t)
    requires forall k :: 0 <= k < |s| && !(lo <= k < hi) ==> s[k] == t[k]
    ensures multiset(s[lo..hi]) == multiset(t[lo..hi])
  {
    var p, q := s[..lo], s[hi..];
    assert s[..lo] == t[..lo];
    assert s[hi..] == t[hi..];
    assert s == p + s[lo..hi] + q;
    assert t == p + t[lo..hi] + q;
    calc {
      multiset(s[lo..hi]);
      multiset(s) - multiset(p) - multiset(q);
      multiset(t) - multiset(p) - multiset(q);
      multiset(t[lo..hi]);
    }
  }

  lemma SortedPartitioned(s: seq<Triangle>, lo: nat, mid: nat, hi: nat, a: Axis)
    requires lo <= mid <= hi <= |s|
    requires SortedOn(s, lo, hi, a)
    ensures Partitioned(s, lo, mid, hi, a)
  {
  }

  /** Permuting each half of a partitioned range keeps it partitioned: the
      order between siblings survives the recursive sorts. */
  lemma PartitionedPermuted(s: seq<Triangle>, t: seq<Triangle>, lo: nat, mid: nat, hi: nat, a: Axis)
    requires lo <= mid <= hi <= |s| && hi <= |t|
    requires Partitioned(s, lo, mid, hi, a)
    requires multiset(t[lo..mid]) == multiset(s[lo..mid])
    requires multiset(t[mid..hi]) == multiset(s[mid..hi])
    ensures Partitioned(t, lo, mid, hi, a)
  {
    forall i, j | lo <= i < mid <= j < hi
      ensures Key(t[i], a) <= Key(t[j], a)
    {
      assert t[i] == t[lo..mid][i - lo];
      assert t[i] in multiset(s[lo..mid]);
      var i' :| 0 <= i' < mid - lo && s[lo..mid][i'] == t[i];
      assert t[j] == t[mid..hi][j - mid];
      assert t[j] in multiset(s[mid..hi]);
      var j' :| 0 <= j' < hi - mid && s[mid..hi][j'] == t[j];
      assert s[lo + i'] == t[i] && s[mid + j'] == t[j];
    }
  }

  /** The interior case of the builder, as a proof about the four states of
      the array: on entry (s0), after the sort (s1), after the left recursion
      (s2) and after the right one (s3). */
  lemma InteriorStep(s0: seq<Triangle>, s1: seq<Triangle>, s2: seq<Triangle>, s3: seq<Triangle>,
                     start: nat, end: nat, axis: Axis, left: Node, right: Node)
    requires start + LeafSize < end <= |s0| == |s1| == |s2| == |s3|
    requires Partitioned(s1, start, Mid(start, end), end, axis)
    requires multiset(s1[start..end]) == multiset(s0[start..end])
    requires forall k :: 0 <= k < |s0| && !(start <= k < end) ==> s1[k] == s0[k]
    requires multiset(s2[start..Mid(start, end)]) == multiset(s1[start..Mid(start, end)])
    requires forall k :: 0 <= k < |s1| && !(start <= k < Mid(start, end)) ==> s2[k] == s1[k]
    requires IsBvh(left, s2, start, Mid(start, end))
    requires left.box == Bounds(s1, start, Mid(start, end))
    requires multiset(s3[Mid(start, end)..end]) == multiset(s2[Mid(start, end)..end])
    requires forall k :: 0 <= k < |s2| && !(Mid(start, end) <= k < end) ==> s3[k] == s2[k]
    requires IsBvh(right, s3, Mid(start, end), end)
    requires right.box == Bounds(s2, Mid(start, end), end)
    ensures multiset(s3[start..end]) == multiset(s0[start..end])
    ensures forall k :: 0 <= k < |s0| && !(start <= k < end) ==> s3[k] == s0[k]
    ensures IsBvh(Interior(Union(left.box, right.box), start, end, axis, left, right), s3, start, end)
    ensures Union(left.box, right.box) == Bounds(s0, start, end)
  {
    var mid := Mid(start, end);
    InteriorPermutes(s0, s1, s2, s3, start, mid, end);
    InteriorShape(s1, s2, s3, start, end, axis, left, right);
    InteriorBox(s0, s1, s2, start, mid, end, left.box, right.box);
  }

  /** Sort, then left and right recursion: the range is permuted, the halves
      separately, and nothing outside it changes. */
  lemma InteriorPermutes(s0: seq<Triangle>, s1: seq<Triangle>, s2: seq<Triangle>, s3: seq<Triangle>,
                         start: nat, mid: nat, end: nat)
    requires start <= mid <= end <= |s0| == |s1| == |s2| == |s3|
    requires multiset(s1[start..end]) == multiset(s0[start..end])
    requires forall k :: 0 <= k < |s0| && !(start <= k < end) ==> s1[k] == s0[k]
    requires multiset(s2[start..mid]) == multiset(s1[start..mid])
    requires forall k :: 0 <= k < |s1| && !(start <= k < mid) ==> s2[k] == s1[k]
    requires multiset(s3[mid..end]) == multiset(s2[mid..end])
    requires forall k :: 0 <= k < |s2| && !(mid <= k < end) ==> s3[k] == s2[k]
    ensures multiset(s3[start..end]) == multiset(s0[start..end])
    ensures forall k :: 0 <= k < |s0| && !(start <= k < end) ==> s3[k] == s0[k]
    ensures multiset(s3[start..mid]) == multiset(s1[start..mid])
    ensures multiset(s3[mid..end]) == multiset(s1[mid..end])
  {
    assert s2[mid..end] == s1[mid..end];
    assert s3[start..mid] == s2[start..mid];
    assert s1[start..end] == s1[start..mid] + s1[mid..end];
    assert s3[start..end] == s3[start..mid] + s3[mid..end];
  }

  lemma InteriorShape(s1: seq<Triangle>, s2: seq<Triangle>, s3: seq<Triangle>,
                      start: nat, end: nat, axis: Axis, left: Node, right: Node)
    requires start + LeafSize < end <= |s1| == |s2| == |s3|
    requires Partitioned(s1, start, Mid(start, end), end, axis)
    requires multiset(s3[start..Mid(start, end)]) == multiset(s1[start..Mid(start, end)])
    requires multiset(s3[Mid(start, end)..end]) == multiset(s1[Mid(start, end)..end])
    requires forall k :: 0 <= k < |s2| && !(Mid(start, end) <= k < end) ==> s3[k] == s2[k]
    requires IsBvh(left, s2, start, Mid(start, end))
    requires IsBvh(right, s3, Mid(start, end), end)
    ensures IsBvh(Interior(Union(left.box, right.box), start, end, axis, left, right), s3, start, end)
  {
    var mid := Mid(start, end);
    IsBvhFrame(left, s2, s3, start, mid);
    PartitionedPermuted(s1, s3, start, mid, end, axis);
  }

  lemma InteriorBox(s0: seq<Triangle>, s1: seq<Triangle>, s2: seq<Triangle>,
                    start: nat, mid: nat, end: nat, leftBox: AABB, rightBox: AABB)
    requires start < mid < end <= |s0| == |s1| == |s2|
    requires multiset(s1[start..end]) == multiset(s0[start..end])
    requires forall k :: 0 <= k < |s1| && !(start <= k < mid) ==> s2[k] == s1[k]
    requires leftBox == Bounds(s1, start, mid)
    requires rightBox == Bounds(s2, mid, end)
    ensures Union(leftBox, rightBox) == Bounds(s0, start, end)
  {
    assert s2[mid..end] == s1[mid..end];
    BoundsPermutation(s1, s2, mid, end);
    BoundsSplit(s1, start, mid, end);
    BoundsPermutation(s0, s1, start, end);
  }

  /** constructBvh(triangles, start, end): a leaf for at most LeafSize
      triangles, otherwise sort the range by centroid along the split axis of
      the centroid box, split at the midpoint and recurse left, then right.
      The range is permuted in place, nothing outside it changes, and the result
      is a median-split hierarchy over the final array whose box is the bounds
      of the triangles the range held on entry. */
  method ConstructBvh(tris: array<Triangle>, start: nat, end: nat) returns (node: Node)
    requires start < end <= tris.Length
    modifies tris
    ensures multiset(tris[start..end]) == old(multiset(tris[start..end]))
    ensures forall k :: 0 <= k < tris.Length && !(start <= k < end) ==> tris[k] == old(tris[k])
    ensures IsBvh(node, tris[..], start, end)
    ensures node.box == Bounds(old(tris[..]), start, end)
    ensures node.Interior? ==> node.axis == SplitAxis(CentroidBounds(old(tris[..]), start, end))
    decreases end - start
  {
    if end - start <= LeafSize {
      var box := ComputeLeafBox(tris, start, end);
      node := Leaf(box, start, end);
      return;
    }
    ghost var s0 := tris[..];
    var centroidBox := ComputeCentroidBox(tris, start, end);
    var axis := SplitAxis(centroidBox);
    SortByCentroid(tris, start, end, axis);
    ghost var s1 := tris[..];
    SegmentMultiset(s0, s1, start, end);
    var mid := Mid(start, end);
    SortedPartitioned(s1, start, mid, end, axis);

    var left := ConstructBvh(tris, start, mid);
    ghost var s2 := tris[..];
    var right := ConstructBvh(tris, mid, end);
    ghost var s3 := tris[..];
    node := Interior(Union(left.box, right.box), start, end, axis, left, right);

    InteriorStep(s0, s1, s2, s3, start, end, axis, left, right);
  }
}
