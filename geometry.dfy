/** Integer model of the geometry the BVH builder reads: points, axis-aligned
    boxes, triangles reduced to their corner boxes, and the bounding boxes the
    builder folds over a range of triangles. Coordinates are exact integers;
    centroids are kept doubled (Min + Max) so that no halving is needed. */
module Geometry {

  datatype Vec3 = Vec3(x: int, y: int, z: int)

  datatype Axis = X | Y | Z

  function Coord(v: Vec3, a: Axis): int {
    match a
    case X => v.x
    case Y => v.y
    case Z => v.z
  }

  function MinInt(a: int, b: int): int { if a < b then a else b }
  function MaxInt(a: int, b: int): int { if a > b then a else b }

  /** Componentwise minimum and maximum (FW::min / FW::max on vectors). */
  function MinVec(a: Vec3, b: Vec3): Vec3 {
    Vec3(MinInt(a.x, b.x), MinInt(a.y, b.y), MinInt(a.z, b.z))
  }
  function MaxVec(a: Vec3, b: Vec3): Vec3 {
    Vec3(MaxInt(a.x, b.x), MaxInt(a.y, b.y), MaxInt(a.z, b.z))
  }

  function Add(a: Vec3, b: Vec3): Vec3 { Vec3(a.x + b.x, a.y + b.y, a.z + b.z) }
  function Sub(a: Vec3, b: Vec3): Vec3 { Vec3(a.x - b.x, a.y - b.y, a.z - b.z) }
  function Twice(a: Vec3): Vec3 { Add(a, a) }

  predicate LessEq(a: Vec3, b: Vec3) { a.x <= b.x && a.y <= b.y && a.z <= b.z }

  datatype AABB = AABB(lo: Vec3, hi: Vec3)

  /** `outer` encloses `inner` on every axis. */
  predicate Contains(outer: AABB, inner: AABB) {
    LessEq(outer.lo, inner.lo) && LessEq(inner.hi, outer.hi)
  }

  predicate ContainsPoint(box: AABB, p: Vec3) {
    LessEq(box.lo, p) && LessEq(p, box.hi)
  }

  /** The box of two boxes: min of the min corners, max of the max corners.
      It is the least box enclosing both. */
  function Union(a: AABB, b: AABB): (u: AABB)
    ensures Contains(u, a) && Contains(u, b)
    ensures forall c :: Contains(c, a) && Contains(c, b) ==> Contains(c, u)
  {
    AABB(MinVec(a.lo, b.lo), MaxVec(a.hi, b.hi))
  }

  /** Widens a box by one point. It is the least box enclosing both. */
  function Grow(box: AABB, p: Vec3): (g: AABB)
    ensures Contains(g, box) && ContainsPoint(g, p)
    ensures forall c :: Contains(c, box) && ContainsPoint(c, p) ==> Contains(c, g)
  {
    AABB(MinVec(box.lo, p), MaxVec(box.hi, p))
  }

  lemma ContainsAntisymmetric(a: AABB, b: AABB)
    requires Contains(a, b) && Contains(b, a)
    ensures a == b
  {
  }

  /** A triangle by its three vertex positions. The builder reads nothing else;
      the rest of a triangle (normals, texture coordinates, material,
      precomputed intersection data) is read by the ray/triangle test and by
      shading, neither of which is part of this model. */
  datatype Triangle = Triangle(p0: Vec3, p1: Vec3, p2: Vec3) {
    /** Componentwise minimum and maximum corner of the triangle. */
    function Min(): Vec3 { MinVec(MinVec(p0, p1), p2) }
    function Max(): Vec3 { MaxVec(MaxVec(p0, p1), p2) }
    /** Twice the centroid of the corner box: 2 * (min + max) * 0.5. */
    function Centroid2(): Vec3 { Add(Min(), Max()) }
  }

  function BoxOf(t: Triangle): AABB { AABB(t.Min(), t.Max()) }

  /** The box of the non-empty run s[lo..hi), folded from the left exactly as
      the leaf loop does it: start from the first triangle's corners and widen by
      each following triangle's corners. */
  function Bounds(s: seq<Triangle>, lo: nat, hi: nat): AABB
    requires lo < hi <= |s|
    decreases hi - lo
  {
    if hi == lo + 1 then BoxOf(s[lo])
    else Union(Bounds(s, lo, hi - 1), BoxOf(s[hi - 1]))
  }

  lemma {:induction false} BoundsEncloses(s: seq<Triangle>, lo: nat, hi: nat)
    requires lo < hi <= |s|
    ensures forall i :: lo <= i < hi ==> Contains(Bounds(s, lo, hi), BoxOf(s[i]))
    decreases hi - lo
  {
    if hi > lo + 1 {
      BoundsEncloses(s, lo, hi - 1);
    }
  }

  lemma {:induction false} BoundsIsLeast(s: seq<Triangle>, lo: nat, hi: nat, b: AABB)
    requires lo < hi <= |s|
    requires forall i :: lo <= i < hi ==> Contains(b, BoxOf(s[i]))
    ensures Contains(b, Bounds(s, lo, hi))
    decreases hi - lo
  {
    if hi > lo + 1 {
      BoundsIsLeast(s, lo, hi - 1, b);
    }
  }

  /** The bounds of a run split in two is the union of the bounds of the parts. */
  lemma BoundsSplit(s: seq<Triangle>, lo: nat, mid: nat, hi: nat)
    requires lo < mid < hi <= |s|
    ensures Bounds(s, lo, hi) == Union(Bounds(s, lo, mid), Bounds(s, mid, hi))
  {
    var whole, u := Bounds(s, lo, hi), Union(Bounds(s, lo, mid), Bounds(s, mid, hi));
    BoundsEncloses(s, lo, hi);
    BoundsEncloses(s, lo, mid);
    BoundsEncloses(s, mid, hi);
    BoundsIsLeast(s, lo, mid, whole);
    BoundsIsLeast(s, mid, hi, whole);
    BoundsIsLeast(s, lo, hi, u);
    ContainsAntisymmetric(whole, u);
  }

  /** Bounds depends only on which triangles the run holds, not on their order
      and not on the rest of the array. */
  lemma BoundsPermutation(s: seq<Triangle>, t: seq<Triangle>, lo: nat, hi: nat)
    requires lo < hi <= |s| && hi <= |t|
    requires multiset(s[lo..hi]) == multiset(t[lo..hi])
    ensures Bounds(s, lo, hi) == Bounds(t, lo, hi)
  {
    BoundsEncloses(s, lo, hi);
    BoundsEncloses(t, lo, hi);
    forall i | lo <= i < hi
      ensures Contains(Bounds(s, lo, hi), BoxOf(t[i]))
    {
      assert t[i] == t[lo..hi][i - lo];
      assert t[i] in multiset(s[lo..hi]);
      var j :| 0 <= j < hi - lo && s[lo..hi][j] == t[i];
      assert s[lo + j] == t[i];
    }
    forall i | lo <= i < hi
      ensures Contains(Bounds(t, lo, hi), BoxOf(s[i]))
    {
      assert s[i] == s[lo..hi][i - lo];
      assert s[i] in multiset(t[lo..hi]);
      var j :| 0 <= j < hi - lo && t[lo..hi][j] == s[i];
      assert t[lo + j] == s[i];
    }
    BoundsIsLeast(t, lo, hi, Bounds(s, lo, hi));
    BoundsIsLeast(s, lo, hi, Bounds(t, lo, hi));
    ContainsAntisymmetric(Bounds(s, lo, hi), Bounds(t, lo, hi));
  }

  /** The first triangle's corner box, doubled. */
  function DoubledBox(t: Triangle): AABB { AABB(Twice(t.Min()), Twice(t.Max())) }

  /** The doubled box the builder takes the split axis from for s[lo..hi): it
      starts from the first triangle's FULL corners (doubled) and is widened by
      the doubled centroid of every following triangle. */
  function CentroidBounds(s: seq<Triangle>, lo: nat, hi: nat): AABB
    requires lo < hi <= |s|
    decreases hi - lo
  {
    if hi == lo + 1 then DoubledBox(s[lo])
    else Grow(CentroidBounds(s, lo, hi - 1), s[hi - 1].Centroid2())
  }

  /** The centroid box encloses the first triangle's doubled corner box and the
      doubled centroid of every triangle of the run, and it is the least box
      enclosing the first and the centroids of the others. */
  lemma {:induction false} CentroidBoundsExact(s: seq<Triangle>, lo: nat, hi: nat, c: AABB)
    requires lo < hi <= |s|
    ensures Contains(CentroidBounds(s, lo, hi), DoubledBox(s[lo]))
    ensures forall i :: lo <= i < hi ==> ContainsPoint(CentroidBounds(s, lo, hi), s[i].Centroid2())
    ensures Contains(c, DoubledBox(s[lo])) &&
            (forall i :: lo < i < hi ==> ContainsPoint(c, s[i].Centroid2()))
            ==> Contains(c, CentroidBounds(s, lo, hi))
    decreases hi - lo
  {
    if hi > lo + 1 {
      CentroidBoundsExact(s, lo, hi - 1, c);
    }
  }

  /** The split axis of a centroid box: the axis of largest extent, where x
      must be strictly the largest, and on ties y is preferred to x and z to
      both. */
  function SplitAxis(box: AABB): (a: Axis)
    ensures forall b :: Coord(Sub(box.hi, box.lo), b) <= Coord(Sub(box.hi, box.lo), a)
    ensures var d := Sub(box.hi, box.lo);
            (a == X <==> d.x > d.y && d.x > d.z) &&
            (a == Z <==> d.z >= d.x && d.z >= d.y)
  {
    var diagonal := Sub(box.hi, box.lo);
    if diagonal.x > diagonal.y && diagonal.x > diagonal.z then X
    else if diagonal.y > diagonal.z then Y
    else Z
  }
}
