/** Nearest-hit traversal of the hierarchy. The floating-point ray/triangle
    test, the slab test and the ray length are not modelled; a `Ray` carries
    their outcomes for one ray as oracles. */
module Traversal {
  import opened Geometry
  import opened BvhTree

  datatype Option<T> = None | Some(value: T)

  /** What the ray/triangle test reports on a hit: ray parameter and
      barycentric coordinates. */
  datatype Barycentric = Barycentric(t: real, u: real, v: real)

  /** One ray, seen through what the traversal asks of it: the ray/triangle
      test (`intersect_woop` on the un-normalised direction), the ray/box test
      (`AABB::intersect` with the reciprocal normalised direction and its sign
      flags) and the length of the direction vector. */
  datatype Ray = Ray(triangleTest: Triangle -> Option<Barycentric>, boxTest: AABB -> bool, length: real)

  /** "No hit", or the index of the triangle hit with its t, u and v. */
  datatype RaycastResult = NoHit | Hit(index: nat, t: real, u: real, v: real)

  /** The running `closest_t` of the leaf loop: 1 until something is hit. */
  function ClosestT(r: RaycastResult): real {
    if r.Hit? then r.t else 1.0
  }

  /** A triangle counts for the leaf scan if the test hits it with 0 < t < 1. */
  predicate Qualifies(tri: Triangle, test: Triangle -> Option<Barycentric>) {
    test(tri).Some? && 0.0 < test(tri).value.t < 1.0
  }

  /** `r` reports what the triangle test says about triangle r.index. */
  predicate ReportsHit(s: seq<Triangle>, r: RaycastResult, test: Triangle -> Option<Barycentric>)
    requires r.Hit?
  {
    r.index < |s| && test(s[r.index]) == Some(Barycentric(r.t, r.u, r.v)) && 0.0 < r.t < 1.0
  }

  /** Triangle i is the nearest qualifying triangle of [start, end): no other
      qualifying one has a smaller t, and none with the same t has a lower index. */
  ghost predicate IsNearest(s: seq<Triangle>, start: nat, end: nat, test: Triangle -> Option<Barycentric>, i: nat)
    requires end <= |s|
  {
    start <= i < end && Qualifies(s[i], test) &&
    forall j :: start <= j < end && Qualifies(s[j], test) ==>
      test(s[i]).value.t < test(s[j]).value.t ||
      (test(s[i]).value.t == test(s[j]).value.t && i <= j)
  }

  /** The result of the leaf loop after it has looked at [start, end): a later
      triangle replaces the current one only if its t is positive and strictly
      below the current closest t. */
  function LeafClosest(s: seq<Triangle>, start: nat, end: nat, test: Triangle -> Option<Barycentric>): (r: RaycastResult)
    requires start <= end <= |s|
    ensures r.Hit? ==> start <= r.index < end && ReportsHit(s, r, test)
    decreases end - start
  {
    if start == end then NoHit
    else
      var before := LeafClosest(s, start, end - 1, test);
      var h := test(s[end - 1]);
      if h.Some? && h.value.t > 0.0 && h.value.t < ClosestT(before)
      then Hit(end - 1, h.value.t, h.value.u, h.value.v)
      else before
  }

  /** The leaf loop finds the nearest qualifying triangle, lowest index first
      on ties, and reports no hit exactly when none qualifies. */
  lemma {:induction false} LeafClosestIsNearest(s: seq<Triangle>, start: nat, end: nat, test: Triangle -> Option<Barycentric>)
    requires start <= end <= |s|
    ensures var r := LeafClosest(s, start, end, test);
            (r.NoHit? <==> forall j :: start <= j < end ==> !Qualifies(s[j], test)) &&
            (r.Hit? ==> IsNearest(s, start, end, test, r.index))
    decreases end - start
  {
    if start < end {
      LeafClosestIsNearest(s, start, end - 1, test);
    }
  }

  /** The nearest hit of a range split in two is the nearer of the nearest
      hits of the two parts. */
  lemma LeafClosestSplit(s: seq<Triangle>, lo: nat, mid: nat, hi: nat, test: Triangle -> Option<Barycentric>)
    requires lo <= mid <= hi <= |s|
    ensures var e, el, er := LeafClosest(s, lo, hi, test), LeafClosest(s, lo, mid, test), LeafClosest(s, mid, hi, test);
            (e.Hit? <==> el.Hit? || er.Hit?) &&
            (e.Hit? ==> (el.Hit? ==> e.t <= el.t) && (er.Hit? ==> e.t <= er.t) &&
                        ((el.Hit? && e.t == el.t) || (er.Hit? && e.t == er.t)))
  {
    LeafClosestIsNearest(s, lo, hi, test);
    LeafClosestIsNearest(s, lo, mid, test);
    LeafClosestIsNearest(s, mid, hi, test);
  }

  /** The leaf scan of `intersect`, as the loop it is. */
  method ScanLeaf(tris: array<Triangle>, start: nat, end: nat, test: Triangle -> Option<Barycentric>)
    returns (result: RaycastResult)
    requires start <= end <= tris.Length
    ensures result == LeafClosest(tris[..], start, end, test)
  {
    var closestT, closestU, closestV := 1.0, 0.0, 0.0;
    var closestI: int := -1;
    var i := start;
    while i < end
      invariant start <= i <= end
      invariant var r := LeafClosest(tris[..], start, i, test);
                if closestI == -1 then r == NoHit && closestT == 1.0
                else closestI >= 0 && r == Hit(closestI, closestT, closestU, closestV)
    {
      var h := test(tris[i]);
      if h.Some? {
        if h.value.t > 0.0 && h.value.t < closestT {
          closestI := i;
          closestT, closestU, closestV := h.value.t, h.value.u, h.value.v;
        }
      }
      i := i + 1;
    }
    if closestI != -1 {
      result := Hit(closestI, closestT, closestU, closestV);
    } else {
      result := NoHit;
    }
  }

  /** The commented-out naive loop: the leaf scan over the whole array. */
  function NaiveRaycast(s: seq<Triangle>, test: Triangle -> Option<Barycentric>): RaycastResult {
    LeafClosest(s, 0, |s|, test)
  }

  /** `leftHit.t < rightHit.t ? leftHit : rightHit`, where "no hit" has the
      largest t of all: the strictly nearer result, the right one on ties. */
  function Nearer(l: RaycastResult, r: RaycastResult): (f: RaycastResult)
    ensures f == l || f == r
    ensures f.Hit? <==> l.Hit? || r.Hit?
    ensures f.Hit? ==> (l.Hit? ==> f.t <= l.t) && (r.Hit? ==> f.t <= r.t)
    ensures l.Hit? && r.Hit? && l.t == r.t ==> f == r
  {
    if l.Hit? && (r.NoHit? || l.t < r.t) then l else r
  }

  /** `intersect(node, ...)`: prune on a failed box test; scan a leaf;
      otherwise take the nearer of both children's results and drop it unless
      its t is below the ray length. Every hit it reports is a real hit. */
  function Intersect(n: Node, s: seq<Triangle>, ray: Ray): (r: RaycastResult)
    requires LeavesInBounds(n, |s|)
    ensures !ray.boxTest(n.box) ==> r == NoHit
    ensures r.Hit? ==> ReportsHit(s, r, ray.triangleTest)
    ensures r.Hit? && n.Interior? ==> r.t < ray.length
    decreases n
  {
    if !ray.boxTest(n.box) then NoHit
    else
      match n
      case Leaf(_, start, end) => LeafClosest(s, start, end, ray.triangleTest)
      case Interior(_, _, _, _, left, right) =>
        var nearest := Nearer(Intersect(left, s, ray), Intersect(right, s, ray));
        if nearest.Hit? && nearest.t < ray.length then nearest else NoHit
  }

  /** The box test never rejects a box that encloses a triangle the ray hits
      with 0 < t < 1. */
  ghost predicate Conservative(ray: Ray) {
    forall box: AABB, tri: Triangle ::
      Contains(box, BoxOf(tri)) && Qualifies(tri, ray.triangleTest) ==> ray.boxTest(box)
  }

  /** With a conservative box test, traversing a median-split hierarchy over
      [start, end) finds what the naive loop over that range finds: a leaf gives
      exactly its result; an interior node gives a hit exactly when the nearest
      t is below the ray length, and then with that same t, from a triangle of
      the range. */
  lemma {:induction false} IntersectMatchesNaive(n: Node, s: seq<Triangle>, start: nat, end: nat, ray: Ray)
    requires IsBvh(n, s, start, end)
    requires Conservative(ray)
    ensures LeavesInBounds(n, |s|) &&
            var r, e := Intersect(n, s, ray), LeafClosest(s, start, end, ray.triangleTest);
            (n.Leaf? ==> r == e) &&
            (n.Interior? ==> (r.Hit? <==> e.Hit? && e.t < ray.length) &&
                             (r.Hit? ==> r.t == e.t && start <= r.index < end))
    decreases n
  {
    IsBvhLeavesInBounds(n, s, start, end);
    var e := LeafClosest(s, start, end, ray.triangleTest);
    LeafClosestIsNearest(s, start, end, ray.triangleTest);
    if e.Hit? {
      IsBvhEncloses(n, s, start, end);
      assert Contains(n.box, BoxOf(s[e.index]));
    }
    match n
    case Leaf(_, _, _) =>
    case Interior(_, _, _, _, left, right) =>
      var mid := Mid(start, end);
      IntersectMatchesNaive(left, s, start, mid, ray);
      IntersectMatchesNaive(right, s, mid, end, ray);
      LeafClosestSplit(s, start, mid, end, ray.triangleTest);
  }
}
