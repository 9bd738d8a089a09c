/** The ray tracer object: it builds the hierarchy over the caller's triangle
    array once, then answers nearest-hit queries and counts them. */
module RayTracing {
  import opened Geometry
  import opened BvhTree
  import opened Builder
  import opened Traversal

  /** A 32-bit signed counter value. */
  newtype Int32 = x: int | -0x8000_0000 <= x < 0x8000_0000

  /** `++` on a 32-bit two's-complement integer: one more, modulo 2^32. */
  function Increment(c: Int32): (r: Int32)
    ensures (r as int - c as int - 1) % 0x1_0000_0000 == 0
    ensures c < 0x7fff_ffff ==> r as int == c as int + 1
  {
    if c == 0x7fff_ffff then -0x8000_0000 else c + 1
  }

  /** The split policy the caller asks for; the median-split builder is used
      whatever it says. */
  datatype SplitMode = MedianSplit | SurfaceAreaHeuristic

  class RayTracer {
    /** The caller's triangle array (a pointer in the source; null until built). */
    var triangles: array?<Triangle>
    /** The root of the hierarchy; None until one has been built. */
    var root: Option<Node>
    /** Rays cast since the last reset. */
    var rayCount: Int32

    /** Once built, the root is a median-split hierarchy over the whole array. */
    ghost predicate Valid()
      reads this, triangles
    {
      root.Some? ==> triangles != null && IsBvh(root.value, triangles[..], 0, triangles.Length)
    }

    /** The counter is left as it is: the source does not initialise it. */
    constructor ()
      ensures Valid() && root == None
    {
      root := None;
    }

    /** constructHierarchy: remember the array, build over all of it (the
        array is reordered in place) and install the root. */
    method ConstructHierarchy(tris: array<Triangle>, splitMode: SplitMode)
      requires tris.Length > 0
      modifies this, tris
      ensures Valid()
      ensures triangles == tris && root.Some? && rayCount == old(rayCount)
      ensures multiset(tris[..]) == old(multiset(tris[..]))
      ensures root.value.box == Bounds(old(tris[..]), 0, tris.Length)
    {
      triangles := tris;
      var node := ConstructBvh(tris, 0, tris.Length);
      assert tris[..] == tris[0..tris.Length];
      assert old(tris[..]) == old(tris[0..tris.Length]);
      root := Some(node);
    }

    /** raycast: count the ray and traverse from the root. With a conservative
        box test the result agrees with the naive loop over all triangles. */
    method Raycast(ray: Ray) returns (result: RaycastResult)
      requires Valid() && root.Some?
      modifies this`rayCount
      ensures Valid()
      ensures rayCount == Increment(old(rayCount))
      ensures LeavesInBounds(root.value, triangles.Length) &&
              result == Intersect(root.value, triangles[..], ray)
      ensures Conservative(ray) ==>
                var e := NaiveRaycast(triangles[..], ray.triangleTest);
                (root.value.Leaf? ==> result == e) &&
                (root.value.Interior? ==> (result.Hit? <==> e.Hit? && e.t < ray.length) &&
                                          (result.Hit? ==> result.t == e.t))
    {
      rayCount := Increment(rayCount);
      IsBvhLeavesInBounds(root.value, triangles[..], 0, triangles.Length);
      result := Intersect(root.value, triangles[..], ray);
      if Conservative(ray) {
        IntersectMatchesNaive(root.value, triangles[..], 0, triangles.Length, ray);
      }
    }

    method ResetRayCounter()
      modifies this`rayCount
      ensures rayCount == 0
    {
      rayCount := 0;
    }

    method GetRayCount() returns (n: Int32)
      ensures n == rayCount
    {
      n := rayCount;
    }
  }
}
