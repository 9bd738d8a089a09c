# Median-split BVH builder and nearest-hit traversal, in Dafny

This project models the core of a small CPU ray tracer: the routine that builds a
bounding volume hierarchy (BVH) over a triangle array by median splits, and the
recursive traversal that returns the nearest triangle a ray hits.

- **Builder** (`constructBvh`, `constructHierarchy`). It works on a half-open
  range `[start, end)` of the triangle array and reorders that range in place.
  A range of at most 6 triangles becomes a leaf whose box is the bounds of its
  triangles. A larger range is handled in four steps. It builds a centroid box
  and picks the axis of largest extent. It sorts the range by centroid along
  that axis. It splits at `start + (end - start) / 2` and recurses left, then
  right. The node's box is the union of the children's boxes.
- **Traversal** (`intersect`, `raycast`). A node whose box the ray misses gives
  "no hit". A leaf scans its triangles and keeps the smallest `t` in `(0, 1)`;
  on ties the lower index wins. An interior node takes the nearer of its two
  children's results, the right one on ties. It drops that result unless its `t`
  is below the ray length. `raycast` bumps a ray counter and starts at the root.

Geometry is exact: coordinates are integers, and centroids are kept doubled
(`min + max`) so no halving is needed. Three floating-point pieces are not
modelled. They become fields of a `Ray` value acting as oracles: the
ray/triangle test, the ray/box slab test, and the ray length.

Modules: `Geometry` (geometry.dfy), `BvhTree` (bvh.dfy, the node datatype and
the `IsBvh` shape), `Builder` (builder.dfy, the in-place builder),
`Traversal` (traversal.dfy) and `RayTracing` (raytracer.dfy, the `RayTracer`
class with its ray counter).

Main results:
- `ConstructBvh` permutes exactly its range and leaves the rest of the array as
  it was. It returns a tree satisfying `IsBvh`:
  - every node has exact ranges;
  - a node is a leaf exactly when it holds at most 6 triangles;
  - a leaf's box is the bounds of its triangles, and an interior box is the union of its children's boxes;
  - the children split the range at its midpoint;
  - siblings are ordered along the split axis.
  The root's axis is the rule applied to the range on entry.
- `LeavesTile`: every tree satisfying `IsBvh` has leaves that tile the range
  without gaps, each holding 1 to 6 triangles.
- `IsBvhEncloses`: every node's box is the least box enclosing its triangles.
- `IntersectMatchesNaive` and `RayTracer.Raycast`: assume the box test never
  rejects a box that encloses a hit triangle. Then traversal returns the same
  `t` as the naive loop over all triangles whenever that `t` is below the ray
  length, and "no hit" exactly when there is none such. When the root is a leaf,
  traversal returns exactly the naive result.

Details of the code a reader might not expect:
- The centroid box starts from the first triangle's full corner box, not from
  its centroid (src/base/RayTracer.cpp:104). The split axis can therefore
  depend on which triangle is first in the range.
- The length filter `t < length` is applied only at interior nodes
  (src/base/RayTracer.cpp:195). A tree that is a single leaf never applies it. The
  filter compares the segment parameter `t` with the Euclidean length of the
  direction.
- Equal `t` from two children resolves to the right child. So on a tie, the
  traversal can report a different triangle than the naive loop (which keeps
  the lowest index). Only `t` is promised to agree.
- There is no separate index permutation: the triangle array itself is
  reordered. `splitMode` is ignored. The header's private declarations
  (src/base/RayTracer.hpp:49-52) do not match the definitions; the model follows
  the definitions in src/base/RayTracer.cpp.
- Interior nodes carry the split axis as an extra field. This records the
  builder's decision so that sibling ordering can be stated for every node of
  the final tree.

## Model

| member | source | states |
|---|---|---|
| Geometry.Union | src/base/RayTracer.cpp:141 | the union box encloses both boxes and is enclosed by every box that encloses both |
| Geometry.Grow | src/base/RayTracer.cpp:106-108 | widening by a point gives the least box enclosing the old box and the point |
| Geometry.BoundsEncloses | src/base/RayTracer.cpp:88-92 | the leaf fold's box encloses the corner box of every triangle of the run |
| Geometry.BoundsIsLeast | src/base/RayTracer.cpp:88-92 | any box enclosing every triangle of the run encloses the leaf fold's box, so the fold is the exact componentwise min/max |
| Geometry.BoundsSplit | src/base/RayTracer.cpp:135-141 | the bounds of a run equal the union of the bounds of its two halves |
| Geometry.BoundsPermutation | src/base/RayTracer.cpp:113-133 | reordering a run (as the sort does) does not change its bounds |
| Geometry.CentroidBoundsExact | src/base/RayTracer.cpp:104-109 | the centroid box encloses the first triangle's full box and every centroid, and is the least box enclosing the first box and the later centroids |
| Geometry.SplitAxis | src/base/RayTracer.cpp:111-133 | the chosen axis has the largest extent; it is x iff dx > dy and dx > dz, z iff dz >= dx and dz >= dy, y otherwise |
| BvhTree.IsBvhFrame | src/base/RayTracer.cpp:137-138 | a built subtree stays valid while the array changes outside its range (the right recursion does not disturb the left subtree) |
| BvhTree.IsBvhBoxIsBounds | src/base/RayTracer.cpp:135-141 | every node's box, leaf or interior, is exactly the bounds of the triangles in its range |
| BvhTree.IsBvhEncloses | src/base/RayTracer.cpp:87-143 | every node's box encloses every triangle box in its range and is the least such box |
| BvhTree.IsBvhLeavesInBounds | src/base/RayTracer.cpp:96-99 | every leaf range of a built tree lies inside the triangle array |
| BvhTree.LeavesTile | src/base/RayTracer.cpp:87-140 | the leaves tile [start, end) left to right without gaps or overlaps, each holding 1 to 6 triangles |
| Builder.ComputeLeafBox | src/base/RayTracer.cpp:88-92 | the leaf loop computes the bounds of the triangles in [start, end) |
| Builder.ComputeCentroidBox | src/base/RayTracer.cpp:104-109 | the centroid loop computes the box that starts at the first triangle's corners and is widened by the later centroids |
| Builder.SortByCentroid | src/base/RayTracer.cpp:113-133 | the range ends sorted by centroid along the axis, the array is a permutation of the old one and nothing outside the range changes |
| Builder.SortByKey | src/base/RayTracer.cpp:114-118 | std::sort over [start, end) with a key comparator: the range ends sorted by key, the array is a permutation of the old one and nothing outside the range changes |
| Builder.SortedPartitioned | src/base/RayTracer.cpp:133-135 | after the sort every triangle left of the midpoint is at most every triangle right of it along the axis |
| Builder.PartitionedPermuted | src/base/RayTracer.cpp:135-138 | permuting each half (as the recursive calls do) keeps the sibling ordering |
| Builder.InteriorStep | src/base/RayTracer.cpp:102-144 | sort then left and right recursion yield a permutation of the entry range, an untouched outside, a valid interior node and a box equal to the bounds on entry |
| Builder.ConstructBvh | src/base/RayTracer.cpp:83-145 | the range is permuted in place, the rest of the array is unchanged, the result is a median-split hierarchy over the final array, its box is the bounds of the entry range and its axis is the split rule on the entry range |
| Traversal.LeafClosest | src/base/RayTracer.cpp:164-186 | a result of the leaf loop is a triangle of the range that the oracle hits with exactly that t, u, v and 0 < t < 1 |
| Traversal.LeafClosestIsNearest | src/base/RayTracer.cpp:164-186 | the leaf loop reports no hit iff no triangle qualifies, otherwise the nearest qualifying triangle, lowest index on ties |
| Traversal.LeafClosestSplit | src/base/RayTracer.cpp:189-193 | the nearest hit of a range is the nearer of the nearest hits of its two halves |
| Traversal.ScanLeaf | src/base/RayTracer.cpp:164-186 | the imperative leaf loop with its closest_i = -1 sentinel returns the leaf scan result |
| Traversal.Nearer | src/base/RayTracer.cpp:193 | the choice between two child results keeps the nearer one, is a hit iff either is, and takes the right one on equal t |
| Traversal.Intersect | src/base/RayTracer.cpp:156-196 | a failed box test gives no hit; every reported hit is a real oracle hit with 0 < t < 1; an interior node only reports t below the ray length |
| Traversal.IntersectMatchesNaive | src/base/RayTracer.cpp:215-240 | with a conservative box test, a leaf gives exactly the naive result; an interior node hits iff the naive nearest t is below the length, with that t, from a triangle of its range |
| RayTracing.Increment | src/base/RayTracer.cpp:199 | the 32-bit counter increment is one more modulo 2^32, and exactly one more below the maximum |
| RayTracing.RayTracer.constructor | src/base/RayTracer.cpp:58-60 | a new ray tracer has no hierarchy |
| RayTracing.RayTracer.ConstructHierarchy | src/base/RayTracer.cpp:147-154 | the array is remembered and permuted, the root is a median-split hierarchy over all of it, and its box is the bounds of all triangles |
| RayTracing.RayTracer.Raycast | src/base/RayTracer.cpp:198-203 | the counter goes up by one (mod 2^32), the result is the traversal from the root, and with a conservative box test it agrees with the naive loop as above |
| RayTracing.RayTracer.ResetRayCounter | src/base/RayTracer.hpp:45 | the counter becomes 0 |
| RayTracing.RayTracer.GetRayCount | src/base/RayTracer.hpp:46 | returns the counter |

## Left out

- Floating-point geometry: `intersect_woop`, `AABB::intersect`, the `dirIsNeg` flags, direction normalisation and reciprocal, and `dir.length()`. These are float math whose bodies (rtIntersect.inl, Bvh.hpp) are not part of this model. They are oracles carried by `Ray`.
- The box-test assumption `Traversal.Conservative` is a hypothesis of `IntersectMatchesNaive` and `RayTracer.Raycast`, not a proved fact about the real slab test. The source fills `dirIsNeg` with `normDir > 0` per component (src/base/RayTracer.cpp:158), which is true for a positive component despite the name. Whether `AABB::intersect` then never rejects a box around a hit triangle depends on how its body, which is not part of this model, reads those flags.
- Rounding: coordinates are exact integers, so the `* 0.5` centroid and float min/max are exact in the model.
- `RTTriangle::min()`/`max()` are taken as the componentwise min/max of the three vertex positions. RTTriangle.hpp is not part of this model.
- Triangle attributes: a triangle is reduced to its three vertex positions. Normals, texture coordinates and the material pointer, which the shading code reads, are not modelled. So the builder's permutation (multiset) promise is over position triples: two triangles with equal corners but different materials are the same value in the model.
- `RayTracing.RayTracer.Raycast`: requires a built hierarchy. A raycast before `constructHierarchy` goes through `m_bvh.root()` (src/base/RayTracer.cpp:203), whose body is not part of this model.
- The hit point, ray origin and ray direction stored in `RaycastResult` are not modelled. They are float values derived from `t`. The result keeps the triangle index, `t`, `u` and `v`.
- The "no hit" result's `t` (the largest float) is modelled as "farther than every hit". Every hit has `t < 1`.
- `loadHierarchy`/`saveHierarchy`: file I/O through a serializer that is not part of this model.
- `computeMD5`: a foreign MD5 function and `sprintf`.
- `getTexelCoords` and `formBasis`: unimplemented stubs returning default values.
- The SAH builders: declared in the header but never defined. `splitMode` is accepted and ignored.
- The unused index permutation `m_indices`.
- The `Bvh` store: it is modelled only as the optional root node (`setRoot`/`root`).
- Renderer.cpp: camera rays, shading, textures, OpenMP and timing.
- The atomicity of `m_rayCount`: it is a plain field with 32-bit wrap-around. Concurrency is not modelled.
- `RayTracing.RayTracer.constructor`: says nothing about the initial counter, because the source leaves `m_rayCount` uninitialised.
- Index widths: `size_t` and `int` indices are unbounded naturals, since no realistic array reaches their limits.
- Calling `constructHierarchy` on an empty array reads `triangles[0]`, which is undefined behaviour. The model requires a non-empty array.
