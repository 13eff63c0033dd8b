# A verified model of a path tracer's geometry core

This project is a Dafny model of the geometric core of an offline Monte Carlo
path tracer written in Rust. It covers four parts:

- **The triangle-mesh bounding volume hierarchy** (src/objects.rs).
  - `make_bvh` builds a flattened pre-order array of `BoundingBox` nodes. It sorts the mesh's index array in place.
  - Each node has a `[start_index, end_index)` range of triangles, a box pushed out by `FLOAT_ERROR`, and a `descendant_count` that lets traversal skip a subtree.
  - An inner node sorts its range by the sum of the vertex coordinates along its axis of largest extent, then has four children over `(end - start) / 4`-sized pieces; the last piece takes the remainder. A range of at most 12 triangles is a leaf.
  - `Mesh::intersect` walks the array with the same skip-distance cursor as the source. It uses the slab test and `intersect_triangle` on leaves, and keeps the nearest hit (the earliest one on ties).
- **The intersection kernels** in src/objects.rs: `intersect_triangle` (which rejects back-facing rays), `Sphere::intersect` and `Ray::at`. src/structures.rs has an older quadratic `Sphere::intersect`, which is modelled too.
- **The scene query layer** (src/scene.rs):
  - `Scene::new` collects the emitter objects' indices.
  - `trace_ray` scans the objects for the nearest hit.
  - `sample_lights` chooses a light; the random index is the parameter `choice`.
  - `object_id` looks an object up.
- **The film buffer** (src/structures.rs):
  - the allocation of `pixel_data` in `Camera::new`;
  - the bounds-checked, row-flipped `Film::set_pixel`;
  - the render loop's mapping from buffer position to pixel (src/main.rs:61-62);
  - `RenderSettings::default`.

`f32` coordinates are modelled as `real`. `sqrt` and `normalize` are function
parameters. Where a lemma is about geometry, it assumes only the fact it needs,
for example that `sqrt` returns the true root of the value it is applied to.

The model proves these results:

- `make_bvh` returns a well-formed tree. It only permutes its slice of the index array.
- Every box strictly contains its triangles' vertices and is tight up to `FLOAT_ERROR`. Inner nodes split by key along the axis of largest extent.
- The slab test never skips a box that holds a point of the ray strictly inside at a parameter of at least `FLOAT_ERROR`. A box the ray crosses only before `FLOAT_ERROR` is skipped, as in the source.
- So `Mesh::intersect` returns exactly what a linear scan over all triangles returns. That is the first triangle among the nearest hits.
- A reported triangle hit is a point of the triangle along the ray at the reported distance. The test is complete only for a front-facing ray, a determinant of magnitude at least `FLOAT_ERROR` and a distance of at least `FLOAT_ERROR`. It misses back-facing triangles and every triangle whose determinant is below 0.00001 in magnitude, which includes any small enough triangle hit head-on, because the cut-off is absolute.
- A reported hit of either sphere test lies on the sphere, and no point of the sphere along the ray is nearer (for src/structures.rs: none nearer beyond its epsilon).
- The src/structures.rs sphere test reports no hit only when no point of the sphere lies along the ray beyond its epsilon. The src/objects.rs test can miss real intersections: it rejects a ray starting inside the sphere, and a near root below `FLOAT_ERROR` even when the far root lies beyond it.
- `set_pixel` and the render loop's mapping are inverse bijections.

Modules:

| file | module | models |
|---|---|---|
| wrappers.dfy | `Wrappers` | `Option` |
| geometry.dfy | `Geometry` | `Vec3`, `Ray`, `Ray::at`, `abs_diff_eq` |
| nearest.dfy | `Nearest` | the "keep the strictly nearer hit" scan shared by `trace_ray` and the leaf loop |
| kernels.dfy | `Kernels` | `intersect_triangle`, `Sphere::intersect` of src/objects.rs |
| bvh_tree.dfy | `BvhTree` | `BoundingBox`, child ranges, pre-order tree shape |
| bvh_bounds.dfy | `BvhBounds` | the bounds loop and box expansion of `make_bvh` |
| bvh_sort.dfy | `BvhSort` | best-axis choice and the in-place sort by key |
| bvh_build.dfy | `BvhBuild` | `make_bvh` itself |
| slab.dfy | `Slab` | the ray/box slab test of `Mesh::intersect` |
| mesh.dfy | `Meshes` | `Mesh::new`, `Mesh::intersect` |
| scene.dfy | `Scenes` | `Scene::new`, `trace_ray`, `sample_lights`, `object_id` |
| structures.dfy | `Structures` | `Film`, `set_pixel`, `RenderSettings::default`, the quadratic `Sphere::intersect` |

## Model

| member | source | states |
|---|---|---|
| Geometry.AtDistance | src/objects.rs:58-60 | along a unit-direction ray, `at(t)` is the origin moved by `t` times the direction, at squared distance `t²` from the origin |
| Nearest.Pick | src/objects.rs:172-178 | one scan step keeps either the best hit so far or the candidate, and has no hit only when neither is a hit |
| Nearest.ClosestIsFirstNearest | src/scene.rs:57-68 | the nearest-hit scan finds nothing exactly when no entry is a hit; otherwise it returns the entry at a position of least distance before which every hit is strictly farther (lowest index wins ties) |
| Nearest.FirstNearestUnique | src/scene.rs:61 | the strict `<` makes the chosen position unique: at most one position is first nearest |
| Nearest.KeepFirstNearest | src/objects.rs:172 | a miss, or a hit no nearer, does not displace the first nearest hit |
| Nearest.LastFirstNearest | src/objects.rs:172 | a hit strictly nearer than every earlier one becomes the first nearest |
| Nearest.ClosestExtend | src/scene.rs:59-65 | scanning one entry more is one more step of the comparison |
| Nearest.ClosestSkipsMisses | src/objects.rs:152-154 | entries without hits do not change the scan's result, which justifies skipping them |
| Kernels.IntersectTriangle | src/objects.rs:188-214 | a reported triangle hit is at distance at least `FLOAT_ERROR` |
| Kernels.DegenerateMisses | src/objects.rs:195-197 | a determinant below `FLOAT_ERROR` in magnitude, or a back-facing ray, gives no hit |
| Kernels.OutsideMisses | src/objects.rs:199-211 | `u < 0`, `v < 0`, `u + v > 1` or a distance below `FLOAT_ERROR` gives no hit |
| Kernels.InsideHitDistance | src/objects.rs:199-213 | when no guard fires, the hit is reported at distance `(1/det) · side2 · (s × side1)` |
| Kernels.InsideHitNormal | src/objects.rs:192-213 | the reported normal is the normalised `side2 × side1` |
| Kernels.SolveBarycentric | src/objects.rs:199-208 | the `u`, `v` and distance computed by Cramer's rule describe the same point in barycentric form and along the ray |
| Kernels.SolveNumerators | src/objects.rs:199-208 | conversely, a point on the ray with barycentric weights `u`, `v` has exactly the `u`, `v` and distance the test computes |
| Kernels.IntersectTriangleSound | src/objects.rs:188-214 | a reported hit is not degenerate, faces the ray, and is a point of the triangle along the ray at the reported distance |
| Kernels.IntersectTriangleComplete | src/objects.rs:188-214 | a non-degenerate, front-facing triangle containing the point at distance `t >= FLOAT_ERROR` along the ray is reported at exactly `t`, with the normalised normal |
| Kernels.IntersectSphere | src/objects.rs:74-101 | a reported sphere hit is at distance at least `FLOAT_ERROR` |
| Kernels.IntersectSphereRejects | src/objects.rs:80-82 | a sphere whose centre is behind the ray, or a ray starting inside the sphere, gives no hit |
| Kernels.CenterDistanceQuadratic | src/objects.rs:76-84 | along a unit ray the squared centre distance is `t² - 2tp + oc · oc` |
| Kernels.SphereMissIsGenuine | src/objects.rs:84-87 | when the line passes farther from the centre than the radius, no point of the ray is on the sphere |
| Kernels.SphereHitDistance | src/objects.rs:89-90 | a hit lies at the projection minus the root taken |
| Kernels.SphereHitIsNearestOnSurface | src/objects.rs:84-99 | with a true square root, a reported hit lies on the sphere and no point of the sphere along the ray is nearer |
| Kernels.NearestRoot | src/objects.rs:89-90 | the smaller root `p - h` of the quadratic is a root, and no root is smaller |
| BvhTree.ChildRange | src/objects.rs:271-278 | each child range lies inside the parent range |
| BvhTree.ChildRangesTile | src/objects.rs:271-278 | for a range larger than a leaf, the four child ranges are non-empty, smaller than the parent and tile it in order; the last one ends at `end` |
| BvhTree.TreeRoot | src/objects.rs:237-247 | the root covers exactly `[start, end)`, and the tree is a single node exactly when `end - start <= 12` |
| BvhTree.LeafTree | src/objects.rs:245-246 | a small range gives a single leaf with `descendant_count = 0` |
| BvhTree.InnerTree | src/objects.rs:280-283 | a root whose `descendant_count` is the number of nodes after it, followed by the four child subtrees, is a tree over the range |
| BvhTree.InnerRootOk | src/objects.rs:283 | such a root is a well-formed node |
| BvhTree.ForestAppend | src/objects.rs:280 | appending subtrees over adjacent ranges keeps the array a forest over the union |
| BvhTree.SiblingsAppend | src/objects.rs:280 | appending child `j`'s subtree extends the chain of sibling subtrees |
| BvhTree.StartsMonotone | src/objects.rs:272-281 | node start indices never decrease along the array |
| BvhTree.FirstChildStart | src/objects.rs:157-159 | an inner node's successor is its first child and starts where it does |
| BvhTree.LeavesPartition | src/objects.rs:245-283 | every subtree fits in the array (`k + descendant_count[k] < len`); read in array order, the leaves partition `[start, end)`, each holding 1 to 12 triangles |
| BvhBounds.FoldIsTight | src/objects.rs:223-232 | folding min/max from the first vertex gives exactly the componentwise least and greatest vertex coordinates of the range |
| BvhBounds.ComputeBounds | src/objects.rs:223-232 | the bounds loop computes those folds over `indices[start..end]` |
| BvhBounds.FoldMinSpec | src/objects.rs:229 | the folded minimum lies below the seed and every vertex, and on every axis equals the seed's or a vertex's coordinate (seeded with a vertex, `FoldIsTight` makes it attained by a vertex) |
| BvhBounds.FoldMaxSpec | src/objects.rs:230 | the folded maximum lies above the seed and every vertex, and on every axis equals the seed's or a vertex's coordinate (seeded with a vertex, `FoldIsTight` makes it attained by a vertex) |
| BvhBounds.ExpandedOk | src/objects.rs:234-235 | tight bounds pushed out by `FLOAT_ERROR` make a correct node box |
| BvhBounds.CornerInsideBox | src/objects.rs:234-235 | every vertex of a node's triangles lies strictly inside the node's box |
| BvhBounds.NestedBoxes | src/objects.rs:223-235 | a child's box lies inside its parent's |
| BvhSort.ChooseAxis | src/objects.rs:249-255 | the chosen axis has the largest extent, and no lower axis has the same extent (ties go to the lowest axis) |
| BvhSort.BestAxisUnique | src/objects.rs:252 | only one axis can be best |
| BvhSort.SortByKeySpec | src/objects.rs:257-269 | the sort orders the range by the summed vertex coordinate and is a permutation |
| BvhSort.SortRange | src/objects.rs:257 | the in-place sort replaces exactly `indices[start..end]` by its sorted permutation |
| BvhSort.InsertPermutes | src/objects.rs:257 | one insertion adds exactly the inserted triangle |
| BvhSort.InsertSorted | src/objects.rs:257-269 | one insertion keeps the slice sorted by key |
| BvhBuild.SortedSeparated | src/objects.rs:257-278 | after the sort, every triangle of an earlier child has a key at most that of every triangle of a later child |
| BvhBuild.PiecesUnion | src/objects.rs:271-278 | the four children's triangles are exactly the parent's |
| BvhBuild.BuildingStep | src/objects.rs:272-281 | each pass of the child loop keeps the recursion's state: the built children form a forest, the rest of the array is untouched, and triangles stay in their pieces |
| BvhBuild.DoneContents | src/objects.rs:271-284 | after the child loop the range holds the triangles it held on entry, and everything outside is unchanged |
| BvhBuild.DoneSeparated | src/objects.rs:249-281 | after the child loop the children are still split by key along every best axis |
| BvhBuild.BuildingDone | src/objects.rs:271-284 | after the loop the node and its four subtrees form a tree, with every box and split fact |
| BvhBuild.SubRangeIncluded | src/objects.rs:271-280 | the triangles of a child's range are among those of its parent's range |
| BvhBuild.DescendantBoxInside | src/objects.rs:223-283 | in a built hierarchy, the box of every node in a node's subtree lies inside that node's box |
| BvhBuild.MakeBvh | src/objects.rs:217-285 | it returns a well-formed tree over `[start, end)` whose boxes tightly bound their triangles plus `FLOAT_ERROR` and whose inner nodes split by key along the best axis; it permutes `indices[start..end]` and leaves the rest alone |
| BvhBuild.SplitNode | src/objects.rs:249-284 | the inner-node case of `make_bvh`, with the same promise |
| BvhBuild.BuildChildren | src/objects.rs:271-284 | from the sorted range, the child loop builds the tree, with the same promise |
| Slab.InsideSlab | src/objects.rs:147-148 | a parameter whose point is strictly inside a slab lies between the two face parameters |
| Slab.InsideAxis | src/objects.rs:147-151 | on each axis, a point strictly inside the box puts its parameter between the entry and exit |
| Slab.HitBoxNotMissed | src/objects.rs:147-155 | a box holding a point of the ray strictly inside, at a parameter of at least `FLOAT_ERROR`, is not skipped |
| Meshes.NewMesh | src/objects.rs:128-139 | `Mesh::new` keeps the vertices and colour, permutes the triangles and leaves a valid hierarchy over all of them |
| Meshes.TriangleHits | src/objects.rs:162-170 | one candidate per triangle, in index order |
| Meshes.ConvexInside | src/objects.rs:223-235 | a point of a triangle lies strictly inside any box holding its vertices strictly |
| Meshes.ValidIsSearchable | src/objects.rs:128-139 | the mesh `Mesh::new` builds satisfies what traversal relies on |
| Meshes.ValidNodeSearchable | src/objects.rs:128-139 | every node of a valid mesh meets traversal's needs: skip target, first-child start, corners inside the box |
| Meshes.TriangleHitInsideBox | src/objects.rs:162-170 | a triangle hit point lies strictly inside any box strictly holding the triangle's vertices |
| Meshes.HitInsideBox | src/objects.rs:147-170 | a triangle's hit point lies strictly inside the box of every node holding it |
| Meshes.MissedNodeHasNoHits | src/objects.rs:152-154 | a node the slab test misses holds no triangle the ray hits |
| Meshes.SkipSubtree | src/objects.rs:152-154 | skipping a missed subtree leaves the nearest-hit scan unchanged |
| Meshes.NodeFrontiers | src/objects.rs:153-158 | the two cursor moves go to the node after the subtree, or to the first child, keeping the visited triangles a prefix |
| Meshes.Intersect | src/objects.rs:142-185 | the skip-distance traversal terminates and returns exactly the nearest-hit scan over all triangles in index order |
| Meshes.ScanIsNearestTriangle | src/objects.rs:142-185 | that scan has no hit exactly when no triangle is hit; otherwise it is the hit of the first nearest triangle, at distance at least `FLOAT_ERROR`, in the mesh's colour |
| Meshes.ScanLeaf | src/objects.rs:162-179 | the leaf loop extends the nearest-hit scan from the leaf's start to its end |
| Scenes.NewScene | src/scene.rs:37-55 | `lights` holds exactly the indices of emitting objects, strictly increasing so without duplicates; objects and environment are kept, and the BVH fields are empty |
| Scenes.LightsAreEmitters | src/scene.rs:41-46 | every entry of `lights` names an emitting object |
| Scenes.ObjectHits | src/scene.rs:59-60 | one `intersect` result per object, in order |
| Scenes.TraceRay | src/scene.rs:57-68 | the result is the nearest-hit scan over the objects, with no hit exactly when no object is hit |
| Scenes.LightCount | src/scene.rs:71-72 | the light count is the number of emitters, plus one exactly when the environment is non-zero |
| Scenes.SampleLights | src/scene.rs:70-97 | no sample without lights or for the environment slot. A sample exists exactly when an object light was chosen and the traced hit is that light within `FLOAT_ERROR` of its sampled point. The sample's ray starts at the origin towards that point, its pdf times the light count is the surface pdf, and its emission is the light's emission in the direction opposite to the ray |
| Scenes.ObjectId | src/scene.rs:99-101 | the object with a given id is the object at that position; the id must be below the number of objects |
| Structures.DefaultSettings | src/structures.rs:61-67 | 16 samples per pixel and a ray depth of 8 |
| Structures.PixelIndex | src/structures.rs:73 | the row-flipped index of an in-range pixel is inside the buffer |
| Structures.PixelCoords | src/main.rs:61-62 | the render loop maps every buffer position to an in-range pixel |
| Structures.PixelIndexOfCoords | src/main.rs:61-62 | writing the pixel the render loop computes for position `p` writes position `p` |
| Structures.PixelCoordsOfIndex | src/structures.rs:73 | every in-range pixel's index maps back to that pixel |
| Structures.PixelIndexInjective | src/structures.rs:73 | distinct in-range pixels go to distinct buffer positions |
| Structures.Film.constructor | src/structures.rs:111 | the allocation has `screen_width * screen_height` pixels, all zero (the same allocation as the newer `Camera::new` at src/scene.rs:137) |
| Structures.Film.SetPixel | src/structures.rs:71-76 | an in-range pixel's row-flipped position gets the colour and no other entry changes; out of range nothing changes |
| Structures.SetRenderedPixel | src/main.rs:61-83 | the render loop does not call `set_pixel`: it maps position `p` to `(x, y)` and collects the colours in position order (`collect_into_vec`, line 83). This method composes the two: calling `set_pixel` at the coordinates of `p` changes position `p` and no other, the same place the collected colour lands |
| Structures.IntersectQuadratic | src/structures.rs:145-173 | a reported hit is beyond `FLOAT_ERROR` (0.001) in the sphere's colour; a negative discriminant gives no hit |
| Structures.QuadraticForm | src/structures.rs:146-148 | along a unit ray, squared centre distance minus radius² is `t² + bt + c` |
| Structures.FirstRootBeyond | src/structures.rs:155-169 | the root chosen (nearer if beyond the epsilon, else farther) is a root, and no root beyond the epsilon is smaller |
| Structures.NoRootBeyond | src/structures.rs:150-152 | a negative discriminant, or both candidates at or before the epsilon, leaves no root beyond the epsilon |
| Structures.QuadraticHitIsNearestOnSurface | src/structures.rs:145-173 | with a unit direction and a true square root, a reported hit lies on the sphere and is its nearest point beyond `FLOAT_ERROR` |
| Structures.QuadraticMissIsGenuine | src/structures.rs:150-172 | when no hit is reported, no point of the sphere lies along the ray beyond `FLOAT_ERROR` |

## Left out

- Floating point: `f32` is modelled as `real`, so rounding and NaN are not modelled. In particular:
  - the NaN case of the sort comparator's `unwrap_or(Equal)`;
  - the slab test's division by a zero direction coordinate. The infinities it gives are modelled as extended reals (`Slab.Ext`). The NaN it gives when the origin lies exactly on a face is not: that axis is then treated as rejecting.
- `sqrt`, `normalize`, `tan`: these are function parameters. A geometric lemma about them states the fact it relies on, for example `IsRootOf`, as a requirement.
- Panics:
  - `Mesh::new` and `make_bvh` panic on an empty index list or an out-of-range vertex index; those inputs are excluded by `requires`.
  - `object_id` similarly requires `id < objects.len()`.
- Meshes.Intersect: it requires `Searchable`, the hierarchy facts the traversal uses, rather than `ValidMesh`. `Meshes.ValidIsSearchable` shows that every mesh `Mesh::new` builds meets it.
- BvhSort.SortByKey: Rust's `sort_by` is stable. The model's insertion sort is proved only to be sorted by key and a permutation; that equal keys keep their input order is not proved.
- Integer widths: the `u32` product `screen_width * screen_height` is required to fit in 32 bits (the `Film` constructor). `Scene::new`'s `i as u32` is modelled as an unbounded index.
- `Camera::new`: its world geometry (basis vectors, focal length, `world_position`) needs `tan` and `normalize` and is not modelled. Only the `pixel_data` allocation is modelled.
- `Triangle::intersect` (src/objects.rs:116-125) is not a separate member. It is `intersect_triangle` with the triangle's colour attached, which is `Meshes.AsHit` applied to `Kernels.IntersectTriangle`.
- `Quad::intersect` is `todo!()` in the source and is left out. So is the unreachable environment-light `todo!()` (src/scene.rs:80).
- Kernels.IntersectTriangleComplete: completeness holds only for a front-facing ray, a determinant of magnitude at least `FLOAT_ERROR` and a distance of at least `FLOAT_ERROR`. The source rejects every other case (src/objects.rs:195-211), including small triangles hit head-on, whose determinant falls below the absolute cut-off 0.00001 (`Kernels.DegenerateMisses`).
- Kernels.IntersectSphere: there is no completeness lemma, because the source's test misses real intersections. It returns no hit for a ray whose origin lies inside the sphere (src/objects.rs:80), and for a near root below `FLOAT_ERROR` even when the far root lies beyond it (src/objects.rs:92). A genuine miss is proved only for the branch where the line passes outside the sphere (`Kernels.SphereMissIsGenuine`).
- Scenes.TraceRay only ties its result to the nearest-hit scan. That the result is the lowest-indexed among the nearest hits comes from `Nearest.ClosestIsFirstNearest`, which applies to that scan. It is not repeated as an `ensures` of the method.
- Scenes.SampleLights: the random index `thread_rng().gen_range(0..light_count)` is the parameter `choice`, required to lie in that range. The material's `emitted` is an opaque function of the object; the sample's emission is that function at `-light_direction`.
- Scene objects appear only through the interface scene.rs uses: `intersect`, whether the material is `Emitter`, `sample_surface` and `emitted`. Materials and BSDFs are not modelled.
- Two epsilons: src/objects.rs uses `FLOAT_ERROR = 0.00001` (`Kernels.FLOAT_ERROR`, also used by scene.rs), and src/structures.rs uses `0.001` (`Structures.FLOAT_ERROR`). Each kernel uses its own file's value.
- src/path_trace.rs (the radiance estimator, MIS, Russian roulette) is not part of this model. Neither is src/io.rs (file reading, JSON, argument parsing, PNG encoding).
- From src/main.rs only the pixel mapping is modelled. Parallel rendering (rayon), timing and printing are left out.
- The Python scene scripts are not part of this model.
