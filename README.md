# Spatial partition core of a BSP ray tracer, in Dafny

This project models the spatial-partition core of a small ray tracer. Two parts make it up.

The axis-aligned bounding box `CBoundingBox` (`src/BoundingBox.h`) has two mutable corners, `m_min` and `m_max`. It can be extended by a point or by another box. It has an overlap test with a tolerance `Epsilon`, and it clips a ray with the slab method.

The binary space partition tree `BSPTree` (`src/BSPTree.h`) is built by `BuildTree`, which works recursively:
- the split axis is `depth % 3`;
- the split coordinate is the midpoint of the node's box on that axis;
- each primitive goes left when its bound's max on that axis is below the split coordinate, and right otherwise;
- each child box is a copy of the parent box, narrowed on the split axis;
- a leaf is made at depth 20 or with 4 primitives or fewer.

`Intersect` resets the ray's best-hit distance to infinity, clips the ray against the scene box and hands the root and the interval to the node traversal.

Files:
- `vectors.dfy` (module `Vectors`) holds the stand-ins for the framework types the core uses: `Vec3` for `Vec3f` with exact `real` components, `Dist` (`Inf | Fin(d)`) for the ray's best-hit distance `t`, and a `Ray` class with a fixed origin and direction and a mutable `t`.
- `bounding_box.dfy` (module `BoundingBoxes`) holds `Min3f`/`Max3f` and the class `BoundingBox`. The class's fields `min` and `max` are updated component by component, as in the source. `Value()` gives the box's corners as a `Box` value. The methods are specified by pure functions on `Box` (`Extended`, `ExtendedBy`, `Overlapping`, `ClipInterval`), and lemmas prove what those functions guarantee.
- `bsp_tree.dfy` (module `BspTrees`) holds `MaxDim`, the primitive and node datatypes, and the pure function `Build` that `BuildTree` is proved against. It also holds the lemmas about the trees `Build` makes, and the class `BspTree` with its constructor, `BuildTree` and `Intersect`.

Quirks of the code are modelled as written:
- `overlaps` examines axes 0 and 1 only. `OverlappingDisjointOnAxis2` shows two boxes 4 units apart along z that are reported as overlapping.
- `overlaps` is not symmetric for a positive `Epsilon`: only this box's corners are shifted by it. `OverlappingAsymmetric` shows two boxes touching at a corner, where one overlaps the other but not the reverse.
- `clip` combines the axes as `min(max(x1, y1), z1)` and `max(min(x2, y2), z2)`, not as the largest entry and the smallest exit. The interval it writes is still never reversed on a well-formed box. `ClipIntervalAdmitsMiss` shows a ray that misses the unit cube but gets a non-empty interval.
- The right child's min on the split axis is set additively, to `min + (max - splitVal)`. In exact arithmetic this equals the midpoint, and `ChildVoxels` proves that.
- `Intersect` has no early return on a miss. The traversal always runs, with whatever interval `clip` produced.
- The thresholds 20 and 4 are written into `BuildTree`. The fields `m_maxDepth` (20) and `m_minTri` (3) are stored but not read.
- `clear` has an empty body.
- `MaxDim` is defined but `BuildTree` does not use it.

## Model

| member | source | states |
|---|---|---|
| `BoundingBoxes.Min3f` | src/BoundingBox.h:9-12 | every component of the result is the smaller of the two inputs' components: at most both, and equal to one of them |
| `BoundingBoxes.Max3f` | src/BoundingBox.h:14-17 | every component of the result is the larger of the two inputs' components: at least both, and equal to one of them |
| `BoundingBoxes.BoundingBox.constructor` | src/BoundingBox.h:26 | a default-constructed box has both corners at the default (zero) vector |
| `BoundingBoxes.BoundingBox.Copy` | src/BSPTree.h:22 | the tree's `m_bounds(bounds)` copy holds the same corners as the box it copies |
| `BoundingBoxes.BoundingBox.Clear` | src/BoundingBox.h:33-36 | `clear` leaves both corners unchanged (its body is empty) |
| `BoundingBoxes.BoundingBox.Extend` | src/BoundingBox.h:42-49 | after the per-axis loop, the new min is `Min3f(old min, a)` and the new max is `Max3f(old max, a)` |
| `BoundingBoxes.ExtendedContains` | src/BoundingBox.h:42-49 | after `extend(a)`, `min[i] <= a[i] <= max[i]` on every axis, whatever the box held before |
| `BoundingBoxes.ExtendedGrows` | src/BoundingBox.h:45-48 | `extend(a)` never shrinks the box: the new box encloses the old one |
| `BoundingBoxes.ExtendedInside` | src/BoundingBox.h:45-48 | extending by a point that is already inside returns the same box |
| `BoundingBoxes.ExtendedIdempotent` | src/BoundingBox.h:45-48 | extending twice by the same point gives the same box as extending once |
| `BoundingBoxes.BoundingBox.ExtendBox` | src/BoundingBox.h:55-60 | `extend(box)` is `extend(box.m_min)` followed by `extend(box.m_max)`; when `box` is this box, the second step reads the max already moved by the first |
| `BoundingBoxes.ExtendedByContains` | src/BoundingBox.h:55-60 | after `extend(c)`, both corners of `c` are inside, and the result encloses both `c` and the old box |
| `BoundingBoxes.BoundingBox.Overlaps` | src/BoundingBox.h:66-76 | the loop with its early `return false` yields true iff `min[i] + eps < box.max[i]` and `max[i] + eps > box.min[i]` for i = 0 and i = 1 |
| `BoundingBoxes.OverlappingIgnoresAxis2` | src/BoundingBox.h:69 | moving either box anywhere along axis 2 does not change the answer of `overlaps` |
| `BoundingBoxes.OverlappingDisjointOnAxis2` | src/BoundingBox.h:69-75 | two unit boxes separated along z are still reported as overlapping |
| `BoundingBoxes.OverlappingAsymmetric` | src/BoundingBox.h:70 | for `0 < eps < 1`, a box touching another at a corner is not reported as overlapping it, while the reverse call reports an overlap |
| `BoundingBoxes.BoundingBox.Clip` | src/BoundingBox.h:84-109 | `t0`/`t1` are `min(max(x1,y1),z1)` and `max(min(x2,y2),z2)` of the swapped slab distances, `t0 <= t1` on a well-formed box, and nothing else changes |
| `BoundingBoxes.NearBeforeFar` | src/BoundingBox.h:86-104 | on a well-formed box with direction components all non-zero, each axis pair is ordered near <= far after the conditional swaps |
| `BoundingBoxes.ClipIntervalOrdered` | src/BoundingBox.h:106-107 | the interval `clip` writes on a well-formed box satisfies `t0 <= t1` |
| `BoundingBoxes.ClipIntervalAdmitsMiss` | src/BoundingBox.h:106-107 | the interval can be non-empty for a ray that misses the box: the unit cube and a ray from (-1,3,-1) along (1,1,1) give (1,2), though the point at distance 1.5 lies outside |
| `BspTrees.MaxDim` | src/BSPTree.h:7-10 | the returned index, in {0,1,2}, has a component at least as large as the other two and strictly larger than every later one (ties go to the later index) |
| `BspTrees.SplitVal` | src/BSPTree.h:55 | `max - (max - min) / 2` is the midpoint of the box on the split axis, and lies inside `[min, max]` when `min <= max` |
| `BspTrees.SelectSplits` | src/BSPTree.h:66-72 | the left and right lists together are a permutation of the input: every primitive goes to exactly one side |
| `BspTrees.SelectMembers` | src/BSPTree.h:66-72 | a primitive is in the left list iff it is in the input and its bound's max on the split axis is below the split coordinate; it is in the right list iff it is in the input and that does not hold |
| `BspTrees.SelectAppend` | src/BSPTree.h:66-72 | selecting from a concatenation concatenates the selections, so each side keeps the input's relative order |
| `BspTrees.ChildVoxels` | src/BSPTree.h:75-85 | both child boxes equal the parent off the split axis; the left box's max and the right box's additively updated min both equal the split coordinate |
| `BspTrees.ChildVoxelsOrdered` | src/BSPTree.h:75-85 | a well-formed parent gives well-formed child boxes, each inside the parent |
| `BspTrees.ChildVoxelsCover` | src/BSPTree.h:75-85 | every point of a well-formed parent lies in the left or the right child box, and only such points do |
| `BspTrees.BuildConserves` | src/BSPTree.h:60-91 | the multiset of all leaf contents equals the input multiset: every primitive lands in exactly one leaf |
| `BspTrees.BuildHeight` | src/BSPTree.h:60-89 | no leaf sits deeper than 20: at depth `d <= 20` the height is at most `20 - d`, and past 20 a leaf is built |
| `BspTrees.ClassifiedStep` | src/BSPTree.h:66-72 | a split whose children hold exactly the lists selected for their sides has left contents that all go left and right contents that all go right |
| `BspTrees.BuildClassifies` | src/BSPTree.h:66-89 | at every split of the built tree, every primitive in the left subtree has bound max below the split coordinate, and none in the right subtree does |
| `BspTrees.BuildWellSplit` | src/BSPTree.h:54-89 | built from a well-formed box, every split is on axis `depth % 3` at a coordinate inside its node's box, recursively for the child boxes |
| `BspTrees.BspTree.constructor` | src/BSPTree.h:21-28 | the tree keeps a fresh copy of the scene box, stores 20 and 3, and its root is the tree built from the scene box at depth 0 |
| `BspTrees.BspTree.BuildTree` | src/BSPTree.h:37-92 | the partition loop, the voxel-copy loop and the recursion return exactly `Build(box, prims, depth)`; at depth >= 20 or with <= 4 primitives that is a leaf holding exactly the input; a split is on axis `depth % 3` at the midpoint |
| `BspTrees.BspTree.Intersect` | src/BSPTree.h:99-108 | sets `ray.t` to infinity, clips against the scene box, and always hands the root, the ray with `t = Inf` and the clip interval to the traversal; the result and the new `t` are what the traversal reports |

## Left out

- Floating point is not modelled. Coordinates are exact reals, so single-precision rounding in the midpoint and in the additive right-min update is not captured, and neither is the infinity or NaN that IEEE division produces.
- BoundingBoxes.BoundingBox.Clip: requires every direction component to be non-zero, so that the slab distances are defined. The source divides by zero and gets infinity or NaN.
- BspTrees.BspTree.Intersect: inherits the non-zero direction precondition from `Clip`.
- BspTrees.BspTree.BuildTree: takes `depth` as a natural number. The source takes an `int`, and a negative depth would give a negative `depth % 3` as an index. Every call in the source starts at 0 and only adds 1.
- The node traversal `CBSPNode::traverse` and the node class are in `BSPNode.h`, and BSPNode.h is not part of this model. `Intersect` therefore receives the traversal as a function parameter from the node, the ray state and the interval to the hit flag and the new `t`. The only hit metadata modelled is `t`.
- The primitives' own `calcBounds` and `intersect` belong to external primitive types. A primitive is modelled by an identity and the bound its `calcBounds` reports.
- `Epsilon` is defined outside the files modelled, so it is a parameter of `Overlaps`.
- `Vec3f` and the `MIN`/`MAX` macros are defined in `types.h`, which is not part of this model. `Vec3` is a three-component value. `Min`/`Max` pick the smaller or larger value, which is all a value-equal comparison of reals can observe. A default `Vec3f` is taken to be the zero vector.
- `shared_ptr` ownership of nodes and primitives becomes plain datatype values and sequences.
- The commented-out debug counter `CBSPNode::total` and the console prints are left out.
- Scene parsing (`CScene::ParseOBJ` in `src/Scene.cpp`) is file input and output feeding external primitive constructors, so it is not modelled.
