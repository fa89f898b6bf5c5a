/**
 * The binary space partition tree: how `BuildTree` splits a primitive list
 * into nested boxes, and how `Intersect` starts a ray query at the root.
 */
module BspTrees {
  import opened Vectors
  import opened BoundingBoxes

  /** `BuildTree` stops at this depth; the value is written into the code, not read from `m_maxDepth`. */
  const DepthLimit: nat := 20

  /** `BuildTree` makes a leaf of this many primitives or fewer; `m_minTri` (3) is not consulted. */
  const LeafLimit: nat := 4

  /** The index of the largest component; on a tie the later index wins. */
  function MaxDim(v: Vec3): (r: Axis)
    ensures forall i: Axis :: v.At(i) <= v.At(r)
    ensures forall i: Axis :: r < i ==> v.At(i) < v.At(r)
  {
    if v.x > v.y then (if v.x > v.z then 0 else 2) else (if v.y > v.z then 1 else 2)
  }

  /** A scene primitive, seen through its identity and the bound its `calcBounds` reports. */
  datatype Prim = Prim(id: nat, bounds: Box)

  /** A tree node: a leaf owning a primitive list, or a split with two children. */
  datatype Node =
    | Leaf(prims: seq<Prim>)
    | Internal(splitVal: real, splitDim: Axis, left: Node, right: Node)

  /** All primitives held by the leaves below `n`, left to right. */
  ghost function Contents(n: Node): seq<Prim> {
    match n
    case Leaf(ps) => ps
    case Internal(_, _, l, r) => Contents(l) + Contents(r)
  }

  /** The number of edges on the longest path from `n` down to a leaf. */
  ghost function Height(n: Node): nat {
    match n
    case Leaf(_) => 0
    case Internal(_, _, l, r) => 1 + (if Height(l) >= Height(r) then Height(l) else Height(r))
  }

  // ---------------------------------------------------------------------------
  // One split step

  /** The split coordinate on axis `d`: `max - (max - min) / 2`, which is the midpoint. */
  function SplitVal(b: Box, d: Axis): (v: real)
    ensures v == (b.min.At(d) + b.max.At(d)) / 2.0
    ensures b.min.At(d) <= b.max.At(d) ==> b.min.At(d) <= v <= b.max.At(d)
  {
    b.max.At(d) - (b.max.At(d) - b.min.At(d)) / 2.0
  }

  /** A primitive goes to the left child when its bound ends strictly below the split coordinate. */
  predicate GoesLeft(p: Prim, d: Axis, v: real) {
    p.bounds.max.At(d) < v
  }

  /** The primitives of `s` that go to the left (`left`) or to the right (`!left`) child, in the order of `s`. */
  function Select(s: seq<Prim>, d: Axis, v: real, left: bool): seq<Prim> {
    if s == [] then []
    else Select(s[..|s| - 1], d, v, left) + (if GoesLeft(s[|s| - 1], d, v) == left then [s[|s| - 1]] else [])
  }

  /** The two sides together are the input: every primitive goes to exactly one side. */
  lemma {:induction false} SelectSplits(s: seq<Prim>, d: Axis, v: real)
    ensures multiset(Select(s, d, v, true)) + multiset(Select(s, d, v, false)) == multiset(s)
  {
    if s != [] {
      var init, last := s[..|s| - 1], s[|s| - 1];
      SelectSplits(init, d, v);
      assert s == init + [last];
      var l, r := Select(init, d, v, true), Select(init, d, v, false);
      if GoesLeft(last, d, v) {
        assert Select(s, d, v, true) == l + [last];
        assert Select(s, d, v, false) == r;
      } else {
        assert Select(s, d, v, true) == l;
        assert Select(s, d, v, false) == r + [last];
      }
    }
  }

  /** A primitive is on a side exactly when it is in the input and the classification sends it there. */
  lemma {:induction false} SelectMembers(s: seq<Prim>, d: Axis, v: real, left: bool)
    ensures forall p :: p in Select(s, d, v, left) <==> p in s && GoesLeft(p, d, v) == left
  {
    if s != [] {
      SelectMembers(s[..|s| - 1], d, v, left);
      assert s == s[..|s| - 1] + [s[|s| - 1]];
    }
  }

  /** Selecting from a concatenation concatenates the selections: each side keeps the input's order. */
  lemma {:induction false} SelectAppend(s: seq<Prim>, t: seq<Prim>, d: Axis, v: real, left: bool)
    ensures Select(s + t, d, v, left) == Select(s, d, v, left) + Select(t, d, v, left)
    decreases |t|
  {
    if t == [] {
      assert s + t == s;
    } else {
      var t' := t[..|t| - 1];
      assert (s + t)[..|s + t| - 1] == s + t';
      assert (s + t)[|s + t| - 1] == t[|t| - 1];
      SelectAppend(s, t', d, v, left);
    }
  }

  /** The left child's box: the parent with its max on axis `d` lowered to `v`. */
  function LeftVoxel(b: Box, d: Axis, v: real): Box {
    Box(b.min, b.max.With(d, v))
  }

  /** The right child's box: the parent with `max - v` added to its min on axis `d`. */
  function RightVoxel(b: Box, d: Axis, v: real): Box {
    Box(b.min.With(d, b.min.At(d) + (b.max.At(d) - v)), b.max)
  }

  /**
   * At the split coordinate both child boxes agree with the parent off the
   * split axis; on it the left box ends and the right box begins at the
   * midpoint (the right one by its additive update, exactly in real arithmetic).
   */
  lemma ChildVoxels(b: Box, d: Axis)
    ensures var v := SplitVal(b, d);
            var l, r := LeftVoxel(b, d, v), RightVoxel(b, d, v);
            l.min == b.min && r.max == b.max &&
            l.max.At(d) == v && r.min.At(d) == v &&
            (forall j: Axis :: j != d ==> l.max.At(j) == b.max.At(j) && r.min.At(j) == b.min.At(j))
  {
  }

  /** A well-formed parent gives well-formed children that lie inside it. */
  lemma ChildVoxelsOrdered(b: Box, d: Axis)
    requires Ordered(b)
    ensures var v := SplitVal(b, d);
            var l, r := LeftVoxel(b, d, v), RightVoxel(b, d, v);
            Ordered(l) && Ordered(r) && Encloses(b, l) && Encloses(b, r)
  {
  }

  /** The two child boxes of a well-formed parent cover exactly the parent. */
  lemma ChildVoxelsCover(b: Box, d: Axis)
    requires Ordered(b)
    ensures var v := SplitVal(b, d);
            var l, r := LeftVoxel(b, d, v), RightVoxel(b, d, v);
            forall p :: Contains(b, p) <==> Contains(l, p) || Contains(r, p)
  {
  }

  // ---------------------------------------------------------------------------
  // The whole build

  /** The node `BuildTree(box, prims, depth)` returns. */
  function Build(box: Box, prims: seq<Prim>, depth: nat): Node
    decreases DepthLimit - depth
  {
    var d: Axis := depth % 3;
    var v := SplitVal(box, d);
    if depth >= DepthLimit || |prims| <= LeafLimit then Leaf(prims)
    else Internal(v, d,
                  Build(LeftVoxel(box, d, v), Select(prims, d, v, true), depth + 1),
                  Build(RightVoxel(box, d, v), Select(prims, d, v, false), depth + 1))
  }

  /** Above the limits `Build` makes a split on axis `depth % 3` at the midpoint, with children one level deeper. */
  lemma BuildInternal(box: Box, prims: seq<Prim>, depth: nat)
    requires depth < DepthLimit && |prims| > LeafLimit
    ensures var d: Axis := depth % 3;
            var v := SplitVal(box, d);
            Build(box, prims, depth) ==
              Internal(v, d,
                       Build(LeftVoxel(box, d, v), Select(prims, d, v, true), depth + 1),
                       Build(RightVoxel(box, d, v), Select(prims, d, v, false), depth + 1))
  {
  }

  /** Every primitive of the input lands in exactly one leaf of the tree `n` built from it, as often as it occurs in the input. */
  lemma {:induction false} BuildConserves(box: Box, prims: seq<Prim>, depth: nat, n: Node)
    requires n == Build(box, prims, depth)
    ensures multiset(Contents(n)) == multiset(prims)
    decreases DepthLimit - depth
  {
    if !(depth >= DepthLimit || |prims| <= LeafLimit) {
      var d: Axis := depth % 3;
      var v := SplitVal(box, d);
      BuildInternal(box, prims, depth);
      BuildConserves(LeftVoxel(box, d, v), Select(prims, d, v, true), depth + 1, n.left);
      BuildConserves(RightVoxel(box, d, v), Select(prims, d, v, false), depth + 1, n.right);
      SelectSplits(prims, d, v);
    }
  }

  /** No leaf of the tree `n` sits deeper than the depth limit. */
  lemma {:induction false} BuildHeight(box: Box, prims: seq<Prim>, depth: nat, n: Node)
    requires n == Build(box, prims, depth)
    ensures depth <= DepthLimit ==> depth + Height(n) <= DepthLimit
    ensures depth >= DepthLimit ==> Height(n) == 0
    decreases DepthLimit - depth
  {
    if !(depth >= DepthLimit || |prims| <= LeafLimit) {
      var d: Axis := depth % 3;
      var v := SplitVal(box, d);
      BuildInternal(box, prims, depth);
      BuildHeight(LeftVoxel(box, d, v), Select(prims, d, v, true), depth + 1, n.left);
      BuildHeight(RightVoxel(box, d, v), Select(prims, d, v, false), depth + 1, n.right);
    }
  }

  /** Below every split, the left subtree holds only primitives that go left and the right subtree only the others. */
  ghost predicate Classified(n: Node) {
    match n
    case Leaf(_) => true
    case Internal(v, d, l, r) =>
      (forall p :: p in Contents(l) ==> GoesLeft(p, d, v)) &&
      (forall p :: p in Contents(r) ==> !GoesLeft(p, d, v)) &&
      Classified(l) && Classified(r)
  }

  /** A split whose children are classified and hold exactly the primitives selected for their sides is classified. */
  lemma ClassifiedStep(n: Node, prims: seq<Prim>)
    requires n.Internal? && Classified(n.left) && Classified(n.right)
    requires multiset(Contents(n.left)) == multiset(Select(prims, n.splitDim, n.splitVal, true))
    requires multiset(Contents(n.right)) == multiset(Select(prims, n.splitDim, n.splitVal, false))
    ensures Classified(n)
  {
    var d, v := n.splitDim, n.splitVal;
    SelectMembers(prims, d, v, true);
    SelectMembers(prims, d, v, false);
    forall p | p in Contents(n.left) ensures GoesLeft(p, d, v) {
      assert p in multiset(Select(prims, d, v, true));
    }
    forall p | p in Contents(n.right) ensures !GoesLeft(p, d, v) {
      assert p in multiset(Select(prims, d, v, false));
    }
  }

  /** The tree `n` sorts every primitive into the side the classification rule names, at every split. */
  lemma {:induction false} BuildClassifies(box: Box, prims: seq<Prim>, depth: nat, n: Node)
    requires n == Build(box, prims, depth)
    ensures Classified(n)
    decreases DepthLimit - depth
  {
    if !(depth >= DepthLimit || |prims| <= LeafLimit) {
      var d: Axis := depth % 3;
      var v := SplitVal(box, d);
      var ls, rs := Select(prims, d, v, true), Select(prims, d, v, false);
      var lb, rb := LeftVoxel(box, d, v), RightVoxel(box, d, v);
      BuildInternal(box, prims, depth);
      BuildClassifies(lb, ls, depth + 1, n.left);
      BuildClassifies(rb, rs, depth + 1, n.right);
      BuildConserves(lb, ls, depth + 1, n.left);
      BuildConserves(rb, rs, depth + 1, n.right);
      ClassifiedStep(n, prims);
    }
  }

  /**
   * Every split of the subtree `n` built for `box` at `depth` is on axis
   * `depth % 3` and at a coordinate inside the box on that axis; the children
   * are built for the child boxes one level deeper.
   */
  ghost predicate WellSplit(n: Node, box: Box, depth: nat) {
    match n
    case Leaf(_) => true
    case Internal(v, d, l, r) =>
      d == depth % 3 && box.min.At(d) <= v <= box.max.At(d) &&
      WellSplit(l, LeftVoxel(box, d, v), depth + 1) &&
      WellSplit(r, RightVoxel(box, d, v), depth + 1)
  }

  /** Built from a well-formed box, every split of the tree `n` is on the cycling axis and inside its node's box. */
  lemma {:induction false} BuildWellSplit(box: Box, prims: seq<Prim>, depth: nat, n: Node)
    requires Ordered(box) && n == Build(box, prims, depth)
    ensures WellSplit(n, box, depth)
    decreases DepthLimit - depth
  {
    if !(depth >= DepthLimit || |prims| <= LeafLimit) {
      var d: Axis := depth % 3;
      var v := SplitVal(box, d);
      BuildInternal(box, prims, depth);
      ChildVoxelsOrdered(box, d);
      BuildWellSplit(LeftVoxel(box, d, v), Select(prims, d, v, true), depth + 1, n.left);
      BuildWellSplit(RightVoxel(box, d, v), Select(prims, d, v, false), depth + 1, n.right);
    }
  }

  // ---------------------------------------------------------------------------
  // The tree object

  /** What the traversal of the root reports: whether anything was hit, and the ray's best-hit distance afterwards. */
  datatype Hit = Hit(found: bool, t: Dist)

  /** The node traversal, given a node, the ray's origin, direction and current `t`, and the interval `(t0, t1)`. */
  type Traversal = (Node, Vec3, Vec3, Dist, real, real) -> Hit

  class BspTree {
    const bounds: BoundingBox
    const maxDepth: int
    const minTri: int
    var root: Node

    /** Copies the scene box and builds the whole tree from depth 0. */
    constructor (sceneBounds: BoundingBox, prims: seq<Prim>)
      ensures fresh(bounds) && bounds.Value() == sceneBounds.Value()
      ensures maxDepth == 20 && minTri == 3
      ensures root == Build(sceneBounds.Value(), prims, 0)
    {
      bounds := new BoundingBox.Copy(sceneBounds);
      maxDepth := 20;
      minTri := 3;
      root := Leaf([]);
      new;
      root := BuildTree(sceneBounds, prims, 0);
    }

    /**
     * `BuildTree(box, vpPrims, depth)`: computes the split, returns a leaf at
     * the limits, otherwise sorts the primitives into two lists, copies the
     * box into two child boxes, narrows each on the split axis and recurses.
     */
    method BuildTree(box: BoundingBox, prims: seq<Prim>, depth: nat) returns (node: Node)
      ensures node == Build(box.Value(), prims, depth)
      ensures depth >= DepthLimit || |prims| <= LeafLimit ==> node == Leaf(prims)
      ensures node.Internal? ==> node.splitDim == depth % 3 && node.splitVal == SplitVal(box.Value(), depth % 3)
      decreases DepthLimit - depth
    {
      var splitDim: Axis := depth % 3;
      var splitVal := box.max.At(splitDim) - (box.max.At(splitDim) - box.min.At(splitDim)) / 2.0;

      if depth >= DepthLimit || |prims| <= LeafLimit {
        return Leaf(prims);
      }

      var primsLeft: seq<Prim> := [];
      var primsRight: seq<Prim> := [];
      for k := 0 to |prims|
        invariant primsLeft == Select(prims[..k], splitDim, splitVal, true)
        invariant primsRight == Select(prims[..k], splitDim, splitVal, false)
      {
        assert prims[..k + 1][..k] == prims[..k];
        if prims[k].bounds.max.At(splitDim) < splitVal {
          primsLeft := primsLeft + [prims[k]];
        } else {
          primsRight := primsRight + [prims[k]];
        }
      }
      assert prims[..|prims|] == prims;

      var voxelLeft := new BoundingBox();
      var voxelRight := new BoundingBox();
      for i := 0 to 3
        invariant forall j: Axis :: j < i ==>
          voxelLeft.min.At(j) == box.min.At(j) && voxelLeft.max.At(j) == box.max.At(j) &&
          voxelRight.min.At(j) == box.min.At(j) && voxelRight.max.At(j) == box.max.At(j)
      {
        voxelLeft.min := voxelLeft.min.With(i, box.min.At(i));
        voxelLeft.max := voxelLeft.max.With(i, box.max.At(i));
        voxelRight.min := voxelRight.min.With(i, box.min.At(i));
        voxelRight.max := voxelRight.max.With(i, box.max.At(i));
      }
      Extensionality(voxelLeft.min, box.min);
      Extensionality(voxelLeft.max, box.max);
      Extensionality(voxelRight.min, box.min);
      Extensionality(voxelRight.max, box.max);

      voxelLeft.max := voxelLeft.max.With(splitDim, splitVal);
      voxelRight.min := voxelRight.min.With(splitDim,
        voxelRight.min.At(splitDim) + (voxelRight.max.At(splitDim) - splitVal));

      assert voxelLeft.Value() == LeftVoxel(box.Value(), splitDim, splitVal);
      assert voxelRight.Value() == RightVoxel(box.Value(), splitDim, splitVal);

      var pLeft := BuildTree(voxelLeft, primsLeft, depth + 1);
      var pRight := BuildTree(voxelRight, primsRight, depth + 1);
      node := Internal(splitVal, splitDim, pLeft, pRight);
      BuildInternal(box.Value(), prims, depth);
    }

    /**
     * `Intersect(ray)`: resets the ray's best-hit distance to infinity, clips
     * the ray against the scene box and hands the root and the resulting
     * interval to the traversal, whether or not the interval is empty.
     */
    method Intersect(ray: Ray, traverse: Traversal) returns (hit: bool)
      requires NonZero(ray.dir)
      modifies ray
      ensures var (t0, t1) := ClipInterval(bounds.Value(), ray.org, ray.dir);
              hit == traverse(root, ray.org, ray.dir, Inf, t0, t1).found &&
              ray.t == traverse(root, ray.org, ray.dir, Inf, t0, t1).t
    {
      ray.t := Inf;
      var t0, t1 := bounds.Clip(ray);
      var r := traverse(root, ray.org, ray.dir, ray.t, t0, t1);
      ray.t := r.t;
      hit := r.found;
    }
  }
}
