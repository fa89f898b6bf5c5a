/**
 * The axis-aligned bounding box: its corner helpers, its value, and the
 * mutable box object with extension, overlap test and ray clipping.
 */
module BoundingBoxes {
  import opened Vectors

  /** Component-wise minimum of two points. */
  function Min3f(a: Vec3, b: Vec3): (r: Vec3)
    ensures forall i: Axis ::
      r.At(i) <= a.At(i) && r.At(i) <= b.At(i) && (r.At(i) == a.At(i) || r.At(i) == b.At(i))
  {
    Vec3(Min(a.x, b.x), Min(a.y, b.y), Min(a.z, b.z))
  }

  /** Component-wise maximum of two points. */
  function Max3f(a: Vec3, b: Vec3): (r: Vec3)
    ensures forall i: Axis ::
      a.At(i) <= r.At(i) && b.At(i) <= r.At(i) && (r.At(i) == a.At(i) || r.At(i) == b.At(i))
  {
    Vec3(Max(a.x, b.x), Max(a.y, b.y), Max(a.z, b.z))
  }

  /** The value of a bounding box: its two corners. */
  datatype Box = Box(min: Vec3, max: Vec3)

  /** A well-formed (non-empty) box: `min[i] <= max[i]` on every axis. */
  ghost predicate Ordered(b: Box) {
    LessEq(b.min, b.max)
  }

  /** Point `p` lies in the closed box `b`. */
  ghost predicate Contains(b: Box, p: Vec3) {
    LessEq(b.min, p) && LessEq(p, b.max)
  }

  /** Box `outer` reaches at least as far as box `inner` in every direction. */
  ghost predicate Encloses(outer: Box, inner: Box) {
    LessEq(outer.min, inner.min) && LessEq(inner.max, outer.max)
  }

  // ---------------------------------------------------------------------------
  // Extension

  /** The box after `extend(a)`. */
  function Extended(b: Box, a: Vec3): Box {
    Box(Min3f(b.min, a), Max3f(b.max, a))
  }

  /** The box after `extend(c)` for a box `c` other than itself: both corners of `c`, in turn. */
  function ExtendedBy(b: Box, c: Box): Box {
    Extended(Extended(b, c.min), c.max)
  }

  /** After `extend(a)` the point is inside, whatever the box was before. */
  lemma ExtendedContains(b: Box, a: Vec3)
    ensures Contains(Extended(b, a), a)
  {
  }

  /** `extend(a)` never shrinks the box. */
  lemma ExtendedGrows(b: Box, a: Vec3)
    ensures Encloses(Extended(b, a), b)
  {
  }

  /** Extending by a point already inside changes nothing. */
  lemma ExtendedInside(b: Box, a: Vec3)
    requires Contains(b, a)
    ensures Extended(b, a) == b
  {
    var e := Extended(b, a);
    forall i: Axis ensures e.min.At(i) == b.min.At(i) && e.max.At(i) == b.max.At(i) {
      assert b.min.At(i) <= a.At(i) <= b.max.At(i);
    }
    Extensionality(e.min, b.min);
    Extensionality(e.max, b.max);
  }

  /** Extending twice by the same point is extending once. */
  lemma ExtendedIdempotent(b: Box, a: Vec3)
    ensures Extended(Extended(b, a), a) == Extended(b, a)
  {
  }

  /** After `extend(c)` both corners of `c`, and the whole of `c` and of the old box, are inside. */
  lemma ExtendedByContains(b: Box, c: Box)
    ensures Contains(ExtendedBy(b, c), c.min) && Contains(ExtendedBy(b, c), c.max)
    ensures Encloses(ExtendedBy(b, c), b) && Encloses(ExtendedBy(b, c), c)
  {
  }

  // ---------------------------------------------------------------------------
  // Overlap

  /** The test `overlaps` applies on one axis. */
  predicate AxisOverlap(a: Box, b: Box, eps: real, i: Axis) {
    a.min.At(i) + eps < b.max.At(i) && a.max.At(i) + eps > b.min.At(i)
  }

  /** The answer of `overlaps`: the axis test holds on axes 0 and 1 (axis 2 is never examined). */
  predicate Overlapping(a: Box, b: Box, eps: real) {
    AxisOverlap(a, b, eps, 0) && AxisOverlap(a, b, eps, 1)
  }

  /** Moving either box anywhere along axis 2 leaves the answer of `overlaps` as it was. */
  lemma OverlappingIgnoresAxis2(a: Box, b: Box, eps: real, a0: real, a1: real, b0: real, b1: real)
    ensures Overlapping(a, b, eps) ==
            Overlapping(Box(a.min.With(2, a0), a.max.With(2, a1)),
                        Box(b.min.With(2, b0), b.max.With(2, b1)), eps)
  {
  }

  /** Two boxes far apart along axis 2 are still reported as overlapping. */
  lemma OverlappingDisjointOnAxis2(eps: real)
    requires 0.0 <= eps < 1.0
    ensures var a := Box(Vec3(0.0, 0.0, 0.0), Vec3(1.0, 1.0, 1.0));
            var b := Box(Vec3(0.0, 0.0, 5.0), Vec3(1.0, 1.0, 6.0));
            Overlapping(a, b, eps) && a.max.z < b.min.z
  {
  }

  /**
   * With a positive tolerance the test is not symmetric: only this box's
   * corners are shifted by `eps`, so of two boxes that touch at a corner one
   * overlaps the other but not the reverse.
   */
  lemma OverlappingAsymmetric(eps: real)
    requires 0.0 < eps < 1.0
    ensures var a := Box(Vec3(1.0, 1.0, 0.0), Vec3(2.0, 2.0, 1.0));
            var b := Box(Vec3(0.0, 0.0, 0.0), Vec3(1.0, 1.0, 1.0));
            !Overlapping(a, b, eps) && Overlapping(b, a, eps)
  {
  }

  // ---------------------------------------------------------------------------
  // Clipping

  /** Distance along the ray to the plane through `c` perpendicular to axis `i`. */
  function PlaneDist(c: Vec3, org: Vec3, dir: Vec3, i: Axis): real
    requires NonZero(dir)
  {
    (c.At(i) - org.At(i)) / dir.At(i)
  }

  /** The slab distance that `clip` holds as the entry on axis `i`, after its swap for a negative direction. */
  function Near(b: Box, org: Vec3, dir: Vec3, i: Axis): real
    requires NonZero(dir)
  {
    if dir.At(i) < 0.0 then PlaneDist(b.max, org, dir, i) else PlaneDist(b.min, org, dir, i)
  }

  /** The slab distance that `clip` holds as the exit on axis `i`. */
  function Far(b: Box, org: Vec3, dir: Vec3, i: Axis): real
    requires NonZero(dir)
  {
    if dir.At(i) < 0.0 then PlaneDist(b.min, org, dir, i) else PlaneDist(b.max, org, dir, i)
  }

  /** The interval `(t0, t1)` that `clip` writes, combining the axes exactly as it does. */
  function ClipInterval(b: Box, org: Vec3, dir: Vec3): (real, real)
    requires NonZero(dir)
  {
    (Min(Max(Near(b, org, dir, 0), Near(b, org, dir, 1)), Near(b, org, dir, 2)),
     Max(Min(Far(b, org, dir, 0), Far(b, org, dir, 1)), Far(b, org, dir, 2)))
  }

  /** Dividing by a non-zero number keeps order when it is positive and reverses it when negative. */
  lemma DivOrder(a: real, c: real, d: real)
    requires a <= c && d != 0.0
    ensures d > 0.0 ==> a / d <= c / d
    ensures d < 0.0 ==> c / d <= a / d
  {
    if d > 0.0 {
      assert c / d - a / d == (c - a) / d;
    } else {
      assert a / d - c / d == (c - a) / -d;
    }
  }

  /** On a well-formed box the swaps leave every axis ordered: entry before exit. */
  lemma NearBeforeFar(b: Box, org: Vec3, dir: Vec3, i: Axis)
    requires NonZero(dir) && Ordered(b)
    ensures Near(b, org, dir, i) <= Far(b, org, dir, i)
  {
    DivOrder(b.min.At(i) - org.At(i), b.max.At(i) - org.At(i), dir.At(i));
  }

  /** On a well-formed box the interval written by `clip` is never reversed. */
  lemma ClipIntervalOrdered(b: Box, org: Vec3, dir: Vec3)
    requires NonZero(dir) && Ordered(b)
    ensures ClipInterval(b, org, dir).0 <= ClipInterval(b, org, dir).1
  {
    NearBeforeFar(b, org, dir, 2);
  }

  /**
   * The interval `clip` writes can be non-empty for a ray that misses the
   * box: the unit cube and a ray from (-1, 3, -1) along (1, 1, 1) give
   * `(1, 2)`, yet the point at distance 1.5 lies outside the cube.
   */
  lemma ClipIntervalAdmitsMiss()
    ensures var b := Box(Vec3(0.0, 0.0, 0.0), Vec3(1.0, 1.0, 1.0));
            var org := Vec3(-1.0, 3.0, -1.0);
            var dir := Vec3(1.0, 1.0, 1.0);
            ClipInterval(b, org, dir) == (1.0, 2.0) &&
            !Contains(b, Vec3(org.x + 1.5 * dir.x, org.y + 1.5 * dir.y, org.z + 1.5 * dir.z))
  {
  }

  // ---------------------------------------------------------------------------
  // The box object

  class BoundingBox {
    var min: Vec3
    var max: Vec3

    /** The box's current corners as a value. */
    function Value(): Box
      reads this
    {
      Box(min, max)
    }

    /** A default-constructed box: both corners hold the default vector. */
    constructor ()
      ensures Value() == Box(Zero, Zero)
    {
      min, max := Zero, Zero;
    }

    /** A copy of another box. */
    constructor Copy(b: BoundingBox)
      ensures Value() == b.Value()
    {
      min, max := b.min, b.max;
    }

    /** `clear` has an empty body: nothing is reset. */
    method Clear()
      modifies this
      ensures Value() == old(Value())
    {
    }

    /** `extend(a)`: each corner component is pulled out to `a[i]` when `a[i]` lies beyond it. */
    method Extend(a: Vec3)
      modifies this
      ensures Value() == Extended(old(Value()), a)
    {
      for i := 0 to 3
        invariant forall j: Axis :: j < i ==> min.At(j) == Min3f(old(min), a).At(j)
        invariant forall j: Axis :: j < i ==> max.At(j) == Max3f(old(max), a).At(j)
        invariant forall j: Axis :: i <= j ==> min.At(j) == old(min).At(j) && max.At(j) == old(max).At(j)
      {
        if a.At(i) < min.At(i) {
          min := min.With(i, a.At(i));
        }
        if a.At(i) > max.At(i) {
          max := max.With(i, a.At(i));
        }
      }
      Extensionality(min, Min3f(old(min), a));
      Extensionality(max, Max3f(old(max), a));
    }

    /**
     * `extend(box)`: extend by `box`'s min corner, then by its max corner. When
     * `box` is this very box, the second step reads the max corner the first
     * step may already have moved.
     */
    method ExtendBox(box: BoundingBox)
      modifies this
      ensures box != this ==> Value() == ExtendedBy(old(Value()), old(box.Value()))
      ensures box == this ==> Value() == ExtendedBy(old(Value()), Extended(old(Value()), old(min)))
    {
      Extend(box.min);
      Extend(box.max);
    }

    /** `overlaps(box)` with tolerance `eps`: the axis test on axes 0 and 1, returning false at the first failure. */
    method Overlaps(box: BoundingBox, eps: real) returns (r: bool)
      ensures r == Overlapping(Value(), box.Value(), eps)
    {
      for i := 0 to 2
        invariant forall j: Axis :: j < i ==> AxisOverlap(Value(), box.Value(), eps, j)
      {
        if !(min.At(i) + eps < box.max.At(i) && max.At(i) + eps > box.min.At(i)) {
          return false;
        }
      }
      return true;
    }

    /**
     * `clip(ray, t0, t1)`: the six plane distances, swapped per axis when the
     * direction is negative, combined into `(t0, t1)`. Nothing else changes.
     */
    method Clip(ray: Ray) returns (t0: real, t1: real)
      requires NonZero(ray.dir)
      ensures (t0, t1) == ClipInterval(Value(), ray.org, ray.dir)
      ensures Ordered(Value()) ==> t0 <= t1
    {
      var x1 := (min.At(0) - ray.org.At(0)) / ray.dir.At(0);
      var y1 := (min.At(1) - ray.org.At(1)) / ray.dir.At(1);
      var z1 := (min.At(2) - ray.org.At(2)) / ray.dir.At(2);

      var x2 := (max.At(0) - ray.org.At(0)) / ray.dir.At(0);
      var y2 := (max.At(1) - ray.org.At(1)) / ray.dir.At(1);
      var z2 := (max.At(2) - ray.org.At(2)) / ray.dir.At(2);

      if ray.dir.At(0) < 0.0 {
        x1, x2 := x2, x1;
      }
      if ray.dir.At(1) < 0.0 {
        y1, y2 := y2, y1;
      }
      if ray.dir.At(2) < 0.0 {
        z1, z2 := z2, z1;
      }

      t0 := Min(Max(x1, y1), z1);
      t1 := Max(Min(x2, y2), z2);
      if Ordered(Value()) {
        ClipIntervalOrdered(Value(), ray.org, ray.dir);
      }
    }
  }
}
