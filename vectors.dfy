/**
 * Points, directions and rays of the tracer.
 *
 * `Vec3` stands for the three-component single-precision vector `Vec3f`
 * (coordinates are exact reals here), `Ray` for the ray record whose best-hit
 * distance `t` the core resets and the primitives lower.
 */
module Vectors {

  /** An index of a vector component: 0 (x), 1 (y) or 2 (z). */
  type Axis = i: int | 0 <= i < 3

  datatype Vec3 = Vec3(x: real, y: real, z: real) {

    /** The component `v[i]`. */
    function At(i: Axis): real {
      if i == 0 then x else if i == 1 then y else z
    }

    /** This vector with component `i` replaced by `v` (the assignment `a[i] = v`). */
    function With(i: Axis, v: real): (r: Vec3)
      ensures r.At(i) == v
      ensures forall j: Axis :: j != i ==> r.At(j) == At(j)
    {
      if i == 0 then Vec3(v, y, z) else if i == 1 then Vec3(x, v, z) else Vec3(x, y, v)
    }
  }

  /** The value a default-constructed `Vec3f` holds. */
  const Zero := Vec3(0.0, 0.0, 0.0)

  /** Two vectors are equal when all three components are. */
  lemma Extensionality(a: Vec3, b: Vec3)
    requires forall i: Axis :: a.At(i) == b.At(i)
    ensures a == b
  {
    assert a.At(0) == b.At(0) && a.At(1) == b.At(1) && a.At(2) == b.At(2);
  }

  /** Component-wise `a <= b`. */
  predicate LessEq(a: Vec3, b: Vec3) {
    forall i: Axis :: a.At(i) <= b.At(i)
  }

  /** A direction none of whose components is zero, so that every slab distance is defined. */
  predicate NonZero(v: Vec3) {
    v.x != 0.0 && v.y != 0.0 && v.z != 0.0
  }

  /** The `MIN` and `MAX` macros on one scalar. */
  function Min(a: real, b: real): real { if a < b then a else b }
  function Max(a: real, b: real): real { if a > b then a else b }

  /** A ray's best-hit distance: `+infinity` before any hit, a finite distance after one. */
  datatype Dist = Inf | Fin(d: real)

  /**
   * A ray: origin and direction are fixed, the best-hit distance `t` is
   * written by the query.
   */
  class Ray {
    const org: Vec3
    const dir: Vec3
    var t: Dist

    constructor (org: Vec3, dir: Vec3)
      ensures this.org == org && this.dir == dir && t == Inf
    {
      this.org := org;
      this.dir := dir;
      t := Inf;
    }
  }
}
