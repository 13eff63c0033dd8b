/**
 * Vectors and rays. The source's `glam::Vec3` holds three f32; here each
 * coordinate is a real, so rounding, NaN and infinities are not modelled.
 */
module Geometry {

  datatype Vec3 = Vec3(x: real, y: real, z: real)

  /** The three coordinate axes, numbered as `Vec3::to_array` numbers them. */
  type Axis = c: nat | c < 3

  const Zero := Vec3(0.0, 0.0, 0.0)

  function Coord(v: Vec3, c: Axis): real
  {
    if c == 0 then v.x else if c == 1 then v.y else v.z
  }

  function Min(a: real, b: real): real { if a <= b then a else b }
  function Max(a: real, b: real): real { if a >= b then a else b }
  function Abs(a: real): real { if a < 0.0 then -a else a }

  function Add(a: Vec3, b: Vec3): Vec3 { Vec3(a.x + b.x, a.y + b.y, a.z + b.z) }
  function Sub(a: Vec3, b: Vec3): Vec3 { Vec3(a.x - b.x, a.y - b.y, a.z - b.z) }
  function Neg(a: Vec3): Vec3 { Vec3(-a.x, -a.y, -a.z) }
  function Scale(a: Vec3, k: real): Vec3 { Vec3(k * a.x, k * a.y, k * a.z) }
  function Splat(k: real): Vec3 { Vec3(k, k, k) }
  function Dot(a: Vec3, b: Vec3): real { a.x * b.x + a.y * b.y + a.z * b.z }

  function Cross(a: Vec3, b: Vec3): Vec3
  {
    Vec3(a.y * b.z - a.z * b.y, a.z * b.x - a.x * b.z, a.x * b.y - a.y * b.x)
  }

  /** Componentwise minimum and maximum (`Vec3::min`, `Vec3::max`). */
  function MinV(a: Vec3, b: Vec3): Vec3 { Vec3(Min(a.x, b.x), Min(a.y, b.y), Min(a.z, b.z)) }
  function MaxV(a: Vec3, b: Vec3): Vec3 { Vec3(Max(a.x, b.x), Max(a.y, b.y), Max(a.z, b.z)) }

  /** `a.abs_diff_eq(b, eps)`: every coordinate differs by at most `eps`. */
  predicate AbsDiffEq(a: Vec3, b: Vec3, eps: real)
  {
    Abs(a.x - b.x) <= eps && Abs(a.y - b.y) <= eps && Abs(a.z - b.z) <= eps
  }

  predicate IsUnit(v: Vec3) { Dot(v, v) == 1.0 }

  /** A ray; `Ray::new` normalises its direction, which needs a square root and is left abstract. */
  datatype Ray = Ray(origin: Vec3, direction: Vec3)

  /** `Ray::at`: the point `distance` along the ray. */
  function At(ray: Ray, distance: real): Vec3
  {
    Add(ray.origin, Scale(ray.direction, distance))
  }

  /** Along a unit-direction ray, the parameter of `At` is the Euclidean distance from the origin. */
  lemma AtDistance(ray: Ray, t: real)
    requires IsUnit(ray.direction)
    ensures Sub(At(ray, t), ray.origin) == Scale(ray.direction, t)
    ensures Dot(Sub(At(ray, t), ray.origin), Sub(At(ray, t), ray.origin)) == t * t
  {
    var d := ray.direction;
    assert Sub(At(ray, t), ray.origin) == Scale(d, t);
    calc {
      Dot(Scale(d, t), Scale(d, t));
      (t * d.x) * (t * d.x) + (t * d.y) * (t * d.y) + (t * d.z) * (t * d.z);
      t * t * (d.x * d.x + d.y * d.y + d.z * d.z);
      t * t;
    }
  }

  /** The scalar triple product is invariant under cyclic rotation. */
  lemma TripleCyclic(a: Vec3, b: Vec3, c: Vec3)
    ensures Dot(a, Cross(b, c)) == Dot(b, Cross(c, a))
  {
  }

  /** A cross product is orthogonal to both of its factors. */
  lemma CrossOrthogonal(a: Vec3, c: Vec3)
    ensures Dot(a, Cross(a, c)) == 0.0 && Dot(c, Cross(a, c)) == 0.0
  {
  }

  lemma CrossAntisymmetric(a: Vec3, b: Vec3, w: Vec3)
    ensures Dot(w, Cross(a, b)) == -Dot(w, Cross(b, a))
  {
  }

  /** The dot product is linear in its first argument. */
  lemma DotCombination(a: Vec3, b: Vec3, d: Vec3, u: real, v: real, t: real, w: Vec3)
    ensures Dot(Sub(Add(Scale(a, u), Scale(b, v)), Scale(d, t)), w) == u * Dot(a, w) + v * Dot(b, w) - t * Dot(d, w)
  {
  }

  /** `lo < p < hi` in every coordinate. */
  predicate StrictlyInside(lo: Vec3, hi: Vec3, p: Vec3)
  {
    lo.x < p.x < hi.x && lo.y < p.y < hi.y && lo.z < p.z < hi.z
  }
}
