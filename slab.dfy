/**
 * The ray/box slab test of `Mesh::intersect` (src/objects.rs:147-152). Per
 * axis the ray's parameters at the two faces, `(bounds - origin) / direction`,
 * give an entry (the smaller) and an exit (the larger); the box is missed when
 * the latest entry, raised to `FLOAT_ERROR`, is not below the earliest exit.
 *
 * A zero direction coordinate makes the division produce an infinity, so the
 * parameters are extended reals: an axis whose slab contains the origin then
 * constrains nothing, and one whose slab does not rejects every parameter.
 */
module Slab {
  import opened Geometry
  import Kernels

  datatype Ext = NegInf | Fin(r: real) | PosInf

  predicate Le(a: Ext, b: Ext)
  {
    a.NegInf? || b.PosInf? || (a.Fin? && b.Fin? && a.r <= b.r)
  }

  function MaxE(a: Ext, b: Ext): Ext
  {
    if Le(a, b) then b else a
  }

  function MinE(a: Ext, b: Ext): Ext
  {
    if Le(a, b) then a else b
  }

  /** The smaller of the two face parameters on one axis. */
  function Entry(o: real, d: real, lo: real, hi: real): Ext
  {
    if d != 0.0 then Fin(Min((lo - o) / d, (hi - o) / d))
    else if lo < o < hi then NegInf
    else PosInf
  }

  /** The larger of the two face parameters on one axis. */
  function Exit(o: real, d: real, lo: real, hi: real): Ext
  {
    if d != 0.0 then Fin(Max((lo - o) / d, (hi - o) / d))
    else if lo < o < hi then PosInf
    else NegInf
  }

  function AxisEntry(ray: Ray, lo: Vec3, hi: Vec3, a: Axis): Ext
  {
    Entry(Coord(ray.origin, a), Coord(ray.direction, a), Coord(lo, a), Coord(hi, a))
  }

  function AxisExit(ray: Ray, lo: Vec3, hi: Vec3, a: Axis): Ext
  {
    Exit(Coord(ray.origin, a), Coord(ray.direction, a), Coord(lo, a), Coord(hi, a))
  }

  /** `near.min(far).max_element().max(FLOAT_ERROR)` */
  function MinDistance(ray: Ray, lo: Vec3, hi: Vec3): Ext
  {
    MaxE(MaxE(MaxE(AxisEntry(ray, lo, hi, 0), AxisEntry(ray, lo, hi, 1)), AxisEntry(ray, lo, hi, 2)),
         Fin(Kernels.FLOAT_ERROR))
  }

  /** `far.max(near).min_element().min(f32::INFINITY)` */
  function MaxDistance(ray: Ray, lo: Vec3, hi: Vec3): Ext
  {
    MinE(MinE(MinE(AxisExit(ray, lo, hi, 0), AxisExit(ray, lo, hi, 1)), AxisExit(ray, lo, hi, 2)), PosInf)
  }

  /** `min_distance >= max_distance`: the traversal skips the box and its subtree. */
  predicate Misses(ray: Ray, lo: Vec3, hi: Vec3)
  {
    Le(MaxDistance(ray, lo, hi), MinDistance(ray, lo, hi))
  }

  lemma QuotientBelow(n: real, d: real, t: real)
    requires d > 0.0 && n < t * d
    ensures n / d < t
  {
    assert n / d * d == n;
  }

  lemma QuotientAbove(n: real, d: real, t: real)
    requires d > 0.0 && t * d < n
    ensures t < n / d
  {
    assert n / d * d == n;
  }

  /** A parameter `t` whose point lies strictly inside the slab lies strictly between the face parameters. */
  lemma InsideSlab(o: real, d: real, lo: real, hi: real, t: real)
    requires lo < o + t * d < hi
    ensures Le(Entry(o, d, lo, hi), Fin(t)) && !Le(Exit(o, d, lo, hi), Fin(t))
  {
    if d > 0.0 {
      QuotientBelow(lo - o, d, t);
      QuotientAbove(hi - o, d, t);
    } else if d < 0.0 {
      assert o - hi < t * (-d) < o - lo;
      QuotientBelow(o - hi, -d, t);
      QuotientAbove(o - lo, -d, t);
      assert (lo - o) / d == (o - lo) / (-d);
      assert (hi - o) / d == (o - hi) / (-d);
    }
  }

  lemma MaxBelow(a: Ext, b: Ext, x: Ext)
    requires Le(a, x) && Le(b, x)
    ensures Le(MaxE(a, b), x)
  {
  }

  lemma MinAbove(a: Ext, b: Ext, x: Ext)
    requires !Le(a, x) && !Le(b, x)
    ensures !Le(MinE(a, b), x)
  {
  }

  lemma InsideAxis(ray: Ray, lo: Vec3, hi: Vec3, t: real, a: Axis)
    requires Coord(lo, a) < Coord(At(ray, t), a) < Coord(hi, a)
    ensures Le(AxisEntry(ray, lo, hi, a), Fin(t)) && !Le(AxisExit(ray, lo, hi, a), Fin(t))
  {
    assert Coord(At(ray, t), a) == Coord(ray.origin, a) + t * Coord(ray.direction, a);
    InsideSlab(Coord(ray.origin, a), Coord(ray.direction, a), Coord(lo, a), Coord(hi, a), t);
  }

  /**
   * The test is conservative: a box holding a point of the ray strictly
   * inside, at a parameter of at least `FLOAT_ERROR`, is never missed.
   */
  lemma HitBoxNotMissed(ray: Ray, lo: Vec3, hi: Vec3, t: real)
    requires t >= Kernels.FLOAT_ERROR
    requires StrictlyInside(lo, hi, At(ray, t))
    ensures !Misses(ray, lo, hi)
  {
    InsideAxis(ray, lo, hi, t, 0);
    InsideAxis(ray, lo, hi, t, 1);
    InsideAxis(ray, lo, hi, t, 2);
    var e0, e1, e2 := AxisEntry(ray, lo, hi, 0), AxisEntry(ray, lo, hi, 1), AxisEntry(ray, lo, hi, 2);
    var x0, x1, x2 := AxisExit(ray, lo, hi, 0), AxisExit(ray, lo, hi, 1), AxisExit(ray, lo, hi, 2);
    MaxBelow(e0, e1, Fin(t));
    MaxBelow(MaxE(e0, e1), e2, Fin(t));
    MaxBelow(MaxE(MaxE(e0, e1), e2), Fin(Kernels.FLOAT_ERROR), Fin(t));
    MinAbove(x0, x1, Fin(t));
    MinAbove(MinE(x0, x1), x2, Fin(t));
    MinAbove(MinE(MinE(x0, x1), x2), PosInf, Fin(t));
  }
}
