/**
 * The intersection kernels of src/objects.rs: the Möller–Trumbore triangle
 * test shared by triangles and meshes, and the sphere test. The square root
 * and `normalize` (which needs one) are passed in as functions, since the
 * model has no floating-point square root; the guard logic does not depend
 * on them.
 */
module Kernels {
  import opened Wrappers
  import opened Geometry

  /** `FLOAT_ERROR` of src/objects.rs: the self-intersection epsilon. */
  const FLOAT_ERROR: real := 0.00001

  datatype Sphere = Sphere(center: Vec3, radius: real, color: Vec3)

  /** A hit as src/objects.rs reports it. */
  datatype Hit = Hit(distance: real, normal: Vec3, color: Vec3)

  /** The point with barycentric weights `(1 - u - v, u, v)` on the triangle `p1 p2 p3`. */
  function Barycentric(p1: Vec3, p2: Vec3, p3: Vec3, u: real, v: real): Vec3
  {
    Add(p1, Add(Scale(Sub(p2, p1), u), Scale(Sub(p3, p1), v)))
  }

  predicate InsideTriangle(u: real, v: real)
  {
    0.0 <= u && 0.0 <= v && u + v <= 1.0
  }

  /** The determinant the test divides by: the triple product of the edges and the direction. */
  function Denominator(ray: Ray, p1: Vec3, p2: Vec3, p3: Vec3): real
  {
    Dot(Sub(p2, p1), Cross(ray.direction, Sub(p3, p1)))
  }

  /** The triangle's geometric normal `side2 × side1`, before normalisation. */
  function TriangleNormal(p1: Vec3, p2: Vec3, p3: Vec3): Vec3
  {
    Cross(Sub(p3, p1), Sub(p2, p1))
  }

  /** `intersect_triangle`: the hit distance and unit normal, or `None`. */
  function IntersectTriangle(ray: Ray, p1: Vec3, p2: Vec3, p3: Vec3, normalize: Vec3 -> Vec3): (r: Option<(real, Vec3)>)
    ensures r.Some? ==> r.value.0 >= FLOAT_ERROR
  {
    var side1 := Sub(p2, p1);
    var side2 := Sub(p3, p1);
    var normal := Cross(side2, side1);
    var rayCrossSide2 := Cross(ray.direction, side2);
    var denominator := Dot(side1, rayCrossSide2);
    if Abs(denominator) < FLOAT_ERROR || Dot(ray.direction, normal) > 0.0 then None
    else
      var fraction := 1.0 / denominator;
      var p1ToOrigin := Sub(ray.origin, p1);
      var u := fraction * Dot(p1ToOrigin, rayCrossSide2);
      if u < 0.0 then None
      else
        var p1ToOriginCrossSide1 := Cross(p1ToOrigin, side1);
        var v := fraction * Dot(ray.direction, p1ToOriginCrossSide1);
        var hitDistance := fraction * Dot(side2, p1ToOriginCrossSide1);
        if v < 0.0 || u + v > 1.0 || hitDistance < FLOAT_ERROR then None
        else Some((hitDistance, normalize(normal)))
  }

  /** Cramer's rule for one coordinate of `s`, with `det = a · (d × b)`: a polynomial identity. */
  lemma CramerX(a: Vec3, b: Vec3, d: Vec3, s: Vec3)
    ensures Dot(a, Cross(d, b)) * s.x == Dot(s, Cross(d, b)) * a.x + Dot(d, Cross(s, a)) * b.x - Dot(b, Cross(s, a)) * d.x
  {
  }

  lemma CramerY(a: Vec3, b: Vec3, d: Vec3, s: Vec3)
    ensures Dot(a, Cross(d, b)) * s.y == Dot(s, Cross(d, b)) * a.y + Dot(d, Cross(s, a)) * b.y - Dot(b, Cross(s, a)) * d.y
  {
  }

  lemma CramerZ(a: Vec3, b: Vec3, d: Vec3, s: Vec3)
    ensures Dot(a, Cross(d, b)) * s.z == Dot(s, Cross(d, b)) * a.z + Dot(d, Cross(s, a)) * b.z - Dot(b, Cross(s, a)) * d.z
  {
  }

  /** Dividing Cramer's identity by a non-zero determinant. */
  lemma DivideCoordinate(det: real, s: real, a: real, b: real, d: real, U: real, V: real, T: real)
    requires det != 0.0
    requires det * s == U * a + V * b - T * d
    ensures s == ((1.0 / det) * U) * a + ((1.0 / det) * V) * b - ((1.0 / det) * T) * d
  {
    var f := 1.0 / det;
    assert f * det == 1.0;
    calc {
      (f * U) * a + (f * V) * b - (f * T) * d;
      f * (U * a + V * b - T * d);
      f * (det * s);
      (f * det) * s;
      s;
    }
  }

  /** The three Cramer numerators, for a point given in barycentric form along the ray. */
  lemma SolvedNumerators(side1: Vec3, side2: Vec3, d: Vec3, u: real, v: real, t: real)
    ensures
      var s := Sub(Add(Scale(side1, u), Scale(side2, v)), Scale(d, t));
      var det := Dot(side1, Cross(d, side2));
      var q := Cross(s, side1);
      && Dot(s, Cross(d, side2)) == u * det
      && Dot(d, q) == v * det
      && Dot(side2, q) == t * det
  {
    var a, b := side1, side2;
    var s := Sub(Add(Scale(a, u), Scale(b, v)), Scale(d, t));
    DotCombination(a, b, d, u, v, t, Cross(d, b));
    CrossOrthogonal(d, b);
    TripleCyclic(d, s, a);
    DotCombination(a, b, d, u, v, t, Cross(a, d));
    CrossOrthogonal(a, d);
    TripleCyclic(b, a, d);
    TripleCyclic(b, s, a);
    DotCombination(a, b, d, u, v, t, Cross(a, b));
    CrossOrthogonal(a, b);
    TripleCyclic(d, a, b);
    CrossAntisymmetric(b, d, a);
  }

  /** The three Cramer numerators of the test: `u`, `v` and the distance, times the determinant. */
  function NumeratorU(ray: Ray, p1: Vec3, p2: Vec3, p3: Vec3): real
  {
    Dot(Sub(ray.origin, p1), Cross(ray.direction, Sub(p3, p1)))
  }

  function NumeratorV(ray: Ray, p1: Vec3, p2: Vec3, p3: Vec3): real
  {
    Dot(ray.direction, Cross(Sub(ray.origin, p1), Sub(p2, p1)))
  }

  function NumeratorT(ray: Ray, p1: Vec3, p2: Vec3, p3: Vec3): real
  {
    Dot(Sub(p3, p1), Cross(Sub(ray.origin, p1), Sub(p2, p1)))
  }

  /** The test's first guard: a ray parallel to the triangle, or a back face, is a miss. */
  predicate Degenerate(ray: Ray, p1: Vec3, p2: Vec3, p3: Vec3)
  {
    Abs(Denominator(ray, p1, p2, p3)) < FLOAT_ERROR || Dot(ray.direction, TriangleNormal(p1, p2, p3)) > 0.0
  }

  /** The test's other guards: the solved point lies outside the triangle or too close. */
  predicate Outside(ray: Ray, p1: Vec3, p2: Vec3, p3: Vec3)
    requires !Degenerate(ray, p1, p2, p3)
  {
    var f := 1.0 / Denominator(ray, p1, p2, p3);
    var u, v, t := f * NumeratorU(ray, p1, p2, p3), f * NumeratorV(ray, p1, p2, p3), f * NumeratorT(ray, p1, p2, p3);
    u < 0.0 || v < 0.0 || u + v > 1.0 || t < FLOAT_ERROR
  }

  lemma DegenerateMisses(ray: Ray, p1: Vec3, p2: Vec3, p3: Vec3, normalize: Vec3 -> Vec3)
    requires Degenerate(ray, p1, p2, p3)
    ensures IntersectTriangle(ray, p1, p2, p3, normalize) == None
  {
  }

  lemma OutsideMisses(ray: Ray, p1: Vec3, p2: Vec3, p3: Vec3, normalize: Vec3 -> Vec3)
    requires !Degenerate(ray, p1, p2, p3) && Outside(ray, p1, p2, p3)
    ensures IntersectTriangle(ray, p1, p2, p3, normalize) == None
  {
  }

  lemma InsideHitDistance(ray: Ray, p1: Vec3, p2: Vec3, p3: Vec3, normalize: Vec3 -> Vec3)
    requires !Degenerate(ray, p1, p2, p3) && !Outside(ray, p1, p2, p3)
    ensures IntersectTriangle(ray, p1, p2, p3, normalize).Some?
    ensures IntersectTriangle(ray, p1, p2, p3, normalize).value.0
            == (1.0 / Denominator(ray, p1, p2, p3)) * NumeratorT(ray, p1, p2, p3)
  {
  }

  lemma InsideHitNormal(ray: Ray, p1: Vec3, p2: Vec3, p3: Vec3, normalize: Vec3 -> Vec3)
    requires IntersectTriangle(ray, p1, p2, p3, normalize).Some?
    ensures IntersectTriangle(ray, p1, p2, p3, normalize).value.1 == normalize(TriangleNormal(p1, p2, p3))
  {
  }

  /** `At(o, t) == p1 + u side1 + v side2` is `o - p1 == u side1 + v side2 - t d`, coordinate-wise. */
  lemma AtIsBarycentric(ray: Ray, p1: Vec3, p2: Vec3, p3: Vec3, u: real, v: real, t: real)
    requires
      var s, a, b, d := Sub(ray.origin, p1), Sub(p2, p1), Sub(p3, p1), ray.direction;
      && s.x == u * a.x + v * b.x - t * d.x
      && s.y == u * a.y + v * b.y - t * d.y
      && s.z == u * a.z + v * b.z - t * d.z
    ensures At(ray, t) == Barycentric(p1, p2, p3, u, v)
  {
    var o, d := ray.origin, ray.direction;
    AtIsBarycentricCoordinate(o.x, d.x, p1.x, p2.x, p3.x, u, v, t);
    AtIsBarycentricCoordinate(o.y, d.y, p1.y, p2.y, p3.y, u, v, t);
    AtIsBarycentricCoordinate(o.z, d.z, p1.z, p2.z, p3.z, u, v, t);
  }

  lemma AtIsBarycentricCoordinate(o: real, d: real, p1: real, p2: real, p3: real, u: real, v: real, t: real)
    requires o - p1 == u * (p2 - p1) + v * (p3 - p1) - t * d
    ensures o + t * d == p1 + (u * (p2 - p1) + v * (p3 - p1))
  {
  }

  /** Cramer's identity, divided by the determinant, puts the solved point on the ray. */
  lemma DivideCramer(ray: Ray, p1: Vec3, p2: Vec3, p3: Vec3, det: real, U: real, V: real, T: real)
    requires det != 0.0
    requires
      var s, a, b, d := Sub(ray.origin, p1), Sub(p2, p1), Sub(p3, p1), ray.direction;
      && det * s.x == U * a.x + V * b.x - T * d.x
      && det * s.y == U * a.y + V * b.y - T * d.y
      && det * s.z == U * a.z + V * b.z - T * d.z
    ensures At(ray, (1.0 / det) * T) == Barycentric(p1, p2, p3, (1.0 / det) * U, (1.0 / det) * V)
  {
    var s, a, b, d := Sub(ray.origin, p1), Sub(p2, p1), Sub(p3, p1), ray.direction;
    DivideCoordinate(det, s.x, a.x, b.x, d.x, U, V, T);
    DivideCoordinate(det, s.y, a.y, b.y, d.y, U, V, T);
    DivideCoordinate(det, s.z, a.z, b.z, d.z, U, V, T);
    AtIsBarycentric(ray, p1, p2, p3, (1.0 / det) * U, (1.0 / det) * V, (1.0 / det) * T);
  }

  /** Cramer's identity for the test's own determinant and numerators, coordinate by coordinate. */
  lemma CramerForRay(ray: Ray, p1: Vec3, p2: Vec3, p3: Vec3)
    ensures
      var det := Denominator(ray, p1, p2, p3);
      var U, V, T := NumeratorU(ray, p1, p2, p3), NumeratorV(ray, p1, p2, p3), NumeratorT(ray, p1, p2, p3);
      var s, a, b, d := Sub(ray.origin, p1), Sub(p2, p1), Sub(p3, p1), ray.direction;
      && det * s.x == U * a.x + V * b.x - T * d.x
      && det * s.y == U * a.y + V * b.y - T * d.y
      && det * s.z == U * a.z + V * b.z - T * d.z
  {
    CramerForRayX(ray, p1, p2, p3);
    CramerForRayY(ray, p1, p2, p3);
    CramerForRayZ(ray, p1, p2, p3);
  }

  lemma CramerForRayX(ray: Ray, p1: Vec3, p2: Vec3, p3: Vec3)
    ensures Denominator(ray, p1, p2, p3) * Sub(ray.origin, p1).x
         == NumeratorU(ray, p1, p2, p3) * Sub(p2, p1).x + NumeratorV(ray, p1, p2, p3) * Sub(p3, p1).x
            - NumeratorT(ray, p1, p2, p3) * ray.direction.x
  {
    CramerX(Sub(p2, p1), Sub(p3, p1), ray.direction, Sub(ray.origin, p1));
  }

  lemma CramerForRayY(ray: Ray, p1: Vec3, p2: Vec3, p3: Vec3)
    ensures Denominator(ray, p1, p2, p3) * Sub(ray.origin, p1).y
         == NumeratorU(ray, p1, p2, p3) * Sub(p2, p1).y + NumeratorV(ray, p1, p2, p3) * Sub(p3, p1).y
            - NumeratorT(ray, p1, p2, p3) * ray.direction.y
  {
    CramerY(Sub(p2, p1), Sub(p3, p1), ray.direction, Sub(ray.origin, p1));
  }

  lemma CramerForRayZ(ray: Ray, p1: Vec3, p2: Vec3, p3: Vec3)
    ensures Denominator(ray, p1, p2, p3) * Sub(ray.origin, p1).z
         == NumeratorU(ray, p1, p2, p3) * Sub(p2, p1).z + NumeratorV(ray, p1, p2, p3) * Sub(p3, p1).z
            - NumeratorT(ray, p1, p2, p3) * ray.direction.z
  {
    CramerZ(Sub(p2, p1), Sub(p3, p1), ray.direction, Sub(ray.origin, p1));
  }

  /** Solving by Cramer's rule: the numerators over the determinant give the point on the ray. */
  lemma SolveBarycentric(ray: Ray, p1: Vec3, p2: Vec3, p3: Vec3)
    requires Denominator(ray, p1, p2, p3) != 0.0
    ensures At(ray, (1.0 / Denominator(ray, p1, p2, p3)) * NumeratorT(ray, p1, p2, p3))
            == Barycentric(p1, p2, p3, (1.0 / Denominator(ray, p1, p2, p3)) * NumeratorU(ray, p1, p2, p3),
                           (1.0 / Denominator(ray, p1, p2, p3)) * NumeratorV(ray, p1, p2, p3))
  {
    CramerForRay(ray, p1, p2, p3);
    DivideCramer(ray, p1, p2, p3, Denominator(ray, p1, p2, p3),
                 NumeratorU(ray, p1, p2, p3), NumeratorV(ray, p1, p2, p3), NumeratorT(ray, p1, p2, p3));
  }

  /** Conversely, a point on the ray in barycentric form has the weights the numerators give. */
  lemma SolveNumerators(ray: Ray, p1: Vec3, p2: Vec3, p3: Vec3, u: real, v: real, t: real)
    requires Denominator(ray, p1, p2, p3) != 0.0
    requires At(ray, t) == Barycentric(p1, p2, p3, u, v)
    ensures
      var f := 1.0 / Denominator(ray, p1, p2, p3);
      && f * NumeratorU(ray, p1, p2, p3) == u
      && f * NumeratorV(ray, p1, p2, p3) == v
      && f * NumeratorT(ray, p1, p2, p3) == t
  {
    var side1, side2, d := Sub(p2, p1), Sub(p3, p1), ray.direction;
    var det := Denominator(ray, p1, p2, p3);
    var s := Sub(ray.origin, p1);
    assert s == Sub(Add(Scale(side1, u), Scale(side2, v)), Scale(d, t));
    SolvedNumerators(side1, side2, d, u, v, t);
    Reciprocal(det, u);
    Reciprocal(det, v);
    Reciprocal(det, t);
  }

  /**
   * Soundness of the triangle test: a reported hit is not degenerate for this
   * ray (`|det| >= FLOAT_ERROR`), faces the ray (`direction · normal <= 0`), and
   * the point at the reported distance along the ray is a point of the
   * triangle, with barycentric weights `(1 - u - v, u, v)`, `u, v >= 0`,
   * `u + v <= 1`.
   */
  lemma IntersectTriangleSound(ray: Ray, p1: Vec3, p2: Vec3, p3: Vec3, normalize: Vec3 -> Vec3)
    requires IntersectTriangle(ray, p1, p2, p3, normalize).Some?
    ensures Abs(Denominator(ray, p1, p2, p3)) >= FLOAT_ERROR
    ensures Dot(ray.direction, TriangleNormal(p1, p2, p3)) <= 0.0
    ensures exists u, v :: InsideTriangle(u, v) &&
              At(ray, IntersectTriangle(ray, p1, p2, p3, normalize).value.0) == Barycentric(p1, p2, p3, u, v)
  {
    if Degenerate(ray, p1, p2, p3) {
      DegenerateMisses(ray, p1, p2, p3, normalize);
    }
    if Outside(ray, p1, p2, p3) {
      OutsideMisses(ray, p1, p2, p3, normalize);
    }
    InsideHitDistance(ray, p1, p2, p3, normalize);
    SolveBarycentric(ray, p1, p2, p3);
    var f := 1.0 / Denominator(ray, p1, p2, p3);
    var u, v := f * NumeratorU(ray, p1, p2, p3), f * NumeratorV(ray, p1, p2, p3);
    assert InsideTriangle(u, v);
  }

  /**
   * Completeness of the triangle test: when the ray is not degenerate for the
   * triangle and faces it, and the point `t >= FLOAT_ERROR` along the ray is
   * the triangle's point with weights `(1 - u - v, u, v)`, the test reports
   * exactly that distance.
   */
  lemma IntersectTriangleComplete(ray: Ray, p1: Vec3, p2: Vec3, p3: Vec3, normalize: Vec3 -> Vec3,
                                  u: real, v: real, t: real)
    requires Abs(Denominator(ray, p1, p2, p3)) >= FLOAT_ERROR
    requires Dot(ray.direction, TriangleNormal(p1, p2, p3)) <= 0.0
    requires InsideTriangle(u, v) && t >= FLOAT_ERROR
    requires At(ray, t) == Barycentric(p1, p2, p3, u, v)
    ensures IntersectTriangle(ray, p1, p2, p3, normalize) == Some((t, normalize(TriangleNormal(p1, p2, p3))))
  {
    SolveNumerators(ray, p1, p2, p3, u, v, t);
    assert !Outside(ray, p1, p2, p3);
    InsideHitDistance(ray, p1, p2, p3, normalize);
    InsideHitNormal(ray, p1, p2, p3, normalize);
    var r := IntersectTriangle(ray, p1, p2, p3, normalize);
    assert r.value == (r.value.0, r.value.1);
  }

  lemma Reciprocal(det: real, x: real)
    requires det != 0.0
    ensures (1.0 / det) * (x * det) == x
  {
  }

  /** `Sphere::intersect` of src/objects.rs. */
  function IntersectSphere(sphere: Sphere, ray: Ray, sqrt: real -> real, normalize: Vec3 -> Vec3): (r: Option<Hit>)
    ensures r.Some? ==> r.value.distance >= FLOAT_ERROR
  {
    var radiusSq := sphere.radius * sphere.radius;
    var originToCenter := Sub(sphere.center, ray.origin);
    var originToCenterSq := Dot(originToCenter, originToCenter);
    var projectionOnRay := Dot(originToCenter, ray.direction);
    if projectionOnRay < 0.0 || originToCenterSq < radiusSq then None
    else
      var centerToProjectionSq := originToCenterSq - projectionOnRay * projectionOnRay;
      if centerToProjectionSq > radiusSq then None
      else
        var projectionToHit := sqrt(radiusSq - centerToProjectionSq);
        var hitDistance := projectionOnRay - projectionToHit;
        if hitDistance < FLOAT_ERROR then None
        else Some(Hit(hitDistance, normalize(Sub(At(ray, hitDistance), sphere.center)), sphere.color))
  }

  /** Squared distance from the sphere's center of the point `t` along the ray. */
  function CenterDistanceSq(sphere: Sphere, ray: Ray, t: real): real
  {
    Dot(Sub(At(ray, t), sphere.center), Sub(At(ray, t), sphere.center))
  }

  /** Along a unit ray the squared center distance is the quadratic `t² - 2tp + |oc|²`. */
  lemma CenterDistanceQuadratic(sphere: Sphere, ray: Ray, t: real)
    requires IsUnit(ray.direction)
    ensures
      var oc := Sub(sphere.center, ray.origin);
      CenterDistanceSq(sphere, ray, t) == t * t - 2.0 * t * Dot(oc, ray.direction) + Dot(oc, oc)
  {
    var d := ray.direction;
    var oc := Sub(sphere.center, ray.origin);
    assert Sub(At(ray, t), sphere.center) == Sub(Scale(d, t), oc);
    assert Dot(Sub(Scale(d, t), oc), Sub(Scale(d, t), oc)) == t * t * Dot(d, d) - 2.0 * t * Dot(oc, d) + Dot(oc, oc);
  }

  /** The sphere test rejects a sphere whose center lies behind the ray, and a ray that starts inside the sphere. */
  lemma IntersectSphereRejects(sphere: Sphere, ray: Ray, sqrt: real -> real, normalize: Vec3 -> Vec3)
    ensures
      var oc := Sub(sphere.center, ray.origin);
      Dot(oc, ray.direction) < 0.0 || Dot(oc, oc) < sphere.radius * sphere.radius
      ==> IntersectSphere(sphere, ray, sqrt, normalize).None?
  {
  }

  /** When the ray's line passes farther from the center than the radius, no point of it is on the sphere. */
  lemma SphereMissIsGenuine(sphere: Sphere, ray: Ray, t: real)
    requires IsUnit(ray.direction)
    requires
      var oc := Sub(sphere.center, ray.origin);
      var p := Dot(oc, ray.direction);
      Dot(oc, oc) - p * p > sphere.radius * sphere.radius
    ensures CenterDistanceSq(sphere, ray, t) > sphere.radius * sphere.radius
  {
    CenterDistanceQuadratic(sphere, ray, t);
    var oc := Sub(sphere.center, ray.origin);
    QuadraticAboveMinimum(t, Dot(oc, ray.direction), Dot(oc, oc), sphere.radius * sphere.radius);
  }

  /** `t² - 2tp + c` is least at `t = p`, where it is `c - p²`. */
  lemma QuadraticAboveMinimum(t: real, p: real, c: real, rr: real)
    requires c - p * p > rr
    ensures t * t - 2.0 * t * p + c > rr
  {
    assert t * t - 2.0 * t * p + c == (t - p) * (t - p) + (c - p * p);
    assert (t - p) * (t - p) >= 0.0;
  }

  /** The value whose square root `Sphere::intersect` takes: squared radius minus squared distance from the center to the ray's line. */
  function RootArgument(sphere: Sphere, ray: Ray): real
  {
    var oc := Sub(sphere.center, ray.origin);
    var p := Dot(oc, ray.direction);
    sphere.radius * sphere.radius - (Dot(oc, oc) - p * p)
  }

  /** `sqrt` returns the true non-negative root of `q`. */
  predicate IsRootOf(sqrt: real -> real, q: real)
  {
    sqrt(q) >= 0.0 && sqrt(q) * sqrt(q) == q
  }

  /**
   * When `sqrt` returns the true root of the value it is applied to, a reported
   * hit lies on the sphere, and no point of the sphere is nearer along the ray.
   */
  lemma SphereHitIsNearestOnSurface(sphere: Sphere, ray: Ray, sqrt: real -> real,
                                     normalize: Vec3 -> Vec3, t: real)
    requires IsUnit(ray.direction)
    requires IsRootOf(sqrt, RootArgument(sphere, ray))
    requires IntersectSphere(sphere, ray, sqrt, normalize).Some?
    ensures
      var d := IntersectSphere(sphere, ray, sqrt, normalize).value.distance;
      && CenterDistanceSq(sphere, ray, d) == sphere.radius * sphere.radius
      && (CenterDistanceSq(sphere, ray, t) == sphere.radius * sphere.radius ==> d <= t)
  {
    var oc := Sub(sphere.center, ray.origin);
    var p, c, rr := Dot(oc, ray.direction), Dot(oc, oc), sphere.radius * sphere.radius;
    var h := sqrt(RootArgument(sphere, ray));
    assert h >= 0.0 && h * h == rr - (c - p * p);
    SphereHitDistance(sphere, ray, sqrt, normalize);
    var d := IntersectSphere(sphere, ray, sqrt, normalize).value.distance;
    CenterDistanceQuadratic(sphere, ray, d);
    CenterDistanceQuadratic(sphere, ray, t);
    NearestRoot(p, h, c, rr, t, d, CenterDistanceSq(sphere, ray, d), CenterDistanceSq(sphere, ray, t));
  }

  /** A reported sphere hit lies at `p - sqrt(q)`, with `p` the projection of the center on the ray and `q` the root argument. */
  lemma SphereHitDistance(sphere: Sphere, ray: Ray, sqrt: real -> real, normalize: Vec3 -> Vec3)
    requires IntersectSphere(sphere, ray, sqrt, normalize).Some?
    ensures IntersectSphere(sphere, ray, sqrt, normalize).value.distance
            == Dot(Sub(sphere.center, ray.origin), ray.direction) - sqrt(RootArgument(sphere, ray))
  {
  }

  /**
   * The smaller root `d = p - h` of `t² - 2tp + c = rr`, where `h² = rr - (c - p²)`
   * and `h >= 0`: `dd` and `tt` are the quadratic's values at `d` and at `t`.
   */
  lemma NearestRoot(p: real, h: real, c: real, rr: real, t: real, d: real, dd: real, tt: real)
    requires h >= 0.0 && h * h == rr - (c - p * p) && d == p - h
    requires dd == d * d - 2.0 * d * p + c && tt == t * t - 2.0 * t * p + c
    ensures dd == rr
    ensures tt == rr ==> d <= t
  {
    assert (p - h) * (p - h) - 2.0 * (p - h) * p + c == h * h - p * p + c;
    if tt == rr {
      assert (t - p - h) * (t - p + h) == t * t - 2.0 * t * p + c - rr;
      assert t - p == h || t - p == -h;
    }
  }
}
