/**
 * src/structures.rs: the render settings, the film's pixel buffer with its
 * bounds-checked, row-flipped `set_pixel`, and the quadratic-formula sphere
 * test with its own `FLOAT_ERROR` of 0.001.
 *
 * The film buffer also models the allocation of `Camera::new` in
 * src/scene.rs, and the pixel-to-coordinate mapping of the render loop in
 * src/main.rs, which is the inverse of the flip in `set_pixel`.
 */
module Structures {
  import opened Wrappers
  import opened Geometry
  import Kernels

  /** The tolerance of src/structures.rs, distinct from the one of src/objects.rs. */
  const FLOAT_ERROR: real := 0.001

  /** Values of `u32` are below this bound. */
  const U32_LIMIT: nat := 0x1_0000_0000

  datatype RenderSettings = RenderSettings(samplesPerPixel: nat, maxRayDepth: nat)

  /** `RenderSettings::default`: 16 samples per pixel and a ray depth of 8. */
  function DefaultSettings(): (s: RenderSettings)
    ensures s.samplesPerPixel == 16 && s.maxRayDepth == 8
  {
    RenderSettings(16, 8)
  }

  // ---------------------------------------------------------------------
  // Pixel layout
  // ---------------------------------------------------------------------

  lemma MulStrict(a: nat, b: nat, w: nat)
    requires a < b
    ensures a * w + w <= b * w
  {
    var k: nat := b - a - 1;
    assert b * w == a * w + w + k * w;
  }

  /** The buffer index `set_pixel` writes for `(x, y)`: row `y` counted from the bottom. */
  function PixelIndex(w: nat, h: nat, x: nat, y: nat): (r: nat)
    requires x < w && y < h
    ensures r < w * h
  {
    MulStrict(h - y - 1, h, w);
    assert h * w == w * h;
    (h - y - 1) * w + x
  }

  lemma DivModUnique(p: nat, w: nat, q: nat, r: nat)
    requires r < w && p == q * w + r
    ensures p / w == q && p % w == r
  {
    var q', r' := p / w, p % w;
    assert p == q' * w + r';
    if q' < q {
      MulStrict(q', q, w);
    } else if q < q' {
      MulStrict(q, q', w);
    }
  }

  /** The render loop's mapping of a buffer position to pixel coordinates (src/main.rs:61-62). */
  function PixelCoords(w: nat, h: nat, p: nat): (c: (nat, nat))
    requires p < w * h
    ensures c.0 < w && c.1 < h
  {
    var q := p / w;
    assert q < h by {
      assert p == q * w + p % w;
    }
    (p % w, h - 1 - q)
  }

  /** The flip of `set_pixel` undoes the flip of the render loop: position `p` is written back at `p`. */
  lemma PixelIndexOfCoords(w: nat, h: nat, p: nat)
    requires p < w * h
    ensures PixelIndex(w, h, PixelCoords(w, h, p).0, PixelCoords(w, h, p).1) == p
  {
    assert p == (p / w) * w + p % w;
  }

  /** Every in-range pixel's index maps back to that pixel. */
  lemma PixelCoordsOfIndex(w: nat, h: nat, x: nat, y: nat)
    requires x < w && y < h
    ensures PixelCoords(w, h, PixelIndex(w, h, x, y)) == (x, y)
  {
    DivModUnique(PixelIndex(w, h, x, y), w, h - y - 1, x);
  }

  /** Distinct in-range pixels go to distinct buffer positions. */
  lemma PixelIndexInjective(w: nat, h: nat, x: nat, y: nat, x': nat, y': nat)
    requires x < w && y < h && x' < w && y' < h
    requires PixelIndex(w, h, x, y) == PixelIndex(w, h, x', y')
    ensures x == x' && y == y'
  {
    PixelCoordsOfIndex(w, h, x, y);
    PixelCoordsOfIndex(w, h, x', y');
  }

  // ---------------------------------------------------------------------
  // The film
  // ---------------------------------------------------------------------

  /**
   * The pixel buffer of `Film`. Its length is fixed when the camera is built;
   * only its elements change. The world-space placement of the film is not
   * part of this model.
   */
  class Film {
    const screenWidth: nat
    const screenHeight: nat
    const pixelData: array<Vec3>

    ghost predicate Valid()
      reads this
    {
      pixelData.Length == screenWidth * screenHeight
    }

    /** The allocation of `Camera::new`: `screen_width * screen_height` pixels, all zero. */
    constructor (w: nat, h: nat)
      requires w < U32_LIMIT && h < U32_LIMIT && w * h < U32_LIMIT
      ensures screenWidth == w && screenHeight == h
      ensures Valid() && fresh(pixelData)
      ensures forall i :: 0 <= i < pixelData.Length ==> pixelData[i] == Zero
    {
      screenWidth, screenHeight := w, h;
      pixelData := new Vec3[w * h](_ => Zero);
    }

    /** `set_pixel`: in range, the pixel's row-flipped position gets `color`; otherwise nothing changes. */
    method SetPixel(x: nat, y: nat, color: Vec3)
      requires Valid()
      modifies pixelData
      ensures x < screenWidth && y < screenHeight ==>
        pixelData[..] == old(pixelData[..])[PixelIndex(screenWidth, screenHeight, x, y) := color]
      ensures !(x < screenWidth && y < screenHeight) ==> pixelData[..] == old(pixelData[..])
    {
      if x < screenWidth && y < screenHeight {
        var index := PixelIndex(screenWidth, screenHeight, x, y);
        pixelData[index] := color;
      }
    }
  }

  /** Setting the pixel the render loop assigns to position `p` writes position `p` and no other. */
  method SetRenderedPixel(film: Film, p: nat, color: Vec3)
    requires film.Valid() && p < film.pixelData.Length
    modifies film.pixelData
    ensures film.pixelData[..] == old(film.pixelData[..])[p := color]
  {
    var (x, y) := PixelCoords(film.screenWidth, film.screenHeight, p);
    PixelIndexOfCoords(film.screenWidth, film.screenHeight, p);
    film.SetPixel(x, y, color);
  }

  // ---------------------------------------------------------------------
  // The quadratic sphere test
  // ---------------------------------------------------------------------

  /** `b = (2 · direction) · (origin - center)` */
  function LinearCoefficient(sphere: Kernels.Sphere, ray: Ray): real
  {
    Dot(Scale(ray.direction, 2.0), Sub(ray.origin, sphere.center))
  }

  /** `c = |origin - center|² - radius²` */
  function ConstantCoefficient(sphere: Kernels.Sphere, ray: Ray): real
  {
    Dot(Sub(ray.origin, sphere.center), Sub(ray.origin, sphere.center)) - sphere.radius * sphere.radius
  }

  function Discriminant(sphere: Kernels.Sphere, ray: Ray): real
  {
    var b := LinearCoefficient(sphere, ray);
    b * b - 4.0 * ConstantCoefficient(sphere, ray)
  }

  function NearRoot(sphere: Kernels.Sphere, ray: Ray, sqrt: real -> real): real
  {
    (-LinearCoefficient(sphere, ray) - sqrt(Discriminant(sphere, ray))) / 2.0
  }

  function FarRoot(sphere: Kernels.Sphere, ray: Ray, sqrt: real -> real): real
  {
    (-LinearCoefficient(sphere, ray) + sqrt(Discriminant(sphere, ray))) / 2.0
  }

  /**
   * `Sphere::intersect` of src/structures.rs:145-173: the nearer root of
   * `t² + bt + c` beyond `FLOAT_ERROR`, else the farther one beyond it, else
   * no hit; a negative discriminant is no hit.
   */
  function IntersectQuadratic(sphere: Kernels.Sphere, ray: Ray, sqrt: real -> real,
                              normalize: Vec3 -> Vec3): (r: Option<Kernels.Hit>)
    ensures r.Some? ==> r.value.distance > FLOAT_ERROR && r.value.color == sphere.color
    ensures Discriminant(sphere, ray) < 0.0 ==> r.None?
  {
    if Discriminant(sphere, ray) < 0.0 then None
    else
      var first, second := NearRoot(sphere, ray, sqrt), FarRoot(sphere, ray, sqrt);
      if first > FLOAT_ERROR then
        Some(Kernels.Hit(first, normalize(Sub(At(ray, first), sphere.center)), sphere.color))
      else if second > FLOAT_ERROR then
        Some(Kernels.Hit(second, normalize(Sub(At(ray, second), sphere.center)), sphere.color))
      else None
  }

  /** Along a unit ray the squared center distance minus radius² is `t² + bt + c`. */
  lemma QuadraticForm(sphere: Kernels.Sphere, ray: Ray, t: real)
    requires IsUnit(ray.direction)
    ensures Kernels.CenterDistanceSq(sphere, ray, t) - sphere.radius * sphere.radius
            == t * t + LinearCoefficient(sphere, ray) * t + ConstantCoefficient(sphere, ray)
  {
    Kernels.CenterDistanceQuadratic(sphere, ray, t);
    var d, oc := ray.direction, Sub(sphere.center, ray.origin);
    assert LinearCoefficient(sphere, ray) == -2.0 * Dot(oc, d);
    assert Dot(Sub(ray.origin, sphere.center), Sub(ray.origin, sphere.center)) == Dot(oc, oc);
  }

  lemma SquareNonNegative(x: real)
    ensures x * x >= 0.0
  {
    if x < 0.0 {
      assert x * x == (-x) * (-x);
    }
  }

  lemma ZeroProduct(x: real, y: real)
    requires x * y == 0.0
    ensures x == 0.0 || y == 0.0
  {
    if x != 0.0 {
      assert y == (x * y) / x;
    }
  }

  /** With `s` a true root of the discriminant, `t² + bt + c` factors over the two candidates. */
  lemma QuadraticFactors(b: real, c: real, s: real, t: real)
    requires s * s == b * b - 4.0 * c
    ensures t * t + b * t + c == (t - (-b - s) / 2.0) * (t - (-b + s) / 2.0)
  {
  }

  /** A quadratic with a real root has a non-negative discriminant. */
  lemma RootNeedsDiscriminant(b: real, c: real, t: real)
    requires t * t + b * t + c == 0.0
    ensures b * b - 4.0 * c >= 0.0
  {
    assert b * b - 4.0 * c == (2.0 * t + b) * (2.0 * t + b);
    SquareNonNegative(2.0 * t + b);
  }

  /**
   * The candidate choice of the sphere test on `t² + bt + c`: `d` is the
   * candidate `n` when beyond `e`, else `f` when beyond `e`. It is a root, and
   * no root beyond `e` is smaller.
   */
  lemma FirstRootBeyond(b: real, c: real, s: real, e: real, d: real, t: real)
    requires s >= 0.0 && s * s == b * b - 4.0 * c
    requires var n, f := (-b - s) / 2.0, (-b + s) / 2.0;
      (n > e && d == n) || (n <= e && f > e && d == f)
    ensures d * d + b * d + c == 0.0
    ensures t > e && t * t + b * t + c == 0.0 ==> d <= t
  {
    QuadraticFactors(b, c, s, d);
    QuadraticFactors(b, c, s, t);
    if t * t + b * t + c == 0.0 {
      ZeroProduct(t - (-b - s) / 2.0, t - (-b + s) / 2.0);
    }
  }

  /** When both candidates lie at or before `e`, or there is no real root, no root lies beyond `e`. */
  lemma NoRootBeyond(b: real, c: real, s: real, e: real, t: real)
    requires b * b - 4.0 * c < 0.0
          || (s * s == b * b - 4.0 * c && (-b - s) / 2.0 <= e && (-b + s) / 2.0 <= e)
    requires t > e
    ensures t * t + b * t + c != 0.0
  {
    if t * t + b * t + c == 0.0 {
      RootNeedsDiscriminant(b, c, t);
      QuadraticFactors(b, c, s, t);
      ZeroProduct(t - (-b - s) / 2.0, t - (-b + s) / 2.0);
    }
  }

  /**
   * A reported hit is the first candidate beyond `FLOAT_ERROR`, stated on the
   * coefficients `b`, `c` and the root `s` taken of the discriminant.
   */
  lemma QuadraticHitDistance(sphere: Kernels.Sphere, ray: Ray, sqrt: real -> real, normalize: Vec3 -> Vec3)
    requires Kernels.IsRootOf(sqrt, Discriminant(sphere, ray))
    requires IntersectQuadratic(sphere, ray, sqrt, normalize).Some?
    ensures var b, c, s := LinearCoefficient(sphere, ray), ConstantCoefficient(sphere, ray), sqrt(Discriminant(sphere, ray));
      var d := IntersectQuadratic(sphere, ray, sqrt, normalize).value.distance;
      && s >= 0.0 && s * s == b * b - 4.0 * c
      && var n, f := (-b - s) / 2.0, (-b + s) / 2.0;
         (n > FLOAT_ERROR && d == n) || (n <= FLOAT_ERROR && f > FLOAT_ERROR && d == f)
  {
  }

  /** The ways the sphere test reports no hit, stated on `b`, `c` and the root `s` taken of the discriminant. */
  lemma QuadraticMissCases(sphere: Kernels.Sphere, ray: Ray, sqrt: real -> real, normalize: Vec3 -> Vec3)
    requires Discriminant(sphere, ray) >= 0.0 ==> Kernels.IsRootOf(sqrt, Discriminant(sphere, ray))
    requires IntersectQuadratic(sphere, ray, sqrt, normalize).None?
    ensures var b, c, s := LinearCoefficient(sphere, ray), ConstantCoefficient(sphere, ray), sqrt(Discriminant(sphere, ray));
      b * b - 4.0 * c < 0.0
      || (s * s == b * b - 4.0 * c && (-b - s) / 2.0 <= FLOAT_ERROR && (-b + s) / 2.0 <= FLOAT_ERROR)
  {
  }

  /** Along a unit ray, the points of the sphere are at the roots of `t² + bt + c`. */
  lemma OnSurfaceIffRoot(sphere: Kernels.Sphere, ray: Ray, t: real)
    requires IsUnit(ray.direction)
    ensures Kernels.CenterDistanceSq(sphere, ray, t) == sphere.radius * sphere.radius
            <==> t * t + LinearCoefficient(sphere, ray) * t + ConstantCoefficient(sphere, ray) == 0.0
  {
    QuadraticForm(sphere, ray, t);
  }

  /** A root `d` of `t² + bt + c` that no root beyond `FLOAT_ERROR` undercuts is the nearest point of the sphere beyond it. */
  lemma NearestSurfacePoint(sphere: Kernels.Sphere, ray: Ray, d: real, t: real)
    requires IsUnit(ray.direction)
    requires var b, c := LinearCoefficient(sphere, ray), ConstantCoefficient(sphere, ray);
      && d * d + b * d + c == 0.0
      && (t > FLOAT_ERROR && t * t + b * t + c == 0.0 ==> d <= t)
    ensures Kernels.CenterDistanceSq(sphere, ray, d) == sphere.radius * sphere.radius
    ensures t > FLOAT_ERROR && Kernels.CenterDistanceSq(sphere, ray, t) == sphere.radius * sphere.radius ==> d <= t
  {
    OnSurfaceIffRoot(sphere, ray, d);
    OnSurfaceIffRoot(sphere, ray, t);
  }

  /** A parameter that is no root of `t² + bt + c` is no point of the sphere. */
  lemma OffSurface(sphere: Kernels.Sphere, ray: Ray, t: real)
    requires IsUnit(ray.direction)
    requires t * t + LinearCoefficient(sphere, ray) * t + ConstantCoefficient(sphere, ray) != 0.0
    ensures Kernels.CenterDistanceSq(sphere, ray, t) != sphere.radius * sphere.radius
  {
    OnSurfaceIffRoot(sphere, ray, t);
  }

  /** A reported hit is a root of `t² + bt + c`, and no root beyond `FLOAT_ERROR` is nearer. */
  lemma QuadraticHitRoot(sphere: Kernels.Sphere, ray: Ray, sqrt: real -> real, normalize: Vec3 -> Vec3, t: real)
    requires Kernels.IsRootOf(sqrt, Discriminant(sphere, ray))
    requires IntersectQuadratic(sphere, ray, sqrt, normalize).Some?
    ensures var b, c := LinearCoefficient(sphere, ray), ConstantCoefficient(sphere, ray);
      var d := IntersectQuadratic(sphere, ray, sqrt, normalize).value.distance;
      && d * d + b * d + c == 0.0
      && (t > FLOAT_ERROR && t * t + b * t + c == 0.0 ==> d <= t)
  {
    var b, c, s := LinearCoefficient(sphere, ray), ConstantCoefficient(sphere, ray), sqrt(Discriminant(sphere, ray));
    QuadraticHitDistance(sphere, ray, sqrt, normalize);
    FirstRootBeyond(b, c, s, FLOAT_ERROR, IntersectQuadratic(sphere, ray, sqrt, normalize).value.distance, t);
  }

  /** With no hit reported, no root of `t² + bt + c` lies beyond `FLOAT_ERROR`. */
  lemma QuadraticMissRoot(sphere: Kernels.Sphere, ray: Ray, sqrt: real -> real, normalize: Vec3 -> Vec3, t: real)
    requires Discriminant(sphere, ray) >= 0.0 ==> Kernels.IsRootOf(sqrt, Discriminant(sphere, ray))
    requires IntersectQuadratic(sphere, ray, sqrt, normalize).None?
    requires t > FLOAT_ERROR
    ensures t * t + LinearCoefficient(sphere, ray) * t + ConstantCoefficient(sphere, ray) != 0.0
  {
    var b, c, s := LinearCoefficient(sphere, ray), ConstantCoefficient(sphere, ray), sqrt(Discriminant(sphere, ray));
    QuadraticMissCases(sphere, ray, sqrt, normalize);
    NoRootBeyond(b, c, s, FLOAT_ERROR, t);
  }

  /**
   * With a unit direction and a true square root, a reported hit lies on the
   * sphere and is its nearest point along the ray beyond `FLOAT_ERROR`.
   */
  lemma QuadraticHitIsNearestOnSurface(sphere: Kernels.Sphere, ray: Ray, sqrt: real -> real,
                                        normalize: Vec3 -> Vec3, t: real)
    requires IsUnit(ray.direction)
    requires Kernels.IsRootOf(sqrt, Discriminant(sphere, ray))
    requires IntersectQuadratic(sphere, ray, sqrt, normalize).Some?
    ensures
      var d := IntersectQuadratic(sphere, ray, sqrt, normalize).value.distance;
      && Kernels.CenterDistanceSq(sphere, ray, d) == sphere.radius * sphere.radius
      && (t > FLOAT_ERROR && Kernels.CenterDistanceSq(sphere, ray, t) == sphere.radius * sphere.radius ==> d <= t)
  {
    QuadraticHitRoot(sphere, ray, sqrt, normalize, t);
    NearestSurfacePoint(sphere, ray, IntersectQuadratic(sphere, ray, sqrt, normalize).value.distance, t);
  }

  /**
   * With a unit direction and a true square root wherever one is taken, a
   * missing hit means no point of the sphere lies along the ray beyond
   * `FLOAT_ERROR`.
   */
  lemma QuadraticMissIsGenuine(sphere: Kernels.Sphere, ray: Ray, sqrt: real -> real,
                               normalize: Vec3 -> Vec3, t: real)
    requires IsUnit(ray.direction)
    requires Discriminant(sphere, ray) >= 0.0 ==> Kernels.IsRootOf(sqrt, Discriminant(sphere, ray))
    requires IntersectQuadratic(sphere, ray, sqrt, normalize).None?
    requires t > FLOAT_ERROR
    ensures Kernels.CenterDistanceSq(sphere, ray, t) != sphere.radius * sphere.radius
  {
    QuadraticMissRoot(sphere, ray, sqrt, normalize, t);
    OffSurface(sphere, ray, t);
  }
}
