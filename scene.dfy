/**
 * The scene query layer of src/scene.rs: the list of light-emitting objects
 * built by `Scene::new`, the closest-hit query `trace_ray` over all objects,
 * and the light sampling of `sample_lights`.
 *
 * Objects are seen only through the interface scene.rs uses: a ray query, an
 * "is an emitter" flag, surface sampling and the emission of the object's
 * material. The random light choice and `normalize` are parameters.
 */
module Scenes {
  import opened Wrappers
  import opened Geometry
  import opened Nearest
  import Kernels
  import opened BvhTree

  /** A hit as scene.rs reads it: the distance, the id of the object hit and the point hit. */
  datatype SceneHit = SceneHit(distance: real, id: nat, point: Vec3)

  /**
   * A scene object: its ray query, whether its material is `Emitter`, its
   * surface sampling from a point (a surface hit and the pdf), and the
   * emission of its material in a direction.
   */
  datatype Object = Object(intersect: Ray -> Option<SceneHit>, isEmitter: bool,
                           sampleSurface: Vec3 -> (SceneHit, real), emitted: Vec3 -> Vec3)

  /** `Scene`: `indicesForBvh` and `bvh` are the fields `Scene::new` leaves for a later build. */
  datatype Scene = Scene(environment: Vec3, objects: seq<Object>, lights: seq<nat>,
                         indicesForBvh: seq<nat>, bvh: seq<BoundingBox>)

  predicate StrictlyIncreasing(s: seq<nat>)
  {
    forall i, j :: 0 <= i < j < |s| ==> s[i] < s[j]
  }

  /** The light list names objects of the scene. */
  ghost predicate ValidScene(scene: Scene)
  {
    forall k :: 0 <= k < |scene.lights| ==> scene.lights[k] < |scene.objects|
  }

  /**
   * `Scene::new` (src/scene.rs:37-55): `lights` is exactly the indices of the
   * emitters, in increasing order; everything else is stored as given or empty.
   */
  method NewScene(objects: seq<Object>, environment: Vec3) returns (scene: Scene)
    ensures forall i: nat :: i in scene.lights <==> i < |objects| && objects[i].isEmitter
    ensures StrictlyIncreasing(scene.lights)
    ensures ValidScene(scene)
    ensures scene.objects == objects && scene.environment == environment
    ensures scene.indicesForBvh == [] && scene.bvh == []
  {
    var lights: seq<nat> := [];
    for i := 0 to |objects|
      invariant forall k: nat :: k in lights <==> k < i && objects[k].isEmitter
      invariant StrictlyIncreasing(lights)
      invariant forall k :: 0 <= k < |lights| ==> lights[k] < i
    {
      if objects[i].isEmitter {
        lights := lights + [i];
      }
    }
    scene := Scene(environment, objects, lights, [], []);
  }

  /** What each object's `intersect` returns for `ray`, in object order. */
  function ObjectHits(scene: Scene, ray: Ray): (r: seq<Option<SceneHit>>)
    ensures |r| == |scene.objects|
    ensures forall j :: 0 <= j < |r| ==> r[j] == scene.objects[j].intersect(ray)
  {
    seq(|scene.objects|, j requires 0 <= j < |scene.objects| => scene.objects[j].intersect(ray))
  }

  function SceneDistance(h: SceneHit): real
  {
    h.distance
  }

  /**
   * `Scene::trace_ray` (src/scene.rs:57-68): a scan over the objects in order
   * in which a hit replaces the best one only when strictly nearer. The result
   * is missing exactly when no object is hit; otherwise it is the hit of the
   * lowest-numbered object among the nearest ones.
   */
  method TraceRay(scene: Scene, ray: Ray) returns (best: Option<SceneHit>)
    ensures best == Closest(ObjectHits(scene, ray), SceneDistance)
    ensures best.None? <==> forall j :: 0 <= j < |scene.objects| ==> scene.objects[j].intersect(ray).None?
  {
    ghost var hits := ObjectHits(scene, ray);
    best := None;
    for j := 0 to |scene.objects|
      invariant best == Closest(hits[..j], SceneDistance)
    {
      var candidate := scene.objects[j].intersect(ray);
      best := Pick(best, candidate, SceneDistance);
      ClosestExtend(hits, SceneDistance, j);
    }
    assert hits[..|scene.objects|] == hits;
    ClosestIsFirstNearest(hits, SceneDistance);
  }

  /** `light_count`: the emitting objects, plus one slot for a non-zero environment. */
  function LightCount(scene: Scene): (n: nat)
    ensures n == |scene.lights| || n == |scene.lights| + 1
    ensures n > |scene.lights| <==> scene.environment != Zero
  {
    |scene.lights| + if scene.environment != Zero then 1 else 0
  }

  /** `Ray::new`: the direction is normalised. */
  function NewRay(origin: Vec3, direction: Vec3, normalize: Vec3 -> Vec3): Ray
  {
    Ray(origin, normalize(direction))
  }

  /** The ray from `origin` towards the sampled point of light `k`. */
  function LightRay(scene: Scene, origin: Vec3, k: nat, normalize: Vec3 -> Vec3): Ray
    requires k < |scene.lights| && scene.lights[k] < |scene.objects|
  {
    var lightHit := scene.objects[scene.lights[k]].sampleSurface(origin).0;
    NewRay(origin, normalize(Sub(lightHit.point, origin)), normalize)
  }

  /** The traced hit is the sampled light, within `FLOAT_ERROR` of the sampled point. */
  predicate Visible(traced: Option<SceneHit>, lightHit: SceneHit)
  {
    traced.Some? && traced.value.id == lightHit.id && AbsDiffEq(traced.value.point, lightHit.point, Kernels.FLOAT_ERROR)
  }

  /**
   * The visibility test of src/scene.rs:88-90: the nearest hit along the
   * light ray is the sampled light, within `FLOAT_ERROR` of the sampled point.
   */
  predicate SampleVisible(scene: Scene, origin: Vec3, k: nat, normalize: Vec3 -> Vec3)
    requires k < |scene.lights| && scene.lights[k] < |scene.objects|
  {
    Visible(Closest(ObjectHits(scene, LightRay(scene, origin, k, normalize)), SceneDistance),
            scene.objects[scene.lights[k]].sampleSurface(origin).0)
  }

  /** What `sample_lights` returns: the shadow ray, the pdf of the choice and the emission. */
  datatype LightSample = LightSample(ray: Ray, pdf: real, emission: Vec3)

  /**
   * `Scene::sample_lights` (src/scene.rs:70-97), with `choice` the value
   * `gen_range(0..light_count)` draws. A sample exists exactly when a light
   * object (not the environment slot) was chosen and its sampled point is
   * visible from `origin`; its pdf is the light's surface pdf shared among all
   * light slots, and its ray starts at `origin` towards the sampled point.
   */
  method SampleLights(scene: Scene, origin: Vec3, choice: nat, normalize: Vec3 -> Vec3)
    returns (r: Option<LightSample>)
    requires ValidScene(scene)
    requires LightCount(scene) > 0 ==> choice < LightCount(scene)
    ensures LightCount(scene) == 0 ==> r.None?
    // the environment slot is not sampled (the early exit of src/scene.rs:78-81); the iff below implies it
    ensures choice == |scene.lights| ==> r.None?
    ensures r.Some? <==> choice < |scene.lights| && SampleVisible(scene, origin, choice, normalize)
    ensures r.Some? ==>
      && r.value.ray == LightRay(scene, origin, choice, normalize)
      && r.value.ray.origin == origin
      && r.value.pdf * (LightCount(scene) as real)
         == scene.objects[scene.lights[choice]].sampleSurface(origin).1
    ensures r.Some? ==>
      var light := scene.objects[scene.lights[choice]];
      r.value.emission == light.emitted(Neg(normalize(Sub(light.sampleSurface(origin).0.point, origin))))
  {
    var lightCount := LightCount(scene);
    if lightCount == 0 {
      return None;
    }
    if choice == |scene.lights| {
      return None;
    }
    var chosenLight := scene.objects[scene.lights[choice]];
    var surfaceSample := chosenLight.sampleSurface(origin);
    var lightHit, lightPdf := surfaceSample.0, surfaceSample.1;
    var lightDirection := normalize(Sub(lightHit.point, origin));
    var lightRay := NewRay(origin, lightDirection, normalize);
    var traced := TraceRay(scene, lightRay);
    if !Visible(traced, lightHit) {
      return None;
    }
    var emission := chosenLight.emitted(Neg(lightDirection));
    var pdf := lightPdf / (lightCount as real);
    SharedPdf(lightPdf, lightCount, pdf);
    r := Some(LightSample(lightRay, pdf, emission));
  }

  lemma SharedPdf(total: real, n: nat, share: real)
    requires n > 0 && share == total / (n as real)
    ensures share * (n as real) == total
  {
  }

  /** `Scene::object_id` (src/scene.rs:99-101). */
  function ObjectId(scene: Scene, id: nat): (r: Object)
    requires id < |scene.objects|
    ensures r == scene.objects[id]
  {
    scene.objects[id]
  }

  /** Every entry of the light list built by `Scene::new` names an emitting object. */
  lemma LightsAreEmitters(objects: seq<Object>, environment: Vec3, scene: Scene, k: nat)
    requires forall i: nat :: i in scene.lights <==> i < |objects| && objects[i].isEmitter
    requires scene.objects == objects && k < |scene.lights|
    ensures scene.lights[k] < |scene.objects| && ObjectId(scene, scene.lights[k]).isEmitter
  {
    assert scene.lights[k] in scene.lights;
  }
}
