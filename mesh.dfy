/**
 * `Mesh` of src/objects.rs: a triangle mesh with its flat bounding volume
 * hierarchy, built by `Mesh::new` and searched by `Mesh::intersect`.
 */
module Meshes {
  import opened Wrappers
  import opened Geometry
  import opened Nearest
  import opened Kernels
  import opened BvhTree
  import opened BvhBounds
  import opened BvhBuild
  import opened Slab

  datatype Mesh = Mesh(vertices: seq<Vec3>, indices: seq<Tri>, color: Vec3, bounds: seq<BoundingBox>)

  /** What `Mesh::new` establishes: a hierarchy over all triangles, with the facts `make_bvh` proves. */
  ghost predicate ValidMesh(m: Mesh)
  {
    && |m.indices| > 0
    && AllInRange(m.vertices, m.indices)
    && Tree(m.bounds, 0, |m.indices|)
    && AllFacts(m.vertices, m.indices, m.bounds)
  }

  /**
   * `Mesh::new` (src/objects.rs:128-138): builds the hierarchy over all
   * triangles, reordering the index list. An empty list or an out-of-range
   * vertex index makes the source panic, so both are excluded.
   */
  method NewMesh(vertices: seq<Vec3>, indices: seq<Tri>, color: Vec3) returns (m: Mesh)
    requires |indices| > 0 && AllInRange(vertices, indices)
    ensures ValidMesh(m)
    ensures m.vertices == vertices && m.color == color
    ensures multiset(m.indices) == multiset(indices)
  {
    var a := new Tri[|indices|](j requires 0 <= j < |indices| => indices[j]);
    assert a[0..|indices|] == indices;
    var bounds := MakeBvh(vertices, a, 0, |indices|);
    assert a[..] == a[0..|indices|] && indices == indices[0..|indices|];
    InRangeKept(vertices, indices, a[..], 0, |indices|, 0, |indices|);
    m := Mesh(vertices, a[..], color, bounds);
  }

  function HitDistance(h: Hit): real
  {
    h.distance
  }

  /** The hit `intersect_triangle` reports for the `j`-th triangle, in the mesh's colour. */
  function TriangleHit(m: Mesh, ray: Ray, normalize: Vec3 -> Vec3, j: nat): Option<Hit>
    requires j < |m.indices| && TriInRange(m.vertices, m.indices[j])
  {
    var t := m.indices[j];
    AsHit(IntersectTriangle(ray, Corner(m.vertices, t, 0), Corner(m.vertices, t, 1), Corner(m.vertices, t, 2), normalize),
          m.color)
  }

  /** The hits of all triangles, in index order. */
  function TriangleHits(m: Mesh, ray: Ray, normalize: Vec3 -> Vec3): (r: seq<Option<Hit>>)
    requires AllInRange(m.vertices, m.indices)
    ensures |r| == |m.indices|
    ensures forall j :: 0 <= j < |r| ==> r[j] == TriangleHit(m, ray, normalize, j)
  {
    seq(|m.indices|, j requires 0 <= j < |m.indices| => TriangleHit(m, ray, normalize, j))
  }

  /** A point with barycentric weights inside the triangle lies inside any box holding its corners strictly. */
  lemma ConvexCoordinate(lo: real, hi: real, a: real, b: real, c: real, u: real, v: real, q: real)
    requires lo < a < hi && lo < b < hi && lo < c < hi && InsideTriangle(u, v)
    requires q == a + (u * (b - a) + v * (c - a))
    ensures lo < q < hi
  {
    var w := 1.0 - u - v;
    assert a + (u * (b - a) + v * (c - a)) - lo == w * (a - lo) + u * (b - lo) + v * (c - lo);
    assert hi - (a + (u * (b - a) + v * (c - a))) == w * (hi - a) + u * (hi - b) + v * (hi - c);
    WeightedPositive(w, u, v, a - lo, b - lo, c - lo);
    WeightedPositive(w, u, v, hi - a, hi - b, hi - c);
  }

  /** Non-negative weights summing to one, applied to positive values, give a positive sum. */
  lemma WeightedPositive(w: real, u: real, v: real, x: real, y: real, z: real)
    requires w >= 0.0 && u >= 0.0 && v >= 0.0 && w + u + v == 1.0
    requires x > 0.0 && y > 0.0 && z > 0.0
    ensures w * x + u * y + v * z > 0.0
  {
    var m := Min(x, Min(y, z));
    assert w * x >= w * m && u * y >= u * m && v * z >= v * m;
    assert w * m + u * m + v * m == m;
  }

  lemma BarycentricCoordinate(p1: Vec3, p2: Vec3, p3: Vec3, u: real, v: real, a: Axis)
    ensures Coord(Barycentric(p1, p2, p3, u, v), a)
         == Coord(p1, a) + (u * (Coord(p2, a) - Coord(p1, a)) + v * (Coord(p3, a) - Coord(p1, a)))
  {
  }

  /** On one axis: a point of the triangle lies strictly between bounds its corners lie strictly between. */
  lemma ConvexAxis(lo: Vec3, hi: Vec3, p1: Vec3, p2: Vec3, p3: Vec3, u: real, v: real, a: Axis)
    requires Coord(lo, a) < Coord(p1, a) < Coord(hi, a)
    requires Coord(lo, a) < Coord(p2, a) < Coord(hi, a)
    requires Coord(lo, a) < Coord(p3, a) < Coord(hi, a)
    requires InsideTriangle(u, v)
    ensures Coord(lo, a) < Coord(Barycentric(p1, p2, p3, u, v), a) < Coord(hi, a)
  {
    BarycentricCoordinate(p1, p2, p3, u, v, a);
    ConvexCoordinate(Coord(lo, a), Coord(hi, a), Coord(p1, a), Coord(p2, a), Coord(p3, a), u, v,
                     Coord(Barycentric(p1, p2, p3, u, v), a));
  }

  lemma ConvexInside(lo: Vec3, hi: Vec3, p1: Vec3, p2: Vec3, p3: Vec3, u: real, v: real)
    requires StrictlyInside(lo, hi, p1) && StrictlyInside(lo, hi, p2) && StrictlyInside(lo, hi, p3)
    requires InsideTriangle(u, v)
    ensures StrictlyInside(lo, hi, Barycentric(p1, p2, p3, u, v))
  {
    ConvexAxis(lo, hi, p1, p2, p3, u, v, 0);
    ConvexAxis(lo, hi, p1, p2, p3, u, v, 1);
    ConvexAxis(lo, hi, p1, p2, p3, u, v, 2);
  }

  /** Node `i` (or the end of the array) is where the traversal has visited the triangles before `f`. */
  predicate AtFrontier(m: Mesh, i: nat, f: nat)
  {
    if i < |m.bounds| then m.bounds[i].startIndex == f else f == |m.indices|
  }

  /**
   * What the traversal needs of node `k`: its subtree is followed by the node
   * where its range ends, an inner node's first child starts where it does,
   * and its box holds every corner of its triangles strictly inside.
   */
  ghost predicate NodeSearchable(m: Mesh, k: nat)
    requires k < |m.bounds|
  {
    var n := m.bounds[k];
    && k + n.descendantCount + 1 <= |m.bounds|
    && n.startIndex < n.endIndex <= |m.indices|
    && AtFrontier(m, k + n.descendantCount + 1, n.endIndex)
    && (n.descendantCount > 0 ==> k + 1 < |m.bounds| && m.bounds[k + 1].startIndex == n.startIndex)
    && CornersInside(m.vertices, m.indices, n)
  }

  /** The box of `n` holds every corner of the triangles in its range strictly inside. */
  ghost predicate CornersInside(vertices: seq<Vec3>, content: seq<Tri>, n: BoundingBox)
  {
    forall j, c :: n.startIndex <= j < n.endIndex && j < |content| && 0 <= c < 3 ==>
      TriInRange(vertices, content[j]) && StrictlyInside(n.boundsMin, n.boundsMax, Corner(vertices, content[j], c))
  }

  /** The hierarchy properties `Mesh::intersect` relies on. */
  ghost predicate Searchable(m: Mesh)
  {
    && AllInRange(m.vertices, m.indices)
    && AtFrontier(m, 0, 0)
    && (forall k :: 0 <= k < |m.bounds| ==> NodeSearchable(m, k))
  }

  /** The box of a node with the builder's facts holds every corner of its triangles strictly inside. */
  lemma NodeCornersInside(vertices: seq<Vec3>, content: seq<Tri>, n: BoundingBox)
    requires NodeFacts(vertices, content, n)
    ensures CornersInside(vertices, content, n)
  {
    var ms := multiset(content[n.startIndex..n.endIndex]);
    forall j, c | n.startIndex <= j < n.endIndex && 0 <= c < 3
      ensures TriInRange(vertices, content[j])
      ensures StrictlyInside(n.boundsMin, n.boundsMax, Corner(vertices, content[j], c))
    {
      assert content[n.startIndex..n.endIndex][j - n.startIndex] == content[j];
      CornerInsideBox(vertices, n, ms, content[j], c);
    }
  }

  /** Every node of a valid mesh is searchable. */
  lemma ValidNodeSearchable(m: Mesh, k: nat)
    requires ValidMesh(m) && k < |m.bounds|
    ensures NodeSearchable(m, k)
  {
    var n := m.bounds[k];
    assert NodeOk(m.bounds, k, 0, |m.indices|);
    if n.descendantCount > 0 {
      FirstChildStart(m.bounds, 0, |m.indices|, k);
    }
    assert NodeFacts(m.vertices, m.indices, n);
    NodeCornersInside(m.vertices, m.indices, n);
    NodeSearchableOf(m, k);
  }

  /** Node `k` is searchable once its tree facts and its corner facts are known. */
  lemma NodeSearchableOf(m: Mesh, k: nat)
    requires k < |m.bounds| && NodeOk(m.bounds, k, 0, |m.indices|)
    requires m.bounds[k].descendantCount > 0 ==> k + 1 < |m.bounds| && m.bounds[k + 1].startIndex == m.bounds[k].startIndex
    requires CornersInside(m.vertices, m.indices, m.bounds[k])
    ensures NodeSearchable(m, k)
  {
  }

  /** `Mesh::new` leaves a mesh `Mesh::intersect` can search. */
  lemma ValidIsSearchable(m: Mesh)
    requires ValidMesh(m)
    ensures Searchable(m)
  {
    TreeRoot(m.bounds, 0, |m.indices|);
    forall k | 0 <= k < |m.bounds|
      ensures NodeSearchable(m, k)
    {
      ValidNodeSearchable(m, k);
    }
  }

  /** The point where the ray hits a triangle lies strictly inside any box holding the corners strictly. */
  lemma TriangleHitInsideBox(ray: Ray, p1: Vec3, p2: Vec3, p3: Vec3, normalize: Vec3 -> Vec3, lo: Vec3, hi: Vec3)
    requires StrictlyInside(lo, hi, p1) && StrictlyInside(lo, hi, p2) && StrictlyInside(lo, hi, p3)
    requires IntersectTriangle(ray, p1, p2, p3, normalize).Some?
    ensures StrictlyInside(lo, hi, At(ray, IntersectTriangle(ray, p1, p2, p3, normalize).value.0))
  {
    IntersectTriangleSound(ray, p1, p2, p3, normalize);
    var u, v :| InsideTriangle(u, v) && At(ray, IntersectTriangle(ray, p1, p2, p3, normalize).value.0) == Barycentric(p1, p2, p3, u, v);
    ConvexInside(lo, hi, p1, p2, p3, u, v);
  }

  /** A triangle's hit point lies strictly inside the box of any node holding the triangle. */
  lemma HitInsideBox(m: Mesh, ray: Ray, normalize: Vec3 -> Vec3, k: nat, j: nat)
    requires AllInRange(m.vertices, m.indices) && k < |m.bounds| && NodeSearchable(m, k)
    requires m.bounds[k].startIndex <= j < m.bounds[k].endIndex
    requires TriangleHit(m, ray, normalize, j).Some?
    ensures StrictlyInside(m.bounds[k].boundsMin, m.bounds[k].boundsMax,
                           At(ray, TriangleHit(m, ray, normalize, j).value.distance))
  {
    var n := m.bounds[k];
    var t := m.indices[j];
    var p1, p2, p3 := Corner(m.vertices, t, 0), Corner(m.vertices, t, 1), Corner(m.vertices, t, 2);
    assert StrictlyInside(n.boundsMin, n.boundsMax, p1);
    assert StrictlyInside(n.boundsMin, n.boundsMax, p2);
    assert StrictlyInside(n.boundsMin, n.boundsMax, p3);
    TriangleHitInsideBox(ray, p1, p2, p3, normalize, n.boundsMin, n.boundsMax);
  }

  /** A node whose box the slab test misses holds no triangle the ray hits. */
  lemma MissedNodeHasNoHits(m: Mesh, ray: Ray, normalize: Vec3 -> Vec3, k: nat)
    requires AllInRange(m.vertices, m.indices) && k < |m.bounds| && NodeSearchable(m, k)
    requires Misses(ray, m.bounds[k].boundsMin, m.bounds[k].boundsMax)
    ensures forall j :: m.bounds[k].startIndex <= j < m.bounds[k].endIndex ==>
              TriangleHits(m, ray, normalize)[j].None?
  {
    var n := m.bounds[k];
    forall j | n.startIndex <= j < n.endIndex
      ensures TriangleHits(m, ray, normalize)[j].None?
    {
      if TriangleHit(m, ray, normalize, j).Some? {
        HitInsideBox(m, ray, normalize, k, j);
        HitBoxNotMissed(ray, n.boundsMin, n.boundsMax, TriangleHit(m, ray, normalize, j).value.distance);
      }
    }
  }

  /** Skipping a missed subtree passes over triangles without hits, so the scan is unchanged. */
  lemma SkipSubtree(m: Mesh, ray: Ray, normalize: Vec3 -> Vec3, hits: seq<Option<Hit>>, i: nat)
    requires Searchable(m) && i < |m.bounds|
    requires hits == TriangleHits(m, ray, normalize)
    requires Misses(ray, m.bounds[i].boundsMin, m.bounds[i].boundsMax)
    ensures m.bounds[i].startIndex <= m.bounds[i].endIndex <= |hits|
    ensures Closest(hits[..m.bounds[i].endIndex], HitDistance) == Closest(hits[..m.bounds[i].startIndex], HitDistance)
  {
    assert NodeSearchable(m, i);
    MissedNodeHasNoHits(m, ray, normalize, i);
    ClosestSkipsMisses(hits, HitDistance, m.bounds[i].startIndex, m.bounds[i].endIndex);
  }

  /**
   * Where the traversal goes from node `i`: past its subtree to the node
   * where its range ends, or into its first child, which starts where it does.
   */
  lemma NodeFrontiers(m: Mesh, i: nat, next: nat)
    requires Searchable(m) && i < |m.bounds| && next == i + m.bounds[i].descendantCount + 1
    ensures next <= |m.bounds|
    ensures m.bounds[i].startIndex <= m.bounds[i].endIndex <= |m.indices|
    ensures AtFrontier(m, next, m.bounds[i].endIndex)
    ensures m.bounds[i].descendantCount > 0 ==> i + 1 < |m.bounds| && AtFrontier(m, i + 1, m.bounds[i].startIndex)
  {
    assert NodeSearchable(m, i);
  }

  /**
   * `Mesh::intersect` (src/objects.rs:142-185): the traversal visits the
   * nodes in pre-order, skipping the subtree of every box the slab test
   * misses, and scans the triangles of every leaf it reaches. Its result is
   * the scan over all triangles in index order: the first nearest triangle hit.
   */
  method Intersect(m: Mesh, ray: Ray, normalize: Vec3 -> Vec3) returns (best: Option<Hit>)
    requires Searchable(m)
    ensures best == Closest(TriangleHits(m, ray, normalize), HitDistance)
  {
    ghost var hits := TriangleHits(m, ray, normalize);
    best := None;
    var i := 0;
    ghost var f: nat := 0;
    while i < |m.bounds|
      invariant i <= |m.bounds| && f <= |hits| && AtFrontier(m, i, f)
      invariant best == Closest(hits[..f], HitDistance)
      decreases |m.bounds| - i
    {
      var node := m.bounds[i];
      var next := i + node.descendantCount + 1;
      NodeFrontiers(m, i, next);
      if Misses(ray, node.boundsMin, node.boundsMax) {
        SkipSubtree(m, ray, normalize, hits, i);
        i, f := next, node.endIndex;
      } else if node.descendantCount > 0 {
        i := i + 1;
      } else {
        best := ScanLeaf(m, ray, normalize, node.startIndex, node.endIndex, best);
        i, f := next, node.endIndex;
      }
    }
    assert hits[..f] == hits;
  }

  /**
   * What the scan over all triangles means: no hit exactly when no triangle
   * is hit; otherwise the hit of the first triangle among the nearest ones,
   * at a distance of at least `FLOAT_ERROR`, in the mesh's colour.
   */
  lemma ScanIsNearestTriangle(m: Mesh, ray: Ray, normalize: Vec3 -> Vec3)
    requires AllInRange(m.vertices, m.indices)
    ensures var r := Closest(TriangleHits(m, ray, normalize), HitDistance);
      && (r.None? <==> forall j :: 0 <= j < |m.indices| ==> TriangleHit(m, ray, normalize, j).None?)
      && (r.Some? ==> && r.value.color == m.color && r.value.distance >= FLOAT_ERROR
                      && exists j :: IsFirstNearest(TriangleHits(m, ray, normalize), HitDistance, j)
                                     && TriangleHit(m, ray, normalize, j) == r)
  {
    var hits := TriangleHits(m, ray, normalize);
    ClosestIsFirstNearest(hits, HitDistance);
    var r := Closest(hits, HitDistance);
    if r.Some? {
      var j :| IsFirstNearest(hits, HitDistance, j) && hits[j] == r;
      var t := m.indices[j];
      assert TriangleHit(m, ray, normalize, j) == r;
    }
  }

  /** The hit of one candidate triangle, in the mesh's colour. */
  function AsHit(candidate: Option<(real, Vec3)>, color: Vec3): Option<Hit>
  {
    match candidate
    case None => None
    case Some(r) => Some(Hit(r.0, r.1, color))
  }

  /**
   * The leaf loop of `Mesh::intersect` (src/objects.rs:162-179): each
   * triangle's hit replaces the best so far when there is none yet or it is
   * strictly nearer (`Pick`), so the scan extends from `start` to `end`.
   */
  method ScanLeaf(m: Mesh, ray: Ray, normalize: Vec3 -> Vec3, start: nat, end: nat, best: Option<Hit>)
    returns (r: Option<Hit>)
    requires AllInRange(m.vertices, m.indices) && start <= end <= |m.indices|
    requires best == Closest(TriangleHits(m, ray, normalize)[..start], HitDistance)
    ensures r == Closest(TriangleHits(m, ray, normalize)[..end], HitDistance)
  {
    ghost var hits := TriangleHits(m, ray, normalize);
    r := best;
    for j := start to end
      invariant r == Closest(hits[..j], HitDistance)
    {
      var candidate := TriangleHit(m, ray, normalize, j);
      r := Pick(r, candidate, HitDistance);
      ClosestExtend(hits, HitDistance, j);
    }
  }
}
