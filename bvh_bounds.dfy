/**
 * The bounding boxes of `make_bvh` in src/objects.rs: the componentwise
 * minimum and maximum over every vertex of every triangle in a node's range,
 * pushed out by `FLOAT_ERROR` on every side.
 */
module BvhBounds {
  import opened Geometry
  import opened BvhTree
  import Kernels

  /** All three vertex indices of `t` point into `vertices` (the source panics otherwise). */
  predicate TriInRange(vertices: seq<Vec3>, t: Tri)
  {
    t.i0 < |vertices| && t.i1 < |vertices| && t.i2 < |vertices|
  }

  predicate AllInRange(vertices: seq<Vec3>, s: seq<Tri>)
  {
    forall j :: 0 <= j < |s| ==> TriInRange(vertices, s[j])
  }

  /** The `c`-th vertex index of a triangle, as `triangle[c]`. */
  function Index(t: Tri, c: nat): nat
    requires c < 3
  {
    if c == 0 then t.i0 else if c == 1 then t.i1 else t.i2
  }

  function Corner(vertices: seq<Vec3>, t: Tri, c: nat): Vec3
    requires TriInRange(vertices, t) && c < 3
  {
    vertices[Index(t, c)]
  }

  /** `lo <= p` in every coordinate. */
  predicate Below(lo: Vec3, p: Vec3)
  {
    lo.x <= p.x && lo.y <= p.y && lo.z <= p.z
  }

  /** The inner loop over a triangle's first `c` vertices, folding `Vec3::min` into `acc`. */
  function CornersMin(vertices: seq<Vec3>, t: Tri, c: nat, acc: Vec3): Vec3
    requires TriInRange(vertices, t) && c <= 3
  {
    if c == 0 then acc else MinV(Corner(vertices, t, c - 1), CornersMin(vertices, t, c - 1, acc))
  }

  function CornersMax(vertices: seq<Vec3>, t: Tri, c: nat, acc: Vec3): Vec3
    requires TriInRange(vertices, t) && c <= 3
  {
    if c == 0 then acc else MaxV(Corner(vertices, t, c - 1), CornersMax(vertices, t, c - 1, acc))
  }

  /** The outer loop over the triangles of `s`, in order. */
  function FoldMin(vertices: seq<Vec3>, s: seq<Tri>, acc: Vec3): Vec3
    requires AllInRange(vertices, s)
  {
    if |s| == 0 then acc else CornersMin(vertices, s[|s| - 1], 3, FoldMin(vertices, s[..|s| - 1], acc))
  }

  function FoldMax(vertices: seq<Vec3>, s: seq<Tri>, acc: Vec3): Vec3
    requires AllInRange(vertices, s)
  {
    if |s| == 0 then acc else CornersMax(vertices, s[|s| - 1], 3, FoldMax(vertices, s[..|s| - 1], acc))
  }

  /**
   * `lo` and `hi` are exactly the componentwise least and greatest vertex
   * coordinates of the triangles in `ms`: every vertex lies between them, and
   * on every axis some vertex reaches each of them.
   */
  ghost predicate TightBounds(vertices: seq<Vec3>, lo: Vec3, hi: Vec3, ms: multiset<Tri>)
  {
    && (forall t :: t in ms ==> TriInRange(vertices, t))
    && (forall t, c :: t in ms && 0 <= c < 3 && TriInRange(vertices, t) ==>
          Below(lo, Corner(vertices, t, c)) && Below(Corner(vertices, t, c), hi))
    && (forall a: Axis :: Reaches(vertices, ms, a, Coord(lo, a)) && Reaches(vertices, ms, a, Coord(hi, a)))
  }

  /** Some vertex of a triangle in `ms` has coordinate `value` on axis `a`. */
  ghost predicate Reaches(vertices: seq<Vec3>, ms: multiset<Tri>, a: Axis, value: real)
  {
    exists t, c :: t in ms && 0 <= c < 3 && TriInRange(vertices, t) && Coord(Corner(vertices, t, c), a) == value
  }

  /** A node's box is the tight bounds of the triangles in its range, pushed out by `FLOAT_ERROR`. */
  ghost predicate BoxOk(vertices: seq<Vec3>, box: BoundingBox, ms: multiset<Tri>)
  {
    TightBounds(vertices, Add(box.boundsMin, Splat(Kernels.FLOAT_ERROR)),
                Sub(box.boundsMax, Splat(Kernels.FLOAT_ERROR)), ms)
  }

  /** The box `make_bvh` stores for tight bounds `lo`, `hi` (src/objects.rs:234-235). */
  function Expanded(s: nat, e: nat, lo: Vec3, hi: Vec3): BoundingBox
  {
    BoundingBox(s, e, Sub(lo, Splat(Kernels.FLOAT_ERROR)), Add(hi, Splat(Kernels.FLOAT_ERROR)), 0)
  }

  lemma CornersMinSpec(vertices: seq<Vec3>, t: Tri, c: nat, acc: Vec3)
    requires TriInRange(vertices, t) && c <= 3
    ensures Below(CornersMin(vertices, t, c, acc), acc)
    ensures forall d :: 0 <= d < c ==> Below(CornersMin(vertices, t, c, acc), Corner(vertices, t, d))
    ensures forall a: Axis :: Coord(CornersMin(vertices, t, c, acc), a) == Coord(acc, a) ||
              exists d :: 0 <= d < c && Coord(CornersMin(vertices, t, c, acc), a) == Coord(Corner(vertices, t, d), a)
  {
    if c > 0 {
      CornersMinSpec(vertices, t, c - 1, acc);
    }
  }

  lemma CornersMaxSpec(vertices: seq<Vec3>, t: Tri, c: nat, acc: Vec3)
    requires TriInRange(vertices, t) && c <= 3
    ensures Below(acc, CornersMax(vertices, t, c, acc))
    ensures forall d :: 0 <= d < c ==> Below(Corner(vertices, t, d), CornersMax(vertices, t, c, acc))
    ensures forall a: Axis :: Coord(CornersMax(vertices, t, c, acc), a) == Coord(acc, a) ||
              exists d :: 0 <= d < c && Coord(CornersMax(vertices, t, c, acc), a) == Coord(Corner(vertices, t, d), a)
  {
    if c > 0 {
      CornersMaxSpec(vertices, t, c - 1, acc);
    }
  }

  lemma {:induction false} FoldMinSpec(vertices: seq<Vec3>, s: seq<Tri>, acc: Vec3)
    requires AllInRange(vertices, s)
    ensures Below(FoldMin(vertices, s, acc), acc)
    ensures forall j, c :: 0 <= j < |s| && 0 <= c < 3 ==> Below(FoldMin(vertices, s, acc), Corner(vertices, s[j], c))
    ensures forall a: Axis :: Coord(FoldMin(vertices, s, acc), a) == Coord(acc, a) ||
              exists j, c :: 0 <= j < |s| && 0 <= c < 3 &&
                Coord(FoldMin(vertices, s, acc), a) == Coord(Corner(vertices, s[j], c), a)
  {
    if |s| > 0 {
      var n := |s| - 1;
      var init := s[..n];
      var m := FoldMin(vertices, init, acc);
      var r := FoldMin(vertices, s, acc);
      assert forall j :: 0 <= j < n ==> init[j] == s[j];
      FoldMinSpec(vertices, init, acc);
      CornersMinSpec(vertices, s[n], 3, m);
      forall a: Axis | Coord(r, a) != Coord(acc, a)
        ensures exists j, c :: 0 <= j < |s| && 0 <= c < 3 && Coord(r, a) == Coord(Corner(vertices, s[j], c), a)
      {
        if Coord(r, a) == Coord(m, a) {
          var j, c :| 0 <= j < n && 0 <= c < 3 && Coord(m, a) == Coord(Corner(vertices, init[j], c), a);
          assert Coord(r, a) == Coord(Corner(vertices, s[j], c), a);
        } else {
          var d :| 0 <= d < 3 && Coord(r, a) == Coord(Corner(vertices, s[n], d), a);
        }
      }
    }
  }

  lemma {:induction false} FoldMaxSpec(vertices: seq<Vec3>, s: seq<Tri>, acc: Vec3)
    requires AllInRange(vertices, s)
    ensures Below(acc, FoldMax(vertices, s, acc))
    ensures forall j, c :: 0 <= j < |s| && 0 <= c < 3 ==> Below(Corner(vertices, s[j], c), FoldMax(vertices, s, acc))
    ensures forall a: Axis :: Coord(FoldMax(vertices, s, acc), a) == Coord(acc, a) ||
              exists j, c :: 0 <= j < |s| && 0 <= c < 3 &&
                Coord(FoldMax(vertices, s, acc), a) == Coord(Corner(vertices, s[j], c), a)
  {
    if |s| > 0 {
      var n := |s| - 1;
      var init := s[..n];
      var m := FoldMax(vertices, init, acc);
      var r := FoldMax(vertices, s, acc);
      assert forall j :: 0 <= j < n ==> init[j] == s[j];
      FoldMaxSpec(vertices, init, acc);
      CornersMaxSpec(vertices, s[n], 3, m);
      forall a: Axis | Coord(r, a) != Coord(acc, a)
        ensures exists j, c :: 0 <= j < |s| && 0 <= c < 3 && Coord(r, a) == Coord(Corner(vertices, s[j], c), a)
      {
        if Coord(r, a) == Coord(m, a) {
          var j, c :| 0 <= j < n && 0 <= c < 3 && Coord(m, a) == Coord(Corner(vertices, init[j], c), a);
          assert Coord(r, a) == Coord(Corner(vertices, s[j], c), a);
        } else {
          var d :| 0 <= d < 3 && Coord(r, a) == Coord(Corner(vertices, s[n], d), a);
        }
      }
    }
  }

  /**
   * Folding from the first vertex of the first triangle, as lines 223-232 of
   * src/objects.rs do, yields the tight bounds of the triangles of `s`; these
   * depend on the multiset of triangles only, not on their order.
   */
  lemma FoldIsTight(vertices: seq<Vec3>, s: seq<Tri>)
    requires |s| > 0 && AllInRange(vertices, s)
    ensures TightBounds(vertices, FoldMin(vertices, s, Corner(vertices, s[0], 0)),
                        FoldMax(vertices, s, Corner(vertices, s[0], 0)), multiset(s))
  {
    var seed := Corner(vertices, s[0], 0);
    var lo, hi := FoldMin(vertices, s, seed), FoldMax(vertices, s, seed);
    var ms := multiset(s);
    FoldMinSpec(vertices, s, seed);
    FoldMaxSpec(vertices, s, seed);
    forall t | t in ms
      ensures TriInRange(vertices, t)
      ensures forall c :: 0 <= c < 3 ==> Below(lo, Corner(vertices, t, c)) && Below(Corner(vertices, t, c), hi)
    {
      var j :| 0 <= j < |s| && s[j] == t;
    }
    forall a: Axis
      ensures Reaches(vertices, ms, a, Coord(lo, a)) && Reaches(vertices, ms, a, Coord(hi, a))
    {
      assert s[0] in ms;
      if Coord(lo, a) != Coord(seed, a) {
        var j, c :| 0 <= j < |s| && 0 <= c < 3 && Coord(lo, a) == Coord(Corner(vertices, s[j], c), a);
        assert s[j] in ms;
      }
      if Coord(hi, a) != Coord(seed, a) {
        var j, c :| 0 <= j < |s| && 0 <= c < 3 && Coord(hi, a) == Coord(Corner(vertices, s[j], c), a);
        assert s[j] in ms;
      }
    }
  }

  /** The bounds loop of `make_bvh` (src/objects.rs:223-232). */
  method ComputeBounds(vertices: seq<Vec3>, indices: array<Tri>, start: nat, end: nat) returns (lo: Vec3, hi: Vec3)
    requires start < end <= indices.Length
    requires forall j :: start <= j < end ==> TriInRange(vertices, indices[j])
    ensures AllInRange(vertices, indices[start..end])
    ensures lo == FoldMin(vertices, indices[start..end], Corner(vertices, indices[start], 0))
    ensures hi == FoldMax(vertices, indices[start..end], Corner(vertices, indices[start], 0))
  {
    var first := vertices[indices[start].i0];
    lo, hi := first, first;
    var j := start;
    while j < end
      invariant start <= j <= end
      invariant AllInRange(vertices, indices[start..j])
      invariant lo == FoldMin(vertices, indices[start..j], first)
      invariant hi == FoldMax(vertices, indices[start..j], first)
    {
      var triangle := indices[j];
      ghost var lo0, hi0 := lo, hi;
      var c := 0;
      while c < 3
        invariant 0 <= c <= 3
        invariant lo == CornersMin(vertices, triangle, c, lo0)
        invariant hi == CornersMax(vertices, triangle, c, hi0)
      {
        var vertex := vertices[Index(triangle, c)];
        lo := MinV(vertex, lo);
        hi := MaxV(vertex, hi);
        c := c + 1;
      }
      assert indices[start..j + 1][..j - start] == indices[start..j];
      j := j + 1;
    }
  }

  /** A box built from tight bounds, once pushed out by `FLOAT_ERROR`, is a correct node box. */
  lemma ExpandedOk(vertices: seq<Vec3>, s: nat, e: nat, lo: Vec3, hi: Vec3, ms: multiset<Tri>)
    requires TightBounds(vertices, lo, hi, ms)
    ensures BoxOk(vertices, Expanded(s, e, lo, hi), ms)
  {
    var b := Expanded(s, e, lo, hi);
    assert Add(b.boundsMin, Splat(Kernels.FLOAT_ERROR)) == lo;
    assert Sub(b.boundsMax, Splat(Kernels.FLOAT_ERROR)) == hi;
  }

  /** Every vertex of a triangle of a node lies strictly inside the node's box. */
  lemma CornerInsideBox(vertices: seq<Vec3>, box: BoundingBox, ms: multiset<Tri>, t: Tri, c: nat)
    requires BoxOk(vertices, box, ms) && t in ms && c < 3
    ensures TriInRange(vertices, t)
    ensures StrictlyInside(box.boundsMin, box.boundsMax, Corner(vertices, t, c))
  {
  }

  /** Tight bounds of a sub-multiset lie inside the tight bounds of the whole. */
  lemma NestedBounds(vertices: seq<Vec3>, lo: Vec3, hi: Vec3, ms: multiset<Tri>,
                     lo': Vec3, hi': Vec3, ms': multiset<Tri>)
    requires TightBounds(vertices, lo, hi, ms) && TightBounds(vertices, lo', hi', ms') && ms' <= ms
    ensures Below(lo, lo') && Below(hi', hi)
  {
    forall a: Axis
      ensures Coord(lo, a) <= Coord(lo', a) && Coord(hi', a) <= Coord(hi, a)
    {
      assert Reaches(vertices, ms', a, Coord(lo', a));
      var t, c :| t in ms' && 0 <= c < 3 && TriInRange(vertices, t) && Coord(Corner(vertices, t, c), a) == Coord(lo', a);
      assert t in ms;
      assert Reaches(vertices, ms', a, Coord(hi', a));
      var t', c' :| t' in ms' && 0 <= c' < 3 && TriInRange(vertices, t') && Coord(Corner(vertices, t', c'), a) == Coord(hi', a);
      assert t' in ms;
    }
    assert Coord(lo, 0) <= Coord(lo', 0) && Coord(lo, 1) <= Coord(lo', 1) && Coord(lo, 2) <= Coord(lo', 2);
    assert Coord(hi', 0) <= Coord(hi, 0) && Coord(hi', 1) <= Coord(hi, 1) && Coord(hi', 2) <= Coord(hi, 2);
  }

  /** A child's box lies inside its parent's when the child's triangles are among the parent's. */
  lemma NestedBoxes(vertices: seq<Vec3>, parent: BoundingBox, ms: multiset<Tri>, child: BoundingBox, ms': multiset<Tri>)
    requires BoxOk(vertices, parent, ms) && BoxOk(vertices, child, ms') && ms' <= ms
    ensures Below(parent.boundsMin, child.boundsMin) && Below(child.boundsMax, parent.boundsMax)
  {
    var E := Splat(Kernels.FLOAT_ERROR);
    NestedBounds(vertices, Add(parent.boundsMin, E), Sub(parent.boundsMax, E), ms,
                 Add(child.boundsMin, E), Sub(child.boundsMax, E), ms');
  }
}
