/**
 * The split step of `make_bvh` in src/objects.rs: choosing the axis of
 * largest extent (src/objects.rs:249-255) and sorting the node's triangles by
 * the sum of their vertex coordinates along it (src/objects.rs:257-269).
 *
 * `sort_by` is modelled by an insertion sort on sequences, which orders by
 * the key and keeps the multiset of triangles.
 * The comparator's `partial_cmp(..).unwrap_or(Equal)` only matters for NaN
 * keys, which reals do not have.
 */
module BvhSort {
  import opened Geometry
  import opened BvhTree

  /** `best` has the largest extent, and no lower-numbered axis has the same extent. */
  predicate IsBestAxis(range: Vec3, best: Axis)
  {
    && (forall c: Axis :: Coord(range, c) <= Coord(range, best))
    && (forall c: Axis :: c < best ==> Coord(range, c) < Coord(range, best))
  }

  /** The best axis is unique: the lowest of the axes of largest extent. */
  lemma BestAxisUnique(range: Vec3, a: Axis, b: Axis)
    requires IsBestAxis(range, a) && IsBestAxis(range, b)
    ensures a == b
  {
    assert Coord(range, a) <= Coord(range, b) && Coord(range, b) <= Coord(range, a);
  }

  /** The loop of src/objects.rs:250-255: a later axis wins only with a strictly larger extent. */
  method ChooseAxis(range: Vec3) returns (best: Axis)
    ensures IsBestAxis(range, best)
  {
    best := 0;
    for i := 1 to 3
      invariant best < i
      invariant forall c: Axis :: c < i ==> Coord(range, c) <= Coord(range, best)
      invariant forall c: Axis :: c < best ==> Coord(range, c) < Coord(range, best)
    {
      if Coord(range, i) > Coord(range, best) {
        best := i;
      }
    }
  }

  /** `vertices[i]`; the builder only passes in-range indices, so the default is never used. */
  function Vertex(vertices: seq<Vec3>, i: nat): Vec3
  {
    if i < |vertices| then vertices[i] else Zero
  }

  /** The sort key of src/objects.rs:258-265: the sum of the triangle's vertex coordinates on `axis`. */
  function CentroidKey(vertices: seq<Vec3>, axis: Axis, t: Tri): real
  {
    Coord(Vertex(vertices, t.i0), axis) + Coord(Vertex(vertices, t.i1), axis) + Coord(Vertex(vertices, t.i2), axis)
  }

  ghost predicate SortedByKey(s: seq<Tri>, key: Tri -> real)
  {
    forall i, j :: 0 <= i < j < |s| ==> key(s[i]) <= key(s[j])
  }

  /** Inserts `x` after every element of `r` whose key is at most `x`'s. */
  function Insert(r: seq<Tri>, x: Tri, key: Tri -> real): (q: seq<Tri>)
    ensures |q| == |r| + 1
  {
    if |r| == 0 || key(r[|r| - 1]) <= key(x) then r + [x]
    else Insert(r[..|r| - 1], x, key) + [r[|r| - 1]]
  }

  /** Insertion sort by `key`. */
  function SortByKey(s: seq<Tri>, key: Tri -> real): (q: seq<Tri>)
    ensures |q| == |s|
  {
    if |s| == 0 then [] else Insert(SortByKey(s[..|s| - 1], key), s[|s| - 1], key)
  }

  lemma {:induction false} InsertPermutes(r: seq<Tri>, x: Tri, key: Tri -> real)
    ensures multiset(Insert(r, x, key)) == multiset(r) + multiset{x}
  {
    if |r| > 0 && key(r[|r| - 1]) > key(x) {
      var n := |r| - 1;
      InsertPermutes(r[..n], x, key);
      assert r == r[..n] + [r[n]];
    }
  }

  /** A bound on the keys of `r` and of `x` bounds the keys after inserting `x`. */
  lemma InsertBounded(r: seq<Tri>, x: Tri, key: Tri -> real, b: real)
    requires forall i :: 0 <= i < |r| ==> key(r[i]) <= b
    requires key(x) <= b
    ensures forall i :: 0 <= i < |Insert(r, x, key)| ==> key(Insert(r, x, key)[i]) <= b
  {
    var q := Insert(r, x, key);
    InsertPermutes(r, x, key);
    forall i | 0 <= i < |q|
      ensures key(q[i]) <= b
    {
      assert q[i] in multiset(r) + multiset{x};
      if q[i] in multiset(r) {
        var j :| 0 <= j < |r| && r[j] == q[i];
      }
    }
  }

  /** Inserting keeps a sorted sequence sorted; the last element is `x` or the old last element. */
  lemma {:induction false} InsertSorted(r: seq<Tri>, x: Tri, key: Tri -> real)
    requires SortedByKey(r, key)
    ensures SortedByKey(Insert(r, x, key), key)
    ensures var q := Insert(r, x, key); q[|q| - 1] == x || (|r| > 0 && q[|q| - 1] == r[|r| - 1])
  {
    if |r| > 0 && key(r[|r| - 1]) > key(x) {
      var n := |r| - 1;
      InsertSorted(r[..n], x, key);
      InsertPermutes(r[..n], x, key);
      var q := Insert(r[..n], x, key);
      InsertBounded(r[..n], x, key, key(r[n]));
      assert Insert(r, x, key) == q + [r[n]];
      forall a, b | 0 <= a < b < |q| + 1
        ensures key((q + [r[n]])[a]) <= key((q + [r[n]])[b])
      {
        if b < |q| {
          assert (q + [r[n]])[a] == q[a] && (q + [r[n]])[b] == q[b];
        } else {
          assert (q + [r[n]])[a] == q[a] && (q + [r[n]])[b] == r[n];
        }
      }
    }
  }

  /** The sort orders by the key and only rearranges: it is a sorted permutation. */
  lemma {:induction false} SortByKeySpec(s: seq<Tri>, key: Tri -> real)
    ensures SortedByKey(SortByKey(s, key), key)
    ensures multiset(SortByKey(s, key)) == multiset(s)
  {
    if |s| > 0 {
      var n := |s| - 1;
      SortByKeySpec(s[..n], key);
      InsertSorted(SortByKey(s[..n], key), s[n], key);
      InsertPermutes(SortByKey(s[..n], key), s[n], key);
      assert s == s[..n] + [s[n]];
    }
  }

  /** The in-place `indices[start..end].sort_by(..)`: the slice becomes its sorted permutation. */
  method SortRange(indices: array<Tri>, start: nat, end: nat, key: Tri -> real)
    requires start <= end <= indices.Length
    modifies indices
    ensures indices[start..end] == SortByKey(old(indices[start..end]), key)
    ensures indices[..start] == old(indices[..start]) && indices[end..] == old(indices[end..])
  {
    var sorted := SortByKey(indices[start..end], key);
    forall i | start <= i < end {
      indices[i] := sorted[i - start];
    }
    assert indices[start..end] == sorted;
  }
}
