/**
 * The shape of the flattened bounding-volume hierarchy that `make_bvh` in
 * src/objects.rs builds: a pre-order array of nodes, each covering a range
 * `[startIndex, endIndex)` of the mesh's triangle array and storing how many
 * nodes follow it inside its own subtree (`descendantCount`), which is the
 * skip distance of the traversal.
 *
 * Validity is stated node by node on the flat array rather than on a
 * recursive tree, because the traversal only ever looks at the array.
 */
module BvhTree {
  import opened Geometry

  /** `BVH_NODE_CHILDREN` and `BVH_LEAF_MAX` of src/objects.rs. */
  const BVH_NODE_CHILDREN: nat := 4
  const BVH_LEAF_MAX: nat := 12

  /** A triangle of the mesh: three indices into its vertex array (`[u32; 3]`). */
  datatype Tri = Tri(i0: nat, i1: nat, i2: nat)

  datatype BoundingBox = BoundingBox(startIndex: nat, endIndex: nat, boundsMin: Vec3, boundsMax: Vec3,
                                     descendantCount: nat)

  /**
   * The `i`-th of the four child ranges of `[s, e)`: pieces of `(e - s) / 4`
   * triangles, the last one running to `e`.
   */
  function ChildRange(s: nat, e: nat, i: nat): (r: (nat, nat))
    requires s <= e && i < BVH_NODE_CHILDREN
    ensures s <= r.0 <= r.1 <= e
  {
    var partSize := (e - s) / BVH_NODE_CHILDREN;
    var childStart := s + i * partSize;
    (childStart, if i < BVH_NODE_CHILDREN - 1 then childStart + partSize else e)
  }

  /**
   * The four child ranges of a range too large for a leaf are non-empty,
   * strictly smaller than the parent, and tile it in order.
   */
  lemma ChildRangesTile(s: nat, e: nat)
    requires s + BVH_LEAF_MAX < e
    ensures ChildRange(s, e, 0).0 == s && ChildRange(s, e, BVH_NODE_CHILDREN - 1).1 == e
    ensures forall i :: 0 <= i < BVH_NODE_CHILDREN - 1 ==> ChildRange(s, e, i).1 == ChildRange(s, e, i + 1).0
    ensures forall i :: 0 <= i < BVH_NODE_CHILDREN ==>
              ChildRange(s, e, i).0 < ChildRange(s, e, i).1 && ChildRange(s, e, i).1 - ChildRange(s, e, i).0 < e - s
  {
    var p := (e - s) / BVH_NODE_CHILDREN;
    assert 3 <= p && 4 * p <= e - s;
    assert ChildRange(s, e, 1) == (s + p, s + 2 * p);
    assert ChildRange(s, e, 2) == (s + 2 * p, s + 3 * p);
    assert ChildRange(s, e, 3) == (s + 3 * p, e);
  }

  /**
   * The nodes at `pos`, `pos + 1 + dc(pos)`, ... are roots of consecutive
   * subtrees covering the child ranges `i`, `i + 1`, ..., `j - 1` of `[s, e)`,
   * and the last of those subtrees ends just before `stop`.
   */
  ghost predicate Siblings(f: seq<BoundingBox>, pos: nat, s: nat, e: nat, i: nat, j: nat, stop: nat)
    decreases j - i
  {
    && s <= e && i <= j <= BVH_NODE_CHILDREN
    && if i == j then pos == stop
       else
         && pos < stop <= |f|
         && (f[pos].startIndex, f[pos].endIndex) == ChildRange(s, e, i)
         && Siblings(f, pos + f[pos].descendantCount + 1, s, e, i + 1, j, stop)
  }

  /**
   * Node `k` of a forest covering `[s, x)` is well formed: its subtree fits in
   * the array; its range is non-empty and inside `[s, x)`; it is a leaf exactly
   * when it holds at most `BVH_LEAF_MAX` triangles; an inner node's children are
   * four consecutive subtrees over its child ranges; its descendants' ranges lie
   * inside its own; and the node after its subtree starts where it ends (or,
   * at the array's end, it ends at `x`).
   */
  ghost predicate NodeOk(f: seq<BoundingBox>, k: nat, s: nat, x: nat)
    requires k < |f|
  {
    var n := f[k];
    var next := k + n.descendantCount + 1;
    && next <= |f|
    && s <= n.startIndex < n.endIndex <= x
    && (n.descendantCount == 0 <==> n.endIndex - n.startIndex <= BVH_LEAF_MAX)
    && (n.descendantCount > 0 ==> Siblings(f, k + 1, n.startIndex, n.endIndex, 0, BVH_NODE_CHILDREN, next))
    && (forall j :: k < j < next ==> n.startIndex <= f[j].startIndex && f[j].endIndex <= n.endIndex)
    && (next < |f| ==> f[next].startIndex == n.endIndex)
    && (next == |f| ==> n.endIndex == x)
  }

  /** A pre-order array of subtrees covering `[s, x)` one after the other. */
  ghost predicate Forest(f: seq<BoundingBox>, s: nat, x: nat)
  {
    && s <= x
    && (|f| == 0 ==> s == x)
    && (|f| > 0 ==> f[0].startIndex == s)
    && forall k :: 0 <= k < |f| ==> NodeOk(f, k, s, x)
  }

  /** The output of `make_bvh(start, end)`: a single tree whose root covers `[s, e)`. */
  ghost predicate Tree(t: seq<BoundingBox>, s: nat, e: nat)
  {
    && Forest(t, s, e)
    && |t| >= 1
    && t[0].descendantCount == |t| - 1
  }

  /** The root of a tree covers exactly `[s, e)`; a small range gives exactly one leaf. */
  lemma TreeRoot(t: seq<BoundingBox>, s: nat, e: nat)
    requires Tree(t, s, e)
    ensures t[0].startIndex == s && t[0].endIndex == e
    ensures e - s <= BVH_LEAF_MAX <==> |t| == 1
  {
    assert NodeOk(t, 0, s, e);
  }

  /** `g` holds the nodes of `f` from offset `off` on. */
  ghost predicate Embedded(f: seq<BoundingBox>, g: seq<BoundingBox>, off: nat)
  {
    off + |f| <= |g| && forall j :: 0 <= j < |f| ==> g[off + j] == f[j]
  }

  /** `Siblings` only reads the nodes in `[pos, stop)`, so it survives moving those nodes by `off`. */
  lemma {:induction false} SiblingsShift(f: seq<BoundingBox>, g: seq<BoundingBox>, off: nat,
                                         pos: nat, s: nat, e: nat, i: nat, j: nat, stop: nat)
    requires Siblings(f, pos, s, e, i, j, stop)
    requires Embedded(f, g, off)
    ensures Siblings(g, pos + off, s, e, i, j, stop + off)
    decreases j - i
  {
    if i < j {
      assert g[pos + off] == f[pos];
      SiblingsShift(f, g, off, pos + f[pos].descendantCount + 1, s, e, i + 1, j, stop);
    }
  }

  /** `NodeOk` of node `k` survives moving `f` to offset `off` inside `g`, when `g` continues as `f` did. */
  lemma NodeOkShift(f: seq<BoundingBox>, g: seq<BoundingBox>, off: nat, k: nat, s: nat, x: nat, s': nat, x': nat)
    requires k < |f| && NodeOk(f, k, s, x)
    requires Embedded(f, g, off)
    requires s' <= s && x <= x'
    requires off + |f| < |g| ==> g[off + |f|].startIndex == x
    requires off + |f| == |g| ==> x == x'
    ensures NodeOk(g, k + off, s', x')
  {
    var n := f[k];
    var next := k + n.descendantCount + 1;
    var k', next' := k + off, next + off;
    assert g[k'] == n;
    assert next' == k' + n.descendantCount + 1 <= |g|;
    if n.descendantCount > 0 {
      SiblingsShift(f, g, off, k + 1, n.startIndex, n.endIndex, 0, BVH_NODE_CHILDREN, next);
      assert Siblings(g, k' + 1, n.startIndex, n.endIndex, 0, BVH_NODE_CHILDREN, next');
    }
    forall j | k' < j < next'
      ensures n.startIndex <= g[j].startIndex && g[j].endIndex <= n.endIndex
    {
      assert g[j] == f[j - off];
    }
    if next < |f| {
      assert g[next'] == f[next];
    } else {
      assert n.endIndex == x;
    }
  }

  /** A node of the first forest stays well formed when a forest over the following range is appended. */
  lemma AppendLeftNode(f1: seq<BoundingBox>, f2: seq<BoundingBox>, k: nat, s: nat, m: nat, x: nat)
    requires k < |f1| && NodeOk(f1, k, s, m) && m <= x
    requires |f2| > 0 ==> f2[0].startIndex == m
    requires |f2| == 0 ==> m == x
    ensures NodeOk(f1 + f2, k, s, x)
  {
    var g := f1 + f2;
    assert Embedded(f1, g, 0);
    if |f2| > 0 {
      assert g[|f1|] == f2[0];
    }
    NodeOkShift(f1, g, 0, k, s, m, s, x);
  }

  /** A node of the second forest stays well formed behind a forest over the preceding range. */
  lemma AppendRightNode(f1: seq<BoundingBox>, f2: seq<BoundingBox>, k: nat, s: nat, m: nat, x: nat)
    requires k < |f2| && NodeOk(f2, k, m, x) && s <= m
    ensures NodeOk(f1 + f2, |f1| + k, s, x)
  {
    var g := f1 + f2;
    assert Embedded(f2, g, |f1|);
    NodeOkShift(f2, g, |f1|, k, m, x, s, x);
  }

  /** Every node of a forest stays well formed behind nodes covering a preceding range. */
  lemma AppendRightNodes(f1: seq<BoundingBox>, f2: seq<BoundingBox>, s: nat, m: nat, x: nat)
    requires Forest(f2, m, x) && s <= m
    ensures forall k :: |f1| <= k < |f1 + f2| ==> NodeOk(f1 + f2, k, s, x)
  {
    forall k | |f1| <= k < |f1 + f2|
      ensures NodeOk(f1 + f2, k, s, x)
    {
      AppendRightNode(f1, f2, k - |f1|, s, m, x);
    }
  }

  /** Two forests covering adjacent ranges, one after the other, form a forest over the union. */
  lemma ForestAppend(f1: seq<BoundingBox>, f2: seq<BoundingBox>, s: nat, m: nat, x: nat)
    requires Forest(f1, s, m) && Forest(f2, m, x)
    ensures Forest(f1 + f2, s, x)
  {
    var g := f1 + f2;
    forall k | 0 <= k < |f1|
      ensures NodeOk(g, k, s, x)
    {
      AppendLeftNode(f1, f2, k, s, m, x);
    }
    AppendRightNodes(f1, f2, s, m, x);
  }

  /** A range small enough becomes a single leaf. */
  lemma LeafTree(n: BoundingBox, s: nat, e: nat)
    requires n.startIndex == s < e == n.endIndex && e - s <= BVH_LEAF_MAX && n.descendantCount == 0
    ensures Tree([n], s, e)
  {
    assert NodeOk([n], 0, s, e);
  }

  /**
   * A root over `[s, e)` followed by the four child subtrees, built one after
   * another, is a tree over `[s, e)`.
   */
  lemma InnerTree(root: BoundingBox, children: seq<BoundingBox>, s: nat, e: nat)
    requires root.startIndex == s && root.endIndex == e && s + BVH_LEAF_MAX < e
    requires root.descendantCount == |children|
    requires Forest(children, s, e)
    requires Siblings(children, 0, s, e, 0, BVH_NODE_CHILDREN, |children|)
    ensures Tree([root] + children, s, e)
  {
    var t := [root] + children;
    assert Embedded(children, t, 1);
    InnerRootOk(root, children, s, e);
    AppendRightNodes([root], children, s, s, e);
  }

  lemma InnerRootOk(root: BoundingBox, children: seq<BoundingBox>, s: nat, e: nat)
    requires root.startIndex == s && root.endIndex == e && s + BVH_LEAF_MAX < e
    requires root.descendantCount == |children|
    requires Forest(children, s, e)
    requires Siblings(children, 0, s, e, 0, BVH_NODE_CHILDREN, |children|)
    ensures NodeOk([root] + children, 0, s, e)
  {
    var t := [root] + children;
    assert t[0] == root;
    assert Embedded(children, t, 1);
    SiblingsShift(children, t, 1, 0, s, e, 0, BVH_NODE_CHILDREN, |children|);
    assert 0 < |children| && 0 + root.descendantCount + 1 == |t|;
    forall j | 0 < j < |t|
      ensures s <= t[j].startIndex && t[j].endIndex <= e
    {
      assert t[j] == children[j - 1];
      assert NodeOk(children, j - 1, s, e);
    }
  }

  /** Appending the tree for child range `j` extends a sibling chain over child ranges `i .. j - 1`. */
  lemma {:induction false} SiblingsAppend(f: seq<BoundingBox>, t: seq<BoundingBox>, pos: nat,
                                          s: nat, e: nat, i: nat, j: nat)
    requires j < BVH_NODE_CHILDREN
    requires Siblings(f, pos, s, e, i, j, |f|)
    requires |t| >= 1 && t[0].descendantCount == |t| - 1
    requires (t[0].startIndex, t[0].endIndex) == ChildRange(s, e, j)
    ensures Siblings(f + t, pos, s, e, i, j + 1, |f + t|)
    decreases j - i
  {
    var g := f + t;
    if i == j {
      assert g[pos] == t[0];
      assert Siblings(g, |g|, s, e, j + 1, j + 1, |g|);
    } else {
      assert g[pos] == f[pos];
      SiblingsAppend(f, t, pos + f[pos].descendantCount + 1, s, e, i + 1, j);
    }
  }

  /** Node starts never decrease along a forest's array. */
  lemma {:induction false} StartsMonotone(f: seq<BoundingBox>, s: nat, x: nat, k: nat, k': nat)
    requires Forest(f, s, x) && k <= k' < |f|
    ensures f[k].startIndex <= f[k'].startIndex
    decreases k' - k
  {
    if k < k' {
      StartsMonotone(f, s, x, k + 1, k');
      assert NodeOk(f, k, s, x);
    }
  }

  /** The first child of an inner node starts where the node does. */
  lemma FirstChildStart(f: seq<BoundingBox>, s: nat, x: nat, k: nat)
    requires Forest(f, s, x) && k < |f| && f[k].descendantCount > 0
    ensures k + 1 < |f| && f[k + 1].startIndex == f[k].startIndex
  {
    assert NodeOk(f, k, s, x);
    var n := f[k];
    assert Siblings(f, k + 1, n.startIndex, n.endIndex, 0, BVH_NODE_CHILDREN, k + n.descendantCount + 1);
    assert ChildRange(n.startIndex, n.endIndex, 0).0 == n.startIndex;
  }

  /** The last node of the array whose range starts at or before `j`. */
  lemma {:induction false} LastStartingBy(f: seq<BoundingBox>, s: nat, x: nat, j: nat, q: nat) returns (k: nat)
    requires Forest(f, s, x) && s <= j && q < |f|
    requires forall r :: q < r < |f| ==> j < f[r].startIndex
    ensures k <= q && f[k].startIndex <= j
    ensures forall r :: k < r < |f| ==> j < f[r].startIndex
    decreases q
  {
    if f[q].startIndex <= j {
      k := q;
    } else {
      assert q > 0;
      k := LastStartingBy(f, s, x, j, q - 1);
    }
  }

  /** Position `j` of the triangle array lies in leaf `k`. */
  ghost predicate InLeaf(f: seq<BoundingBox>, k: int, j: nat)
  {
    0 <= k < |f| && f[k].descendantCount == 0 && f[k].startIndex <= j < f[k].endIndex
  }

  ghost predicate Covered(f: seq<BoundingBox>, j: nat)
  {
    exists k :: InLeaf(f, k, j)
  }

  /**
   * The leaves of a forest over `[s, x)`, read in array order, partition
   * `[s, x)`: every position lies in some leaf, earlier leaves lie wholly
   * before later ones, and each leaf holds between 1 and `BVH_LEAF_MAX`
   * triangles. Every node's subtree also ends inside the array.
   */
  lemma LeavesPartition(f: seq<BoundingBox>, s: nat, x: nat)
    requires Forest(f, s, x)
    ensures forall k :: 0 <= k < |f| ==> k + f[k].descendantCount < |f|
    ensures forall k :: 0 <= k < |f| && f[k].descendantCount == 0 ==>
              1 <= f[k].endIndex - f[k].startIndex <= BVH_LEAF_MAX
    ensures forall k, k' :: 0 <= k < k' < |f| && f[k].descendantCount == 0 ==> f[k].endIndex <= f[k'].startIndex
    ensures forall j :: s <= j < x ==> Covered(f, j)
  {
    forall k | 0 <= k < |f|
      ensures k + f[k].descendantCount < |f|
      ensures f[k].descendantCount == 0 ==> 1 <= f[k].endIndex - f[k].startIndex <= BVH_LEAF_MAX
    {
      assert NodeOk(f, k, s, x);
    }
    forall k, k' | 0 <= k < k' < |f| && f[k].descendantCount == 0
      ensures f[k].endIndex <= f[k'].startIndex
    {
      assert NodeOk(f, k, s, x);
      StartsMonotone(f, s, x, k + 1, k');
    }
    forall j | s <= j < x
      ensures Covered(f, j)
    {
      assert |f| > 0;
      var k := LastStartingBy(f, s, x, j, |f| - 1);
      assert NodeOk(f, k, s, x);
      if f[k].descendantCount > 0 {
        FirstChildStart(f, s, x, k);
        assert false;
      }
      assert k + 1 < |f| ==> f[k + 1].startIndex == f[k].endIndex;
      assert InLeaf(f, k, j);
    }
  }
}
