/**
 * `make_bvh` of src/objects.rs: the recursive builder that computes a node's
 * box, stops at a leaf for small ranges, and otherwise sorts its range along
 * the axis of largest extent and builds four child subtrees, appending them
 * to the node in pre-order. It reorders `indices[start..end]` in place and
 * returns the flat node array.
 */
module BvhBuild {
  import opened Geometry
  import opened BvhTree
  import opened BvhBounds
  import opened BvhSort

  /** The triangles of child range `i` of `[s, e)`. */
  ghost function Piece(content: seq<Tri>, s: nat, e: nat, i: nat): multiset<Tri>
    requires s <= e <= |content| && i < BVH_NODE_CHILDREN
  {
    var r := ChildRange(s, e, i);
    multiset(content[r.0..r.1])
  }

  /** Every triangle of `m1` has a key along `axis` at most that of every triangle of `m2`. */
  ghost predicate KeysOrdered(vertices: seq<Vec3>, axis: Axis, m1: multiset<Tri>, m2: multiset<Tri>)
  {
    forall a, b :: a in m1 && b in m2 ==> CentroidKey(vertices, axis, a) <= CentroidKey(vertices, axis, b)
  }

  /** The split along `axis`: earlier children hold triangles with keys no larger than later children's. */
  ghost predicate Separated(vertices: seq<Vec3>, axis: Axis, content: seq<Tri>, s: nat, e: nat)
    requires s <= e <= |content|
  {
    forall i, j :: 0 <= i < j < BVH_NODE_CHILDREN ==>
      KeysOrdered(vertices, axis, Piece(content, s, e, i), Piece(content, s, e, j))
  }

  /** The extent `bounds_max - bounds_min` that picks the split axis (src/objects.rs:249). */
  function Extent(n: BoundingBox): Vec3
  {
    Sub(n.boundsMax, n.boundsMin)
  }

  /**
   * What `make_bvh` promises about node `n` once the whole index array holds
   * `content`: its box is the tight bounds of its triangles pushed out by
   * `FLOAT_ERROR`, and an inner node's children are split by key along the
   * node's best axis.
   */
  ghost predicate NodeFacts(vertices: seq<Vec3>, content: seq<Tri>, n: BoundingBox)
  {
    && n.startIndex <= n.endIndex <= |content|
    && BoxOk(vertices, n, multiset(content[n.startIndex..n.endIndex]))
    && (n.descendantCount > 0 ==>
          forall a: Axis :: IsBestAxis(Extent(n), a) ==> Separated(vertices, a, content, n.startIndex, n.endIndex))
  }

  ghost predicate AllFacts(vertices: seq<Vec3>, content: seq<Tri>, f: seq<BoundingBox>)
  {
    forall k :: 0 <= k < |f| ==> NodeFacts(vertices, content, f[k])
  }

  /** Node `k` of a forest over `[s, x)` covers a range inside `[s, x)`. */
  lemma ForestRanges(f: seq<BoundingBox>, s: nat, x: nat)
    requires Forest(f, s, x)
    ensures forall k :: 0 <= k < |f| ==> s <= f[k].startIndex < f[k].endIndex <= x
  {
    forall k | 0 <= k < |f|
      ensures s <= f[k].startIndex < f[k].endIndex <= x
    {
      assert NodeOk(f, k, s, x);
    }
  }

  /** The node facts of a forest only read the array inside `[lo, hi)`. */
  lemma FactsFrame(vertices: seq<Vec3>, c1: seq<Tri>, c2: seq<Tri>, f: seq<BoundingBox>, lo: nat, hi: nat)
    requires AllFacts(vertices, c1, f)
    requires |c1| == |c2| && lo <= hi <= |c1|
    requires forall q :: lo <= q < hi ==> c1[q] == c2[q]
    requires forall k :: 0 <= k < |f| ==> lo <= f[k].startIndex && f[k].endIndex <= hi
    ensures AllFacts(vertices, c2, f)
  {
    forall k | 0 <= k < |f|
      ensures NodeFacts(vertices, c2, f[k])
    {
      var n := f[k];
      assert NodeFacts(vertices, c1, n);
      assert c1[n.startIndex..n.endIndex] == c2[n.startIndex..n.endIndex];
      if n.descendantCount > 0 {
        forall i | 0 <= i < BVH_NODE_CHILDREN
          ensures Piece(c1, n.startIndex, n.endIndex, i) == Piece(c2, n.startIndex, n.endIndex, i)
        {
          var r := ChildRange(n.startIndex, n.endIndex, i);
          assert c1[r.0..r.1] == c2[r.0..r.1];
        }
      }
    }
  }

  /** A range is the union of its four child ranges. */
  lemma PiecesUnion(c: seq<Tri>, s: nat, e: nat)
    requires s + BVH_LEAF_MAX < e <= |c|
    ensures multiset(c[s..e]) == Piece(c, s, e, 0) + Piece(c, s, e, 1) + Piece(c, s, e, 2) + Piece(c, s, e, 3)
  {
    ChildRangesTile(s, e);
    var a, b, d := ChildRange(s, e, 1).0, ChildRange(s, e, 2).0, ChildRange(s, e, 3).0;
    assert c[s..e] == c[s..a] + c[a..b] + c[b..d] + c[d..e];
  }

  /** An element of a slice's multiset sits at some position of the slice. */
  lemma PositionOf(c: seq<Tri>, lo: nat, hi: nat, a: Tri) returns (p: nat)
    requires lo <= hi <= |c| && a in multiset(c[lo..hi])
    ensures lo <= p < hi && c[p] == a
  {
    var q :| 0 <= q < hi - lo && c[lo..hi][q] == a;
    p := lo + q;
  }

  /** Child range `i` ends no later than a later child range `j` starts. */
  lemma ChildRangesOrdered(s: nat, e: nat, i: nat, j: nat)
    requires s + BVH_LEAF_MAX < e && i < j < BVH_NODE_CHILDREN
    ensures ChildRange(s, e, i).1 <= ChildRange(s, e, j).0
  {
    ChildRangesTile(s, e);
  }

  /** A range sorted by key is split by key. */
  lemma SortedSeparated(vertices: seq<Vec3>, axis: Axis, key: Tri -> real, c: seq<Tri>, s: nat, e: nat)
    requires s + BVH_LEAF_MAX < e <= |c|
    requires forall t :: key(t) == CentroidKey(vertices, axis, t)
    requires SortedByKey(c[s..e], key)
    ensures Separated(vertices, axis, c, s, e)
  {
    forall i, j | 0 <= i < j < BVH_NODE_CHILDREN
      ensures KeysOrdered(vertices, axis, Piece(c, s, e, i), Piece(c, s, e, j))
    {
      var ri, rj := ChildRange(s, e, i), ChildRange(s, e, j);
      ChildRangesOrdered(s, e, i, j);
      forall a, b | a in Piece(c, s, e, i) && b in Piece(c, s, e, j)
        ensures CentroidKey(vertices, axis, a) <= CentroidKey(vertices, axis, b)
      {
        var p := PositionOf(c, ri.0, ri.1, a);
        var q := PositionOf(c, rj.0, rj.1, b);
        assert c[s..e][p - s] == a && c[s..e][q - s] == b;
      }
    }
  }

  /** Permuting `[lo, hi)` and leaving the rest alone keeps every index in range. */
  lemma InRangeKept(vertices: seq<Vec3>, c1: seq<Tri>, c2: seq<Tri>, s: nat, e: nat, lo: nat, hi: nat)
    requires |c1| == |c2| && s <= lo <= hi <= e <= |c1|
    requires forall j :: s <= j < e ==> TriInRange(vertices, c1[j])
    requires forall q :: 0 <= q < lo ==> c1[q] == c2[q]
    requires forall q :: hi <= q < |c1| ==> c1[q] == c2[q]
    requires multiset(c1[lo..hi]) == multiset(c2[lo..hi])
    ensures forall j :: s <= j < e ==> TriInRange(vertices, c2[j])
  {
    forall j | lo <= j < hi
      ensures TriInRange(vertices, c2[j])
    {
      assert c2[lo..hi][j - lo] == c2[j];
      assert c2[j] in multiset(c1[lo..hi]);
      var p :| 0 <= p < hi - lo && c1[lo..hi][p] == c2[j];
      assert c1[lo + p] == c2[j];
    }
  }

  /** Where the children built so far end: the start of child `i`, or `e` once all four are built. */
  function Cut(s: nat, e: nat, i: nat): nat
    requires s <= e && i <= BVH_NODE_CHILDREN
  {
    if i < BVH_NODE_CHILDREN then ChildRange(s, e, i).0 else e
  }

  /** The first `i` subtrees of a node over `[s, e)`, laid out one after the other. */
  ghost predicate Shape(children: seq<BoundingBox>, s: nat, e: nat, i: nat)
    requires s <= e && i <= BVH_NODE_CHILDREN
  {
    Forest(children, s, Cut(s, e, i)) && Siblings(children, 0, s, e, 0, i, |children|)
  }

  /** `c1` and `c2` agree on `[lo, hi)`. */
  ghost predicate Agree(c1: seq<Tri>, c2: seq<Tri>, lo: nat, hi: nat)
  {
    forall q :: lo <= q < hi && q < |c1| && q < |c2| ==> c1[q] == c2[q]
  }

  /** Child ranges `0 .. i-1` hold the same triangles in `c1` and `c2`. */
  ghost predicate SamePieces(c1: seq<Tri>, c2: seq<Tri>, s: nat, e: nat, i: nat)
    requires s <= e <= |c1| && e <= |c2|
  {
    forall m :: 0 <= m < i && m < BVH_NODE_CHILDREN ==> Piece(c1, s, e, m) == Piece(c2, s, e, m)
  }

  ghost predicate RangeInRange(vertices: seq<Vec3>, content: seq<Tri>, s: nat, e: nat)
  {
    forall j :: s <= j < e && j < |content| ==> TriInRange(vertices, content[j])
  }

  /**
   * The state of the child loop of `make_bvh` (src/objects.rs:271-281) after
   * `i` children: `children` is a forest over the first `i` child ranges, the
   * array outside `[s, e)` is as on entry (`original`), the ranges not yet
   * visited are as the sort left them (`sorted`), and each visited range holds
   * the same triangles as after the sort.
   */
  ghost predicate Building(vertices: seq<Vec3>, content: seq<Tri>, original: seq<Tri>, sorted: seq<Tri>,
                           children: seq<BoundingBox>, s: nat, e: nat, i: nat)
  {
    && |content| == |original| == |sorted|
    && s + BVH_LEAF_MAX < e <= |content| && i <= BVH_NODE_CHILDREN
    && Shape(children, s, e, i)
    && AllFacts(vertices, content, children)
    && Agree(content, original, 0, s)
    && Agree(content, original, e, |content|)
    && Agree(content, sorted, Cut(s, e, i), e)
    && SamePieces(content, sorted, s, e, i)
    && RangeInRange(vertices, content, s, e)
  }

  /** Equal slices agree pointwise. */
  lemma SliceAgree(c1: seq<Tri>, c2: seq<Tri>, lo: nat, hi: nat)
    requires lo <= hi <= |c1| && hi <= |c2| && c1[lo..hi] == c2[lo..hi]
    ensures Agree(c1, c2, lo, hi)
  {
    forall q | lo <= q < hi
      ensures c1[q] == c2[q]
    {
      assert c1[lo..hi][q - lo] == c2[lo..hi][q - lo];
    }
  }

  /** Pointwise agreement on `[lo, hi)` makes every slice inside it equal. */
  lemma AgreeSlice(c1: seq<Tri>, c2: seq<Tri>, lo: nat, hi: nat, a: nat, b: nat)
    requires Agree(c1, c2, lo, hi) && lo <= a <= b <= hi && b <= |c1| && b <= |c2|
    ensures c1[a..b] == c2[a..b]
  {
    assert forall q :: 0 <= q < b - a ==> c1[a..b][q] == c2[a..b][q];
  }

  /** The loop starts right after the sort. */
  lemma BuildingStart(vertices: seq<Vec3>, original: seq<Tri>, sorted: seq<Tri>, s: nat, e: nat)
    requires |original| == |sorted| && s + BVH_LEAF_MAX < e <= |sorted|
    requires original[..s] == sorted[..s] && original[e..] == sorted[e..]
    requires multiset(original[s..e]) == multiset(sorted[s..e])
    requires forall j :: s <= j < e ==> TriInRange(vertices, original[j])
    ensures Building(vertices, sorted, original, sorted, [], s, e, 0)
  {
    ChildRangesTile(s, e);
    SliceAgree(sorted, original, 0, s);
    SliceAgree(sorted[e..], original[e..], 0, |sorted| - e);
    InRangeKept(vertices, original, sorted, s, e, s, e);
  }

  /** Building child `i` extends the forest by one subtree. */
  lemma StepShape(children: seq<BoundingBox>, sub: seq<BoundingBox>, s: nat, e: nat, i: nat)
    requires s + BVH_LEAF_MAX < e && i < BVH_NODE_CHILDREN
    requires Shape(children, s, e, i)
    requires Tree(sub, ChildRange(s, e, i).0, ChildRange(s, e, i).1)
    ensures Shape(children + sub, s, e, i + 1)
  {
    var r := ChildRange(s, e, i);
    ChildRangesTile(s, e);
    assert Cut(s, e, i) == r.0 && Cut(s, e, i + 1) == r.1;
    ForestAppend(children, sub, s, r.0, r.1);
    TreeRoot(sub, r.0, r.1);
    SiblingsAppend(children, sub, 0, s, e, 0, i);
  }

  /** Building child `i` keeps the facts of the children built before it. */
  lemma StepFacts(vertices: seq<Vec3>, before: seq<Tri>, after: seq<Tri>,
                  children: seq<BoundingBox>, sub: seq<BoundingBox>, s: nat, e: nat, i: nat)
    requires s + BVH_LEAF_MAX < e <= |before| == |after| && i < BVH_NODE_CHILDREN
    requires Shape(children, s, e, i)
    requires AllFacts(vertices, before, children) && AllFacts(vertices, after, sub)
    requires Agree(after, before, 0, ChildRange(s, e, i).0)
    ensures AllFacts(vertices, after, children + sub)
  {
    var r := ChildRange(s, e, i);
    ChildRangesTile(s, e);
    assert Cut(s, e, i) == r.0;
    ForestRanges(children, s, r.0);
    FactsFrame(vertices, before, after, children, s, r.0);
    forall k | 0 <= k < |children + sub|
      ensures NodeFacts(vertices, after, (children + sub)[k])
    {
      if k >= |children| {
        assert (children + sub)[k] == sub[k - |children|];
      }
    }
  }

  /** Building child `i` in place keeps the visited ranges' contents and the pending ranges' order. */
  lemma StepContents(vertices: seq<Vec3>, before: seq<Tri>, after: seq<Tri>, original: seq<Tri>, sorted: seq<Tri>,
                     s: nat, e: nat, i: nat)
    requires s + BVH_LEAF_MAX < e <= |before| && |before| == |after| == |original| == |sorted| && i < BVH_NODE_CHILDREN
    requires Agree(before, original, 0, s) && Agree(before, original, e, |before|)
    requires Agree(before, sorted, Cut(s, e, i), e) && SamePieces(before, sorted, s, e, i)
    requires RangeInRange(vertices, before, s, e)
    requires var r := ChildRange(s, e, i);
      && Agree(after, before, 0, r.0) && Agree(after, before, r.1, |after|)
      && multiset(after[r.0..r.1]) == multiset(before[r.0..r.1])
    ensures Agree(after, original, 0, s) && Agree(after, original, e, |after|)
    ensures Agree(after, sorted, Cut(s, e, i + 1), e) && SamePieces(after, sorted, s, e, i + 1)
    ensures RangeInRange(vertices, after, s, e)
  {
    var r := ChildRange(s, e, i);
    ChildRangesTile(s, e);
    assert Cut(s, e, i) == r.0 && Cut(s, e, i + 1) == r.1;
    forall m | 0 <= m <= i
      ensures Piece(after, s, e, m) == Piece(sorted, s, e, m)
    {
      var rm := ChildRange(s, e, m);
      if m < i {
        ChildRangesOrdered(s, e, m, i);
        AgreeSlice(after, before, 0, r.0, rm.0, rm.1);
      } else {
        AgreeSlice(before, sorted, r.0, e, r.0, r.1);
      }
    }
    InRangeKept(vertices, before, after, s, e, r.0, r.1);
  }

  /** One pass of the child loop: building child `i` in place keeps the loop state. */
  lemma BuildingStep(vertices: seq<Vec3>, before: seq<Tri>, after: seq<Tri>, original: seq<Tri>, sorted: seq<Tri>,
                     children: seq<BoundingBox>, sub: seq<BoundingBox>, s: nat, e: nat, i: nat)
    requires Building(vertices, before, original, sorted, children, s, e, i) && i < BVH_NODE_CHILDREN
    requires |after| == |before|
    requires var r := ChildRange(s, e, i);
      && after[..r.0] == before[..r.0] && after[r.1..] == before[r.1..]
      && multiset(after[r.0..r.1]) == multiset(before[r.0..r.1])
      && Tree(sub, r.0, r.1)
      && AllFacts(vertices, after, sub)
    ensures Building(vertices, after, original, sorted, children + sub, s, e, i + 1)
  {
    var r := ChildRange(s, e, i);
    SliceAgree(after, before, 0, r.0);
    SliceAgree(after[r.1..], before[r.1..], 0, |after| - r.1);
    assert Agree(after, before, r.1, |after|) by {
      forall q | r.1 <= q < |after|
        ensures after[q] == before[q]
      {
        assert after[r.1..][q - r.1] == before[r.1..][q - r.1];
      }
    }
    StepShape(children, sub, s, e, i);
    StepFacts(vertices, before, after, children, sub, s, e, i);
    StepContents(vertices, before, after, original, sorted, s, e, i);
  }

  /** After the loop the node's range holds the triangles it held on entry, and the rest is unchanged. */
  lemma DoneContents(content: seq<Tri>, original: seq<Tri>, sorted: seq<Tri>, s: nat, e: nat)
    requires s + BVH_LEAF_MAX < e <= |content| && |content| == |original|
    requires Agree(content, original, 0, s) && Agree(content, original, e, |content|)
    requires e <= |sorted| && SamePieces(content, sorted, s, e, BVH_NODE_CHILDREN)
    requires multiset(sorted[s..e]) == multiset(original[s..e])
    ensures multiset(content[s..e]) == multiset(original[s..e])
    ensures content[..s] == original[..s] && content[e..] == original[e..]
  {
    PiecesUnion(content, s, e);
    PiecesUnion(sorted, s, e);
  }

  /** After the loop the node's children are split along its best axis. */
  lemma DoneSeparated(vertices: seq<Vec3>, content: seq<Tri>, original: seq<Tri>, sorted: seq<Tri>,
                      root: BoundingBox, axis: Axis, key: Tri -> real, s: nat, e: nat)
    requires s + BVH_LEAF_MAX < e <= |content| && e <= |sorted|
    requires SamePieces(content, sorted, s, e, BVH_NODE_CHILDREN)
    requires IsBestAxis(Extent(root), axis)
    requires forall t :: key(t) == CentroidKey(vertices, axis, t)
    requires SortedByKey(sorted[s..e], key)
    ensures forall a: Axis :: IsBestAxis(Extent(root), a) ==> Separated(vertices, a, content, s, e)
  {
    SortedSeparated(vertices, axis, key, sorted, s, e);
    forall a: Axis | IsBestAxis(Extent(root), a)
      ensures Separated(vertices, a, content, s, e)
    {
      BestAxisUnique(Extent(root), a, axis);
    }
  }

  /** After the loop: the node with its four subtrees is a tree, and every fact holds. */
  lemma BuildingDone(vertices: seq<Vec3>, content: seq<Tri>, original: seq<Tri>, sorted: seq<Tri>,
                     children: seq<BoundingBox>, root: BoundingBox, axis: Axis, key: Tri -> real, s: nat, e: nat)
    requires Building(vertices, content, original, sorted, children, s, e, BVH_NODE_CHILDREN)
    requires root.startIndex == s && root.endIndex == e && root.descendantCount == |children|
    requires BoxOk(vertices, root, multiset(original[s..e]))
    requires IsBestAxis(Extent(root), axis)
    requires forall t :: key(t) == CentroidKey(vertices, axis, t)
    requires sorted[s..e] == SortByKey(original[s..e], key)
    ensures Tree([root] + children, s, e)
    ensures multiset(content[s..e]) == multiset(original[s..e])
    ensures content[..s] == original[..s] && content[e..] == original[e..]
    ensures AllFacts(vertices, content, [root] + children)
  {
    assert Cut(s, e, BVH_NODE_CHILDREN) == e;
    InnerTree(root, children, s, e);
    SortByKeySpec(original[s..e], key);
    DoneContents(content, original, sorted, s, e);
    DoneSeparated(vertices, content, original, sorted, root, axis, key, s, e);
    assert NodeFacts(vertices, content, root);
    AllFactsCons(vertices, content, root, children);
  }

  lemma AllFactsCons(vertices: seq<Vec3>, content: seq<Tri>, root: BoundingBox, children: seq<BoundingBox>)
    requires NodeFacts(vertices, content, root) && AllFacts(vertices, content, children)
    ensures AllFacts(vertices, content, [root] + children)
  {
    forall k | 0 <= k < |[root] + children|
      ensures NodeFacts(vertices, content, ([root] + children)[k])
    {
      if k > 0 {
        assert ([root] + children)[k] == children[k - 1];
      }
    }
  }

  lemma AppendTail(tree: seq<BoundingBox>, children: seq<BoundingBox>, sub: seq<BoundingBox>)
    requires |tree| >= 1 && tree[1..] == children
    ensures |tree + sub| >= 1 && (tree + sub)[0] == tree[0] && (tree + sub)[1..] == children + sub
  {
  }

  lemma ReplaceRoot(tree: seq<BoundingBox>, children: seq<BoundingBox>, root: BoundingBox)
    requires |tree| >= 1 && tree[1..] == children
    ensures tree[0 := root] == [root] + children
  {
  }

  /** The triangles of a sub-range are among those of an enclosing range. */
  lemma SubRangeIncluded(c: seq<Tri>, a: nat, a': nat, b': nat, b: nat)
    requires a <= a' <= b' <= b <= |c|
    ensures multiset(c[a'..b']) <= multiset(c[a..b])
  {
    assert c[a..b] == c[a..a'] + c[a'..b'] + c[b'..b];
  }

  /**
   * In a hierarchy with the builder's facts, the box of every node inside the
   * subtree of node `k` lies inside the box of `k`.
   */
  lemma DescendantBoxInside(vertices: seq<Vec3>, content: seq<Tri>, f: seq<BoundingBox>,
                            s: nat, x: nat, k: nat, j: nat)
    requires Forest(f, s, x) && AllFacts(vertices, content, f)
    requires k < j < |f| && j < k + f[k].descendantCount + 1
    ensures Below(f[k].boundsMin, f[j].boundsMin) && Below(f[j].boundsMax, f[k].boundsMax)
  {
    assert NodeOk(f, k, s, x) && NodeOk(f, j, s, x);
    assert NodeFacts(vertices, content, f[k]) && NodeFacts(vertices, content, f[j]);
    var n, m := f[k], f[j];
    SubRangeIncluded(content, n.startIndex, m.startIndex, m.endIndex, n.endIndex);
    NestedBoxes(vertices, n, multiset(content[n.startIndex..n.endIndex]),
                m, multiset(content[m.startIndex..m.endIndex]));
  }

  /**
   * `make_bvh` (src/objects.rs:217-285). It reorders `indices[start..end]` in
   * place, leaving the rest of the array alone, and returns the nodes of the
   * subtree over `[start, end)` in pre-order: a well-formed tree whose boxes
   * tightly bound their triangles (plus `FLOAT_ERROR`) and whose inner nodes
   * split their triangles by key along their axis of largest extent.
   */
  method MakeBvh(vertices: seq<Vec3>, indices: array<Tri>, start: nat, end: nat) returns (tree: seq<BoundingBox>)
    requires start < end <= indices.Length
    requires forall j :: start <= j < end ==> TriInRange(vertices, indices[j])
    modifies indices
    ensures Tree(tree, start, end)
    ensures multiset(indices[start..end]) == multiset(old(indices[start..end]))
    ensures indices[..start] == old(indices[..start]) && indices[end..] == old(indices[end..])
    ensures AllFacts(vertices, indices[..], tree)
    decreases end - start, 2
  {
    var lo, hi := ComputeBounds(vertices, indices, start, end);
    FoldIsTight(vertices, indices[start..end]);
    var root := Expanded(start, end, lo, hi);
    ExpandedOk(vertices, start, end, lo, hi, multiset(indices[start..end]));
    if end - start <= BVH_LEAF_MAX {
      tree := [root];
      LeafTree(root, start, end);
      return;
    }
    tree := SplitNode(vertices, indices, start, end, root);
  }

  /**
   * The inner-node part of `make_bvh` (src/objects.rs:249-270): choosing the
   * axis of largest extent of `root` and sorting the range by the key along it,
   * before the children are built.
   */
  method SplitNode(vertices: seq<Vec3>, indices: array<Tri>, start: nat, end: nat, root: BoundingBox)
    returns (tree: seq<BoundingBox>)
    requires start + BVH_LEAF_MAX < end <= indices.Length
    requires forall j :: start <= j < end ==> TriInRange(vertices, indices[j])
    requires root.startIndex == start && root.endIndex == end
    requires BoxOk(vertices, root, multiset(indices[start..end]))
    modifies indices
    ensures Tree(tree, start, end)
    ensures multiset(indices[start..end]) == multiset(old(indices[start..end]))
    ensures indices[..start] == old(indices[..start]) && indices[end..] == old(indices[end..])
    ensures AllFacts(vertices, indices[..], tree)
    decreases end - start, 1
  {
    var range := Sub(root.boundsMax, root.boundsMin);
    var bestAxis := ChooseAxis(range);
    var key := (t: Tri) => CentroidKey(vertices, bestAxis, t);
    ghost var original := indices[..];
    assert original[start..end] == indices[start..end];
    SortRange(indices, start, end, key);
    SortByKeySpec(original[start..end], key);
    assert original[..start] == indices[..start] && original[end..] == indices[end..];
    BuildingStart(vertices, original, indices[..], start, end);
    tree := BuildChildren(vertices, indices, start, end, root, bestAxis, key, original);
  }

  /**
   * The rest of `make_bvh` for an inner node (src/objects.rs:271-284), once
   * its range is sorted: the loop that builds the four subtrees in place and
   * appends them after `root`, and the final `descendant_count`.
   */
  method BuildChildren(vertices: seq<Vec3>, indices: array<Tri>, start: nat, end: nat, root: BoundingBox,
                       axis: Axis, key: Tri -> real, ghost original: seq<Tri>) returns (tree: seq<BoundingBox>)
    requires Building(vertices, indices[..], original, indices[..], [], start, end, 0)
    requires root.startIndex == start && root.endIndex == end
    requires BoxOk(vertices, root, multiset(original[start..end]))
    requires IsBestAxis(Extent(root), axis)
    requires forall t :: key(t) == CentroidKey(vertices, axis, t)
    requires indices[start..end] == SortByKey(original[start..end], key)
    modifies indices
    ensures Tree(tree, start, end)
    ensures multiset(indices[start..end]) == multiset(original[start..end])
    ensures indices[..start] == original[..start] && indices[end..] == original[end..]
    ensures AllFacts(vertices, indices[..], tree)
    decreases end - start, 0
  {
    ghost var sorted := indices[..];
    tree := [root];
    for i := 0 to BVH_NODE_CHILDREN
      invariant |tree| >= 1 && tree[0] == root
      invariant Building(vertices, indices[..], original, sorted, tree[1..], start, end, i)
    {
      var (childStart, childEnd) := ChildRange(start, end, i);
      ChildRangesTile(start, end);
      ghost var before := indices[..];
      ghost var children := tree[1..];
      var sub := MakeBvh(vertices, indices, childStart, childEnd);
      BuildingStep(vertices, before, indices[..], original, sorted, children, sub, start, end, i);
      AppendTail(tree, children, sub);
      tree := tree + sub;
    }
    ghost var children := tree[1..];
    var node := root.(descendantCount := |tree| - 1);
    BuildingDone(vertices, indices[..], original, sorted, children, node, axis, key, start, end);
    ReplaceRoot(tree, children, node);
    tree := tree[0 := node];
  }
}
