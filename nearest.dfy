/**
 * The closest-hit scan shared by `Mesh::intersect` (over the triangles of a
 * leaf) and `Scene::trace_ray` (over the scene's objects): a candidate hit
 * replaces the best one so far only when the best is absent or the candidate
 * is strictly nearer, so the earliest of equally near hits is kept.
 */
module Nearest {
  import opened Wrappers

  /** One step of the scan. */
  function Pick<T>(best: Option<T>, candidate: Option<T>, dist: T -> real): (r: Option<T>)
    ensures r == best || r == candidate
    ensures r.None? <==> best.None? && candidate.None?
  {
    match candidate
    case None => best
    case Some(h) => if best.None? || dist(h) < dist(best.value) then candidate else best
  }

  /** The result of scanning `hits` in order, starting with no hit. */
  function Closest<T>(hits: seq<Option<T>>, dist: T -> real): Option<T>
  {
    if |hits| == 0 then None else Pick(Closest(hits[..|hits| - 1], dist), hits[|hits| - 1], dist)
  }

  /** Position `k` holds a hit of least distance, and every earlier hit is strictly farther. */
  ghost predicate IsFirstNearest<T>(hits: seq<Option<T>>, dist: T -> real, k: int)
  {
    && 0 <= k < |hits|
    && hits[k].Some?
    && (forall j :: 0 <= j < |hits| && hits[j].Some? ==> dist(hits[k].value) <= dist(hits[j].value))
    && (forall j :: 0 <= j < k && hits[j].Some? ==> dist(hits[k].value) < dist(hits[j].value))
  }

  /** At most one position is the first nearest. */
  lemma FirstNearestUnique<T>(hits: seq<Option<T>>, dist: T -> real, k: int, k': int)
    requires IsFirstNearest(hits, dist, k) && IsFirstNearest(hits, dist, k')
    ensures k == k'
  {
  }

  /** A first nearest position of a prefix stays first nearest when a miss or a hit no nearer follows. */
  lemma KeepFirstNearest<T>(hits: seq<Option<T>>, dist: T -> real, k: int)
    requires |hits| > 0 && IsFirstNearest(hits[..|hits| - 1], dist, k)
    requires hits[|hits| - 1].Some? ==> dist(hits[k].value) <= dist(hits[|hits| - 1].value)
    ensures IsFirstNearest(hits, dist, k)
  {
    var init := hits[..|hits| - 1];
    assert forall j :: 0 <= j < |init| ==> init[j] == hits[j];
  }

  /** The last position is first nearest when its hit is strictly nearer than every earlier hit. */
  lemma LastFirstNearest<T>(hits: seq<Option<T>>, dist: T -> real)
    requires |hits| > 0 && hits[|hits| - 1].Some?
    requires forall j :: 0 <= j < |hits| - 1 && hits[j].Some? ==> dist(hits[|hits| - 1].value) < dist(hits[j].value)
    ensures IsFirstNearest(hits, dist, |hits| - 1)
  {
  }

  /**
   * The scan finds nothing exactly when no position holds a hit; otherwise
   * it returns the hit at the first nearest position.
   */
  lemma {:induction false} ClosestIsFirstNearest<T>(hits: seq<Option<T>>, dist: T -> real)
    ensures Closest(hits, dist).None? <==> forall k :: 0 <= k < |hits| ==> hits[k].None?
    ensures Closest(hits, dist).Some? ==>
              exists k :: IsFirstNearest(hits, dist, k) && hits[k] == Closest(hits, dist)
  {
    if |hits| > 0 {
      var n := |hits| - 1;
      var init := hits[..n];
      ClosestIsFirstNearest(init, dist);
      assert forall j :: 0 <= j < n ==> init[j] == hits[j];
      var before := Closest(init, dist);
      var h := hits[n];
      if before.None? {
        if h.Some? {
          LastFirstNearest(hits, dist);
        }
      } else {
        var k :| IsFirstNearest(init, dist, k) && init[k] == before;
        if h.Some? && dist(h.value) < dist(before.value) {
          LastFirstNearest(hits, dist);
        } else {
          KeepFirstNearest(hits, dist, k);
        }
      }
    }
  }

  /** Positions that hold no hit do not change the scan's result. */
  lemma {:induction false} ClosestSkipsMisses<T>(hits: seq<Option<T>>, dist: T -> real, a: nat, b: nat)
    requires a <= b <= |hits|
    requires forall k :: a <= k < b ==> hits[k].None?
    ensures Closest(hits[..b], dist) == Closest(hits[..a], dist)
    decreases b - a
  {
    if a < b {
      ClosestSkipsMisses(hits, dist, a, b - 1);
      assert hits[..b][..b - 1] == hits[..b - 1];
    }
  }

  /** Extending the scanned prefix by one position is one more `Pick`. */
  lemma ClosestExtend<T>(hits: seq<Option<T>>, dist: T -> real, k: nat)
    requires k < |hits|
    ensures Closest(hits[..k + 1], dist) == Pick(Closest(hits[..k], dist), hits[k], dist)
  {
    assert hits[..k + 1][..k] == hits[..k];
  }
}
