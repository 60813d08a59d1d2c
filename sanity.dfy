/** The brute-force nearest-neighbour oracle of extended_sanity.main.cpp and
    the two comparison loops of its harness. The harness reads its points and
    queries from CSV files; here they are parameters. */
module ExtendedSanity {
  import opened Types
  import opened Utils
  import opened KdTree

  /** Position `b` holds a point of `s` closest to `q`, and every earlier
      position holds a strictly farther one. */
  predicate ClosestAt(s: seq<Point>, q: Point, b: nat) {
    && b < |s|
    && (forall i :: 0 <= i < |s| ==> |s[i]| == |q|)
    && (forall i :: 0 <= i < |s| ==> SquaredDistance(s[b], q) <= SquaredDistance(s[i], q))
    && (forall i :: 0 <= i < b ==> SquaredDistance(s[b], q) < SquaredDistance(s[i], q))
  }

  /** `bruteForceClosestIndex`: scan the points from the first, keeping the
      smallest distance seen; a later point replaces the current one only
      when strictly closer, so the earliest of equally close points wins. */
  method BruteForceClosestIndex(points: seq<Point>, q: Point) returns (closestIndex: nat)
    requires |points| > 0
    requires forall i :: 0 <= i < |points| ==> |points[i]| == |q|
    ensures ClosestAt(points, q, closestIndex)
  {
    var closestSoFar := points[0];
    var smallestDist := SquaredDistance(closestSoFar, q);
    closestIndex := 0;
    for i := 1 to |points|
      invariant closestIndex < i
      invariant closestSoFar == points[closestIndex]
      invariant smallestDist == SquaredDistance(closestSoFar, q)
      invariant forall k :: 0 <= k < i ==> smallestDist <= SquaredDistance(points[k], q)
      invariant forall k :: 0 <= k < closestIndex ==> smallestDist < SquaredDistance(points[k], q)
    {
      var temp := SquaredDistance(points[i], q);
      if temp < smallestDist {
        smallestDist := temp;
        closestSoFar := points[i];
        closestIndex := i;
      }
    }
  }

  /** `bruteForceClosest`: the same scan over the set in its iteration order;
      the result is the nearest point, the first in that order among equally
      close ones. */
  method BruteForceClosest(points: Points, q: Point) returns (closestSoFar: Point)
    requires points != {} && HasDim(points, |q|)
    ensures IsNearest(closestSoFar, points, q)
  {
    var elems := Elements(points);
    assert forall k :: 0 <= k < |elems| ==> |elems[k]| == |q| by {
      assert forall k :: 0 <= k < |elems| ==> elems[k] in points;
    }
    ghost var closestIndex;
    closestSoFar, closestIndex := ScanClosest(elems, q);
    EarliestClosestIsNearest(points, q, closestIndex);
  }

  /** The loop of `bruteForceClosest` over the points in the set's order. */
  method ScanClosest(elems: seq<Point>, q: Point) returns (closestSoFar: Point, ghost closestIndex: nat)
    requires |elems| > 0
    requires forall k :: 0 <= k < |elems| ==> |elems[k]| == |q|
    ensures ClosestAt(elems, q, closestIndex) && closestSoFar == elems[closestIndex]
  {
    closestSoFar := elems[0];
    var smallestDist := SquaredDistance(closestSoFar, q);
    closestIndex := 0;
    var i := 1;
    while i < |elems|
      invariant 1 <= i <= |elems|
      invariant closestIndex < i && closestSoFar == elems[closestIndex]
      invariant smallestDist == SquaredDistance(closestSoFar, q)
      invariant forall k :: 0 <= k < i ==> smallestDist <= SquaredDistance(elems[k], q)
      invariant forall k :: 0 <= k < closestIndex ==> smallestDist < SquaredDistance(elems[k], q)
    {
      var temp := SquaredDistance(elems[i], q);
      if temp < smallestDist {
        smallestDist := temp;
        closestSoFar := elems[i];
        closestIndex := i;
      }
      i := i + 1;
    }
  }

  /** The position of a point in a sequence that holds it: its first
      occurrence. */
  function IndexIn(s: seq<Point>, p: Point): (k: nat)
    requires p in s
    ensures k < |s| && s[k] == p
    ensures forall j :: 0 <= j < k ==> s[j] != p
  {
    if s[0] == p then 0 else 1 + IndexIn(s[1..], p)
  }

  /** In the iteration order of a set, the earliest of the closest points is
      the nearest point. */
  lemma EarliestClosestIsNearest(P: Points, q: Point, b: nat)
    requires HasDim(P, |q|)
    requires ClosestAt(Elements(P), q, b)
    ensures IsNearest(Elements(P)[b], P, q)
  {
    var e := Elements(P);
    assert StrictlySorted(e) by {
      ElementsSorted(P);
    }
    forall p | p in P
      ensures NoFarther(e[b], p, q)
    {
      var k :| 0 <= k < |e| && e[k] == p;
      if b < k {
        assert LexLess(e[b], e[k]);
      }
    }
  }

  /** Brute force over the iteration order of a set picks the index of the
      nearest point. */
  lemma BruteIndexIsNearestIndex(P: Points, q: Point, b: nat, r: Point)
    requires HasDim(P, |q|)
    requires IsNearest(r, P, q)
    requires ClosestAt(Elements(P), q, b)
    ensures b == IndexIn(Elements(P), r)
  {
    EarliestClosestIsNearest(P, q, b);
    NearestIsUnique(Elements(P)[b], r, P, q);
  }

  /** The harness loop comparing indices: for each query, the brute-force
      index over the tree's point set against the index of the tree's
      answer. No mismatch is ever counted. */
  method CountIndexMismatches(tree: KDTree, queries: seq<Point>) returns (numMismatches: int)
    requires tree.Valid() && tree.Points() != {}
    requires forall i :: 0 <= i < |queries| ==> HasDim(tree.Points(), |queries[i]|)
    ensures numMismatches == 0
  {
    var points := tree.Points();
    var treePoints := Elements(points);
    assert forall k :: 0 <= k < |treePoints| ==> treePoints[k] in points;
    numMismatches := 0;
    for i := 0 to |queries|
      invariant numMismatches == 0
    {
      var q := queries[i];
      assert forall k :: 0 <= k < |treePoints| ==> |treePoints[k]| == |q|;
      var bruteIndex := BruteForceClosestIndex(treePoints, q);
      var treePoint := tree.NearestPoint(q);
      var treeIndex := IndexIn(treePoints, treePoint);
      assert bruteIndex == treeIndex by {
        BruteIndexIsNearestIndex(points, q, bruteIndex, treePoint);
      }
      if bruteIndex != treeIndex {
        numMismatches := numMismatches + 1;
      }
    }
  }

  /** The harness loop comparing points: for each query, the brute-force
      point against the tree's answer. No mismatch is ever counted. */
  method CountPointMismatches(tree: KDTree, queries: seq<Point>) returns (numMismatches: int)
    requires tree.Valid() && tree.Points() != {}
    requires forall i :: 0 <= i < |queries| ==> HasDim(tree.Points(), |queries[i]|)
    ensures numMismatches == 0
  {
    numMismatches := 0;
    for i := 0 to |queries|
      invariant numMismatches == 0
    {
      var brutePoint := BruteForceClosest(tree.Points(), queries[i]);
      var treePoint := tree.NearestPoint(queries[i]);
      NearestIsUnique(brutePoint, treePoint, tree.Points(), queries[i]);
      if brutePoint != treePoint {
        numMismatches := numMismatches + 1;
      }
    }
  }
}
