/** The set {[0, 0], [0, 1], [5, 0]}, whose median on its widest axis is also
    that axis's smallest coordinate: its iteration order, extremes, widest
    axis and median. */
module DegenerateExample {
  import opened Types
  import opened Utils

  function DegenerateSet(): (D: Points)
    ensures Uniform(D) && HasDim(D, 2) && |D| == 3
  {
    var D := {[0, 0], [0, 1], [5, 0]};
    assert forall p :: p in D ==> |p| == 2;
    D
  }

  lemma DegenerateSetCoordinates()
    ensures forall p :: p in DegenerateSet() ==> |p| == 2
    ensures [0, 0] in DegenerateSet() && [0, 1] in DegenerateSet() && [5, 0] in DegenerateSet()
  {
  }

  lemma DegenerateSetShape()
    ensures HasDim(DegenerateSet(), 2) && Uniform(DegenerateSet()) && Dim(DegenerateSet()) == 2
    ensures |DegenerateSet()| == 3
  {
    DegenerateSetCoordinates();
    assert HasDim(DegenerateSet(), 2);
  }

  lemma DegenerateSetOrder()
    ensures Elements(DegenerateSet()) == [[0, 0], [0, 1], [5, 0]]
  {
    var s: seq<Point> := [[0, 0], [0, 1], [5, 0]];
    assert s[0][..1] == s[1][..1];
    LexLessAt(s[0], s[1], 1);
    LexLessAt(s[0], s[2], 0);
    LexLessAt(s[1], s[2], 0);
    SortedEnumerationIsElements(s, DegenerateSet());
  }

  lemma DegenerateSetExtremes()
    ensures AxisInRange(DegenerateSet(), 1)
    ensures IsAxisMin(DegenerateSet(), 0, 0) && IsAxisMax(DegenerateSet(), 0, 5)
    ensures IsAxisMin(DegenerateSet(), 1, 0) && IsAxisMax(DegenerateSet(), 1, 1)
  {
    DegenerateSetCoordinates();
  }

  lemma DegenerateSetWidestAxis()
    ensures AxisOfHighestVariance(DegenerateSet()) == 0
    ensures |MinMaxPerAxis(DegenerateSet())| == 2 && MinMaxPerAxis(DegenerateSet())[0] == (0, 5)
  {
    var P := DegenerateSet();
    DegenerateSetShape();
    DegenerateSetExtremes();
    MinMaxIs(P, 0, 0, 5);
    MinMaxIs(P, 1, 0, 1);
    WidestOfTwo(P);
  }

  lemma WidestOfTwo(P: Points)
    requires Uniform(P) && Dim(P) == 2
    requires var mm := MinMaxPerAxis(P); |mm| == 2 && mm[0] == (0, 5) && mm[1] == (0, 1)
    ensures AxisOfHighestVariance(P) == 0
  {
    var mm := MinMaxPerAxis(P);
    forall a | 0 <= a < |mm| && a != 0
      ensures Width(mm[a]) < Width(mm[0])
    {
      assert a == 1;
    }
    WidestAxisIs(P, 0);
  }

  lemma DegenerateSetMedian()
    ensures Uniform(DegenerateSet())
    ensures MedianValueInAxis(DegenerateSet(), 0) == 0
  {
    var D := DegenerateSet();
    DegenerateSetShape();
    DegenerateSetFirstAxis();
    SortedFromNeighbours(AxisValues(D, 0));
    MedianOfSortedAxis(D, 0, AxisValues(D, 0));
  }

  lemma DegenerateSetFirstAxis()
    ensures AxisInRange(DegenerateSet(), 0)
    ensures var vs := AxisValues(DegenerateSet(), 0);
      |vs| == 3 && vs[0] == 0 && vs[1] == 0 && vs[2] == 5
  {
    DegenerateSetShape();
    DegenerateSetOrder();
  }
}

/** Where `KDTree::build` and `KDTree::nearestPoint` (source/kdtree.h) fall
    short of what they promise, shown on concrete inputs, next to the
    corrected behaviour the rest of the model uses. */
module BuildFindings {
  import opened DegenerateExample
  import opened Types
  import opened Constants
  import opened Hyperplanes
  import opened Utils
  import opened KdTree

  /** The two halves `build` recurses on as written: the partition by the
      best split, with no check that either half is smaller than the input. */
  function AsWrittenHalves(P: Points): (halves: (Points, Points))
    requires Uniform(P) && |P| != 1
    ensures halves.0 + halves.1 == P && halves.0 * halves.1 == {}
  {
    var best := ChooseBestSplit(P);
    assert AxisInRange(P, best.index) by {
      if P != {} {
        BestSplitSeparatesUnlessDegenerate(P);
      }
    }
    PartitionIsExact(P, best);
    (LeftOf(P, best), RightOf(P, best))
  }

  /** As written, whenever the best split leaves the left half empty, the
      halves are the empty set and the whole input. `build` recurses on the
      left half first (source/kdtree.h:245), and that call on the empty set
      never returns; the call on the whole input (line 246) would recurse
      without progress if it were reached. */
  lemma AsWrittenDegenerateSplitEmptiesLeft(P: Points)
    requires Uniform(P) && |P| >= 2
    requires LeftOf(P, ChooseBestSplit(P)) == {}
    ensures AsWrittenHalves(P) == ({}, P)
  {
    var best := ChooseBestSplit(P);
    assert AxisInRange(P, best.index) by {
      BestSplitSeparatesUnlessDegenerate(P);
    }
    EmptyLeftLeavesAllRight(P, best);
  }

  lemma EmptyLeftLeavesAllRight(P: Points, h: Hyperplane)
    requires AxisInRange(P, h.index) && LeftOf(P, h) == {}
    ensures RightOf(P, h) == P
  {
    PartitionIsExact(P, h);
  }

  /** As written, `build` on the empty set splits it into two empty halves
      and calls itself on the empty set again. */
  lemma AsWrittenEmptyInputRecursesOnItself()
    ensures ChooseBestSplit({}) == Hyperplane(EmptySetVariance, EmptySetMedian)
    ensures AsWrittenHalves({}) == ({}, {})
  {
    var halves := AsWrittenHalves({});
    assert halves.0 <= halves.0 + halves.1;
  }

  // ---------------------------------------------------------------------
  // The degenerate median: {[0, 0], [0, 1], [5, 0]}
  // ---------------------------------------------------------------------

  /** On {[0, 0], [0, 1], [5, 0]} the best split cuts the first axis (spread 5
      against 1) at its median 0, which is also its smallest coordinate. */
  lemma DegenerateBestSplit()
    ensures ChooseBestSplit(DegenerateSet()) == Hyperplane(0, 0)
  {
    DegenerateSetMedian();
    DegenerateSetWidestAxis();
  }

  /** As written, `build` on {[0, 0], [0, 1], [5, 0]} puts no point on the left,
      so its first recursive call is on the empty set, and its second would be
      on the whole set again. */
  lemma AsWrittenDegenerateMedianEmptiesLeft()
    ensures AsWrittenHalves(DegenerateSet()) == ({}, DegenerateSet())
  {
    var D := DegenerateSet();
    DegenerateSetShape();
    assert ChooseBestSplit(D) == Hyperplane(0, 0) by {
      DegenerateBestSplit();
    }
    assert LeftOf(D, Hyperplane(0, 0)) == {} by {
      DegenerateSetWidestAxis();
      LeftEmptyIffAtMostMin(D, 0, 0);
    }
    AsWrittenDegenerateSplitEmptiesLeft(D);
  }

  lemma DegenerateFallbackHalves()
    ensures AxisInRange(DegenerateSet(), 0)
    ensures LeftOf(DegenerateSet(), Hyperplane(0, 5)) == {[0, 0], [0, 1]}
    ensures RightOf(DegenerateSet(), Hyperplane(0, 5)) == {[5, 0]}
  {
    DegenerateSetCoordinates();
  }

  /** The corrected split of the same set cuts the first axis at its largest
      coordinate 5 instead: two points go left and one goes right. */
  lemma CorrectedSplitOfDegenerateSet()
    ensures SplitFor(DegenerateSet()) == Hyperplane(0, 5)
    ensures LeftOf(DegenerateSet(), Hyperplane(0, 5)) == {[0, 0], [0, 1]}
    ensures RightOf(DegenerateSet(), Hyperplane(0, 5)) == {[5, 0]}
  {
    var D := DegenerateSet();
    DegenerateSetShape();
    assert ChooseBestSplit(D) == Hyperplane(0, 0) by {
      DegenerateBestSplit();
    }
    assert LeftOf(D, Hyperplane(0, 0)) == {} by {
      DegenerateSetWidestAxis();
      LeftEmptyIffAtMostMin(D, 0, 0);
    }
    assert MinMaxPerAxis(D)[0] == (0, 5) by {
      DegenerateSetWidestAxis();
    }
    DegenerateFallbackHalves();
  }

  // ---------------------------------------------------------------------
  // The nearest-point stub
  // ---------------------------------------------------------------------

  /** As written, `nearestPoint` hands back the query: on a tree holding only
      [0], the query [5] comes back although it is not a stored point, and
      the nearest stored point is [0]. */
  lemma AsWrittenNearestPointMissesStoredPoint()
    ensures !IsNearest([5], {[0]}, [5])
    ensures IsNearest([0], {[0]}, [5])
  {
  }
}
