/** The fixtures of tests/kdtree_utils.t.cpp, as lemmas about the model. */
module UtilsFixtures {
  import opened Types
  import opened Constants
  import opened Utils

  /** The points of the median test, already in iteration order. */
  function MedianPoints(): seq<Point> {
    [[0, 1, 12], [0, 1, 17], [0, 1, 19], [0, 1, 22], [0, 1, 30]]
  }

  function MedianSet(): (P: Points)
    ensures Uniform(P) && HasDim(P, 3)
  {
    var P := {[0, 1, 12], [0, 1, 17], [0, 1, 19], [0, 1, 22], [0, 1, 30]};
    assert forall p :: p in P ==> |p| == 3;
    P
  }

  function SpreadSet(): (P: Points)
    ensures Uniform(P) && HasDim(P, 3)
  {
    var P := {[-1, 0, -500], [0, 1, 0], [0, 2, 13], [0, 3, 42], [1, 4, -5]};
    assert forall p :: p in P ==> |p| == 3;
    P
  }

  lemma MedianSetCoordinates()
    ensures forall p :: p in MedianSet() ==> |p| == 3 && p[0] == 0 && p[1] == 1
    ensures [0, 1, 12] in MedianSet()
  {
  }

  lemma MedianSetShape()
    ensures HasDim(MedianSet(), 3) && Uniform(MedianSet()) && Dim(MedianSet()) == 3
  {
    MedianSetCoordinates();
    assert HasDim(MedianSet(), 3);
  }

  lemma SpreadSetShape()
    ensures HasDim(SpreadSet(), 3) && Uniform(SpreadSet()) && Dim(SpreadSet()) == 3
  {
    assert [0, 1, 0] in SpreadSet();
  }

  lemma MedianSetOrder()
    ensures Elements(MedianSet()) == MedianPoints()
  {
    var s := MedianPoints();
    forall i, j | 0 <= i < j < |s|
      ensures LexLess(s[i], s[j])
    {
      assert s[i][..2] == [0, 1] == s[j][..2];
      LexLessAt(s[i], s[j], 2);
    }
    SortedEnumerationIsElements(s, MedianSet());
  }

  lemma MedianSetThirdAxis()
    ensures AxisInRange(MedianSet(), 2)
    ensures var vs := AxisValues(MedianSet(), 2);
      |vs| == 5 && vs[0] == 12 && vs[1] == 17 && vs[2] == 19 && vs[3] == 22 && vs[4] == 30
  {
    MedianSetShape();
    MedianSetOrder();
    var e := Elements(MedianSet());
    assert e[0][2] == 12 && e[1][2] == 17 && e[2][2] == 19 && e[3][2] == 22 && e[4][2] == 30;
  }

  /** The median test on its constant axes: the constant. */
  lemma MedianFixtureConstantAxes()
    ensures MedianValueInAxis(MedianSet(), 0) == 0
    ensures MedianValueInAxis(MedianSet(), 1) == 1
  {
    MedianSetCoordinates();
    MedianSetShape();
    MedianOfConstantAxis(MedianSet(), 0, 0);
    MedianOfConstantAxis(MedianSet(), 1, 1);
  }

  /** The median test on its third axis: the middle value 19. */
  lemma MedianFixtureThirdAxis()
    ensures MedianValueInAxis(MedianSet(), 2) == 19
  {
    MedianSetShape();
    MedianSetThirdAxis();
    MedianOfListedValues(MedianSet(), 2);
  }

  lemma MedianOfListedValues(P: Points, axis: nat)
    requires Uniform(P) && axis < Dim(P)
    requires var vs := AxisValues(P, axis);
      |vs| == 5 && vs[0] == 12 && vs[1] == 17 && vs[2] == 19 && vs[3] == 22 && vs[4] == 30
    ensures MedianValueInAxis(P, axis) == 19
  {
    var vs := AxisValues(P, axis);
    SortedFromNeighbours(vs);
    MedianOfSortedAxis(P, axis, vs);
  }

  /** The median test on an axis the points lack: the sentinel. */
  lemma MedianFixtureMissingAxis()
    ensures MedianValueInAxis(MedianSet(), 42) == EmptySetMedian
  {
    MedianSetShape();
  }

  lemma SpreadSetExtremes()
    ensures AxisInRange(SpreadSet(), 2)
    ensures IsAxisMin(SpreadSet(), 0, -1) && IsAxisMax(SpreadSet(), 0, 1)
    ensures IsAxisMin(SpreadSet(), 1, 0) && IsAxisMax(SpreadSet(), 1, 4)
    ensures IsAxisMin(SpreadSet(), 2, -500) && IsAxisMax(SpreadSet(), 2, 42)
  {
    var P := SpreadSet();
    assert [-1, 0, -500] in P && [0, 1, 0] in P && [0, 3, 42] in P && [1, 4, -5] in P;
  }

  /** The min/max test: one (min, max) pair per axis. */
  lemma MinMaxFixture()
    ensures var mm := MinMaxPerAxis(SpreadSet());
      |mm| == 3 && mm[0] == (-1, 1) && mm[1] == (0, 4) && mm[2] == (-500, 42)
  {
    SpreadSetShape();
    SpreadSetExtremes();
    MinMaxIs(SpreadSet(), 0, -1, 1);
    MinMaxIs(SpreadSet(), 1, 0, 4);
    MinMaxIs(SpreadSet(), 2, -500, 42);
  }

  /** The widest-axis test: the third axis, whose spread is 542. */
  lemma AxisOfHighestVarianceFixture()
    ensures AxisOfHighestVariance(SpreadSet()) == 2
  {
    SpreadSetShape();
    MinMaxFixture();
    WidestOfThree(SpreadSet());
  }

  lemma WidestOfThree(P: Points)
    requires Uniform(P) && Dim(P) == 3
    requires var mm := MinMaxPerAxis(P);
      |mm| == 3 && mm[0] == (-1, 1) && mm[1] == (0, 4) && mm[2] == (-500, 42)
    ensures AxisOfHighestVariance(P) == 2
  {
    var mm := MinMaxPerAxis(P);
    forall a | 0 <= a < |mm| && a != 2
      ensures Width(mm[a]) < Width(mm[2])
    {
      assert a == 0 || a == 1;
    }
    WidestAxisIs(P, 2);
  }
}
