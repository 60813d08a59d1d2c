/** The KD-tree (source/kdtree.h): a point set and the recursive bisection of
    space built from it.

    `build` is a recursive median split: one point makes a leaf; otherwise
    `chooseBestSplit` picks a hyperplane (the axis of widest spread and the
    median on it), the points are partitioned into those strictly below the
    hyperplane (left) and the rest (right), and both halves are built in
    turn. As written, the recursion never ends when one half comes out empty:
    on an empty set, and whenever the median equals the smallest coordinate
    on the chosen axis. This model builds the empty tree for an empty set and,
    on a degenerate median, splits the same axis at its largest coordinate
    instead, so that both halves are non-empty and the recursion terminates. */
module KdTree {
  import opened Types
  import opened Constants
  import opened Hyperplanes
  import opened Nodes
  import opened Utils

  datatype Option<T> = None | Some(value: T)

  // ---------------------------------------------------------------------
  // Partition
  // ---------------------------------------------------------------------

  /** The points strictly below the hyperplane: the left half-space. */
  function LeftOf(P: Points, h: Hyperplane): (L: Points)
    requires AxisInRange(P, h.index)
    ensures L <= P
    ensures forall p :: p in P ==> (p in L <==> p[h.index] < h.value)
  {
    set p | p in P && p[h.index] < h.value
  }

  /** The points at or above the hyperplane: the right half-space. */
  function RightOf(P: Points, h: Hyperplane): (R: Points)
    requires AxisInRange(P, h.index)
    ensures R <= P
    ensures forall p :: p in P ==> (p in R <==> h.value <= p[h.index])
  {
    set p | p in P && p[h.index] >= h.value
  }

  /** The two halves split the set exactly: together they are the set, they
      share no point, and their sizes add up. */
  lemma PartitionIsExact(P: Points, h: Hyperplane)
    requires AxisInRange(P, h.index)
    ensures LeftOf(P, h) + RightOf(P, h) == P
    ensures LeftOf(P, h) * RightOf(P, h) == {}
    ensures |LeftOf(P, h)| + |RightOf(P, h)| == |P|
  {
    var L, R := LeftOf(P, h), RightOf(P, h);
    assert L + R == P;
    assert L * R == {};
    assert |L + R| == |L| + |R| - |L * R|;
  }

  /** When neither half is empty, each is smaller than the set. */
  lemma NonEmptyHalvesAreSmaller(P: Points, h: Hyperplane)
    requires AxisInRange(P, h.index)
    requires LeftOf(P, h) != {} && RightOf(P, h) != {}
    ensures |LeftOf(P, h)| < |P| && |RightOf(P, h)| < |P|
  {
    PartitionIsExact(P, h);
    assert |LeftOf(P, h)| > 0 && |RightOf(P, h)| > 0;
  }

  // ---------------------------------------------------------------------
  // Choice of the hyperplane
  // ---------------------------------------------------------------------

  /** `chooseBestSplit`: the axis of widest spread and the median on it. */
  function ChooseBestSplit(P: Points): (h: Hyperplane)
    requires Uniform(P)
    ensures Dim(P) == 0 ==> h == Hyperplane(EmptySetVariance, EmptySetMedian)
    ensures Dim(P) > 0 ==> IsWidestAxis(P, h.index) && IsMedianValue(P, h.index, h.value)
  {
    var axis := AxisOfHighestVariance(P);
    assert Dim(P) > 0 ==> IsMedianValue(P, axis, MedianValueInAxis(P, axis)) by {
      if Dim(P) > 0 {
        MedianValueIsMedian(P, axis);
      }
    }
    Hyperplane(axis, MedianValueInAxis(P, axis))
  }

  /** Two or more distinct points of equal length differ on some axis, so the
      widest axis has a positive spread. */
  lemma DistinctPointsSpread(P: Points)
    requires Uniform(P) && |P| >= 2
    ensures Dim(P) > 0
    ensures Spread(P, AxisOfHighestVariance(P)) > 0
  {
    var p, q := TwoPoints(P);
    var i := DifferingAxis(p, q);
    assert |p| == Dim(P);
    SpreadCoversPoints(P, i, p, q);
  }

  /** Two distinct points of a set with two or more. */
  lemma TwoPoints(P: Points) returns (p: Point, q: Point)
    requires |P| >= 2
    ensures p in P && q in P && p != q
  {
    p :| p in P;
    assert |P - {p}| == |P| - 1;
    q :| q in P - {p};
  }

  /** An axis on which two distinct points of equal length differ. */
  lemma DifferingAxis(p: Point, q: Point) returns (i: nat)
    requires |p| == |q| && p != q
    ensures i < |p| && p[i] != q[i]
  {
    i :| i < |p| && p[i] != q[i];
  }

  /** Points of `P` that differ on an axis make its spread positive. */
  lemma SpreadCoversPoints(P: Points, i: nat, p: Point, q: Point)
    requires Uniform(P) && i < Dim(P)
    requires p in P && q in P && p[i] != q[i]
    ensures Spread(P, i) > 0
  {
    var mm := MinMaxPerAxis(P);
    assert IsAxisMin(P, i, mm[i].0) && IsAxisMax(P, i, mm[i].1);
    assert mm[i].0 <= p[i] <= mm[i].1 && mm[i].0 <= q[i] <= mm[i].1;
  }

  /** Cutting an axis at `v` leaves the left half empty exactly when no
      coordinate on that axis is below `v`. */
  lemma LeftEmptyIffAtMostMin(P: Points, a: nat, v: int)
    requires Uniform(P) && a < Dim(P)
    ensures LeftOf(P, Hyperplane(a, v)) == {} <==> v <= MinMaxPerAxis(P)[a].0
  {
    var mm := MinMaxPerAxis(P);
    assert IsAxisMin(P, a, mm[a].0);
    if v > mm[a].0 {
      var lo :| lo in P && lo[a] == mm[a].0;
      assert lo in LeftOf(P, Hyperplane(a, v));
    }
  }

  /** Cutting an axis at `v` leaves the right half empty exactly when every
      coordinate on that axis is below `v`. */
  lemma RightEmptyIffAboveMax(P: Points, a: nat, v: int)
    requires Uniform(P) && a < Dim(P)
    ensures RightOf(P, Hyperplane(a, v)) == {} <==> v > MinMaxPerAxis(P)[a].1
  {
    var mm := MinMaxPerAxis(P);
    assert IsAxisMax(P, a, mm[a].1);
    if v <= mm[a].1 {
      var hi :| hi in P && hi[a] == mm[a].1;
      assert hi in RightOf(P, Hyperplane(a, v));
    }
  }

  /** On two or more points the best split has an axis the points have and
      leaves at least the median point on the right; its left half is empty
      exactly when the median is the smallest coordinate on that axis. */
  lemma BestSplitSeparatesUnlessDegenerate(P: Points)
    requires Uniform(P) && |P| >= 2
    ensures ChooseBestSplit(P).index < Dim(P)
    ensures RightOf(P, ChooseBestSplit(P)) != {}
    ensures LeftOf(P, ChooseBestSplit(P)) == {}
        <==> ChooseBestSplit(P).value == MinMaxPerAxis(P)[ChooseBestSplit(P).index].0
  {
    DistinctPointsSpread(P);
    var best := ChooseBestSplit(P);
    var a := best.index;
    var m :| m in P && m[a] == best.value;
    assert m in RightOf(P, best);
    var mm := MinMaxPerAxis(P);
    assert IsAxisMin(P, a, mm[a].0);
    assert mm[a].0 <= best.value;
    LeftEmptyIffAtMostMin(P, a, best.value);
  }

  /** The hyperplane the tree splits on: the best split when it separates the
      points, otherwise the same axis cut at its largest coordinate. Either way
      both halves are non-empty and smaller than the set. */
  function SplitFor(P: Points): (h: Hyperplane)
    requires Uniform(P) && |P| >= 2
    ensures h.index < Dim(P) && h.index == AxisOfHighestVariance(P)
    ensures LeftOf(P, h) != {} && RightOf(P, h) != {}
    ensures |LeftOf(P, h)| < |P| && |RightOf(P, h)| < |P|
    ensures LeftOf(P, ChooseBestSplit(P)) != {} ==> h == ChooseBestSplit(P)
  {
    BestSplitSeparatesUnlessDegenerate(P);
    DistinctPointsSpread(P);
    var best := ChooseBestSplit(P);
    var a := best.index;
    var h := if LeftOf(P, best) != {} then best else Hyperplane(a, MinMaxPerAxis(P)[a].1);
    LeftEmptyIffAtMostMin(P, a, h.value);
    RightEmptyIffAboveMax(P, a, h.value);
    NonEmptyHalvesAreSmaller(P, h);
    h
  }

  // ---------------------------------------------------------------------
  // The bisection
  // ---------------------------------------------------------------------

  /** The tree `build` makes of a non-empty point set. */
  function Bisection(P: Points): (n: Node)
    requires P != {} && Uniform(P)
    ensures n.Leaf? <==> |P| == 1
    ensures LeafSet(n) == P
    decreases |P|
  {
    if |P| == 1 then
      var e := Elements(P);
      assert P == {e[0]};
      Leaf(e[0])
    else
      var h := SplitFor(P);
      PartitionIsExact(P, h);
      Split(h, Bisection(LeftOf(P, h)), Bisection(RightOf(P, h)))
  }

  /** A one-point set becomes a leaf holding that point. */
  lemma BisectionOfSingleton(p: Point)
    ensures Bisection({p}) == Leaf(p)
  {
    assert Elements({p})[0] in {p};
  }

  lemma MultisetOfDisjointUnion(L: Points, R: Points)
    requires L * R == {}
    ensures multiset(L + R) == multiset(L) + multiset(R)
  {
    forall x
      ensures multiset(L + R)[x] == (multiset(L) + multiset(R))[x]
    {
      if x in L { assert x !in L * R; }
    }
  }

  /** The bisection of a set of `d`-dimensional points satisfies the split
      invariant at every node and stores every point at exactly one leaf. */
  lemma BisectionIsKdTree(P: Points, d: nat)
    requires P != {} && HasDim(P, d)
    ensures IsKdTree(Bisection(P), d)
    ensures LeafSet(Bisection(P)) == P
    ensures multiset(Leaves(Bisection(P))) == multiset(P)
  {
    SplitInvariantOfBisection(P, d);
    LeavesOfBisection(P);
  }

  /** Every node of the bisection keeps the points below its hyperplane on the
      left and the others on the right. */
  lemma {:induction false} SplitInvariantOfBisection(P: Points, d: nat)
    requires P != {} && HasDim(P, d)
    ensures IsKdTree(Bisection(P), d)
    decreases |P|
  {
    if |P| == 1 {
      var e := Elements(P);
      assert P == {e[0]};
    } else {
      var h := SplitFor(P);
      assert h.index < d by {
        var p :| p in P;
      }
      SplitInvariantOfBisection(LeftOf(P, h), d);
      SplitInvariantOfBisection(RightOf(P, h), d);
    }
  }

  /** The leaves of the bisection list each point of the set exactly once. */
  lemma {:induction false} LeavesOfBisection(P: Points)
    requires P != {} && Uniform(P)
    ensures multiset(Leaves(Bisection(P))) == multiset(P)
    decreases |P|
  {
    if |P| == 1 {
      var e := Elements(P);
      assert P == {e[0]};
    } else {
      var h := SplitFor(P);
      var L, R := LeftOf(P, h), RightOf(P, h);
      PartitionIsExact(P, h);
      LeavesOfBisection(L);
      LeavesOfBisection(R);
      MultisetOfDisjointUnion(L, R);
    }
  }

  // ---------------------------------------------------------------------
  // Nearest-point search
  // ---------------------------------------------------------------------

  /** The squared distance from `q` to the hyperplane: a lower bound on the
      squared distance from `q` to any point on the other side. */
  function PlaneDistance(q: Point, h: Hyperplane): nat
    requires h.index < |q|
  {
    Square(q[h.index] - h.value)
  }

  lemma SquareMonotone(x: int, y: int)
    requires 0 <= x <= y
    ensures Square(x) <= Square(y)
  {
    assert x * x <= x * y <= y * y;
  }

  /** A point on the other side of the hyperplane from `q` is at least as far
      from `q` as the hyperplane is. */
  lemma FarSideBound(p: Point, q: Point, h: Hyperplane)
    requires |p| == |q| && h.index < |q|
    requires (q[h.index] < h.value) != (p[h.index] < h.value)
    ensures PlaneDistance(q, h) <= SquaredDistance(p, q)
  {
    var a := h.index;
    CoordinateBound(p, q, a);
    if q[a] < h.value {
      SquareMonotone(h.value - q[a], p[a] - q[a]);
      SquareOfNegation(h.value - q[a]);
    } else {
      SquareMonotone(q[a] - h.value, q[a] - p[a]);
      SquareOfNegation(q[a] - p[a]);
    }
  }

  lemma SquareOfNegation(x: int)
    ensures Square(-x) == Square(x)
  {
  }

  function OptionSet(best: Option<Point>): set<Point> {
    if best.Some? then {best.value} else {}
  }

  /** Branch and bound: descend first on the side of the hyperplane `q` lies
      on, then visit the other side only if the hyperplane is no farther than
      the best point found so far. */
  function Search(n: Node, q: Point, best: Option<Point>): (r: Point)
    requires IsKdTree(n, |q|)
    requires best.Some? ==> |best.value| == |q|
    ensures |r| == |q|
    ensures r in LeafSet(n) + OptionSet(best)
  {
    match n
    case Leaf(p) =>
      if best.None? || !NoFarther(best.value, p, q) then p else best.value
    case Split(h, l, r) =>
      var near := if q[h.index] < h.value then l else r;
      var far := if q[h.index] < h.value then r else l;
      var g := Search(near, q, best);
      if PlaneDistance(q, h) <= SquaredDistance(g, q) then Search(far, q, Some(g)) else g
  }

  lemma {:induction false} LeavesHaveDim(n: Node, d: nat)
    requires IsKdTree(n, d)
    ensures HasDim(LeafSet(n), d)
  {
    match n
    case Leaf(_) =>
    case Split(_, l, r) =>
      LeavesHaveDim(l, d);
      LeavesHaveDim(r, d);
  }

  /** The search returns the nearest of the leaves and the point it started
      from. */
  lemma {:induction false} SearchFindsNearest(n: Node, q: Point, best: Option<Point>)
    requires IsKdTree(n, |q|)
    requires best.Some? ==> |best.value| == |q|
    ensures HasDim(LeafSet(n) + OptionSet(best), |q|)
    ensures IsNearest(Search(n, q, best), LeafSet(n) + OptionSet(best), q)
  {
    LeavesHaveDim(n, |q|);
    var all := LeafSet(n) + OptionSet(best);
    match n
    case Leaf(p) =>
      LeafSearchFindsNearest(p, q, best);
    case Split(h, l, r) =>
      var a := h.index;
      var near := if q[a] < h.value then l else r;
      var far := if q[a] < h.value then r else l;
      SearchFindsNearest(near, q, best);
      var g := Search(near, q, best);
      var nearAll := LeafSet(near) + OptionSet(best);
      assert all == nearAll + LeafSet(far);
      if PlaneDistance(q, h) <= SquaredDistance(g, q) {
        SearchFindsNearest(far, q, Some(g));
        var res := Search(far, q, Some(g));
        forall p | p in all
          ensures NoFarther(res, p, q)
        {
          if p in nearAll && p !in LeafSet(far) {
            NoFartherTransitive(res, g, p, q);
          }
        }
      } else {
        assert Search(n, q, best) == g;
        LeavesHaveDim(far, |q|);
        forall p | p in LeafSet(far)
          ensures NoFarther(g, p, q)
        {
          FarSideBound(p, q, h);
        }
        assert IsNearest(g, nearAll, q);
      }
  }

  /** At a leaf the search keeps the nearer of the leaf's point and the best
      point so far. */
  lemma LeafSearchFindsNearest(p: Point, q: Point, best: Option<Point>)
    requires |p| == |q|
    requires best.Some? ==> |best.value| == |q|
    ensures IsNearest(Search(Leaf(p), q, best), {p} + OptionSet(best), q)
  {
    if best.Some? && NoFarther(best.value, p, q) {
      assert NoFarther(best.value, best.value, q);
    } else if best.Some? {
      NoFartherTotal(best.value, p, q);
    }
  }

  // ---------------------------------------------------------------------
  // The tree object
  // ---------------------------------------------------------------------

  /** The root a tree over `P` holds: none for an empty set. */
  function RootOf(P: Points): Option<Node>
    requires Uniform(P)
  {
    if P == {} then None else Some(Bisection(P))
  }

  /** `KDTree<int>`. */
  class KDTree {
    var pointSet: Points
    var root: Option<Node>

    /** The root is the bisection of the stored points. */
    ghost predicate Valid()
      reads this
    {
      Uniform(pointSet) && root == RootOf(pointSet)
    }

    /** The default constructor: no points, no root. */
    constructor ()
      ensures Valid() && Points() == {} && root == None
    {
      pointSet := {};
      root := None;
    }

    /** The constructor from a point set: store it, then build. */
    constructor FromPoints(points: Points)
      requires Uniform(points)
      ensures Valid() && Points() == points
    {
      var r := BuildRoot(points);
      pointSet := points;
      root := r;
    }

    /** The copy constructor: copy the points, then build afresh. */
    constructor CopyOf(other: KDTree)
      requires Uniform(other.pointSet)
      ensures Valid() && Points() == other.Points()
      ensures Equals(other)
    {
      var r := BuildRoot(other.Points());
      pointSet := other.Points();
      root := r;
    }

    /** `operator=`: copy the points of `other`, then build afresh. */
    method Assign(other: KDTree)
      requires Uniform(other.pointSet)
      modifies this
      ensures Valid() && Points() == old(other.Points())
      ensures Equals(other)
    {
      Copy(other);
      root := BuildRoot(pointSet);
    }

    /** `copy`: take the points of `other`; the root is left as it was. */
    method Copy(other: KDTree)
      modifies this
      ensures pointSet == old(other.pointSet) && root == old(root)
    {
      pointSet := other.Points();
    }

    /** `points`: the points the tree represents, which are exactly those
        stored at the leaves of its root. */
    function Points(): (ps: Points)
      reads this
      ensures Valid() ==> (ps == {} <==> root == None)
      ensures Valid() && root.Some? ==> LeafSet(root.value) == ps
    {
      pointSet
    }

    /** `equals` and `operator==`: the stored point sets agree; the shape of
        the trees plays no part. */
    predicate Equals(other: KDTree)
      reads this, other
      ensures Equals(other) <==> Points() == other.Points()
    {
      other.Points() == pointSet
    }

    /** `operator!=`. */
    predicate NotEquals(other: KDTree)
      reads this, other
      ensures NotEquals(other) <==> !Equals(other)
    {
      !Equals(other)
    }

    /** The constructors' call to `build`, which this model skips for an empty
        set. */
    static method BuildRoot(P: Points) returns (root: Option<Node>)
      requires Uniform(P)
      ensures root == RootOf(P)
    {
      if P == {} {
        root := None;
      } else {
        var n := Build(P);
        root := Some(n);
      }
    }

    /** `build`: one point makes a leaf; otherwise split, partition and
        build both halves. */
    static method Build(P: Points) returns (n: Node)
      requires P != {} && Uniform(P)
      ensures n == Bisection(P)
      decreases |P|
    {
      var elems := Elements(P);
      if |elems| == 1 {
        return Leaf(elems[0]);
      }
      var h := SplitFor(P);
      var leftPoints, rightPoints := Partition(P, h);
      var leftSubtree := Build(leftPoints);
      var rightSubtree := Build(rightPoints);
      n := Split(h, leftSubtree, rightSubtree);
    }

    /** The partition loop of `build`: each point, in the set's order, goes
        to the left half when its coordinate is below the hyperplane's value
        and to the right half otherwise. */
    static method Partition(P: Points, h: Hyperplane) returns (leftPoints: Points, rightPoints: Points)
      requires AxisInRange(P, h.index)
      ensures leftPoints == LeftOf(P, h) && rightPoints == RightOf(P, h)
    {
      var elems := Elements(P);
      leftPoints, rightPoints := {}, {};
      ghost var seen: Points := {};
      var i := 0;
      while i < |elems|
        invariant 0 <= i <= |elems|
        invariant seen <= P
        invariant forall p :: p in seen <==> p in elems[..i]
        invariant forall p :: p in leftPoints <==> p in seen && p[h.index] < h.value
        invariant forall p :: p in rightPoints <==> p in seen && p[h.index] >= h.value
      {
        var p := elems[i];
        assert elems[..i + 1] == elems[..i] + [p];
        if p[h.index] < h.value {
          leftPoints := leftPoints + {p};
        } else {
          rightPoints := rightPoints + {p};
        }
        seen := seen + {p};
        i := i + 1;
      }
      assert elems[..i] == elems;
      assert seen == P;
    }

    /** `nearestPoint` as its documentation promises: the stored point closest
        to `q` (the first in the set's order among equally close ones), or `q`
        itself when the tree is empty. */
    method NearestPoint(q: Point) returns (r: Point)
      requires Valid()
      requires HasDim(pointSet, |q|)
      ensures pointSet == {} ==> r == q
      ensures pointSet != {} ==> IsNearest(r, pointSet, q)
    {
      match root
      case None =>
        r := q;
      case Some(n) =>
        BisectionIsKdTree(pointSet, |q|);
        SearchFindsNearest(n, q, None);
        r := Search(n, q, None);
    }

    /** `nearestPoint` as written: a stub that hands back the query. */
    method NearestPointAsWritten(q: Point) returns (r: Point)
      ensures r == q
    {
      r := q;
    }
  }

  /** Trees that are equal hold the same root: with the one split heuristic
      modelled, the bisection depends on the point set alone. */
  lemma EqualTreesHaveEqualRoots(a: KDTree, b: KDTree)
    requires a.Valid() && b.Valid() && a.Equals(b)
    ensures a.root == b.root
  {
  }

  /** Tree equality is an equivalence. */
  lemma TreeEqualsIsEquivalence(a: KDTree, b: KDTree, c: KDTree)
    ensures a.Equals(a)
    ensures a.Equals(b) ==> b.Equals(a)
    ensures a.Equals(b) && b.Equals(c) ==> a.Equals(c)
  {
  }
}
