/** Split-selection and distance utilities (source/kdtree_utils.h).

    The header's own `highestVariance` and `medianInAxis` are stubs; the tree
    calls `axisOfHighestVariance`, `minMaxPerAxis` and `medianValueInAxis`,
    whose behaviour tests/kdtree_utils.t.cpp pins down. `Utils::distance`
    is called by the sanity harness but not shown; it is modelled by the
    squared Euclidean distance, which orders points the same way. */
module Utils {
  import opened Types
  import opened Constants

  // ---------------------------------------------------------------------
  // The header's stubs
  // ---------------------------------------------------------------------

  /** `highestVariance`: the empty-set sentinel, otherwise a placeholder. */
  function HighestVariance(P: Points): (axis: nat)
    ensures P == {} ==> axis == EmptySetVariance
    ensures P != {} ==> axis == 123
  {
    if |P| == 0 then EmptySetVariance else 123
  }

  /** `medianInAxis`: the empty-set sentinel (the variance one, which is also
      0), otherwise a placeholder. */
  function MedianInAxis(P: Points, axis: nat): (m: nat)
    ensures P == {} ==> m == EmptySetMedian
    ensures P != {} ==> m == 456
  {
    if |P| == 0 then EmptySetVariance else 456
  }

  // ---------------------------------------------------------------------
  // Per-axis extremes
  // ---------------------------------------------------------------------

  /** The coordinates of the points of `P` on `axis`, in iteration order. */
  function AxisValues(P: Points, axis: nat): (vs: seq<int>)
    requires AxisInRange(P, axis)
    ensures |vs| == |P|
    ensures forall i :: 0 <= i < |vs| ==> vs[i] == Elements(P)[i][axis]
    ensures forall v :: v in vs <==> exists p :: p in P && p[axis] == v
  {
    var e := Elements(P);
    var vs := seq(|e|, i requires 0 <= i < |e| => e[i][axis]);
    forall v | v in vs
      ensures exists p :: p in P && p[axis] == v
    {
      var i :| 0 <= i < |vs| && vs[i] == v;
      assert e[i] in P;
    }
    forall p | p in P
      ensures p[axis] in vs
    {
      var i :| 0 <= i < |e| && e[i] == p;
      assert vs[i] == p[axis];
    }
    vs
  }

  function MinOf(s: seq<int>): (m: int)
    requires |s| > 0
    ensures m in s && forall x :: x in s ==> m <= x
  {
    if |s| == 1 then s[0]
    else
      var rest := MinOf(s[1..]);
      assert forall x :: x in s ==> x == s[0] || x in s[1..];
      if s[0] <= rest then s[0] else rest
  }

  function MaxOf(s: seq<int>): (m: int)
    requires |s| > 0
    ensures m in s && forall x :: x in s ==> x <= m
  {
    if |s| == 1 then s[0]
    else
      var rest := MaxOf(s[1..]);
      assert forall x :: x in s ==> x == s[0] || x in s[1..];
      if s[0] >= rest then s[0] else rest
  }

  /** `v` is the smallest coordinate on `axis` among the points of `P`. */
  predicate IsAxisMin(P: Points, axis: nat, v: int)
    requires AxisInRange(P, axis)
  {
    (exists p :: p in P && p[axis] == v) && forall p :: p in P ==> v <= p[axis]
  }

  /** `v` is the largest coordinate on `axis` among the points of `P`. */
  predicate IsAxisMax(P: Points, axis: nat, v: int)
    requires AxisInRange(P, axis)
  {
    (exists p :: p in P && p[axis] == v) && forall p :: p in P ==> p[axis] <= v
  }

  /** The smallest and largest coordinate of a non-empty set on one axis. */
  lemma AxisExtremes(P: Points, axis: nat)
    requires P != {} && AxisInRange(P, axis)
    ensures IsAxisMin(P, axis, MinOf(AxisValues(P, axis)))
    ensures IsAxisMax(P, axis, MaxOf(AxisValues(P, axis)))
  {
    var vs := AxisValues(P, axis);
    assert MinOf(vs) in vs && MaxOf(vs) in vs;
    forall p | p in P
      ensures MinOf(vs) <= p[axis] <= MaxOf(vs)
    {
      assert p[axis] in vs;
    }
  }

  /** `minMaxPerAxis`: nothing for an empty set, otherwise one (min, max)
      pair per axis. */
  function MinMaxPerAxis(P: Points): (mm: seq<(int, int)>)
    requires Uniform(P)
    ensures P == {} ==> mm == []
    ensures |mm| == Dim(P)
    ensures forall a :: 0 <= a < |mm| ==> IsAxisMin(P, a, mm[a].0) && IsAxisMax(P, a, mm[a].1)
  {
    if P == {} then []
    else
      var d := Dim(P);
      var mm := seq(d, a requires 0 <= a < d => (MinOf(AxisValues(P, a)), MaxOf(AxisValues(P, a))));
      forall a | 0 <= a < d
        ensures IsAxisMin(P, a, mm[a].0) && IsAxisMax(P, a, mm[a].1)
      {
        AxisExtremes(P, a);
      }
      mm
  }

  lemma AxisMinUnique(P: Points, axis: nat, v: int, w: int)
    requires AxisInRange(P, axis)
    requires IsAxisMin(P, axis, v) && IsAxisMin(P, axis, w)
    ensures v == w
  {
    var p :| p in P && p[axis] == v;
    var q :| q in P && q[axis] == w;
  }

  lemma AxisMaxUnique(P: Points, axis: nat, v: int, w: int)
    requires AxisInRange(P, axis)
    requires IsAxisMax(P, axis, v) && IsAxisMax(P, axis, w)
    ensures v == w
  {
    var p :| p in P && p[axis] == v;
    var q :| q in P && q[axis] == w;
  }

  /** A value attained on an axis and below (above) every coordinate there is
      the minimum (maximum) `minMaxPerAxis` reports. */
  lemma MinMaxIs(P: Points, axis: nat, lo: int, hi: int)
    requires Uniform(P) && axis < Dim(P)
    requires IsAxisMin(P, axis, lo) && IsAxisMax(P, axis, hi)
    ensures MinMaxPerAxis(P)[axis] == (lo, hi)
  {
    var mm := MinMaxPerAxis(P);
    AxisMinUnique(P, axis, lo, mm[axis].0);
    AxisMaxUnique(P, axis, hi, mm[axis].1);
  }

  /** The extent `max - min` of the points of `P` along `axis`. */
  function Spread(P: Points, axis: nat): int
    requires Uniform(P) && axis < Dim(P)
  {
    Width(MinMaxPerAxis(P)[axis])
  }

  function Width(range: (int, int)): int {
    range.1 - range.0
  }

  /** The first position of a widest range. */
  function WidestIn(mm: seq<(int, int)>): (k: nat)
    requires |mm| > 0
    ensures k < |mm|
    ensures forall a :: 0 <= a < |mm| ==> Width(mm[a]) <= Width(mm[k])
    ensures forall a :: 0 <= a < k ==> Width(mm[a]) < Width(mm[k])
  {
    if |mm| == 1 then 0
    else
      var k := WidestIn(mm[..|mm| - 1]);
      assert forall a :: 0 <= a < |mm| - 1 ==> mm[a] == mm[..|mm| - 1][a];
      if Width(mm[|mm| - 1]) > Width(mm[k]) then |mm| - 1 else k
  }

  /** `axis` has the largest spread of all axes of `P`, and no lower axis has
      as large a spread. */
  predicate IsWidestAxis(P: Points, axis: nat)
    requires Uniform(P)
  {
    && axis < Dim(P)
    && (forall a :: 0 <= a < Dim(P) ==> Spread(P, a) <= Spread(P, axis))
    && (forall a :: 0 <= a < axis ==> Spread(P, a) < Spread(P, axis))
  }

  /** `axisOfHighestVariance`: the sentinel for an empty set (or points
      without coordinates), otherwise the first axis of largest spread. */
  function AxisOfHighestVariance(P: Points): (axis: nat)
    requires Uniform(P)
    ensures Dim(P) == 0 ==> axis == EmptySetVariance
    ensures Dim(P) > 0 ==> IsWidestAxis(P, axis)
  {
    var mm := MinMaxPerAxis(P);
    if |mm| == 0 then EmptySetVariance
    else
      WidestIn(mm)
  }

  /** An axis strictly wider than every other is the one reported. */
  lemma WidestAxisIs(P: Points, axis: nat)
    requires Uniform(P) && axis < Dim(P)
    requires var mm := MinMaxPerAxis(P);
      forall a :: 0 <= a < |mm| && a != axis ==> Width(mm[a]) < Width(mm[axis])
    ensures AxisOfHighestVariance(P) == axis
  {
    var w := AxisOfHighestVariance(P);
    assert IsWidestAxis(P, w);
    assert Spread(P, axis) <= Spread(P, w);
  }

  // ---------------------------------------------------------------------
  // Median
  // ---------------------------------------------------------------------

  predicate SortedInts(s: seq<int>) {
    forall i, j :: 0 <= i < j < |s| ==> s[i] <= s[j]
  }

  /** A sequence whose neighbours are in order is sorted. */
  lemma {:induction false} SortedFromNeighbours(s: seq<int>)
    requires forall i :: 0 <= i < |s| - 1 ==> s[i] <= s[i + 1]
    ensures SortedInts(s)
  {
    if |s| > 1 {
      SortedFromNeighbours(s[1..]);
      assert forall i :: 0 < i < |s| ==> s[0] <= s[1] <= s[i] by {
        assert forall i :: 0 < i < |s| ==> s[i] == s[1..][i - 1];
      }
    }
  }

  /** `x` placed before the first element of `s` not below it. */
  function Insert(x: int, s: seq<int>): seq<int> {
    if |s| == 0 || x <= s[0] then [x] + s
    else [s[0]] + Insert(x, s[1..])
  }

  /** Inserting adds exactly `x`. */
  lemma {:induction false} InsertAddsOne(x: int, s: seq<int>)
    ensures multiset(Insert(x, s)) == multiset(s) + multiset{x}
    ensures forall v :: v in Insert(x, s) ==> v == x || v in s
  {
    if |s| > 0 && x > s[0] {
      assert s == [s[0]] + s[1..];
      InsertAddsOne(x, s[1..]);
    }
  }

  /** Inserting into a sorted sequence keeps it sorted. */
  lemma {:induction false} InsertIntoSorted(x: int, s: seq<int>)
    requires SortedInts(s)
    ensures SortedInts(Insert(x, s))
  {
    if |s| > 0 && x > s[0] {
      InsertIntoSorted(x, s[1..]);
      InsertAddsOne(x, s[1..]);
      var tail := Insert(x, s[1..]);
      forall i | 0 <= i < |tail|
        ensures s[0] <= tail[i]
      {
        assert tail[i] in tail;
      }
    }
  }

  function SortInts(s: seq<int>): (r: seq<int>)
    ensures SortedInts(r)
    ensures multiset(r) == multiset(s)
  {
    if |s| == 0 then []
    else
      assert s == [s[0]] + s[1..];
      InsertIntoSorted(s[0], SortInts(s[1..]));
      InsertAddsOne(s[0], SortInts(s[1..]));
      Insert(s[0], SortInts(s[1..]))
  }

  /** Sorting leaves an already sorted sequence as it is. */
  lemma {:induction false} SortKeepsSorted(s: seq<int>)
    requires SortedInts(s)
    ensures SortInts(s) == s
  {
    if |s| > 0 {
      SortKeepsSorted(s[1..]);
      assert s == [s[0]] + s[1..];
    }
  }

  /** `medianValueInAxis`: the sentinel for an empty set or an axis the points
      do not have, otherwise the value at position `|P| / 2` of the sorted
      coordinates on that axis, which is a coordinate of some point. */
  function MedianValueInAxis(P: Points, axis: nat): (m: int)
    requires Uniform(P)
    ensures P == {} || axis >= Dim(P) ==> m == EmptySetMedian
    ensures P != {} && axis < Dim(P) ==> exists p :: p in P && p[axis] == m
  {
    if P == {} || axis >= Dim(P) then EmptySetMedian
    else
      var vs := AxisValues(P, axis);
      var sorted := SortInts(vs);
      assert sorted[|P| / 2] in multiset(vs);
      sorted[|P| / 2]
  }

  /** Two sorted sequences holding the same elements are equal. */
  lemma {:induction false} SortedUnique(a: seq<int>, b: seq<int>)
    requires SortedInts(a) && SortedInts(b)
    requires multiset(a) == multiset(b)
    ensures a == b
  {
    assert |a| == |multiset(a)| == |multiset(b)| == |b|;
    if |a| > 0 {
      SameHeads(a, b);
      DropHead(a);
      DropHead(b);
      var a', b' := a[1..], b[1..];
      assert multiset(a') == multiset(b');
      SortedUnique(a', b');
      assert a == [a[0]] + a' && b == [b[0]] + b';
    }
  }

  lemma SameHeads(a: seq<int>, b: seq<int>)
    requires SortedInts(a) && SortedInts(b)
    requires multiset(a) == multiset(b) && |a| > 0 && |b| > 0
    ensures a[0] == b[0]
  {
    assert a[0] in multiset(b) && b[0] in multiset(a);
    SortedHeadIsLeast(a, b[0]);
    SortedHeadIsLeast(b, a[0]);
  }

  lemma SortedHeadIsLeast(s: seq<int>, x: int)
    requires SortedInts(s) && x in s
    ensures s[0] <= x
  {
    var j :| 0 <= j < |s| && s[j] == x;
  }

  lemma DropHead(s: seq<int>)
    requires |s| > 0
    ensures multiset(s[1..]) == multiset(s) - multiset{s[0]}
    ensures SortedInts(s) ==> SortedInts(s[1..])
  {
    assert s == [s[0]] + s[1..];
  }

  /** Any sorted arrangement of the coordinates on an axis has the median at
      position `|P| / 2`. */
  lemma MedianOfSortedAxis(P: Points, axis: nat, s: seq<int>)
    requires Uniform(P) && P != {} && axis < Dim(P)
    requires SortedInts(s) && multiset(s) == multiset(AxisValues(P, axis))
    ensures |s| == |P|
    ensures MedianValueInAxis(P, axis) == s[|P| / 2]
  {
    SortedUnique(s, SortInts(AxisValues(P, axis)));
  }

  /** How many elements of `s` are below `v`. */
  function CountBelow(s: seq<int>, v: int): nat {
    if |s| == 0 then 0
    else (if s[0] < v then 1 else 0) + CountBelow(s[1..], v)
  }

  lemma {:induction false} CountBelowInsert(x: int, s: seq<int>, v: int)
    ensures CountBelow(Insert(x, s), v) == (if x < v then 1 else 0) + CountBelow(s, v)
  {
    if |s| > 0 && x > s[0] {
      CountBelowInsert(x, s[1..], v);
      assert Insert(x, s)[1..] == Insert(x, s[1..]);
    }
  }

  /** Sorting does not change how many elements are below a value. */
  lemma {:induction false} CountBelowSort(s: seq<int>, v: int)
    ensures CountBelow(SortInts(s), v) == CountBelow(s, v)
  {
    if |s| > 0 {
      CountBelowSort(s[1..], v);
      CountBelowInsert(s[0], SortInts(s[1..]), v);
    }
  }

  lemma {:induction false} NoneBelow(s: seq<int>, v: int)
    requires forall i :: 0 <= i < |s| ==> v <= s[i]
    ensures CountBelow(s, v) == 0
  {
    if |s| > 0 {
      NoneBelow(s[1..], v);
    }
  }

  /** In a sorted sequence at most `k` elements are below the one at `k`, and
      more than `k` are at most it. */
  lemma {:induction false} SortedRank(r: seq<int>, k: nat)
    requires SortedInts(r) && k < |r|
    ensures CountBelow(r, r[k]) <= k < CountBelow(r, r[k] + 1)
  {
    if k == 0 {
      NoneBelow(r, r[0]);
    } else {
      assert r[1..][k - 1] == r[k];
      SortedRank(r[1..], k - 1);
    }
  }

  /** How many points of `P` lie below `v` on `axis`. */
  function PointsBelow(P: Points, axis: nat, v: int): nat
    requires AxisInRange(P, axis)
  {
    |set p | p in P && p[axis] < v|
  }

  /** Removing one point removes it from the count exactly when it is below. */
  lemma PointsBelowRemove(P: Points, axis: nat, v: int, m: Point)
    requires AxisInRange(P, axis) && m in P
    ensures PointsBelow(P, axis, v) == (if m[axis] < v then 1 else 0) + PointsBelow(P - {m}, axis, v)
  {
    var S := set p | p in P && p[axis] < v;
    var T := set p | p in P - {m} && p[axis] < v;
    if m[axis] < v {
      assert S == T + {m};
    } else {
      assert S == T;
    }
  }

  /** The coordinates of a non-empty set are those of its first point
      followed by those of the rest. */
  lemma AxisValuesUncons(P: Points, axis: nat)
    requires AxisInRange(P, axis) && P != {}
    ensures Elements(P)[0] in P
    ensures AxisValues(P, axis)[0] == Elements(P)[0][axis]
    ensures AxisValues(P, axis)[1..] == AxisValues(P - {Elements(P)[0]}, axis)
  {
    var e := Elements(P);
    var Q := P - {e[0]};
    assert e[0] in P && e[1..] == Elements(Q);
    var vs := AxisValues(P, axis);
    var ws := AxisValues(Q, axis);
    forall i | 0 <= i < |ws|
      ensures vs[1..][i] == ws[i]
    {
      assert e[i + 1] == Elements(Q)[i];
    }
  }

  /** Counting coordinates below `v` counts the points below `v`. */
  lemma {:induction false} AxisValuesCount(P: Points, axis: nat, v: int)
    requires AxisInRange(P, axis)
    ensures CountBelow(AxisValues(P, axis), v) == PointsBelow(P, axis, v)
    decreases |P|
  {
    if P != {} {
      var m := Elements(P)[0];
      AxisValuesUncons(P, axis);
      AxisValuesCount(P - {m}, axis, v);
      PointsBelowRemove(P, axis, v, m);
    }
  }

  /** `m` is a median of the coordinates on `axis`: at most half of the
      points (rounded down) lie below it, and more than that lie at or
      below it. */
  predicate IsMedianValue(P: Points, axis: nat, m: int)
    requires AxisInRange(P, axis)
  {
    |set p | p in P && p[axis] < m| <= |P| / 2 < |set p | p in P && p[axis] <= m|
  }

  lemma SortLength(vs: seq<int>)
    ensures |SortInts(vs)| == |vs|
  {
    assert |SortInts(vs)| == |multiset(SortInts(vs))| == |multiset(vs)| == |vs|;
  }

  /** The element at `k` of the sorted `vs` has at most `k` elements of `vs`
      below it and more than `k` at most it. */
  lemma SortedRankInInput(vs: seq<int>, k: nat)
    requires k < |vs|
    ensures |SortInts(vs)| == |vs|
    ensures CountBelow(vs, SortInts(vs)[k]) <= k < CountBelow(vs, SortInts(vs)[k] + 1)
  {
    var r := SortInts(vs);
    SortLength(vs);
    SortedRank(r, k);
    CountBelowSort(vs, r[k]);
    CountBelowSort(vs, r[k] + 1);
  }

  lemma AtMostIsBelowNext(P: Points, axis: nat, m: int)
    requires AxisInRange(P, axis)
    ensures (set p | p in P && p[axis] <= m) == (set p | p in P && p[axis] < m + 1)
  {
  }

  /** The value at position `k` of the sorted coordinates on an axis has at
      most `k` points below it and more than `k` at or below it. */
  lemma SortedAxisRank(P: Points, axis: nat, k: nat)
    requires AxisInRange(P, axis) && k < |P|
    ensures |SortInts(AxisValues(P, axis))| == |P|
    ensures var m := SortInts(AxisValues(P, axis))[k];
      |set p | p in P && p[axis] < m| <= k < |set p | p in P && p[axis] <= m|
  {
    var vs := AxisValues(P, axis);
    SortedRankInInput(vs, k);
    var m := SortInts(vs)[k];
    AxisValuesCount(P, axis, m);
    AxisValuesCount(P, axis, m + 1);
    AtMostIsBelowNext(P, axis, m);
    assert PointsBelow(P, axis, m) <= k < PointsBelow(P, axis, m + 1);
  }

  /** `medianValueInAxis` ranks its result in the middle of the points. */
  lemma MedianValueIsMedian(P: Points, axis: nat)
    requires Uniform(P) && P != {} && axis < Dim(P)
    ensures IsMedianValue(P, axis, MedianValueInAxis(P, axis))
  {
    SortedAxisRank(P, axis, |P| / 2);
  }

  /** On an axis where every point has the same coordinate, that coordinate
      is the median. */
  lemma MedianOfConstantAxis(P: Points, axis: nat, c: int)
    requires Uniform(P) && P != {} && axis < Dim(P)
    requires forall p :: p in P ==> p[axis] == c
    ensures MedianValueInAxis(P, axis) == c
  {
  }

  // ---------------------------------------------------------------------
  // Distance and nearest point
  // ---------------------------------------------------------------------

  function Square(x: int): nat {
    x * x
  }

  /** The squared Euclidean distance; zero exactly for equal points. */
  function SquaredDistance(a: Point, b: Point): (d: nat)
    requires |a| == |b|
    ensures d == 0 <==> a == b
  {
    if |a| == 0 then 0
    else
      var rest := SquaredDistance(a[1..], b[1..]);
      assert a == [a[0]] + a[1..] && b == [b[0]] + b[1..];
      Square(a[0] - b[0]) + rest
  }

  /** No single coordinate is farther apart than the whole points. */
  lemma {:induction false} CoordinateBound(a: Point, b: Point, i: nat)
    requires |a| == |b| && i < |a|
    ensures Square(a[i] - b[i]) <= SquaredDistance(a, b)
  {
    if i > 0 {
      CoordinateBound(a[1..], b[1..], i - 1);
    }
  }

  /** `r` is at least as close to `q` as `p` is, ties going to the point
      that comes first in the set's order. */
  predicate NoFarther(r: Point, p: Point, q: Point)
    requires |r| == |q| && |p| == |q|
  {
    || SquaredDistance(r, q) < SquaredDistance(p, q)
    || (SquaredDistance(r, q) == SquaredDistance(p, q) && LexLeq(r, p))
  }

  lemma NoFartherTransitive(a: Point, b: Point, c: Point, q: Point)
    requires |a| == |q| && |b| == |q| && |c| == |q|
    requires NoFarther(a, b, q) && NoFarther(b, c, q)
    ensures NoFarther(a, c, q)
  {
    if SquaredDistance(a, q) == SquaredDistance(c, q) {
      LexLeqTransitive(a, b, c);
    }
  }

  /** Of two points, one is no farther than the other. */
  lemma NoFartherTotal(a: Point, b: Point, q: Point)
    requires |a| == |q| && |b| == |q|
    ensures NoFarther(a, b, q) || NoFarther(b, a, q)
  {
    if a != b {
      LexLessTotal(a, b);
    }
  }

  /** `r` is a point of `P` closest to `q`, and the first in iteration order
      among the points of `P` equally close. */
  predicate IsNearest(r: Point, P: Points, q: Point)
    requires HasDim(P, |q|)
  {
    r in P && forall p :: p in P ==> NoFarther(r, p, q)
  }

  /** There is at most one nearest point. */
  lemma NearestIsUnique(r1: Point, r2: Point, P: Points, q: Point)
    requires HasDim(P, |q|)
    requires IsNearest(r1, P, q) && IsNearest(r2, P, q)
    ensures r1 == r2
  {
    LexLessAsymmetric(r1, r2);
  }
}
