/** Points and point sets (source/kdtree_types.h).

    A point is a `std::vector<T>` of coordinates; the tests instantiate
    `T = int`. A point set is a `std::set` of points, so it holds each point
    once and iterates in ascending order of `std::vector`'s `operator<`, the
    lexicographic order. `Elements` gives that iteration order. */
module Types {

  /** `Types::Point<int>`. */
  type Point = seq<int>

  /** `Types::Points<int>`. */
  type Points = set<Point>

  /** `std::vector`'s `operator<`: the first differing coordinate decides, and
      a proper prefix comes before its extensions. */
  predicate LexLess(a: Point, b: Point)
    decreases |a|
  {
    if |a| == 0 then |b| > 0
    else |b| > 0 && (a[0] < b[0] || (a[0] == b[0] && LexLess(a[1..], b[1..])))
  }

  predicate LexLeq(a: Point, b: Point) {
    a == b || LexLess(a, b)
  }

  lemma {:induction false} LexLessAsymmetric(a: Point, b: Point)
    ensures !(LexLess(a, b) && LexLess(b, a))
    decreases |a|
  {
    if |a| > 0 && |b| > 0 && a[0] == b[0] {
      LexLessAsymmetric(a[1..], b[1..]);
    }
  }

  lemma LexLessAsymmetricAll()
    ensures forall a: Point, b: Point :: LexLess(a, b) ==> !LexLess(b, a)
  {
    forall a: Point, b: Point ensures LexLess(a, b) ==> !LexLess(b, a) {
      LexLessAsymmetric(a, b);
    }
  }

  lemma {:induction false} LexLessTransitive(a: Point, b: Point, c: Point)
    requires LexLess(a, b) && LexLess(b, c)
    ensures LexLess(a, c)
    decreases |a|
  {
    if |a| > 0 && a[0] == b[0] && b[0] == c[0] {
      LexLessTransitive(a[1..], b[1..], c[1..]);
    }
  }

  lemma {:induction false} LexLessTotal(a: Point, b: Point)
    requires a != b
    ensures LexLess(a, b) || LexLess(b, a)
    decreases |a|
  {
    if |a| > 0 && |b| > 0 && a[0] == b[0] {
      assert a == [a[0]] + a[1..] && b == [b[0]] + b[1..];
      LexLessTotal(a[1..], b[1..]);
    }
  }

  /** Two points that agree before coordinate `k` and differ at `k` are
      ordered by that coordinate. */
  lemma {:induction false} LexLessAt(a: Point, b: Point, k: nat)
    requires k < |a| && k < |b| && a[..k] == b[..k] && a[k] < b[k]
    ensures LexLess(a, b)
  {
    if k > 0 {
      assert a[0] == a[..k][0] && b[0] == b[..k][0];
      assert a[1..][..k - 1] == a[..k][1..] && b[1..][..k - 1] == b[..k][1..];
      LexLessAt(a[1..], b[1..], k - 1);
    }
  }

  lemma LexLeqTransitive(a: Point, b: Point, c: Point)
    requires LexLeq(a, b) && LexLeq(b, c)
    ensures LexLeq(a, c)
  {
    if a != b && b != c {
      LexLessTransitive(a, b, c);
    }
  }

  /** Every point of the set has the same number of coordinates. */
  predicate Uniform(P: Points) {
    forall p, q :: p in P && q in P ==> |p| == |q|
  }

  /** Every point of the set has `d` coordinates. */
  predicate HasDim(P: Points, d: nat) {
    forall p :: p in P ==> |p| == d
  }

  /** Every point of the set has a coordinate on `axis`. */
  predicate AxisInRange(P: Points, axis: nat) {
    forall p :: p in P ==> axis < |p|
  }

  /** `m` is the first point of `P` in iteration order. */
  predicate IsLexMin(m: Point, P: Points) {
    m in P && forall q :: q in P ==> LexLeq(m, q)
  }

  predicate StrictlySorted(s: seq<Point>) {
    forall i, j :: 0 <= i < j < |s| ==> LexLess(s[i], s[j])
  }

  lemma {:induction false} LexMinExists(P: Points)
    requires P != {}
    ensures exists m :: IsLexMin(m, P)
    decreases |P|
  {
    var x :| x in P;
    if P == {x} {
      assert IsLexMin(x, P);
    } else {
      LexMinExists(P - {x});
      var m :| IsLexMin(m, P - {x});
      if LexLess(x, m) {
        forall q | q in P
          ensures LexLeq(x, q)
        {
          if q != x && q != m {
            assert q in P - {x};
            LexLessTransitive(x, m, q);
          }
        }
        assert IsLexMin(x, P);
      } else {
        LexLessTotal(m, x);
        assert IsLexMin(m, P);
      }
    }
  }

  /** The points of `P` in the order a `std::set` iterates them: ascending and
      without repetition. */
  function Elements(P: Points): (s: seq<Point>)
    ensures |s| == |P|
    ensures forall p :: p in s <==> p in P
    decreases |P|
  {
    if P == {} then []
    else
      LexMinExists(P);
      LexLessAsymmetricAll();
      var m :| IsLexMin(m, P);
      [m] + Elements(P - {m})
  }

  /** The iteration order is ascending: it starts with the least point and
      every point comes before the larger ones. */
  lemma {:induction false} ElementsSorted(P: Points)
    ensures P != {} ==> IsLexMin(Elements(P)[0], P)
    ensures StrictlySorted(Elements(P))
    decreases |P|
  {
    if P != {} {
      var s := Elements(P);
      var m := s[0];
      var rest := s[1..];
      assert IsLexMin(m, P) && rest == Elements(P - {m});
      ElementsSorted(P - {m});
      forall i, j | 0 <= i < j < |s|
        ensures LexLess(s[i], s[j])
      {
        assert s[j] == rest[j - 1];
        if i > 0 {
          assert s[i] == rest[i - 1];
        } else {
          assert s[j] in P - {m};
        }
      }
    }
  }

  /** An ascending sequence that enumerates `P` is exactly the iteration order
      of `P`. */
  lemma {:induction false} SortedEnumerationIsElements(s: seq<Point>, P: Points)
    requires StrictlySorted(s)
    requires forall p :: p in s <==> p in P
    ensures s == Elements(P)
    decreases |s|
  {
    if s == [] {
      assert P == {};
    } else {
      var m := s[0];
      forall q | q in P
        ensures LexLeq(m, q)
      {
        var j :| 0 <= j < |s| && s[j] == q;
      }
      assert IsLexMin(m, P);
      LexLessAsymmetricAll();
      var e := Elements(P);
      assert e[0] == m by {
        ElementsSorted(P);
      }
      forall p | p in s[1..]
        ensures p in P - {m}
      {
        var j :| 1 <= j < |s| && s[j] == p;
        assert LexLess(s[0], s[j]);
      }
      SortedEnumerationIsElements(s[1..], P - {m});
      assert e == [m] + Elements(P - {m});
    }
  }

  /** The iteration order lists each point once. */
  lemma ElementsDistinct(P: Points, i: nat, j: nat)
    requires i < j < |P|
    ensures Elements(P)[i] != Elements(P)[j]
  {
    ElementsSorted(P);
    LexLessAsymmetric(Elements(P)[i], Elements(P)[j]);
  }

  /** The number of coordinates of the points of a uniform set (0 when empty). */
  function Dim(P: Points): (d: nat)
    ensures Uniform(P) ==> HasDim(P, d)
  {
    if P == {} then 0 else |Elements(P)[0]|
  }
}
