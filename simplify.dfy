/**
 * Douglas-Peucker simplification (simplifyPoints:withTolerance:) and the
 * perpendicular distance it measures with
 * (perpendicularDistanceBetweenPoint:lineStart:lineEnd:). Distances are
 * squared and compared with the squared tolerance, so the tolerance must
 * not be negative.
 */
module Simplification {
  import G = Geometries
  import opened Predicates
  import opened Reals

  // ------------------------------------------------------------ distance

  /**
   * The point of the segment [a, b] nearest to p: a when p projects before
   * a, b when it projects at or past b, and the projection otherwise.
   */
  function ClosestPoint(p: G.Point, a: G.Point, b: G.Point): G.Point {
    var c1 := Dot(p, a, b);
    var c2 := DistanceSq(b, a);
    if c1 <= 0.0 then a
    else if c2 <= c1 then b
    else PointAt(a, b, c1 / c2)
  }

  /**
   * The nearest point lies on the segment, so on the path from a to b unless
   * that path is skipped for having zero length, and no point of the segment
   * is nearer to p.
   */
  lemma ClosestPointOnSegment(p: G.Point, a: G.Point, b: G.Point)
    ensures exists t :: OnSegmentAt(ClosestPoint(p, a, b), a, b, t)
    ensures OnPath(ClosestPoint(p, a, b), a, b, DefaultEpsilon) <==> !Degenerate(a, b)
    ensures forall t :: 0.0 <= t <= 1.0 ==>
      DistanceSq(p, ClosestPoint(p, a, b)) <= DistanceSq(p, PointAt(a, b, t))
  {
    forall t | 0.0 <= t <= 1.0
      ensures DistanceSq(p, ClosestPoint(p, a, b)) <= DistanceSq(p, PointAt(a, b, t))
    {
      PerpendicularDistanceIsNearest(p, a, b, t);
    }
    var c1 := Dot(p, a, b);
    var c2 := DistanceSq(b, a);
    var c := ClosestPoint(p, a, b);
    var t: real;
    if c1 <= 0.0 {
      t := 0.0;
      assert OnSegmentAt(c, a, b, t);
    } else if c2 <= c1 {
      t := 1.0;
      assert OnSegmentAt(c, a, b, t);
    } else {
      t := c1 / c2;
      FractionBelowOne(c1, c2);
      assert OnSegmentAt(c, a, b, t);
    }
    SegmentOnPath(c, a, b, t, DefaultEpsilon);
  }

  /** The squared distance from p to the segment [a, b]. */
  function PerpendicularDistanceSq(p: G.Point, a: G.Point, b: G.Point): real {
    DistanceSq(p, ClosestPoint(p, a, b))
  }

  /** No point of the segment [a, b] is nearer to p than the closest point. */
  lemma PerpendicularDistanceIsNearest(p: G.Point, a: G.Point, b: G.Point, t: real)
    requires 0.0 <= t <= 1.0
    ensures PerpendicularDistanceSq(p, a, b) <= DistanceSq(p, PointAt(a, b, t))
  {
    var c1, c2 := Dot(p, a, b), DistanceSq(b, a);
    if c1 <= 0.0 {
      NearestAtStart(p, a, b, t);
    } else if c2 <= c1 {
      NearestAtEnd(p, a, b, t);
    } else {
      NearestAtFoot(p, a, b, t);
    }
  }

  lemma NearestAtStart(p: G.Point, a: G.Point, b: G.Point, t: real)
    requires 0.0 <= t <= 1.0 && Dot(p, a, b) <= 0.0
    ensures DistanceSq(p, a) <= DistanceSq(p, PointAt(a, b, t))
  {
    DistanceSqSign(b, a);
    DistanceAlong(p, a, b, t);
    QuadraticLeastAtStart(DistanceSq(p, a), Dot(p, a, b), DistanceSq(b, a), t);
  }

  lemma NearestAtEnd(p: G.Point, a: G.Point, b: G.Point, t: real)
    requires 0.0 <= t <= 1.0 && 0.0 < Dot(p, a, b) && DistanceSq(b, a) <= Dot(p, a, b)
    ensures DistanceSq(p, b) <= DistanceSq(p, PointAt(a, b, t))
  {
    EndDistance(p, a, b);
    DistanceAlong(p, a, b, t);
    QuadraticLeastAtEnd(DistanceSq(p, a), Dot(p, a, b), DistanceSq(b, a), t);
  }

  /** The squared distance from p to b, as the quadratic at t = 1. */
  lemma EndDistance(p: G.Point, a: G.Point, b: G.Point)
    ensures DistanceSq(p, b) == DistanceSq(p, a) - 2.0 * Dot(p, a, b) + DistanceSq(b, a)
  {
    DistanceAlong(p, a, b, 1.0);
    assert DistanceSq(p, b) == DistanceSq(p, PointAt(a, b, 1.0));
  }

  lemma NearestAtFoot(p: G.Point, a: G.Point, b: G.Point, t: real)
    requires 0.0 < Dot(p, a, b) < DistanceSq(b, a)
    ensures DistanceSq(p, PointAt(a, b, Dot(p, a, b) / DistanceSq(b, a))) <= DistanceSq(p, PointAt(a, b, t))
  {
    DivisionCancels(Dot(p, a, b), DistanceSq(b, a));
    DistanceSqSign(b, a);
    NearestAt(p, a, b, t, Dot(p, a, b) / DistanceSq(b, a));
  }

  /** The same at any foot parameter t0 with t0 c2 = c1, free of the division. */
  lemma NearestAt(p: G.Point, a: G.Point, b: G.Point, t: real, t0: real)
    requires DistanceSq(b, a) >= 0.0 && t0 * DistanceSq(b, a) == Dot(p, a, b)
    ensures DistanceSq(p, PointAt(a, b, t0)) <= DistanceSq(p, PointAt(a, b, t))
  {
    DistanceAlong(p, a, b, t);
    DistanceAlong(p, a, b, t0);
    QuadraticLeastAtFootValues(DistanceSq(p, a), Dot(p, a, b), DistanceSq(b, a), t, t0,
                               DistanceSq(p, PointAt(a, b, t)), DistanceSq(p, PointAt(a, b, t0)));
  }

  /**
   * When p projects within the segment [a, b], its squared distance to the
   * segment times the squared length is the cross product squared.
   */
  lemma ProjectedDistance(p: G.Point, a: G.Point, b: G.Point)
    requires !Degenerate(a, b) && 0.0 <= Dot(p, a, b) <= DistanceSq(b, a)
    ensures PerpendicularDistanceSq(p, a, b) * DistanceSq(b, a) == Cross(p, a, b) * Cross(p, a, b)
  {
    var c1, c2 := Dot(p, a, b), DistanceSq(b, a);
    if c1 <= 0.0 {
      ProjectedAtStart(p, a, b);
    } else if c2 <= c1 {
      ProjectedAtEnd(p, a, b);
    } else {
      FootDistance(p, a, b);
    }
  }

  /** A point projecting onto a: its distance to a, scaled, is the cross product squared. */
  lemma ProjectedAtStart(p: G.Point, a: G.Point, b: G.Point)
    requires Dot(p, a, b) == 0.0
    ensures DistanceSq(p, a) * DistanceSq(b, a) == Cross(p, a, b) * Cross(p, a, b)
  {
    Lagrange(p, a, b);
    ProductWithZero(Dot(p, a, b), Dot(p, a, b));
  }

  /** A point projecting onto b: its distance to b, scaled, is the cross product squared. */
  lemma ProjectedAtEnd(p: G.Point, a: G.Point, b: G.Point)
    requires Dot(p, a, b) == DistanceSq(b, a)
    ensures DistanceSq(p, b) * DistanceSq(b, a) == Cross(p, a, b) * Cross(p, a, b)
  {
    Lagrange(p, a, b);
    EndDistance(p, a, b);
    EndScaled(DistanceSq(p, a), DistanceSq(b, a), DistanceSq(p, b), Cross(p, a, b) * Cross(p, a, b));
  }

  /** f = w - c2, scaled by c2, is k2 when c2^2 + k2 = w c2. */
  lemma EndScaled(w: real, c2: real, f: real, k2: real)
    ensures f == w - 2.0 * c2 + c2 && c2 * c2 + k2 == w * c2 ==> f * c2 == k2
  {
    if f == w - 2.0 * c2 + c2 {
      SameProduct(f, c2, w - c2, c2);
    }
  }

  /**
   * The path test with tolerance epsilon admits exactly the points whose
   * distance to the segment is at most epsilon, among those projecting
   * within the segment; a segment of zero length admits none.
   */
  lemma OnPathWithinTolerance(p: G.Point, a: G.Point, b: G.Point, epsilon: real)
    ensures OnPath(p, a, b, epsilon) ==> PerpendicularDistanceSq(p, a, b) <= epsilon * epsilon
    ensures (epsilon >= 0.0 && !Degenerate(a, b) && 0.0 <= Dot(p, a, b) <= DistanceSq(b, a) &&
             PerpendicularDistanceSq(p, a, b) <= epsilon * epsilon) ==> OnPath(p, a, b, epsilon)
    ensures Degenerate(a, b) ==> !OnPath(p, a, b, epsilon)
  {
    if !Degenerate(a, b) && 0.0 <= Dot(p, a, b) <= DistanceSq(b, a) {
      ToleranceWithinSegment(p, a, b, epsilon);
    }
  }

  lemma ToleranceWithinSegment(p: G.Point, a: G.Point, b: G.Point, epsilon: real)
    requires !Degenerate(a, b) && 0.0 <= Dot(p, a, b) <= DistanceSq(b, a)
    ensures OnPath(p, a, b, epsilon) <==>
            epsilon >= 0.0 && PerpendicularDistanceSq(p, a, b) <= epsilon * epsilon
  {
    LengthPositive(a, b);
    ProjectedDistance(p, a, b);
    OnPathAsCross(p, a, b, epsilon);
    ToleranceScaled(PerpendicularDistanceSq(p, a, b), DistanceSq(b, a), Cross(p, a, b) * Cross(p, a, b),
                    epsilon, OnPath(p, a, b, epsilon));
  }

  /** The path test away from a degenerate segment, with the definition's cases spelled out. */
  lemma OnPathAsCross(p: G.Point, a: G.Point, b: G.Point, epsilon: real)
    requires !Degenerate(a, b)
    ensures OnPath(p, a, b, epsilon) <==> (epsilon >= 0.0 && 0.0 <= Dot(p, a, b) <= DistanceSq(b, a) &&
      Cross(p, a, b) * Cross(p, a, b) <= epsilon * epsilon * DistanceSq(b, a))
  {
  }

  // ------------------------------------------------------------ farthest point

  /** The squared distance from interior point i to the chord from point lo to point hi. */
  function ChordDistanceSq(ps: seq<G.Point>, lo: int, hi: int, i: int): real
    requires 0 <= lo < hi < |ps| && 0 <= i < |ps|
  {
    PerpendicularDistanceSq(ps[i], ps[lo], ps[hi])
  }

  /**
   * The scan for the farthest interior point over indices lo + 1 .. upto - 1:
   * the index found (0 while no distance exceeded 0) and its squared
   * distance. Only a strictly greater distance moves the index, so the first
   * of several equally far points wins.
   */
  function Farthest(ps: seq<G.Point>, lo: int, hi: int, upto: int): (r: (int, real))
    requires 0 <= lo < hi < |ps| && lo < upto <= hi
    ensures forall i :: lo < i < upto ==> ChordDistanceSq(ps, lo, hi, i) <= r.1
    ensures if r.1 > 0.0
            then lo < r.0 < upto && ChordDistanceSq(ps, lo, hi, r.0) == r.1 &&
                 forall i :: lo < i < r.0 ==> ChordDistanceSq(ps, lo, hi, i) < r.1
            else r == (0, 0.0)
    decreases upto
  {
    if upto == lo + 1 then (0, 0.0)
    else
      var r := Farthest(ps, lo, hi, upto - 1);
      var d := ChordDistanceSq(ps, lo, hi, upto - 1);
      if d > r.1 then (upto - 1, d) else r
  }

  /** The loop of the simplification step that finds the farthest interior point. */
  method FarthestPoint(ps: seq<G.Point>, lo: int, hi: int) returns (index: int, dmax: real)
    requires 0 <= lo < hi < |ps|
    ensures (index, dmax) == Farthest(ps, lo, hi, hi)
  {
    index, dmax := 0, 0.0;
    var i := lo + 1;
    while i < hi
      invariant lo < i <= hi
      invariant (index, dmax) == Farthest(ps, lo, hi, i)
    {
      var d := PerpendicularDistanceSq(ps[i], ps[lo], ps[hi]);
      if d > dmax {
        index, dmax := i, d;
      }
      i := i + 1;
    }
  }

  // ------------------------------------------------------------ Douglas-Peucker

  /**
   * The simplification of the points lo .. hi against the squared tolerance
   * toleranceSq: just the two ends when no interior point is farther than
   * the tolerance from their chord; otherwise the two halves split at the
   * farthest point, joined with that point kept once.
   */
  function Simplified(ps: seq<G.Point>, toleranceSq: real, lo: int, hi: int): (r: seq<G.Point>)
    requires toleranceSq >= 0.0 && 0 <= lo < hi < |ps|
    ensures |r| >= 2 && r[0] == ps[lo] && r[|r| - 1] == ps[hi]
    decreases hi - lo
  {
    var far := Farthest(ps, lo, hi, hi);
    if far.1 > toleranceSq then
      var left := Simplified(ps, toleranceSq, lo, far.0);
      var right := Simplified(ps, toleranceSq, far.0, hi);
      left[..|left| - 1] + right
    else [ps[lo], ps[hi]]
  }

  /** One level of Simplified, unfolded. */
  lemma SimplifiedStep(ps: seq<G.Point>, toleranceSq: real, lo: int, hi: int)
    requires toleranceSq >= 0.0 && 0 <= lo < hi < |ps|
    ensures var far := Farthest(ps, lo, hi, hi);
      if far.1 > toleranceSq then
        var l := Simplified(ps, toleranceSq, lo, far.0);
        Simplified(ps, toleranceSq, lo, hi) == l[..|l| - 1] + Simplified(ps, toleranceSq, far.0, hi)
      else Simplified(ps, toleranceSq, lo, hi) == [ps[lo], ps[hi]]
  {
  }

  /** simplifyPoints: a list of two points or fewer is returned as it is. */
  function SimplifyPoints(ps: seq<G.Point>, tolerance: real): seq<G.Point>
    requires tolerance >= 0.0
  {
    if |ps| <= 2 then ps
    else
      assert tolerance * tolerance >= 0.0;
      Simplified(ps, tolerance * tolerance, 0, |ps| - 1)
  }

  /** ks is a strictly increasing list of indices into a list of n points. */
  predicate Increasing(ks: seq<int>, n: int) {
    (forall j :: 0 <= j < |ks| ==> 0 <= ks[j] < n) &&
    forall j, k :: 0 <= j < k < |ks| ==> ks[j] < ks[k]
  }

  /** ks runs from lo to hi, strictly increasing, within n points. */
  predicate KeptShape(ks: seq<int>, lo: int, hi: int, n: int) {
    |ks| >= 2 && ks[0] == lo && ks[|ks| - 1] == hi &&
    Increasing(ks, n) &&
    forall j :: 0 <= j < |ks| ==> lo <= ks[j] <= hi
  }

  /** The points at the given indices, in order. */
  function Pick(ps: seq<G.Point>, ks: seq<int>): (r: seq<G.Point>)
    requires forall j :: 0 <= j < |ks| ==> 0 <= ks[j] < |ps|
    ensures |r| == |ks|
  {
    seq(|ks|, j requires 0 <= j < |ks| => ps[ks[j]])
  }

  lemma JoinShape(left: seq<int>, right: seq<int>, lo: int, mid: int, hi: int, n: int)
    requires KeptShape(left, lo, mid, n) && KeptShape(right, mid, hi, n)
    ensures KeptShape(left[..|left| - 1] + right, lo, hi, n)
  {
    var ks := left[..|left| - 1] + right;
    forall j, k | 0 <= j < k < |ks|
      ensures ks[j] < ks[k]
    {
      if k < |left| - 1 {
        assert ks[j] == left[j] && ks[k] == left[k];
      } else if j < |left| - 1 {
        assert ks[j] == left[j] < mid;
        assert ks[k] == right[k - |left| + 1] >= mid;
      } else {
        assert ks[j] == right[j - |left| + 1] && ks[k] == right[k - |left| + 1];
      }
    }
  }

  lemma PickSplit(ps: seq<G.Point>, left: seq<int>, right: seq<int>)
    requires |left| > 0
    requires forall j :: 0 <= j < |left| ==> 0 <= left[j] < |ps|
    requires forall j :: 0 <= j < |right| ==> 0 <= right[j] < |ps|
    ensures var l := Pick(ps, left);
      Pick(ps, left[..|left| - 1] + right) == l[..|l| - 1] + Pick(ps, right)
  {
  }

  /** A split's result is picked by the indices of its halves, joined. */
  lemma SplitPicks(ps: seq<G.Point>, toleranceSq: real, lo: int, hi: int, left: seq<int>, right: seq<int>)
    requires toleranceSq >= 0.0 && 0 <= lo < hi < |ps|
    requires Farthest(ps, lo, hi, hi).1 > toleranceSq
    requires KeptShape(left, lo, Farthest(ps, lo, hi, hi).0, |ps|)
    requires KeptShape(right, Farthest(ps, lo, hi, hi).0, hi, |ps|)
    requires Simplified(ps, toleranceSq, lo, Farthest(ps, lo, hi, hi).0) == Pick(ps, left)
    requires Simplified(ps, toleranceSq, Farthest(ps, lo, hi, hi).0, hi) == Pick(ps, right)
    ensures Simplified(ps, toleranceSq, lo, hi) == Pick(ps, left[..|left| - 1] + right)
  {
    var l, r := Pick(ps, left), Pick(ps, right);
    calc {
      Simplified(ps, toleranceSq, lo, hi);
      { SimplifiedStep(ps, toleranceSq, lo, hi); }
      l[..|l| - 1] + r;
      { PickSplit(ps, left, right); }
      Pick(ps, left[..|left| - 1] + right);
    }
  }

  /**
   * The points kept between lo and hi are points lo .. hi of the original,
   * in their original order: ks gives their indices.
   */
  lemma {:induction false} SimplifiedIsSubsequence(ps: seq<G.Point>, toleranceSq: real, lo: int, hi: int)
      returns (ks: seq<int>)
    requires toleranceSq >= 0.0 && 0 <= lo < hi < |ps|
    ensures KeptShape(ks, lo, hi, |ps|) && Simplified(ps, toleranceSq, lo, hi) == Pick(ps, ks)
    decreases hi - lo
  {
    var far := Farthest(ps, lo, hi, hi);
    if far.1 > toleranceSq {
      var left := SimplifiedIsSubsequence(ps, toleranceSq, lo, far.0);
      var right := SimplifiedIsSubsequence(ps, toleranceSq, far.0, hi);
      JoinShape(left, right, lo, far.0, hi, |ps|);
      ks := left[..|left| - 1] + right;
      SplitPicks(ps, toleranceSq, lo, hi, left, right);
    } else {
      ks := [lo, hi];
      SimplifiedStep(ps, toleranceSq, lo, hi);
      assert Pick(ps, ks) == [ps[lo], ps[hi]];
    }
  }

  /** A strictly increasing list of indices below n has at most n entries. */
  lemma {:induction false} IncreasingBounded(ks: seq<int>, n: int)
    requires n >= 0 && Increasing(ks, n)
    ensures |ks| <= n
    decreases |ks|
  {
    if |ks| > 0 {
      var last := ks[|ks| - 1];
      assert last < n;
      assert Increasing(ks[..|ks| - 1], last);
      IncreasingBounded(ks[..|ks| - 1], last);
      assert |ks| - 1 <= last;
    }
  }

  /**
   * The simplified line is drawn from the original in order (a subsequence),
   * has no more points, and starts and ends at the original ends.
   */
  lemma SimplifyKeepsEnds(ps: seq<G.Point>, tolerance: real)
    requires tolerance >= 0.0
    ensures var r := SimplifyPoints(ps, tolerance);
      |r| <= |ps| &&
      (|ps| > 0 ==> |r| >= 1 && r[0] == ps[0] && r[|r| - 1] == ps[|ps| - 1]) &&
      exists ks :: Increasing(ks, |ps|) && r == Pick(ps, ks)
  {
    var r := SimplifyPoints(ps, tolerance);
    var ks: seq<int>;
    if |ps| <= 2 {
      ks := seq(|ps|, j => j);
      assert r == Pick(ps, ks);
    } else {
      ks := SimplifiedIsSubsequence(ps, tolerance * tolerance, 0, |ps| - 1);
    }
    IncreasingBounded(ks, |ps|);
  }

  /**
   * The tolerance decides: when every interior point is within the
   * tolerance of the chord, only its two ends are kept; otherwise the
   * farthest interior point is kept too.
   */
  lemma ToleranceDecides(ps: seq<G.Point>, toleranceSq: real, lo: int, hi: int)
    requires toleranceSq >= 0.0 && 0 <= lo < hi < |ps|
    ensures (forall i :: lo < i < hi ==> ChordDistanceSq(ps, lo, hi, i) <= toleranceSq)
            ==> Simplified(ps, toleranceSq, lo, hi) == [ps[lo], ps[hi]]
    ensures var far := Farthest(ps, lo, hi, hi);
      far.1 > toleranceSq ==> lo < far.0 < hi && ps[far.0] in Simplified(ps, toleranceSq, lo, hi)
  {
    var far := Farthest(ps, lo, hi, hi);
    SimplifiedStep(ps, toleranceSq, lo, hi);
    if far.1 > toleranceSq {
      var l := Simplified(ps, toleranceSq, lo, far.0);
      var r := Simplified(ps, toleranceSq, far.0, hi);
      assert (l[..|l| - 1] + r)[|l| - 1] == r[0];
    }
  }

  // ------------------------------------------------------------ idempotence

  /** Points la .. ha of a are points lb .. lb + (ha - la) of b. */
  predicate SameRange(a: seq<G.Point>, la: int, ha: int, b: seq<G.Point>, lb: int) {
    0 <= la <= ha < |a| && 0 <= lb && lb + (ha - la) < |b| &&
    forall i :: la <= i <= ha ==> a[i] == b[i - la + lb]
  }

  /** The scan depends only on the points of the range: equal ranges give equal scans. */
  lemma {:induction false} FarthestLocal(a: seq<G.Point>, la: int, ha: int, b: seq<G.Point>, lb: int, hb: int, u: int)
    requires la < ha && hb - lb == ha - la && SameRange(a, la, ha, b, lb)
    requires 0 < u <= ha - la
    ensures Farthest(a, la, ha, la + u).1 == Farthest(b, lb, hb, lb + u).1
    ensures Farthest(a, la, ha, la + u).1 > 0.0 ==>
      Farthest(a, la, ha, la + u).0 - la == Farthest(b, lb, hb, lb + u).0 - lb
    decreases u
  {
    if u > 1 {
      FarthestLocal(a, la, ha, b, lb, hb, u - 1);
      assert a[la] == b[lb] && a[ha] == b[hb];
      assert a[la + u - 1] == b[lb + u - 1];
    }
  }

  /** Two equal ranges split at corresponding points give equal halves. */
  lemma SameRangeSplit(a: seq<G.Point>, la: int, ha: int, b: seq<G.Point>, lb: int, j: int, k: int)
    requires SameRange(a, la, ha, b, lb) && la <= j <= ha && k - lb == j - la
    ensures SameRange(a, la, j, b, lb) && SameRange(a, j, ha, b, k)
  {
    forall i | j <= i <= ha
      ensures a[i] == b[i - j + k]
    {
      assert a[i] == b[i - la + lb];
    }
  }

  /** Two ranges whose scans split at corresponding points and whose halves simplify alike simplify alike. */
  lemma SplitsAlike(a: seq<G.Point>, la: int, ha: int, b: seq<G.Point>, lb: int, hb: int, toleranceSq: real)
    requires toleranceSq >= 0.0 && 0 <= la < ha < |a| && 0 <= lb < hb < |b|
    requires Farthest(a, la, ha, ha).1 > toleranceSq && Farthest(b, lb, hb, hb).1 > toleranceSq
    requires Simplified(a, toleranceSq, la, Farthest(a, la, ha, ha).0)
          == Simplified(b, toleranceSq, lb, Farthest(b, lb, hb, hb).0)
    requires Simplified(a, toleranceSq, Farthest(a, la, ha, ha).0, ha)
          == Simplified(b, toleranceSq, Farthest(b, lb, hb, hb).0, hb)
    ensures Simplified(a, toleranceSq, la, ha) == Simplified(b, toleranceSq, lb, hb)
  {
    SimplifiedStep(a, toleranceSq, la, ha);
    SimplifiedStep(b, toleranceSq, lb, hb);
  }

  /** Two ranges with the same ends that both collapse simplify alike. */
  lemma CollapsesAlike(a: seq<G.Point>, la: int, ha: int, b: seq<G.Point>, lb: int, hb: int, toleranceSq: real)
    requires toleranceSq >= 0.0 && 0 <= la < ha < |a| && 0 <= lb < hb < |b|
    requires Farthest(a, la, ha, ha).1 <= toleranceSq && Farthest(b, lb, hb, hb).1 <= toleranceSq
    requires a[la] == b[lb] && a[ha] == b[hb]
    ensures Simplified(a, toleranceSq, la, ha) == Simplified(b, toleranceSq, lb, hb)
  {
    SimplifiedStep(a, toleranceSq, la, ha);
    SimplifiedStep(b, toleranceSq, lb, hb);
  }

  /** Simplifying depends only on the points of the range. */
  lemma {:induction false} SimplifiedLocal(a: seq<G.Point>, la: int, ha: int, b: seq<G.Point>, lb: int, hb: int,
                                           toleranceSq: real)
    requires toleranceSq >= 0.0 && la < ha && hb - lb == ha - la && SameRange(a, la, ha, b, lb)
    ensures Simplified(a, toleranceSq, la, ha) == Simplified(b, toleranceSq, lb, hb)
    decreases ha - la
  {
    var fa, fb := Farthest(a, la, ha, ha), Farthest(b, lb, hb, hb);
    FarthestLocal(a, la, ha, b, lb, hb, ha - la);
    if fa.1 > toleranceSq {
      SameRangeSplit(a, la, ha, b, lb, fa.0, fb.0);
      SimplifiedLocal(a, la, fa.0, b, lb, fb.0, toleranceSq);
      SimplifiedLocal(a, fa.0, ha, b, fb.0, hb, toleranceSq);
      SplitsAlike(a, la, ha, b, lb, hb, toleranceSq);
    } else {
      assert a[la] == b[lb] && a[ha] == b[hb];
      CollapsesAlike(a, la, ha, b, lb, hb, toleranceSq);
    }
  }

  /** A scan is decided by the first of the farthest points. */
  lemma FarthestUnique(qs: seq<G.Point>, lo: int, hi: int, j: int, d: real)
    requires 0 <= lo < j < hi < |qs| && d > 0.0
    requires ChordDistanceSq(qs, lo, hi, j) == d
    requires forall i :: lo < i < hi ==> ChordDistanceSq(qs, lo, hi, i) <= d
    requires forall i :: lo < i < j ==> ChordDistanceSq(qs, lo, hi, i) < d
    ensures Farthest(qs, lo, hi, hi) == (j, d)
  {
  }

  /**
   * In the points kept by a split, the split point is again the first
   * farthest from the (same) chord: every kept interior point was an
   * interior point of the range, and those kept before it came before it.
   */
  lemma SplitPointStaysFarthest(ps: seq<G.Point>, lo: int, hi: int, ks: seq<int>, m: int)
    requires 0 <= lo < hi < |ps| && KeptShape(ks, lo, hi, |ps|)
    requires 0 <= m < |ks| && ks[m] == Farthest(ps, lo, hi, hi).0
    requires Farthest(ps, lo, hi, hi).1 > 0.0
    ensures var r, n := Pick(ps, ks), |ks| - 1;
      0 < m < n && Farthest(r, 0, n, n) == (m, Farthest(ps, lo, hi, hi).1)
  {
    var far := Farthest(ps, lo, hi, hi);
    var r, n := Pick(ps, ks), |ks| - 1;
    assert r[0] == ps[lo] && r[n] == ps[hi];
    assert 0 < m < n;
    forall i | 0 < i < n
      ensures ChordDistanceSq(r, 0, n, i) == ChordDistanceSq(ps, lo, hi, ks[i])
      ensures lo < ks[i] < hi
    {
      assert r[i] == ps[ks[i]];
      assert ks[0] < ks[i] < ks[n];
    }
    forall i | 0 < i < m
      ensures ks[i] < far.0
    {
      assert ks[i] < ks[m];
    }
    FarthestUnique(r, 0, n, m, far.1);
  }

  /** The two halves of a join are ranges of the joined list. */
  lemma JoinRanges(l: seq<G.Point>, rr: seq<G.Point>)
    requires |l| >= 2 && |rr| >= 2 && l[|l| - 1] == rr[0]
    ensures var r, m := l[..|l| - 1] + rr, |l| - 1;
      SameRange(r, 0, m, l, 0) && SameRange(r, m, |r| - 1, rr, 0)
  {
  }

  /**
   * A list whose first farthest point beyond the tolerance is m, and whose
   * two halves at m are already simplified, is simplified.
   */
  lemma JoinFixed(r: seq<G.Point>, toleranceSq: real, m: int, l: seq<G.Point>, rr: seq<G.Point>)
    requires toleranceSq >= 0.0 && 0 < m < |r| - 1
    requires Farthest(r, 0, |r| - 1, |r| - 1).0 == m && Farthest(r, 0, |r| - 1, |r| - 1).1 > toleranceSq
    requires |l| == m + 1 && r == l[..|l| - 1] + rr
    requires Simplified(r, toleranceSq, 0, m) == l && Simplified(r, toleranceSq, m, |r| - 1) == rr
    ensures Simplified(r, toleranceSq, 0, |r| - 1) == r
  {
    SimplifiedStep(r, toleranceSq, 0, |r| - 1);
  }

  /**
   * After a split at f, the list kept has the split point at position m
   * and it is again the first farthest point beyond the tolerance.
   */
  lemma SplitKept(ps: seq<G.Point>, toleranceSq: real, lo: int, hi: int) returns (m: int)
    requires toleranceSq >= 0.0 && 0 <= lo < hi < |ps|
    requires Farthest(ps, lo, hi, hi).1 > toleranceSq
    ensures var f := Farthest(ps, lo, hi, hi).0;
      var l, rr := Simplified(ps, toleranceSq, lo, f), Simplified(ps, toleranceSq, f, hi);
      var r := l[..|l| - 1] + rr;
      m == |l| - 1 && 0 < m < |r| - 1 &&
      Farthest(r, 0, |r| - 1, |r| - 1) == (m, Farthest(ps, lo, hi, hi).1)
  {
    var f := Farthest(ps, lo, hi, hi).0;
    var left := SimplifiedIsSubsequence(ps, toleranceSq, lo, f);
    var right := SimplifiedIsSubsequence(ps, toleranceSq, f, hi);
    JoinShape(left, right, lo, f, hi, |ps|);
    PickSplit(ps, left, right);
    var ks := left[..|left| - 1] + right;
    m := |left| - 1;
    assert ks[m] == right[0] == f;
    SplitPointStaysFarthest(ps, lo, hi, ks, m);
  }

  /**
   * Simplifying the points kept from lo .. hi once more keeps them all: in
   * each range the same farthest point splits again, and a collapsed range
   * has nothing left between its ends.
   */
  lemma {:induction false} Resimplified(ps: seq<G.Point>, toleranceSq: real, lo: int, hi: int)
    requires toleranceSq >= 0.0 && 0 <= lo < hi < |ps|
    ensures var r := Simplified(ps, toleranceSq, lo, hi);
      Simplified(r, toleranceSq, 0, |r| - 1) == r
    decreases hi - lo
  {
    var far := Farthest(ps, lo, hi, hi);
    var r := Simplified(ps, toleranceSq, lo, hi);
    SimplifiedStep(ps, toleranceSq, lo, hi);
    if far.1 > toleranceSq {
      var f := far.0;
      var l, rr := Simplified(ps, toleranceSq, lo, f), Simplified(ps, toleranceSq, f, hi);
      var m := SplitKept(ps, toleranceSq, lo, hi);
      var n := |r| - 1;
      Resimplified(ps, toleranceSq, lo, f);
      Resimplified(ps, toleranceSq, f, hi);
      JoinRanges(l, rr);
      SimplifiedLocal(r, 0, m, l, 0, m, toleranceSq);
      SimplifiedLocal(r, m, n, rr, 0, |rr| - 1, toleranceSq);
      JoinFixed(r, toleranceSq, m, l, rr);
    } else {
      SimplifiedStep(r, toleranceSq, 0, 1);
    }
  }

  /** simplifyPoints is idempotent: simplifying a simplified line changes nothing. */
  lemma SimplifyIdempotent(ps: seq<G.Point>, tolerance: real)
    requires tolerance >= 0.0
    ensures SimplifyPoints(SimplifyPoints(ps, tolerance), tolerance) == SimplifyPoints(ps, tolerance)
  {
    if |ps| > 2 {
      var t2 := tolerance * tolerance;
      assert t2 >= 0.0;
      var r := Simplified(ps, t2, 0, |ps| - 1);
      assert SimplifyPoints(ps, tolerance) == r;
      Resimplified(ps, t2, 0, |ps| - 1);
      if |r| > 2 {
        assert SimplifyPoints(r, tolerance) == Simplified(r, t2, 0, |r| - 1);
      }
    }
  }

  /** The recursive step of simplifyPoints:withTolerance: on the points lo .. hi. */
  method SimplifyRange(ps: seq<G.Point>, toleranceSq: real, lo: int, hi: int) returns (r: seq<G.Point>)
    requires toleranceSq >= 0.0 && 0 <= lo < hi < |ps|
    ensures r == Simplified(ps, toleranceSq, lo, hi)
    decreases hi - lo
  {
    var index, dmax := FarthestPoint(ps, lo, hi);
    if dmax > toleranceSq {
      var left := SimplifyRange(ps, toleranceSq, lo, index);
      var right := SimplifyRange(ps, toleranceSq, index, hi);
      r := left[..|left| - 1] + right;
    } else {
      r := [ps[lo], ps[hi]];
    }
  }

  /** simplifyPoints:withTolerance: */
  method Simplify(ps: seq<G.Point>, tolerance: real) returns (r: seq<G.Point>)
    requires tolerance >= 0.0
    ensures r == SimplifyPoints(ps, tolerance)
  {
    if |ps| <= 2 {
      return ps;
    }
    assert tolerance * tolerance >= 0.0;
    r := SimplifyRange(ps, tolerance * tolerance, 0, |ps| - 1);
  }
}
