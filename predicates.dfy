/**
 * The point predicates of SFGeometryUtils: point on a path between two
 * points, on a line, on a polygon ring's edge, in a polygon ring and in a
 * polygon, each with an epsilon line tolerance, and the explicit ring
 * closure tests. Only x and y take part. Distances are compared squared, so
 * "distance <= epsilon" reads "distance squared <= epsilon squared" with
 * epsilon >= 0, and a negative epsilon admits nothing.
 */
module Predicates {
  import G = Geometries
  import opened Reals

  /** The tolerance of the overloads that take no epsilon: exact. */
  const DefaultEpsilon: real := 0.0

  function Abs(v: real): real { if v < 0.0 then -v else v }

  // ------------------------------------------------------------ vectors

  /** Squared Euclidean distance between two points in the x/y plane. */
  function DistanceSq(p: G.Point, q: G.Point): real {
    (p.x - q.x) * (p.x - q.x) + (p.y - q.y) * (p.y - q.y)
  }

  /** (p - a) . (b - a) */
  function Dot(p: G.Point, a: G.Point, b: G.Point): real {
    (p.x - a.x) * (b.x - a.x) + (p.y - a.y) * (b.y - a.y)
  }

  /** (p - a) x (b - a): zero exactly when p is on the line through a and b. */
  function Cross(p: G.Point, a: G.Point, b: G.Point): real {
    (p.x - a.x) * (b.y - a.y) - (p.y - a.y) * (b.x - a.x)
  }

  lemma DistanceSqSymmetric(p: G.Point, q: G.Point)
    ensures DistanceSq(p, q) == DistanceSq(q, p)
  {
    assert (q.x - p.x) * (q.x - p.x) == (p.x - q.x) * (p.x - q.x);
    assert (q.y - p.y) * (q.y - p.y) == (p.y - q.y) * (p.y - q.y);
  }

  // ------------------------------------------------------------ on path

  /** The ends of the segment [a, b] coincide in x and y. */
  predicate Degenerate(a: G.Point, b: G.Point) {
    a.x == b.x && a.y == b.y
  }

  /**
   * point:onPathPoint1:andPoint2:withEpsilon: the point's projection on the
   * segment [a, b] lies within the segment and its perpendicular distance to
   * the segment is at most epsilon. A segment whose ends coincide is
   * skipped: no point is on it, and nothing is divided by its zero length.
   */
  predicate OnPath(p: G.Point, a: G.Point, b: G.Point, epsilon: real) {
    epsilon >= 0.0 && !Degenerate(a, b) &&
    var c2 := DistanceSq(b, a);
    0.0 <= Dot(p, a, b) <= c2 && Cross(p, a, b) * Cross(p, a, b) <= epsilon * epsilon * c2
  }

  /** p is the point a + t (b - a) with t in [0, 1]. */
  predicate OnSegmentAt(p: G.Point, a: G.Point, b: G.Point, t: real) {
    0.0 <= t <= 1.0 && p.x == a.x + t * (b.x - a.x) && p.y == a.y + t * (b.y - a.y)
  }

  /**
   * Both ends of a path lie on it, for any tolerance that is not negative,
   * unless the path has zero length and is skipped.
   */
  lemma PathEndsOnPath(a: G.Point, b: G.Point, epsilon: real)
    requires epsilon >= 0.0
    ensures OnPath(a, a, b, epsilon) <==> !Degenerate(a, b)
    ensures OnPath(b, a, b, epsilon) <==> !Degenerate(a, b)
  {
    assert epsilon * epsilon >= 0.0;
    if !Degenerate(a, b) {
      var c2 := DistanceSq(b, a);
      assert c2 >= 0.0;
      assert Dot(a, a, b) == 0.0 && Cross(a, a, b) == 0.0;
      assert Dot(b, a, b) == c2;
      assert Cross(b, a, b) == 0.0;
      assert epsilon * epsilon * c2 >= 0.0;
    }
  }

  /**
   * Every point of the closed segment [a, b] is on the path, whatever the
   * tolerance (that is not negative), exactly when the segment is not skipped
   * for having zero length.
   */
  lemma SegmentOnPath(p: G.Point, a: G.Point, b: G.Point, t: real, epsilon: real)
    requires OnSegmentAt(p, a, b, t) && epsilon >= 0.0
    ensures OnPath(p, a, b, epsilon) <==> !Degenerate(a, b)
  {
    var dx, dy := b.x - a.x, b.y - a.y;
    var wx, wy := p.x - a.x, p.y - a.y;
    assert wx == t * dx && wy == t * dy;
    assert epsilon * epsilon >= 0.0;
    if !Degenerate(a, b) {
      var c2 := DistanceSq(b, a);
      assert c2 == dx * dx + dy * dy;
      assert c2 >= 0.0;
      assert Dot(p, a, b) == t * c2;
      assert t * c2 <= c2;
      assert Cross(p, a, b) == t * dx * dy - t * dy * dx;
      assert epsilon * epsilon * c2 >= 0.0;
    }
  }

  /** The path from a to b is the path from b to a. */
  lemma OnPathSymmetric(p: G.Point, a: G.Point, b: G.Point, epsilon: real)
    ensures OnPath(p, a, b, epsilon) == OnPath(p, b, a, epsilon)
  {
    DistanceSqSymmetric(a, b);
    if !Degenerate(a, b) {
      assert Dot(p, b, a) == DistanceSq(b, a) - Dot(p, a, b);
      assert Cross(p, b, a) == -Cross(p, a, b);
    }
  }

  /** The point a + t (b - a); only x and y take part in the distances. */
  function PointAt(a: G.Point, b: G.Point, t: real): G.Point {
    a.(x := a.x + t * (b.x - a.x), y := a.y + t * (b.y - a.y))
  }

  /** A squared distance is never negative, and is zero exactly at the same x and y. */
  lemma DistanceSqSign(p: G.Point, q: G.Point)
    ensures DistanceSq(p, q) >= 0.0
    ensures DistanceSq(p, q) <= 0.0 <==> p.x == q.x && p.y == q.y
  {
    SumSquaresSign(p.x - q.x, p.y - q.y, DistanceSq(p, q));
  }

  /** A segment whose ends differ has a positive squared length. */
  lemma LengthPositive(a: G.Point, b: G.Point)
    requires !Degenerate(a, b)
    ensures DistanceSq(b, a) > 0.0
  {
    DistanceSqSign(b, a);
  }

  /** The squared distance from p to the point a + t (b - a), as a polynomial in t. */
  lemma DistanceAlong(p: G.Point, a: G.Point, b: G.Point, t: real)
    ensures DistanceSq(p, PointAt(a, b, t)) ==
      DistanceSq(p, a) - 2.0 * t * Dot(p, a, b) + t * t * DistanceSq(b, a)
  {
    var q := PointAt(a, b, t);
    var ux, uy := p.x - q.x, p.y - q.y;
    assert DistanceSq(p, q) == ux * ux + uy * uy;
    AlongSquares(ux, uy, p.x - a.x, p.y - a.y, b.x - a.x, b.y - a.y, t,
                 DistanceSq(p, a), Dot(p, a, b), DistanceSq(b, a));
  }

  /** Lagrange's identity: projection squared plus cross product squared. */
  lemma Lagrange(p: G.Point, a: G.Point, b: G.Point)
    ensures Dot(p, a, b) * Dot(p, a, b) + Cross(p, a, b) * Cross(p, a, b) ==
            DistanceSq(p, a) * DistanceSq(b, a)
  {
    var wx, wy, dx, dy := p.x - a.x, p.y - a.y, b.x - a.x, b.y - a.y;
    assert (wx * dx + wy * dy) * (wx * dx + wy * dy) + (wx * dy - wy * dx) * (wx * dy - wy * dx)
        == (wx * wx + wy * wy) * (dx * dx + dy * dy);
  }

  /**
   * The projection of p on the line through a and b lies at the cross
   * product's distance from p: its squared distance times the squared
   * length is the cross product squared.
   */
  lemma FootDistance(p: G.Point, a: G.Point, b: G.Point)
    requires !Degenerate(a, b)
    ensures DistanceSq(b, a) > 0.0
    ensures DistanceSq(p, PointAt(a, b, Dot(p, a, b) / DistanceSq(b, a))) * DistanceSq(b, a)
            == Cross(p, a, b) * Cross(p, a, b)
  {
    LengthPositive(a, b);
    DivisionCancels(Dot(p, a, b), DistanceSq(b, a));
    FootAt(p, a, b, Dot(p, a, b) / DistanceSq(b, a));
  }

  /** The same at any parameter t with t c2 = c1, free of the division. */
  lemma FootAt(p: G.Point, a: G.Point, b: G.Point, t: real)
    ensures t * DistanceSq(b, a) == Dot(p, a, b) ==>
            DistanceSq(p, PointAt(a, b, t)) * DistanceSq(b, a) == Cross(p, a, b) * Cross(p, a, b)
  {
    DistanceAlong(p, a, b, t);
    Lagrange(p, a, b);
    FootScaled(DistanceSq(p, a), Dot(p, a, b), DistanceSq(b, a), t,
               DistanceSq(p, PointAt(a, b, t)), Cross(p, a, b) * Cross(p, a, b));
  }

  /**
   * The quadratic f = w - 2 t c1 + t^2 c2 at t = c1 / c2, scaled by c2, is
   * k2 when c1^2 + k2 = w c2.
   */
  lemma FootScaled(w: real, c1: real, c2: real, t: real, f: real, k2: real)
    ensures t * c2 == c1 && f == w - 2.0 * t * c1 + t * t * c2 && c1 * c1 + k2 == w * c2 ==>
            f * c2 == k2
  {
    if t * c2 == c1 && f == w - 2.0 * t * c1 + t * t * c2 {
      SameProduct(f, c2, w - 2.0 * t * c1 + t * t * c2, c2);
      SameProduct(t, c1, t, t * c2);
      SameProduct(c1, c1, t * c2, c1);
    }
  }

  /**
   * With no tolerance the path of a segment that is not skipped is exactly
   * the closed segment: a point is on it if and only if it is a + t (b - a)
   * for some t in [0, 1].
   */
  lemma OnPathExactly(p: G.Point, a: G.Point, b: G.Point)
    ensures OnPath(p, a, b, 0.0) <==> !Degenerate(a, b) && exists t :: OnSegmentAt(p, a, b, t)
  {
    if t :| OnSegmentAt(p, a, b, t) {
      SegmentOnPath(p, a, b, t, 0.0);
    }
    if OnPath(p, a, b, 0.0) {
      var c1, c2 := Dot(p, a, b), DistanceSq(b, a);
      LengthPositive(a, b);
      var t := c1 / c2;
      if c1 == 0.0 { assert t == 0.0; } else { QuotientAtMostOne(c1, c2); }
      DivisionCancels(c1, c2);
      var k := Cross(p, a, b);
      var kk := k * k;
      SquareSign(k, kk);
      CollinearMultiple(p.x - a.x, p.y - a.y, b.x - a.x, b.y - a.y, t, c2);
      assert OnSegmentAt(p, a, b, t);
    }
  }

  // ------------------------------------------------------------ closure

  /**
   * closedPolygonPoints: the list is explicitly closed, its first and last
   * points having the same x and y. An empty list is not closed.
   */
  predicate ClosedPolygonPoints(ps: seq<G.Point>) {
    |ps| > 0 && ps[0].x == ps[|ps| - 1].x && ps[0].y == ps[|ps| - 1].y
  }

  /** closedPolygonRing: the ring's points are explicitly closed. */
  predicate ClosedPolygonRing(ring: G.LineString) {
    ClosedPolygonPoints(ring.points)
  }

  /** closedPolygon: the exterior ring is explicitly closed; a polygon without rings is not. */
  predicate ClosedPolygon(polygon: G.Polygon) {
    |polygon.rings| > 0 && ClosedPolygonRing(polygon.rings[0])
  }

  /** Repeating the first point at the end closes any non-empty list. */
  lemma ClosingCloses(ps: seq<G.Point>)
    requires |ps| > 0
    ensures ClosedPolygonPoints(ps + [ps[0]])
    ensures (ps + [ps[0]])[..|ps|] == ps
  {
  }

  /**
   * Closure looks only at the ends: replacing an interior point keeps it,
   * and dropping the repeated last point of a closed list whose last point
   * differs in x or y from the one before opens it.
   */
  lemma ClosureAtEnds(ps: seq<G.Point>, i: int, q: G.Point)
    requires 0 < i < |ps| - 1
    ensures ClosedPolygonPoints(ps[i := q]) == ClosedPolygonPoints(ps)
    ensures ClosedPolygonPoints(ps) && (ps[|ps| - 2].x != ps[0].x || ps[|ps| - 2].y != ps[0].y)
            ==> !ClosedPolygonPoints(ps[..|ps| - 1])
  {
  }

  // ------------------------------------------------------------ on line

  /** The segment from point k to point k + 1 of the list carries p. */
  predicate OnLineSegment(p: G.Point, ps: seq<G.Point>, k: int, epsilon: real)
    requires 0 <= k < |ps| - 1
  {
    OnPath(p, ps[k], ps[k + 1], epsilon)
  }

  /** onLinePoints: p is on the path between some consecutive pair of points. */
  predicate OnLinePoints(p: G.Point, ps: seq<G.Point>, epsilon: real) {
    exists k :: 0 <= k < |ps| - 1 && OnLineSegment(p, ps, k, epsilon)
  }

  /** onLine: p is on the line string's path. */
  predicate OnLine(p: G.Point, line: G.LineString, epsilon: real) {
    OnLinePoints(p, line.points, epsilon)
  }

  /** The scan of point:onLinePoints:withEpsilon:, stopping at the first segment carrying p. */
  method PointOnLinePoints(p: G.Point, ps: seq<G.Point>, epsilon: real) returns (onLine: bool)
    ensures onLine == OnLinePoints(p, ps, epsilon)
  {
    var i := 0;
    while i < |ps| - 1
      invariant 0 <= i
      invariant forall k :: 0 <= k < i && k < |ps| - 1 ==> !OnLineSegment(p, ps, k, epsilon)
    {
      if OnPath(p, ps[i], ps[i + 1], epsilon) {
        assert OnLineSegment(p, ps, i, epsilon);
        return true;
      }
      i := i + 1;
    }
    return false;
  }

  /**
   * Every vertex of a line is on the line when one of the segments it ends,
   * segment k from point k to point k + 1, does not have zero length.
   */
  lemma VertexOnLine(ps: seq<G.Point>, i: int, k: int, epsilon: real)
    requires 0 <= k < |ps| - 1 && (i == k || i == k + 1) && epsilon >= 0.0
    requires !Degenerate(ps[k], ps[k + 1])
    ensures OnLinePoints(ps[i], ps, epsilon)
  {
    PathEndsOnPath(ps[k], ps[k + 1], epsilon);
    assert OnLineSegment(ps[i], ps, k, epsilon);
  }

  /** A line whose segments all have zero length is skipped entirely: nothing is on it. */
  lemma ZeroLengthLineHoldsNothing(p: G.Point, ps: seq<G.Point>, epsilon: real)
    requires forall k :: 0 <= k < |ps| - 1 ==> Degenerate(ps[k], ps[k + 1])
    ensures !OnLinePoints(p, ps, epsilon)
  {
  }

  /** Extending a line at its end keeps every point that was on it. */
  lemma OnLineExtended(p: G.Point, ps: seq<G.Point>, qs: seq<G.Point>, epsilon: real)
    requires OnLinePoints(p, ps, epsilon)
    ensures OnLinePoints(p, ps + qs, epsilon)
  {
    var k :| 0 <= k < |ps| - 1 && OnLineSegment(p, ps, k, epsilon);
    assert (ps + qs)[k] == ps[k] && (ps + qs)[k + 1] == ps[k + 1];
    assert OnLineSegment(p, ps + qs, k, epsilon);
  }

  /** The points in the opposite order. */
  function Reverse(ps: seq<G.Point>): (r: seq<G.Point>)
    ensures |r| == |ps|
    ensures forall k :: 0 <= k < |ps| ==> r[k] == ps[|ps| - 1 - k]
  {
    if ps == [] then [] else Reverse(ps[1..]) + [ps[0]]
  }

  /** A line traversed backwards carries the same points. */
  lemma OnLineReversed(p: G.Point, ps: seq<G.Point>, epsilon: real)
    ensures OnLinePoints(p, Reverse(ps), epsilon) == OnLinePoints(p, ps, epsilon)
  {
    var r, n := Reverse(ps), |ps|;
    if OnLinePoints(p, ps, epsilon) {
      var k :| 0 <= k < n - 1 && OnLineSegment(p, ps, k, epsilon);
      OnPathSymmetric(p, ps[k], ps[k + 1], epsilon);
      assert OnLineSegment(p, r, n - 2 - k, epsilon);
    }
    if OnLinePoints(p, r, epsilon) {
      var k :| 0 <= k < n - 1 && OnLineSegment(p, r, k, epsilon);
      OnPathSymmetric(p, r[k], r[k + 1], epsilon);
      assert OnLineSegment(p, ps, n - 2 - k, epsilon);
    }
  }
}
