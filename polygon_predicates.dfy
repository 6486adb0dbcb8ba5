/**
 * The ring and polygon predicates of SFGeometryUtils: on the edge of a ring,
 * in a ring (crossing number), in a polygon (in the exterior ring and in no
 * hole) and on a polygon's edge. A ring's points need not repeat the first
 * point at the end: a ring that is not explicitly closed has the implicit
 * closing edge from its last point back to its first.
 */
module PolygonPredicates {
  import G = Geometries
  import opened Predicates
  import Reals
  import Wrappers

  // ------------------------------------------------------------ ring edges

  /** The first index of the ring scan: an explicitly closed ring skips its repeated point. */
  function ScanStart(ps: seq<G.Point>): nat {
    if ClosedPolygonPoints(ps) then 1 else 0
  }

  /** The index of the point before point i, going round the ring. */
  function Prev(ps: seq<G.Point>, i: int): (j: int)
    requires 0 <= i < |ps|
    ensures 0 <= j < |ps|
  {
    if i == 0 then |ps| - 1 else i - 1
  }

  /** Edge i of the ring runs from the point before point i to point i. */
  predicate OnRingEdge(p: G.Point, ps: seq<G.Point>, i: int, epsilon: real)
    requires 0 <= i < |ps|
  {
    OnPath(p, ps[Prev(ps, i)], ps[i], epsilon)
  }

  /**
   * onPolygonPointsEdge: p is on one of the ring's edges, the closing edge
   * included when the ring is not explicitly closed.
   */
  predicate OnPolygonPointsEdge(p: G.Point, ps: seq<G.Point>, epsilon: real) {
    exists i :: ScanStart(ps) <= i < |ps| && OnRingEdge(p, ps, i, epsilon)
  }

  predicate OnPolygonRingEdge(p: G.Point, ring: G.LineString, epsilon: real) {
    OnPolygonPointsEdge(p, ring.points, epsilon)
  }

  /** onPolygonEdge: p is on the edge of the exterior ring. */
  predicate OnPolygonEdge(p: G.Point, polygon: G.Polygon, epsilon: real) {
    |polygon.rings| > 0 && OnPolygonRingEdge(p, polygon.rings[0], epsilon)
  }

  /**
   * point:onPolygonPointsEdge:withEpsilon: the ring's points as a line, then,
   * when the ring is not explicitly closed, the path from the last point back
   * to the first.
   */
  method PointOnPolygonPointsEdge(p: G.Point, ps: seq<G.Point>, epsilon: real) returns (onEdge: bool)
    ensures onEdge == OnPolygonPointsEdge(p, ps, epsilon)
  {
    onEdge := PointOnLinePoints(p, ps, epsilon);
    if onEdge {
      var k :| 0 <= k < |ps| - 1 && OnLineSegment(p, ps, k, epsilon);
      assert OnRingEdge(p, ps, k + 1, epsilon);
    } else {
      if |ps| > 0 && !ClosedPolygonPoints(ps) {
        onEdge := OnPath(p, ps[|ps| - 1], ps[0], epsilon);
        assert onEdge ==> OnRingEdge(p, ps, 0, epsilon);
      }
      if OnPolygonPointsEdge(p, ps, epsilon) {
        var i :| ScanStart(ps) <= i < |ps| && OnRingEdge(p, ps, i, epsilon);
        if i > 0 {
          assert OnLineSegment(p, ps, i - 1, epsilon);
        }
      }
    }
  }

  /** A ring's points, closed explicitly, lie on the same edges. */
  lemma ExplicitClosingKeepsEdges(p: G.Point, ps: seq<G.Point>, epsilon: real)
    requires |ps| > 0 && !ClosedPolygonPoints(ps)
    ensures OnPolygonPointsEdge(p, ps + [ps[0]], epsilon) == OnPolygonPointsEdge(p, ps, epsilon)
  {
    var cs, n := ps + [ps[0]], |ps|;
    ClosingCloses(ps);
    assert ScanStart(cs) == 1 && ScanStart(ps) == 0;
    if OnPolygonPointsEdge(p, ps, epsilon) {
      var i :| 0 <= i < n && OnRingEdge(p, ps, i, epsilon);
      if i == 0 {
        assert OnRingEdge(p, cs, n, epsilon);
      } else {
        assert OnRingEdge(p, cs, i, epsilon);
      }
    }
    if OnPolygonPointsEdge(p, cs, epsilon) {
      var i :| 1 <= i < n + 1 && OnRingEdge(p, cs, i, epsilon);
      if i == n {
        assert OnRingEdge(p, ps, 0, epsilon);
      } else {
        assert OnRingEdge(p, ps, i, epsilon);
      }
    }
  }

  /**
   * Every vertex of a ring is on its edge when one of the scanned edges it
   * ends, edge j from point Prev(j) to point j, does not have zero length.
   */
  lemma VertexOnRingEdge(ps: seq<G.Point>, i: int, j: int, epsilon: real)
    requires ScanStart(ps) <= j < |ps| && (i == j || i == Prev(ps, j)) && epsilon >= 0.0
    requires !Degenerate(ps[Prev(ps, j)], ps[j])
    ensures OnPolygonPointsEdge(ps[i], ps, epsilon)
  {
    PathEndsOnPath(ps[Prev(ps, j)], ps[j], epsilon);
    assert OnRingEdge(ps[i], ps, j, epsilon);
  }

  /**
   * The closing edge of an explicitly closed ring has zero length, so the
   * scan loses nothing by starting after it.
   */
  lemma ClosingEdgeSkipped(p: G.Point, ps: seq<G.Point>, epsilon: real)
    requires ClosedPolygonPoints(ps)
    ensures !OnRingEdge(p, ps, 0, epsilon)
  {
  }

  // ------------------------------------------------------------ in ring

  /** p lies within epsilon of vertex q on both the x and the y axis. */
  predicate NearVertex(p: G.Point, q: G.Point, epsilon: real) {
    Abs(q.x - p.x) <= epsilon && Abs(q.y - p.y) <= epsilon
  }

  predicate NearSomeVertex(p: G.Point, ps: seq<G.Point>, epsilon: real) {
    exists i :: ScanStart(ps) <= i < |ps| && NearVertex(p, ps[i], epsilon)
  }

  /**
   * The edge from q2 to q1 straddles the horizontal line through p, and
   * meets it to the right of p. The division is safe: the straddle makes
   * the two y values differ.
   */
  predicate Crosses(p: G.Point, q1: G.Point, q2: G.Point) {
    (q1.y > p.y) != (q2.y > p.y) &&
    p.x < (q2.x - q1.x) * (p.y - q1.y) / (q2.y - q1.y) + q1.x
  }

  /** How many of the ring edges lo .. hi - 1 the rightward ray from p crosses. */
  function Crossings(p: G.Point, ps: seq<G.Point>, lo: int, hi: int): (c: nat)
    requires 0 <= lo <= hi <= |ps|
    ensures c <= hi - lo
    decreases hi - lo
  {
    if lo == hi then 0
    else Crossings(p, ps, lo, hi - 1) + (if Crosses(p, ps[hi - 1], ps[Prev(ps, hi - 1)]) then 1 else 0)
  }

  /**
   * inPolygonPoints: p is within epsilon of a vertex, or the ray from p
   * crosses the ring's edges an odd number of times, or p is exactly on an
   * edge.
   */
  predicate InPolygonPoints(p: G.Point, ps: seq<G.Point>, epsilon: real) {
    NearSomeVertex(p, ps, epsilon) ||
    Crossings(p, ps, ScanStart(ps), |ps|) % 2 == 1 ||
    OnPolygonPointsEdge(p, ps, DefaultEpsilon)
  }

  predicate InPolygonRing(p: G.Point, ring: G.LineString, epsilon: real) {
    InPolygonPoints(p, ring.points, epsilon)
  }

  /**
   * point:inPolygonPoints:withEpsilon: visits each point i with the point j
   * before it, answering yes at the first vertex near p and toggling on each
   * crossing edge; a point not found inside is then tested exactly against
   * the edges.
   */
  method PointInPolygonPoints(p: G.Point, ps: seq<G.Point>, epsilon: real) returns (contains: bool)
    ensures contains == InPolygonPoints(p, ps, epsilon)
  {
    contains := false;
    var n := |ps|;
    var i, j := 0, n - 1;
    if ClosedPolygonPoints(ps) {
      i, j := 1, 0;
    }
    ghost var start := i;
    while i < n
      invariant start == ScanStart(ps) <= i <= n
      invariant i < n ==> j == Prev(ps, i)
      invariant contains == (Crossings(p, ps, start, i) % 2 == 1)
      invariant forall k :: start <= k < i ==> !NearVertex(p, ps[k], epsilon)
    {
      if NearVertex(p, ps[i], epsilon) {
        contains := true;
        break;
      }
      CrossingsParityStep(p, ps, start, i);
      if Crosses(p, ps[i], ps[j]) {
        contains := !contains;
      }
      i, j := i + 1, i;
    }
    if !contains {
      contains := PointOnPolygonPointsEdge(p, ps, DefaultEpsilon);
    }
  }

  /** Counting one more edge flips the parity exactly when that edge crosses. */
  lemma CrossingsParityStep(p: G.Point, ps: seq<G.Point>, lo: int, hi: int)
    requires 0 <= lo <= hi < |ps|
    ensures (Crossings(p, ps, lo, hi + 1) % 2 == 1) ==
            ((Crossings(p, ps, lo, hi) % 2 == 1) != Crosses(p, ps[hi], ps[Prev(ps, hi)]))
  {
  }

  /** The first edge of the range counted on its own. */
  lemma {:induction false} CrossingsFirst(p: G.Point, ps: seq<G.Point>, lo: int, hi: int)
    requires 0 <= lo < hi <= |ps|
    ensures Crossings(p, ps, lo, hi)
            == (if Crosses(p, ps[lo], ps[Prev(ps, lo)]) then 1 else 0) + Crossings(p, ps, lo + 1, hi)
    decreases hi - lo
  {
    if hi > lo + 1 {
      CrossingsFirst(p, ps, lo, hi - 1);
    }
  }

  /** Two rings whose edges lo .. hi - 1 are the same edges cross the ray equally often. */
  lemma {:induction false} CrossingsAgree(p: G.Point, ps: seq<G.Point>, qs: seq<G.Point>, lo: int, hi: int)
    requires 0 <= lo <= hi <= |ps| && hi <= |qs|
    requires forall k :: lo <= k < hi ==> ps[k] == qs[k] && ps[Prev(ps, k)] == qs[Prev(qs, k)]
    ensures Crossings(p, ps, lo, hi) == Crossings(p, qs, lo, hi)
    decreases hi - lo
  {
    if lo < hi {
      CrossingsAgree(p, ps, qs, lo, hi - 1);
    }
  }

  /** A ring's points, closed explicitly, enclose the same points. */
  lemma ExplicitClosingKeepsInside(p: G.Point, ps: seq<G.Point>, epsilon: real)
    requires |ps| > 0 && !ClosedPolygonPoints(ps)
    ensures InPolygonPoints(p, ps + [ps[0]], epsilon) == InPolygonPoints(p, ps, epsilon)
  {
    var cs, n := ps + [ps[0]], |ps|;
    ClosingCloses(ps);
    assert ScanStart(cs) == 1 && ScanStart(ps) == 0;
    // the same crossings: edges 1 .. n - 1 coincide, and edge n of cs is edge 0 of ps
    CrossingsAgree(p, ps, cs, 1, n);
    CrossingsFirst(p, ps, 0, n);
    assert cs[n] == ps[0] && cs[Prev(cs, n)] == ps[Prev(ps, 0)];
    assert Crossings(p, cs, 1, n + 1) == Crossings(p, ps, 0, n);
    // the same vertices
    if NearSomeVertex(p, ps, epsilon) {
      var i :| 0 <= i < n && NearVertex(p, ps[i], epsilon);
      if i == 0 {
        assert NearVertex(p, cs[n], epsilon);
      } else {
        assert NearVertex(p, cs[i], epsilon);
      }
    }
    if NearSomeVertex(p, cs, epsilon) {
      var i :| 1 <= i < n + 1 && NearVertex(p, cs[i], epsilon);
      if i == n {
        assert NearVertex(p, ps[0], epsilon);
      } else {
        assert NearVertex(p, ps[i], epsilon);
      }
    }
    // the same edges
    ExplicitClosingKeepsEdges(p, ps, DefaultEpsilon);
  }

  /** Every vertex of a ring of two or more points is in the ring. */
  lemma VertexInRing(ps: seq<G.Point>, i: int, epsilon: real)
    requires |ps| >= 2 && 0 <= i < |ps| && epsilon >= 0.0
    ensures InPolygonPoints(ps[i], ps, epsilon)
  {
    var k := if i >= ScanStart(ps) then i else |ps| - 1;
    assert ps[k].x - ps[i].x == 0.0 && ps[k].y - ps[i].y == 0.0;
    assert NearVertex(ps[i], ps[k], epsilon);
  }

  // ------------------------------------------------------------ polygon

  // ------------------------------------------------------------ the unit square

  /** A two-dimensional point. */
  function XY(x: real, y: real): G.Point {
    G.Point(false, false, x, y, Wrappers.None, Wrappers.None)
  }

  /** The unit square, not explicitly closed. */
  function UnitSquare(): seq<G.Point> {
    [XY(0.0, 0.0), XY(1.0, 0.0), XY(1.0, 1.0), XY(0.0, 1.0)]
  }

  /** The square's centre is in it: the ray from it crosses the edge x = 1 only. */
  lemma UnitSquareHoldsCentre()
    ensures InPolygonPoints(XY(0.5, 0.5), UnitSquare(), DefaultEpsilon)
  {
    var p, ps := XY(0.5, 0.5), UnitSquare();
    assert !ClosedPolygonPoints(ps);
    assert !Crosses(p, ps[0], ps[3]);
    assert !Crosses(p, ps[1], ps[0]);
    assert Crosses(p, ps[2], ps[1]);
    assert !Crosses(p, ps[3], ps[2]);
    assert Crossings(p, ps, 0, 4) == 1;
  }

  /**
   * A point of the exact path from a to b lies no farther right than the
   * farther right of its two ends.
   */
  lemma OnPathLeftOf(p: G.Point, a: G.Point, b: G.Point)
    requires OnPath(p, a, b, 0.0)
    ensures p.x <= a.x || p.x <= b.x
  {
    OnPathExactly(p, a, b);
    var t :| OnSegmentAt(p, a, b, t);
    var m := (1.0 - t) * (b.x - a.x);
    Reals.ProductSign(1.0 - t, b.x - a.x, m);
    Reals.ProductSign(t, a.x - b.x, t * (a.x - b.x));
  }

  /** A point right of the square is not in it: no vertex, no crossing, no edge. */
  lemma UnitSquareExcludesRight()
    ensures !InPolygonPoints(XY(1.5, 0.5), UnitSquare(), DefaultEpsilon)
  {
    var p, ps := XY(1.5, 0.5), UnitSquare();
    assert !ClosedPolygonPoints(ps);
    assert !Crosses(p, ps[0], ps[3]);
    assert !Crosses(p, ps[1], ps[0]);
    assert !Crosses(p, ps[2], ps[1]);
    assert !Crosses(p, ps[3], ps[2]);
    assert Crossings(p, ps, 0, 4) == 0;
    forall i | 0 <= i < |ps|
      ensures !NearVertex(p, ps[i], DefaultEpsilon) && !OnRingEdge(p, ps, i, DefaultEpsilon)
    {
      assert ps[i].x <= 1.0 && ps[Prev(ps, i)].x <= 1.0;
      if OnRingEdge(p, ps, i, DefaultEpsilon) {
        OnPathLeftOf(p, ps[Prev(ps, i)], ps[i]);
      }
    }
  }

  /** inPolygon: p is in the exterior ring and in none of the holes. */
  predicate InPolygon(p: G.Point, polygon: G.Polygon, epsilon: real) {
    |polygon.rings| > 0 &&
    InPolygonRing(p, polygon.rings[0], epsilon) &&
    forall h :: 1 <= h < |polygon.rings| ==> !InPolygonRing(p, polygon.rings[h], epsilon)
  }

  /** point:inPolygon:withEpsilon: the exterior ring, then the holes until one contains p. */
  method PointInPolygon(p: G.Point, polygon: G.Polygon, epsilon: real) returns (contains: bool)
    ensures contains == InPolygon(p, polygon, epsilon)
  {
    contains := false;
    var rings := polygon.rings;
    if |rings| > 0 {
      contains := PointInPolygonPoints(p, rings[0].points, epsilon);
      if contains {
        var h := 1;
        while h < |rings|
          invariant 1 <= h <= |rings|
          invariant forall k :: 1 <= k < h ==> !InPolygonRing(p, rings[k], epsilon)
        {
          var inHole := PointInPolygonPoints(p, rings[h].points, epsilon);
          if inHole {
            contains := false;
            break;
          }
          h := h + 1;
        }
      }
    }
  }
}
