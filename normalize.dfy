/**
 * normalizeGeometry:withMaxX: and minimizeGeometry:withMaxX: of
 * SFGeometryUtils. A projection's x values repeat every world width of
 * 2 maxX (360 degrees for WGS84 with maxX 180). Normalizing moves each x
 * lying outside [-maxX, maxX] by whole world widths into that range.
 * Minimizing moves each later point of a line string by one world width
 * towards the line's first point when it lies more than half a world
 * (maxX) away from it, so the line takes the short way across the
 * antimeridian. Only x changes.
 */
module Normalization {
  import G = Geometries
  import opened Reals

  /** The smallest integer not below r. */
  function Ceiling(r: real): (k: int)
    ensures k as real - 1.0 < r <= k as real
  {
    -((-r).Floor)
  }

  /** k whole units of w cover d = q w when q is at most k. */
  lemma ScaledCoverBelow(q: real, k: real, w: real, d: real)
    requires q <= k && w > 0.0 && q * w == d
    ensures d <= k * w
  {
    var u := k - q;
    ProductPositive(u, w);
    assert u == 0.0 ==> u * w == 0.0;
    assert k * w == d + u * w;
  }

  /** k whole units of w fall short of d + w when q = d / w is more than k - 1. */
  lemma ScaledCoverAbove(q: real, k: real, w: real, d: real)
    requires k - 1.0 < q && w > 0.0 && q * w == d
    ensures k * w < d + w
  {
    var u := 1.0 - (k - q);
    ProductPositive(u, w);
    assert u * w == w - k * w + d;
  }

  /** The fewest whole widths w that cover d: at least d, and less than d + w. */
  lemma WidthsCover(d: real, w: real)
    requires d > 0.0 && w > 0.0
    ensures d <= Ceiling(d / w) as real * w < d + w
  {
    DivisionCancels(d, w);
    ScaledCoverBelow(d / w, Ceiling(d / w) as real, w, d);
    ScaledCoverAbove(d / w, Ceiling(d / w) as real, w, d);
  }

  // ------------------------------------------------------------ normalize

  /**
   * x moved by whole world widths into [-maxX, maxX]: down by the fewest
   * widths that bring it to maxX or below, or up by the fewest that bring
   * it to -maxX or above. An x within the range stays.
   */
  function NormalizeX(x: real, maxX: real): (r: real)
    requires maxX > 0.0
    ensures -maxX <= r <= maxX
    ensures -maxX <= x <= maxX ==> r == x
  {
    var w := 2.0 * maxX;
    if x > maxX then
      WidthsCover(x - maxX, w);
      x - Ceiling((x - maxX) / w) as real * w
    else if x < -maxX then
      WidthsCover(-maxX - x, w);
      x + Ceiling((-maxX - x) / w) as real * w
    else x
  }

  /** Normalizing moves x by a whole number n of world widths. */
  lemma NormalizeByWholeWidths(x: real, maxX: real) returns (n: int)
    requires maxX > 0.0
    ensures NormalizeX(x, maxX) == x + n as real * (2.0 * maxX)
  {
    var w := 2.0 * maxX;
    if x > maxX {
      n := -Ceiling((x - maxX) / w);
    } else if x < -maxX {
      n := Ceiling((-maxX - x) / w);
    } else {
      n := 0;
    }
  }

  /**
   * Within three half-widths of the origin one width is enough, so
   * normalizing agrees there with a single shift by the world width.
   */
  lemma NormalizeNearRange(x: real, maxX: real)
    requires maxX > 0.0 && -3.0 * maxX <= x <= 3.0 * maxX
    ensures NormalizeX(x, maxX) ==
      if x > maxX then x - 2.0 * maxX else if x < -maxX then x + 2.0 * maxX else x
  {
    var w := 2.0 * maxX;
    if x > maxX {
      QuotientAtMostOne(x - maxX, w);
    } else if x < -maxX {
      QuotientAtMostOne(-maxX - x, w);
      assert Ceiling((-maxX - x) / w) == 1;
    }
  }

  function NormalizePoint(p: G.Point, maxX: real): G.Point
    requires maxX > 0.0
  {
    p.(x := NormalizeX(p.x, maxX))
  }

  /** Every point normalized, in place: its x in [-maxX, maxX], all else kept. */
  function NormalizedPoints(ps: seq<G.Point>, maxX: real): (r: seq<G.Point>)
    requires maxX > 0.0
    ensures |r| == |ps|
    ensures forall i :: 0 <= i < |r| ==> r[i] == NormalizePoint(ps[i], maxX)
  {
    seq(|ps|, i requires 0 <= i < |ps| => NormalizePoint(ps[i], maxX))
  }

  /** Normalizing the points of a line string, one point at a time. */
  method NormalizePoints(a: array<G.Point>, maxX: real)
    requires maxX > 0.0
    modifies a
    ensures a[..] == NormalizedPoints(old(a[..]), maxX)
  {
    var i := 0;
    while i < a.Length
      invariant 0 <= i <= a.Length
      invariant forall k :: 0 <= k < i ==> a[k] == NormalizePoint(old(a[k]), maxX)
      invariant forall k :: i <= k < a.Length ==> a[k] == old(a[k])
    {
      a[i] := a[i].(x := NormalizeX(a[i].x, maxX));
      i := i + 1;
    }
  }

  // ------------------------------------------------------------ minimize

  /**
   * x of a later point moved by one world width towards the x of the first
   * point when more than maxX away from it.
   */
  function MinimizeX(first: real, x: real, maxX: real): real {
    if x - first > maxX then x - 2.0 * maxX
    else if first - x > maxX then x + 2.0 * maxX
    else x
  }

  /** The points of a line string minimized against its first point. */
  function MinimizedPoints(ps: seq<G.Point>, maxX: real): (r: seq<G.Point>)
    ensures |r| == |ps|
    ensures forall i :: 0 <= i < |r| ==>
      r[i] == if i == 0 then ps[0] else ps[i].(x := MinimizeX(ps[0].x, ps[i].x, maxX))
  {
    seq(|ps|, i requires 0 <= i < |ps| =>
      if i == 0 then ps[0] else ps[i].(x := MinimizeX(ps[0].x, ps[i].x, maxX)))
  }

  /** Minimizing the points of a line string, each later point against the first. */
  method MinimizePoints(a: array<G.Point>, maxX: real)
    modifies a
    ensures a[..] == MinimizedPoints(old(a[..]), maxX)
  {
    if a.Length > 1 {
      var first := a[0];
      var i := 1;
      while i < a.Length
        invariant 1 <= i <= a.Length
        invariant a[0] == first == old(a[0])
        invariant forall k :: 1 <= k < i ==> a[k] == old(a[k]).(x := MinimizeX(first.x, old(a[k]).x, maxX))
        invariant forall k :: i <= k < a.Length ==> a[k] == old(a[k])
      {
        a[i] := a[i].(x := MinimizeX(first.x, a[i].x, maxX));
        i := i + 1;
      }
    }
  }

  /** Every x of the points lies in [lo, hi]. */
  predicate XWithin(ps: seq<G.Point>, lo: real, hi: real) {
    forall i :: 0 <= i < |ps| ==> lo <= ps[i].x <= hi
  }

  /**
   * From normalized points, minimizing keeps every x within maxX of the
   * first point's x, so within [-2 maxX, 2 maxX] and hence within the
   * promised [-3 maxX, 3 maxX].
   */
  lemma MinimizeBound(ps: seq<G.Point>, maxX: real)
    requires maxX > 0.0 && XWithin(ps, -maxX, maxX)
    ensures |ps| > 0 ==> XWithin(MinimizedPoints(ps, maxX), ps[0].x - maxX, ps[0].x + maxX)
    ensures XWithin(MinimizedPoints(ps, maxX), -3.0 * maxX, 3.0 * maxX)
  {
  }

  // ------------------------------------------------------------ geometries

  function NormalizeLine(l: G.LineString, maxX: real): G.LineString
    requires maxX > 0.0
  {
    l.(points := NormalizedPoints(l.points, maxX))
  }

  function NormalizeLines(ls: seq<G.LineString>, maxX: real): (r: seq<G.LineString>)
    requires maxX > 0.0
    ensures |r| == |ls| && forall i :: 0 <= i < |r| ==> r[i] == NormalizeLine(ls[i], maxX)
  {
    seq(|ls|, i requires 0 <= i < |ls| => NormalizeLine(ls[i], maxX))
  }

  function NormalizePolygon(p: G.Polygon, maxX: real): G.Polygon
    requires maxX > 0.0
  {
    p.(rings := NormalizeLines(p.rings, maxX))
  }

  function NormalizePolygons(ps: seq<G.Polygon>, maxX: real): (r: seq<G.Polygon>)
    requires maxX > 0.0
    ensures |r| == |ps| && forall i :: 0 <= i < |r| ==> r[i] == NormalizePolygon(ps[i], maxX)
  {
    seq(|ps|, i requires 0 <= i < |ps| => NormalizePolygon(ps[i], maxX))
  }

  /** normalizeGeometry:withMaxX: on the geometry as a value: every point normalized. */
  function NormalizeGeometry(g: G.Geometry, maxX: real): G.Geometry
    requires maxX > 0.0
    decreases g
  {
    match g
    case PointGeometry(p) => G.PointGeometry(NormalizePoint(p, maxX))
    case LineStringGeometry(l) => G.LineStringGeometry(NormalizeLine(l, maxX))
    case PolygonGeometry(p) => G.PolygonGeometry(NormalizePolygon(p, maxX))
    case CompoundCurve(z, m, ls) => G.CompoundCurve(z, m, NormalizeLines(ls, maxX))
    case PolyhedralSurface(z, m, tin, ps) => G.PolyhedralSurface(z, m, tin, NormalizePolygons(ps, maxX))
    case Collection(z, m, kind, gs) => G.Collection(z, m, kind, NormalizeAll(gs, maxX))
  }

  function NormalizeAll(gs: seq<G.Geometry>, maxX: real): (r: seq<G.Geometry>)
    requires maxX > 0.0
    ensures |r| == |gs| && forall i :: 0 <= i < |r| ==> r[i] == NormalizeGeometry(gs[i], maxX)
    decreases gs
  {
    if gs == [] then [] else NormalizeAll(gs[..|gs| - 1], maxX) + [NormalizeGeometry(gs[|gs| - 1], maxX)]
  }

  lemma NormalizedPointsConcat(a: seq<G.Point>, b: seq<G.Point>, maxX: real)
    requires maxX > 0.0
    ensures NormalizedPoints(a + b, maxX) == NormalizedPoints(a, maxX) + NormalizedPoints(b, maxX)
  {
  }

  lemma {:induction false} NormalizeLinesPoints(ls: seq<G.LineString>, maxX: real)
    requires maxX > 0.0
    ensures G.LinePoints(NormalizeLines(ls, maxX)) == NormalizedPoints(G.LinePoints(ls), maxX)
  {
    if ls != [] {
      var n := |ls|;
      assert NormalizeLines(ls, maxX)[..n - 1] == NormalizeLines(ls[..n - 1], maxX);
      NormalizeLinesPoints(ls[..n - 1], maxX);
      NormalizedPointsConcat(G.LinePoints(ls[..n - 1]), ls[n - 1].points, maxX);
    }
  }

  lemma {:induction false} NormalizePolygonsPoints(ps: seq<G.Polygon>, maxX: real)
    requires maxX > 0.0
    ensures G.PolygonPoints(NormalizePolygons(ps, maxX)) == NormalizedPoints(G.PolygonPoints(ps), maxX)
  {
    if ps != [] {
      var n := |ps|;
      assert NormalizePolygons(ps, maxX)[..n - 1] == NormalizePolygons(ps[..n - 1], maxX);
      NormalizePolygonsPoints(ps[..n - 1], maxX);
      NormalizeLinesPoints(ps[n - 1].rings, maxX);
      NormalizedPointsConcat(G.PolygonPoints(ps[..n - 1]), G.LinePoints(ps[n - 1].rings), maxX);
    }
  }

  /**
   * Normalizing a geometry normalizes exactly its points, in traversal
   * order: every x lands in [-maxX, maxX], and nothing but x changes.
   */
  lemma {:induction false} NormalizeGeometryCoords(g: G.Geometry, maxX: real)
    requires maxX > 0.0
    ensures G.Coords(NormalizeGeometry(g, maxX)) == NormalizedPoints(G.Coords(g), maxX)
    ensures XWithin(G.Coords(NormalizeGeometry(g, maxX)), -maxX, maxX)
    decreases g, 1
  {
    match g
    case PointGeometry(p) =>
    case LineStringGeometry(l) =>
    case PolygonGeometry(p) => NormalizeLinesPoints(p.rings, maxX);
    case CompoundCurve(_, _, ls) => NormalizeLinesPoints(ls, maxX);
    case PolyhedralSurface(_, _, _, ps) => NormalizePolygonsPoints(ps, maxX);
    case Collection(_, _, _, gs) => NormalizeAllCoords(gs, maxX);
  }

  lemma {:induction false} NormalizeAllCoords(gs: seq<G.Geometry>, maxX: real)
    requires maxX > 0.0
    ensures G.CoordsOfAll(NormalizeAll(gs, maxX)) == NormalizedPoints(G.CoordsOfAll(gs), maxX)
    decreases gs, 0
  {
    if gs != [] {
      var n := |gs|;
      var r := NormalizeAll(gs, maxX);
      assert r[..n - 1] == NormalizeAll(gs[..n - 1], maxX);
      assert r[n - 1] == NormalizeGeometry(gs[n - 1], maxX);
      NormalizeAllCoords(gs[..n - 1], maxX);
      NormalizeGeometryCoords(gs[n - 1], maxX);
      NormalizedPointsConcat(G.CoordsOfAll(gs[..n - 1]), G.Coords(gs[n - 1]), maxX);
    }
  }

  function MinimizeLine(l: G.LineString, maxX: real): G.LineString {
    l.(points := MinimizedPoints(l.points, maxX))
  }

  function MinimizeLines(ls: seq<G.LineString>, maxX: real): (r: seq<G.LineString>)
    ensures |r| == |ls| && forall i :: 0 <= i < |r| ==> r[i] == MinimizeLine(ls[i], maxX)
  {
    seq(|ls|, i requires 0 <= i < |ls| => MinimizeLine(ls[i], maxX))
  }

  /** Each ring of a polygon is minimized on its own. */
  function MinimizePolygon(p: G.Polygon, maxX: real): G.Polygon {
    p.(rings := MinimizeLines(p.rings, maxX))
  }

  function MinimizePolygons(ps: seq<G.Polygon>, maxX: real): (r: seq<G.Polygon>)
    ensures |r| == |ps| && forall i :: 0 <= i < |r| ==> r[i] == MinimizePolygon(ps[i], maxX)
  {
    seq(|ps|, i requires 0 <= i < |ps| => MinimizePolygon(ps[i], maxX))
  }

  /**
   * minimizeGeometry:withMaxX: on the geometry as a value: every line
   * string, ring and compound-curve part is minimized; points (alone or in
   * a multi point) have nothing to connect to and stay.
   */
  function MinimizeGeometry(g: G.Geometry, maxX: real): G.Geometry
    decreases g
  {
    match g
    case PointGeometry(_) => g
    case LineStringGeometry(l) => G.LineStringGeometry(MinimizeLine(l, maxX))
    case PolygonGeometry(p) => G.PolygonGeometry(MinimizePolygon(p, maxX))
    case CompoundCurve(z, m, ls) => G.CompoundCurve(z, m, MinimizeLines(ls, maxX))
    case PolyhedralSurface(z, m, tin, ps) => G.PolyhedralSurface(z, m, tin, MinimizePolygons(ps, maxX))
    case Collection(z, m, kind, gs) => G.Collection(z, m, kind, MinimizeAll(gs, maxX))
  }

  function MinimizeAll(gs: seq<G.Geometry>, maxX: real): (r: seq<G.Geometry>)
    ensures |r| == |gs| && forall i :: 0 <= i < |r| ==> r[i] == MinimizeGeometry(gs[i], maxX)
    decreases gs
  {
    if gs == [] then [] else MinimizeAll(gs[..|gs| - 1], maxX) + [MinimizeGeometry(gs[|gs| - 1], maxX)]
  }

  lemma XWithinConcat(a: seq<G.Point>, b: seq<G.Point>, lo: real, hi: real)
    ensures XWithin(a + b, lo, hi) == (XWithin(a, lo, hi) && XWithin(b, lo, hi))
  {
    if XWithin(a, lo, hi) && XWithin(b, lo, hi) {
      forall i | 0 <= i < |a + b|
        ensures lo <= (a + b)[i].x <= hi
      {
        if i >= |a| {
          assert (a + b)[i] == b[i - |a|];
        }
      }
    }
    if XWithin(a + b, lo, hi) {
      forall i | 0 <= i < |a|
        ensures lo <= a[i].x <= hi
      {
        assert (a + b)[i] == a[i];
      }
      forall i | 0 <= i < |b|
        ensures lo <= b[i].x <= hi
      {
        assert (a + b)[|a| + i] == b[i];
      }
    }
  }

  lemma {:induction false} MinimizeLinesBound(ls: seq<G.LineString>, maxX: real)
    requires maxX > 0.0 && XWithin(G.LinePoints(ls), -maxX, maxX)
    ensures XWithin(G.LinePoints(MinimizeLines(ls, maxX)), -3.0 * maxX, 3.0 * maxX)
  {
    if ls != [] {
      var n := |ls|;
      var r := MinimizeLines(ls, maxX);
      assert r[..n - 1] == MinimizeLines(ls[..n - 1], maxX);
      XWithinConcat(G.LinePoints(ls[..n - 1]), ls[n - 1].points, -maxX, maxX);
      MinimizeLinesBound(ls[..n - 1], maxX);
      MinimizeBound(ls[n - 1].points, maxX);
      XWithinConcat(G.LinePoints(r[..n - 1]), r[n - 1].points, -3.0 * maxX, 3.0 * maxX);
    }
  }

  lemma {:induction false} MinimizePolygonsBound(ps: seq<G.Polygon>, maxX: real)
    requires maxX > 0.0 && XWithin(G.PolygonPoints(ps), -maxX, maxX)
    ensures XWithin(G.PolygonPoints(MinimizePolygons(ps, maxX)), -3.0 * maxX, 3.0 * maxX)
  {
    if ps != [] {
      var n := |ps|;
      var r := MinimizePolygons(ps, maxX);
      assert r[..n - 1] == MinimizePolygons(ps[..n - 1], maxX);
      XWithinConcat(G.PolygonPoints(ps[..n - 1]), G.LinePoints(ps[n - 1].rings), -maxX, maxX);
      MinimizePolygonsBound(ps[..n - 1], maxX);
      MinimizeLinesBound(ps[n - 1].rings, maxX);
      XWithinConcat(G.PolygonPoints(r[..n - 1]), G.LinePoints(r[n - 1].rings), -3.0 * maxX, 3.0 * maxX);
    }
  }

  /**
   * The range minimizeGeometry:withMaxX: promises: from a geometry whose x
   * values lie in [-maxX, maxX] (a normalized one), every x of the
   * minimized geometry lies in [-3 maxX, 3 maxX].
   */
  lemma {:induction false} MinimizeGeometryBound(g: G.Geometry, maxX: real)
    requires maxX > 0.0 && XWithin(G.Coords(g), -maxX, maxX)
    ensures XWithin(G.Coords(MinimizeGeometry(g, maxX)), -3.0 * maxX, 3.0 * maxX)
    decreases g, 1
  {
    match g
    case PointGeometry(_) =>
    case LineStringGeometry(l) => MinimizeBound(l.points, maxX);
    case PolygonGeometry(p) => MinimizeLinesBound(p.rings, maxX);
    case CompoundCurve(_, _, ls) => MinimizeLinesBound(ls, maxX);
    case PolyhedralSurface(_, _, _, ps) => MinimizePolygonsBound(ps, maxX);
    case Collection(_, _, _, gs) => MinimizeAllBound(gs, maxX);
  }

  lemma {:induction false} MinimizeAllBound(gs: seq<G.Geometry>, maxX: real)
    requires maxX > 0.0 && XWithin(G.CoordsOfAll(gs), -maxX, maxX)
    ensures XWithin(G.CoordsOfAll(MinimizeAll(gs, maxX)), -3.0 * maxX, 3.0 * maxX)
    decreases gs, 0
  {
    if gs != [] {
      var n := |gs|;
      var r := MinimizeAll(gs, maxX);
      assert r[..n - 1] == MinimizeAll(gs[..n - 1], maxX);
      assert r[n - 1] == MinimizeGeometry(gs[n - 1], maxX);
      XWithinConcat(G.CoordsOfAll(gs[..n - 1]), G.Coords(gs[n - 1]), -maxX, maxX);
      MinimizeAllBound(gs[..n - 1], maxX);
      MinimizeGeometryBound(gs[n - 1], maxX);
      XWithinConcat(G.CoordsOfAll(r[..n - 1]), G.Coords(r[n - 1]), -3.0 * maxX, 3.0 * maxX);
    }
  }

  /** Normalizing and then minimizing keeps every x within [-3 maxX, 3 maxX]. */
  lemma NormalizeThenMinimize(g: G.Geometry, maxX: real)
    requires maxX > 0.0
    ensures XWithin(G.Coords(MinimizeGeometry(NormalizeGeometry(g, maxX), maxX)), -3.0 * maxX, 3.0 * maxX)
  {
    NormalizeGeometryCoords(g, maxX);
    MinimizeGeometryBound(NormalizeGeometry(g, maxX), maxX);
  }
}
