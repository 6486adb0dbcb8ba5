/**
 * The Simple Features geometry object model as values: points, line strings
 * (and linear rings, lines, circular strings), polygons (and triangles, curve
 * polygons), compound curves, polyhedral surfaces and TINs, and the
 * collections. Every geometry carries its hasZ / hasM flags. Coordinates are
 * NSDecimalNumber values in the library and reals here.
 */
module Geometries {
  import opened Wrappers
  import GT = GeometryTypes

  /** The value of an SFPoint: x and y always, z and m possibly nil. */
  datatype Point = Point(hasZ: bool, hasM: bool, x: real, y: real, z: Option<real>, m: Option<real>)

  datatype LineKind = PlainLineString | LinearRing | TwoPointLine | CircularString

  /** An SFLineString (or one of its subclasses): an ordered list of points. */
  datatype LineString = LineString(hasZ: bool, hasM: bool, kind: LineKind, points: seq<Point>)

  datatype PolygonKind = PlainPolygon | Triangle | CurvePolygon

  /** An SFPolygon: ring 0 is the exterior ring, the others are holes. */
  datatype Polygon = Polygon(hasZ: bool, hasM: bool, kind: PolygonKind, rings: seq<LineString>)

  datatype CollectionKind =
    MultiPoint | MultiLineString | MultiPolygon | MultiCurve | MultiSurface | GeometryCollection

  datatype Geometry =
    | PointGeometry(point: Point)
    | LineStringGeometry(lineString: LineString)
    | PolygonGeometry(polygon: Polygon)
    | CompoundCurve(ccHasZ: bool, ccHasM: bool, lineStrings: seq<LineString>)
    | PolyhedralSurface(psHasZ: bool, psHasM: bool, isTin: bool, polygons: seq<Polygon>)
    | Collection(gcHasZ: bool, gcHasM: bool, kind: CollectionKind, geometries: seq<Geometry>)

  function HasZ(g: Geometry): bool {
    match g
    case PointGeometry(p) => p.hasZ
    case LineStringGeometry(l) => l.hasZ
    case PolygonGeometry(p) => p.hasZ
    case CompoundCurve(z, _, _) => z
    case PolyhedralSurface(z, _, _, _) => z
    case Collection(z, _, _, _) => z
  }

  function HasM(g: Geometry): bool {
    match g
    case PointGeometry(p) => p.hasM
    case LineStringGeometry(l) => l.hasM
    case PolygonGeometry(p) => p.hasM
    case CompoundCurve(_, m, _) => m
    case PolyhedralSurface(_, m, _, _) => m
    case Collection(_, m, _, _) => m
  }

  /** The SFGeometryType a geometry reports (a linear ring or line is a LINESTRING). */
  function TypeOf(g: Geometry): GT.GeometryType {
    match g
    case PointGeometry(_) => GT.Point
    case LineStringGeometry(l) =>
      if l.kind == CircularString then GT.CircularString else GT.LineString
    case PolygonGeometry(p) =>
      (match p.kind
       case PlainPolygon => GT.Polygon
       case Triangle => GT.Triangle
       case CurvePolygon => GT.CurvePolygon)
    case CompoundCurve(_, _, _) => GT.CompoundCurve
    case PolyhedralSurface(_, _, tin, _) => if tin then GT.Tin else GT.PolyhedralSurface
    case Collection(_, _, kind, _) =>
      match kind
      case MultiPoint => GT.MultiPoint
      case MultiLineString => GT.MultiLineString
      case MultiPolygon => GT.MultiPolygon
      case MultiCurve => GT.MultiCurve
      case MultiSurface => GT.MultiSurface
      case GeometryCollection => GT.GeometryCollection
  }

  /** All points of a list of line strings, in order. */
  function LinePoints(ls: seq<LineString>): seq<Point>
  {
    if ls == [] then [] else LinePoints(ls[..|ls| - 1]) + ls[|ls| - 1].points
  }

  /** All points of a list of polygons, ring by ring, in order. */
  function PolygonPoints(ps: seq<Polygon>): seq<Point>
  {
    if ps == [] then [] else PolygonPoints(ps[..|ps| - 1]) + LinePoints(ps[|ps| - 1].rings)
  }

  /** Every point reachable in the geometry tree, in traversal order. */
  function Coords(g: Geometry): seq<Point>
    decreases g
  {
    match g
    case PointGeometry(p) => [p]
    case LineStringGeometry(l) => l.points
    case PolygonGeometry(p) => LinePoints(p.rings)
    case CompoundCurve(_, _, ls) => LinePoints(ls)
    case PolyhedralSurface(_, _, _, ps) => PolygonPoints(ps)
    case Collection(_, _, _, gs) => CoordsOfAll(gs)
  }

  function CoordsOfAll(gs: seq<Geometry>): seq<Point>
    decreases gs
  {
    if gs == [] then [] else CoordsOfAll(gs[..|gs| - 1]) + Coords(gs[|gs| - 1])
  }

  /** The x values of a list of points, in order. */
  function Xs(ps: seq<Point>): (r: seq<real>)
    ensures |r| == |ps| && forall i :: 0 <= i < |ps| ==> r[i] == ps[i].x
  {
    seq(|ps|, i requires 0 <= i < |ps| => ps[i].x)
  }

  /** The y values of a list of points, in order. */
  function Ys(ps: seq<Point>): (r: seq<real>)
    ensures |r| == |ps| && forall i :: 0 <= i < |ps| ==> r[i] == ps[i].y
  {
    seq(|ps|, i requires 0 <= i < |ps| => ps[i].y)
  }
}
