/**
 * SFGeometryUtils: dimension of a geometry, hasZ / hasM aggregation over a
 * list of geometries, and the centroid's output contract.
 */
module GeometryUtils {
  import opened Wrappers
  import GT = GeometryTypes
  import G = Geometries

  /** Collections whose dimension is the largest dimension of their members. */
  predicate TakesMaxOfMembers(kind: G.CollectionKind) {
    kind == G.MultiCurve || kind == G.MultiSurface || kind == G.GeometryCollection
  }

  function Max(a: int, b: int): int { if a < b then b else a }

  /**
   * dimensionOfGeometry: 0 for points, 1 for curves, 2 for surfaces; for a
   * geometry collection, multi curve or multi surface the largest dimension
   * of its members, and -1 when it has no member to take the maximum of.
   */
  function Dimension(g: G.Geometry): (d: int)
    ensures -1 <= d <= 2
    decreases g
  {
    match g
    case PointGeometry(_) => 0
    case LineStringGeometry(_) => 1
    case CompoundCurve(_, _, _) => 1
    case PolygonGeometry(_) => 2
    case PolyhedralSurface(_, _, _, _) => 2
    case Collection(_, _, kind, gs) =>
      if kind == G.MultiPoint then 0
      else if kind == G.MultiLineString then 1
      else if kind == G.MultiPolygon then 2
      else MaxDimension(gs)
  }

  function MaxDimension(gs: seq<G.Geometry>): (d: int)
    ensures -1 <= d <= 2
    decreases gs
  {
    if gs == [] then -1
    else Max(MaxDimension(gs[..|gs| - 1]), Dimension(gs[|gs| - 1]))
  }

  /** The dimension of a list of geometries is the largest member dimension. */
  lemma {:induction false} MaxDimensionIsLargest(gs: seq<G.Geometry>)
    ensures gs == [] ==> MaxDimension(gs) == -1
    ensures forall i :: 0 <= i < |gs| ==> Dimension(gs[i]) <= MaxDimension(gs)
    ensures gs != [] ==> exists i :: 0 <= i < |gs| && MaxDimension(gs) == Dimension(gs[i])
    decreases gs
  {
    if gs != [] {
      var k := |gs| - 1;
      MaxDimensionIsLargest(gs[..k]);
      assert forall i :: 0 <= i < k ==> gs[..k][i] == gs[i];
      if k > 0 && MaxDimension(gs) == MaxDimension(gs[..k]) {
        var j :| 0 <= j < k && MaxDimension(gs[..k]) == Dimension(gs[..k][j]);
        assert MaxDimension(gs) == Dimension(gs[j]);
      } else {
        assert MaxDimension(gs) == Dimension(gs[k]);
      }
    }
  }

  /** A collection (possibly nested) that holds no point, curve or surface. */
  predicate Dimensionless(g: G.Geometry)
    decreases g
  {
    g.Collection? && TakesMaxOfMembers(g.kind) &&
    forall i :: 0 <= i < |g.geometries| ==> Dimensionless(g.geometries[i])
  }

  /** The dimension is 0, 1 or 2 except for collections with nothing dimensioned in them. */
  lemma {:induction false} DimensionDefined(g: G.Geometry)
    ensures Dimension(g) == -1 <==> Dimensionless(g)
    ensures !Dimensionless(g) ==> 0 <= Dimension(g) <= 2
    decreases g
  {
    match g
    case Collection(_, _, kind, gs) =>
      if TakesMaxOfMembers(kind) {
        MaxDimensionIsLargest(gs);
        forall i | 0 <= i < |gs| ensures Dimension(gs[i]) == -1 <==> Dimensionless(gs[i]) {
          DimensionDefined(gs[i]);
        }
      }
    case _ =>
  }

  /** An ancestor of a type other than Geometry is its parent or an ancestor of its parent. */
  lemma AncestorStep(t: GT.GeometryType, a: GT.GeometryType)
    requires t != GT.Geometry
    ensures a in GT.ParentHierarchy(t) <==>
      GT.ParentType(t) == Some(a) || a in GT.ParentHierarchy(GT.ParentType(t).value)
  {
  }

  /** Exactly the curve types (LineString, CircularString, CompoundCurve) have Curve among their ancestors. */
  lemma {:induction false} CurveType(t: GT.GeometryType)
    ensures GT.Curve in GT.ParentHierarchy(t) <==>
      t == GT.LineString || t == GT.CircularString || t == GT.CompoundCurve
    decreases GT.Depth(t)
  {
    if t != GT.Geometry {
      GT.ParentIsShallower(t);
      AncestorStep(t, GT.Curve);
      CurveType(GT.ParentType(t).value);
    }
  }

  /** Exactly the surface types have Surface among their ancestors. */
  lemma {:induction false} SurfaceType(t: GT.GeometryType)
    ensures GT.Surface in GT.ParentHierarchy(t) <==>
      t == GT.CurvePolygon || t == GT.Polygon || t == GT.Triangle || t == GT.PolyhedralSurface || t == GT.Tin
    decreases GT.Depth(t)
  {
    if t != GT.Geometry {
      GT.ParentIsShallower(t);
      AncestorStep(t, GT.Surface);
      SurfaceType(GT.ParentType(t).value);
    }
  }

  /**
   * Outside collections the dimension follows the type hierarchy: 0 for a
   * point, 1 for the types below Curve, 2 for the types below Surface.
   */
  lemma DimensionFollowsTypeHierarchy(g: G.Geometry)
    requires !g.Collection?
    ensures Dimension(g) == 0 <==> G.TypeOf(g) == GT.Point
    ensures Dimension(g) == 1 <==> GT.Curve in GT.ParentHierarchy(G.TypeOf(g))
    ensures Dimension(g) == 2 <==> GT.Surface in GT.ParentHierarchy(G.TypeOf(g))
  {
    CurveType(G.TypeOf(g));
    SurfaceType(G.TypeOf(g));
  }

  /** hasZ: true iff some geometry in the list has Z values. */
  method HasZ(geometries: seq<G.Geometry>) returns (hasZ: bool)
    ensures hasZ <==> exists i :: 0 <= i < |geometries| && G.HasZ(geometries[i])
  {
    hasZ := false;
    var i := 0;
    while i < |geometries|
      invariant 0 <= i <= |geometries|
      invariant !hasZ
      invariant forall k :: 0 <= k < i ==> !G.HasZ(geometries[k])
    {
      if G.HasZ(geometries[i]) {
        hasZ := true;
        break;
      }
      i := i + 1;
    }
  }

  /** hasM: true iff some geometry in the list has M values. */
  method HasM(geometries: seq<G.Geometry>) returns (hasM: bool)
    ensures hasM <==> exists i :: 0 <= i < |geometries| && G.HasM(geometries[i])
  {
    hasM := false;
    var i := 0;
    while i < |geometries|
      invariant 0 <= i <= |geometries|
      invariant !hasM
      invariant forall k :: 0 <= k < i ==> !G.HasM(geometries[k])
    {
      if G.HasM(geometries[i]) {
        hasM := true;
        break;
      }
      i := i + 1;
    }
  }

  // ---------------------------------------------------------------- centroid

  /**
   * The curve and surface centroid calculators (SFCentroidCurve,
   * SFCentroidSurface) are outside this model; they are passed in and give
   * the x and y of the centroid.
   */
  datatype CentroidCalculators = CentroidCalculators(
    curve: G.Geometry -> (real, real),
    surface: G.Geometry -> (real, real))

  function Sum(vs: seq<real>): real {
    if vs == [] then 0.0 else Sum(vs[..|vs| - 1]) + vs[|vs| - 1]
  }

  function Mean(vs: seq<real>): real
    requires vs != []
  {
    Sum(vs) / (|vs| as real)
  }

  /** The centroid of a set of points: the average of their x and y. */
  function PointCentroid(ps: seq<G.Point>): Option<(real, real)> {
    if ps == [] then None else Some((Mean(G.Xs(ps)), Mean(G.Ys(ps))))
  }

  /**
   * centroidOfGeometry: selected by dimension. Only x and y are computed: the
   * resulting point has no z or m and its flags are off. None stands for the
   * cases with no centroid (no point to average, no dimension).
   */
  function Centroid(g: G.Geometry, calculators: CentroidCalculators): (r: Option<G.Point>)
    ensures r.Some? ==> !r.value.hasZ && !r.value.hasM && r.value.z.None? && r.value.m.None?
    ensures r.Some? <==> Dimension(g) >= 0 && (Dimension(g) == 0 ==> G.Coords(g) != [])
  {
    var d := Dimension(g);
    var xy :=
      if d == 0 then PointCentroid(G.Coords(g))
      else if d == 1 then Some(calculators.curve(g))
      else if d == 2 then Some(calculators.surface(g))
      else None;
    match xy
    case None => None
    case Some((x, y)) => Some(G.Point(false, false, x, y, None, None))
  }

  /** If every value is in [lo, hi], so is their mean. */
  lemma {:induction false} SumBounds(vs: seq<real>, lo: real, hi: real)
    requires forall i :: 0 <= i < |vs| ==> lo <= vs[i] <= hi
    ensures (|vs| as real) * lo <= Sum(vs) <= (|vs| as real) * hi
    decreases vs
  {
    if vs != [] {
      var k := |vs| - 1;
      SumBounds(vs[..k], lo, hi);
      assert forall i :: 0 <= i < k ==> vs[..k][i] == vs[i];
    }
  }

  function Min(vs: seq<real>): (r: real)
    requires vs != []
    ensures forall i :: 0 <= i < |vs| ==> r <= vs[i]
    ensures exists i :: 0 <= i < |vs| && r == vs[i]
  {
    if |vs| == 1 then vs[0]
    else
      var r := Min(vs[..|vs| - 1]);
      assert forall i :: 0 <= i < |vs| - 1 ==> vs[..|vs| - 1][i] == vs[i];
      if vs[|vs| - 1] < r then vs[|vs| - 1] else r
  }

  function MaxOf(vs: seq<real>): (r: real)
    requires vs != []
    ensures forall i :: 0 <= i < |vs| ==> vs[i] <= r
    ensures exists i :: 0 <= i < |vs| && r == vs[i]
  {
    if |vs| == 1 then vs[0]
    else
      var r := MaxOf(vs[..|vs| - 1]);
      assert forall i :: 0 <= i < |vs| - 1 ==> vs[..|vs| - 1][i] == vs[i];
      if r < vs[|vs| - 1] then vs[|vs| - 1] else r
  }

  lemma DivideBounds(s: real, n: real, lo: real, hi: real)
    requires n > 0.0 && n * lo <= s <= n * hi
    ensures lo <= s / n <= hi
  {
    var q := s / n;
    assert n * (q - lo) == s - n * lo >= 0.0;
    assert n * (hi - q) == n * hi - s >= 0.0;
  }

  lemma MeanBetweenExtremes(vs: seq<real>)
    requires vs != []
    ensures Min(vs) <= Mean(vs) <= MaxOf(vs)
  {
    SumBounds(vs, Min(vs), MaxOf(vs));
    DivideBounds(Sum(vs), |vs| as real, Min(vs), MaxOf(vs));
  }

  /**
   * The centroid of points lies between the smallest and the largest x, and
   * between the smallest and the largest y, of the points averaged.
   */
  lemma PointCentroidWithinPoints(ps: seq<G.Point>)
    requires ps != []
    ensures PointCentroid(ps).Some?
    ensures exists i, j ::
              0 <= i < |ps| && 0 <= j < |ps| && ps[i].x <= PointCentroid(ps).value.0 <= ps[j].x
    ensures exists i, j ::
              0 <= i < |ps| && 0 <= j < |ps| && ps[i].y <= PointCentroid(ps).value.1 <= ps[j].y
  {
    MeanBetweenExtremes(G.Xs(ps));
    MeanBetweenExtremes(G.Ys(ps));
  }
}
