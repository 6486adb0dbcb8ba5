/**
 * The geometry type lattice (enum SFGeometryType) and the type-hierarchy
 * queries of SFGeometryUtils: parent type, parent hierarchy, child types and
 * child hierarchy. The lattice follows the class hierarchy of section 6.1 of
 * OGC Simple Feature Access Part 1 (OGC 06-103r4), rooted at Geometry.
 */
module GeometryTypes {
  import opened Wrappers

  datatype GeometryType =
    | Geometry
    | Point
    | LineString
    | Polygon
    | MultiPoint
    | MultiLineString
    | MultiPolygon
    | GeometryCollection
    | CircularString
    | CompoundCurve
    | CurvePolygon
    | MultiCurve
    | MultiSurface
    | Curve
    | Surface
    | PolyhedralSurface
    | Tin
    | Triangle

  /** Immediate parent type; None (nil) for the root type Geometry. */
  function ParentType(t: GeometryType): (r: Option<GeometryType>)
    ensures r.None? <==> t == Geometry
    ensures r.Some? ==> r.value != t
  {
    match t
    case Geometry => None
    case Point => Some(Geometry)
    case LineString => Some(Curve)
    case Polygon => Some(CurvePolygon)
    case MultiPoint => Some(GeometryCollection)
    case MultiLineString => Some(MultiCurve)
    case MultiPolygon => Some(MultiSurface)
    case GeometryCollection => Some(Geometry)
    case CircularString => Some(LineString)
    case CompoundCurve => Some(Curve)
    case CurvePolygon => Some(Surface)
    case MultiCurve => Some(GeometryCollection)
    case MultiSurface => Some(GeometryCollection)
    case Curve => Some(Geometry)
    case Surface => Some(Geometry)
    case PolyhedralSurface => Some(Surface)
    case Tin => Some(PolyhedralSurface)
    case Triangle => Some(Polygon)
  }

  /** Immediate child types; empty for the leaves of the lattice. */
  function ChildTypes(t: GeometryType): (r: seq<GeometryType>)
    ensures forall c :: c in r ==> ParentType(c) == Some(t)
  {
    match t
    case Geometry => [Point, Curve, Surface, GeometryCollection]
    case LineString => [CircularString]
    case Polygon => [Triangle]
    case GeometryCollection => [MultiPoint, MultiCurve, MultiSurface]
    case CurvePolygon => [Polygon]
    case MultiCurve => [MultiLineString]
    case MultiSurface => [MultiPolygon]
    case Curve => [LineString, CompoundCurve]
    case Surface => [CurvePolygon, PolyhedralSurface]
    case PolyhedralSurface => [Tin]
    case _ => []
  }

  /** Number of steps from a type up to Geometry. */
  function Depth(t: GeometryType): (d: nat)
    ensures d <= 4
    ensures d == 0 <==> t == Geometry
  {
    match t
    case Geometry => 0
    case Point | GeometryCollection | Curve | Surface => 1
    case LineString | CompoundCurve | CurvePolygon | PolyhedralSurface
      | MultiPoint | MultiCurve | MultiSurface => 2
    case CircularString | Polygon | Tin | MultiLineString | MultiPolygon => 3
    case Triangle => 4
  }

  /** A parent is one step closer to Geometry than its child. */
  lemma ParentIsShallower(t: GeometryType)
    ensures ParentType(t).Some? ==> Depth(ParentType(t).value) + 1 == Depth(t)
  {
  }

  /** The parent types of t, nearest first. */
  function ParentHierarchy(t: GeometryType): seq<GeometryType>
    decreases Depth(t)
  {
    if t == Geometry then []
    else
      ParentIsShallower(t);
      [ParentType(t).value] + ParentHierarchy(ParentType(t).value)
  }

  /**
   * The hierarchy of Geometry is empty; any other type's hierarchy starts with
   * its parent type and ends with Geometry, and each entry is the parent of
   * the one before it.
   */
  lemma {:induction false} ParentHierarchyShape(t: GeometryType)
    ensures ParentHierarchy(t) == [] <==> t == Geometry
    ensures t != Geometry ==>
      ParentHierarchy(t)[0] == ParentType(t).value &&
      ParentHierarchy(t)[|ParentHierarchy(t)| - 1] == Geometry
    ensures |ParentHierarchy(t)| == Depth(t)
    ensures forall i :: 0 <= i < |ParentHierarchy(t)| - 1 ==>
      ParentType(ParentHierarchy(t)[i]) == Some(ParentHierarchy(t)[i + 1])
    decreases Depth(t)
  {
    if t != Geometry {
      ParentIsShallower(t);
      ParentHierarchyShape(ParentType(t).value);
    }
  }

  /** parentHierarchyOfType: collects parent types until Geometry, which has none. */
  method ParentHierarchyOf(t: GeometryType) returns (hierarchy: seq<GeometryType>)
    ensures hierarchy == ParentHierarchy(t)
  {
    hierarchy := [];
    var current := t;
    while current != Geometry
      invariant hierarchy + ParentHierarchy(current) == ParentHierarchy(t)
      decreases Depth(current)
    {
      ParentIsShallower(current);
      var parent := ParentType(current).value;
      assert ParentHierarchy(current) == [parent] + ParentHierarchy(parent);
      AppendAssociates(hierarchy, [parent], ParentHierarchy(parent));
      hierarchy := hierarchy + [parent];
      current := parent;
    }
  }

  lemma AppendAssociates(a: seq<GeometryType>, b: seq<GeometryType>, c: seq<GeometryType>)
    ensures (a + b) + c == a + (b + c)
  {
  }

  /** The child-type table is exactly the inverse of the parent-type table. */
  lemma ChildTypesInvertParentType(t: GeometryType, c: GeometryType)
    ensures c in ChildTypes(t) <==> ParentType(c) == Some(t)
  {
  }

  /**
   * One entry of a child hierarchy: a child type and that type's own child
   * entries (the empty list stands for the nil of a type without children).
   */
  datatype TypeNode = TypeNode(kind: GeometryType, below: seq<TypeNode>)

  /** The child entries of t, each with its own entries below it. */
  function ChildNodes(t: GeometryType): (r: seq<TypeNode>)
    ensures |r| == |ChildTypes(t)|
    ensures forall i :: 0 <= i < |r| ==> r[i].kind == ChildTypes(t)[i]
    decreases 4 - Depth(t)
  {
    var cs := ChildTypes(t);
    seq(|cs|, i requires 0 <= i < |cs| =>
      ParentIsShallower(cs[i]); TypeNode(cs[i], ChildNodes(cs[i])))
  }

  /** childHierarchyOfType: None (nil) when t has no child types. */
  function ChildHierarchy(t: GeometryType): (r: Option<seq<TypeNode>>)
    ensures r.None? <==> ChildTypes(t) == []
    ensures r.Some? ==> |r.value| == |ChildTypes(t)|
    ensures r.Some? ==> forall i :: 0 <= i < |r.value| ==> r.value[i].kind == ChildTypes(t)[i]
    ensures r.Some? ==> forall i :: 0 <= i < |r.value| ==> ParentType(r.value[i].kind) == Some(t)
  {
    if ChildTypes(t) == [] then None else Some(ChildNodes(t))
  }

  /**
   * The entries below each child are that child's own child hierarchy, the
   * empty list standing for its nil.
   */
  lemma ChildHierarchyNested(t: GeometryType)
    ensures var r := ChildHierarchy(t);
      r.Some? ==> forall i :: 0 <= i < |r.value| ==>
        ChildHierarchy(r.value[i].kind) == (if r.value[i].below == [] then None else Some(r.value[i].below))
  {
  }
}
