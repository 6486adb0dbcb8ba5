# sf-ios core in Dafny

A model of the core of sf-ios, the Objective-C Simple Features geometry
library. The library has an in-memory object model of points, curves,
surfaces and collections, and geometry utilities over it. This project models
four of its headers and proves properties of the model:

- **SFGeometryUtils** (`geometry_utils.dfy`, `geometry_types.dfy`,
  `predicates.dfy`, `polygon_predicates.dfy`, `simplify.dfy`,
  `normalize.dfy`):
  - the dimension of a geometry;
  - the parent/child geometry-type hierarchy;
  - explicit ring closure;
  - point on a path, on a line, on a polygon edge and in a polygon, each with
    an epsilon tolerance;
  - `hasZ`/`hasM` over a list of geometries;
  - Douglas–Peucker simplification;
  - normalizing and minimizing x values around the antimeridian;
  - the x/y-only contract of the centroid.
- **SFGeometryEnvelopeBuilder** (`envelope.dfy`): an `SFGeometryEnvelope` is
  a class whose optional min/max fields are widened in place by every
  coordinate of a geometry. `buildEnvelope:andGeometry:` updates an existing
  envelope; `buildEnvelopeWithGeometry:` fills a fresh one.
- **SFPoint** (`point.dfy`): a class with x and y, an optional z and m, their
  initialisers and the `set*Value` setters.
- **SFCompoundCurve** (`compound_curve.dfy`): a class owning a mutable list of
  line strings, with its initialisers, append, count and index operations.

Geometries as values are in `geometry.dfy`; the geometry type enumeration is
in `geometry_types.dfy`.

Coordinates are `NSDecimalNumber` in the library and `real` here. Distances
are compared squared with the squared tolerance, so no square root is needed.
The nil of an absent z, m or envelope bound is `None`.

The stateful parts follow the library's own form:
- the point and compound-curve classes update their fields;
- the envelope builder's methods widen an envelope object's fields;
- normalize and minimize rewrite the x values of a point array in place.

Each such method is proved against a function on values. The properties are
stated about those functions: containment, tightness, monotonicity and
idempotence of the envelope; the range bounds of normalize and minimize;
ends, subsequence and idempotence of simplification; the perpendicular
distance as the distance to the nearest point of the segment; the path test
as the segment itself at tolerance 0 and as a distance bound otherwise.

Only the headers of the library are part of this model; the implementation
(`.m`) files are not. Behaviour the headers leave open follows the library's
design description where it states a rule (zero-length segments are skipped
by the path, line and edge tests), and otherwise the conventional Simple
Features implementation; each such choice is listed below.

## Model

| member | source | states |
|---|---|---|
| GeometryTypes.ParentType | XCFrameworks/sf_ios.xcframework/ios-arm64_x86_64-simulator/sf_ios.framework/Headers/SFGeometryUtils.h:397-405 | the parent type is absent exactly for GEOMETRY, and is never the type itself |
| GeometryTypes.ChildTypes | XCFrameworks/sf_ios.xcframework/ios-arm64_x86_64-simulator/sf_ios.framework/Headers/SFGeometryUtils.h:416-423 | every immediate child type has the given type as its parent |
| GeometryTypes.ChildTypesInvertParentType | XCFrameworks/sf_ios.xcframework/ios-arm64_x86_64-simulator/sf_ios.framework/Headers/SFGeometryUtils.h:397-423 | c is a child of t if and only if t is the parent of c (both queries agree) |
| GeometryTypes.Depth | XCFrameworks/sf_ios.xcframework/ios-arm64_x86_64-simulator/sf_ios.framework/Headers/SFGeometryUtils.h:386-395 | the hierarchy is at most four levels deep, and depth 0 is exactly GEOMETRY |
| GeometryTypes.ParentHierarchy | XCFrameworks/sf_ios.xcframework/ios-arm64_x86_64-simulator/sf_ios.framework/Headers/SFGeometryUtils.h:386-395 | the parent types of a type, nearest first; its shape is stated by ParentHierarchyShape and the loop ParentHierarchyOf returns it |
| GeometryTypes.ParentHierarchyShape | XCFrameworks/sf_ios.xcframework/ios-arm64_x86_64-simulator/sf_ios.framework/Headers/SFGeometryUtils.h:386-405 | the parent hierarchy is empty exactly for GEOMETRY; otherwise it starts with the immediate parent, ends with GEOMETRY, and each entry is the parent of the one before |
| GeometryTypes.ParentHierarchyOf | XCFrameworks/sf_ios.xcframework/ios-arm64_x86_64-simulator/sf_ios.framework/Headers/SFGeometryUtils.h:386-395 | the loop that climbs parent types returns exactly the parent hierarchy |
| GeometryTypes.ChildHierarchy | XCFrameworks/sf_ios.xcframework/ios-arm64_x86_64-simulator/sf_ios.framework/Headers/SFGeometryUtils.h:407-414 | the child hierarchy is nil exactly when there are no child types; otherwise it lists every child type, in the order of ChildTypes, each with the type as its parent |
| GeometryTypes.ChildHierarchyNested | XCFrameworks/sf_ios.xcframework/ios-arm64_x86_64-simulator/sf_ios.framework/Headers/SFGeometryUtils.h:407-414 | the entries below each child are exactly that child's own child hierarchy, an empty list standing for its nil |
| GeometryUtils.Dimension | XCFrameworks/sf_ios.xcframework/ios-arm64_x86_64-simulator/sf_ios.framework/Headers/SFGeometryUtils.h:23-31 | the dimension is at most 2 and at least -1 (-1 only for a collection with nothing to take the maximum of) |
| GeometryUtils.MaxDimension | XCFrameworks/sf_ios.xcframework/ios-arm64_x86_64-simulator/sf_ios.framework/Headers/SFGeometryUtils.h:23-31 | the maximum over a collection's members lies in -1..2 |
| GeometryUtils.MaxDimensionIsLargest | XCFrameworks/sf_ios.xcframework/ios-arm64_x86_64-simulator/sf_ios.framework/Headers/SFGeometryUtils.h:23-31 | a collection's dimension is at least each member's dimension and equals one of them; it is -1 with no members |
| GeometryUtils.DimensionDefined | XCFrameworks/sf_ios.xcframework/ios-arm64_x86_64-simulator/sf_ios.framework/Headers/SFGeometryUtils.h:23-31 | the dimension is -1 exactly for collections made only of empty max-taking collections; otherwise it is 0, 1 or 2 |
| GeometryUtils.CurveType | XCFrameworks/sf_ios.xcframework/ios-arm64_x86_64-simulator/sf_ios.framework/Headers/SFGeometryUtils.h:386-395 | CURVE is an ancestor of exactly LINESTRING, CIRCULARSTRING and COMPOUNDCURVE |
| GeometryUtils.SurfaceType | XCFrameworks/sf_ios.xcframework/ios-arm64_x86_64-simulator/sf_ios.framework/Headers/SFGeometryUtils.h:386-395 | SURFACE is an ancestor of exactly CURVEPOLYGON, POLYGON, TRIANGLE, POLYHEDRALSURFACE and TIN |
| GeometryUtils.DimensionFollowsTypeHierarchy | XCFrameworks/sf_ios.xcframework/ios-arm64_x86_64-simulator/sf_ios.framework/Headers/SFGeometryUtils.h:23-31 | for a geometry that is not a collection: dimension 0 if and only if it is a point, 1 if and only if its type descends from CURVE, 2 if and only if it descends from SURFACE |
| GeometryUtils.HasZ | XCFrameworks/sf_ios.xcframework/ios-arm64_x86_64-simulator/sf_ios.framework/Headers/SFGeometryUtils.h:368-375 | true if and only if some geometry in the list has Z |
| GeometryUtils.HasM | XCFrameworks/sf_ios.xcframework/ios-arm64_x86_64-simulator/sf_ios.framework/Headers/SFGeometryUtils.h:377-384 | true if and only if some geometry in the list has M |
| GeometryUtils.Centroid | XCFrameworks/sf_ios.xcframework/ios-arm64_x86_64-simulator/sf_ios.framework/Headers/SFGeometryUtils.h:44-54 | a centroid has only x and y: z and m are nil and both flags are off; there is one exactly when the geometry has a dimension and, for dimension 0, a point |
| GeometryUtils.MeanBetweenExtremes | XCFrameworks/sf_ios.xcframework/ios-arm64_x86_64-simulator/sf_ios.framework/Headers/SFGeometryUtils.h:44-54 | the average of values lies between their minimum and maximum |
| GeometryUtils.PointCentroidWithinPoints | XCFrameworks/sf_ios.xcframework/ios-arm64_x86_64-simulator/sf_ios.framework/Headers/SFGeometryUtils.h:44-54 | the centroid of points exists and its x and y lie between the smallest and largest x and y of the points |
| Predicates.DistanceSqSymmetric | XCFrameworks/sf_ios.xcframework/ios-arm64_x86_64-simulator/sf_ios.framework/Headers/SFGeometryUtils.h:33-42 | the distance from p to q equals the distance from q to p |
| Predicates.DistanceSq | XCFrameworks/sf_ios.xcframework/ios-arm64_x86_64-simulator/sf_ios.framework/Headers/SFGeometryUtils.h:33-42 | the squared distance between two points in x and y; it is symmetric (DistanceSqSymmetric) and zero exactly at the same x and y (DistanceSqSign) |
| Predicates.DistanceSqSign | XCFrameworks/sf_ios.xcframework/ios-arm64_x86_64-simulator/sf_ios.framework/Headers/SFGeometryUtils.h:33-42 | the squared distance is never negative, and is zero if and only if the two points have the same x and y |
| Predicates.OnPath | XCFrameworks/sf_ios.xcframework/ios-arm64_x86_64-simulator/sf_ios.framework/Headers/SFGeometryUtils.h:340-366 | p projects within the segment [a, b] and lies within epsilon of it; a zero-length segment is skipped and holds no point; SegmentOnPath, OnPathExactly and OnPathWithinTolerance characterise it |
| Predicates.PathEndsOnPath | XCFrameworks/sf_ios.xcframework/ios-arm64_x86_64-simulator/sf_ios.framework/Headers/SFGeometryUtils.h:340-366 | each end point of a path lies on it, for every tolerance that is not negative, if and only if the path does not have zero length |
| Predicates.SegmentOnPath | XCFrameworks/sf_ios.xcframework/ios-arm64_x86_64-simulator/sf_ios.framework/Headers/SFGeometryUtils.h:340-366 | a point a + t(b - a) with t in [0, 1] is on the path from a to b, for every tolerance that is not negative, if and only if the segment does not have zero length |
| Predicates.OnPathSymmetric | XCFrameworks/sf_ios.xcframework/ios-arm64_x86_64-simulator/sf_ios.framework/Headers/SFGeometryUtils.h:340-366 | the path from a to b carries the same points as the path from b to a |
| Predicates.OnPathExactly | XCFrameworks/sf_ios.xcframework/ios-arm64_x86_64-simulator/sf_ios.framework/Headers/SFGeometryUtils.h:340-366 | with tolerance 0 a point is on the path if and only if the segment does not have zero length and the point is a + t(b - a) for some t in [0, 1] |
| Predicates.ClosedPolygonPoints | XCFrameworks/sf_ios.xcframework/ios-arm64_x86_64-simulator/sf_ios.framework/Headers/SFGeometryUtils.h:282-290 | the first and last points have the same x and y, and an empty list is not closed; ClosingCloses and ClosureAtEnds state how it responds to closing and to changes |
| Predicates.ClosedPolygonRing | XCFrameworks/sf_ios.xcframework/ios-arm64_x86_64-simulator/sf_ios.framework/Headers/SFGeometryUtils.h:272-280 | a ring is closed when its points are |
| Predicates.ClosedPolygon | XCFrameworks/sf_ios.xcframework/ios-arm64_x86_64-simulator/sf_ios.framework/Headers/SFGeometryUtils.h:262-270 | a polygon is closed when its exterior ring is, and a polygon without rings is not |
| Predicates.ClosingCloses | XCFrameworks/sf_ios.xcframework/ios-arm64_x86_64-simulator/sf_ios.framework/Headers/SFGeometryUtils.h:282-290 | appending the first point to a non-empty list makes it explicitly closed and keeps the original points |
| Predicates.ClosureAtEnds | XCFrameworks/sf_ios.xcframework/ios-arm64_x86_64-simulator/sf_ios.framework/Headers/SFGeometryUtils.h:262-290 | replacing an interior point does not change closure; dropping the closing point of a closed ring whose last two points differ opens it |
| Predicates.OnLinePoints | XCFrameworks/sf_ios.xcframework/ios-arm64_x86_64-simulator/sf_ios.framework/Headers/SFGeometryUtils.h:316-338 | p is on the path between some consecutive pair of points; the scan PointOnLinePoints answers exactly this |
| Predicates.OnLine | XCFrameworks/sf_ios.xcframework/ios-arm64_x86_64-simulator/sf_ios.framework/Headers/SFGeometryUtils.h:292-314 | p is on the path of the line string's points |
| Predicates.PointOnLinePoints | XCFrameworks/sf_ios.xcframework/ios-arm64_x86_64-simulator/sf_ios.framework/Headers/SFGeometryUtils.h:316-338 | the scan answers true exactly when the point is on the path between some consecutive pair of points |
| Predicates.VertexOnLine | XCFrameworks/sf_ios.xcframework/ios-arm64_x86_64-simulator/sf_ios.framework/Headers/SFGeometryUtils.h:292-338 | a vertex is on the line when one of the two segments it ends does not have zero length |
| Predicates.ZeroLengthLineHoldsNothing | XCFrameworks/sf_ios.xcframework/ios-arm64_x86_64-simulator/sf_ios.framework/Headers/SFGeometryUtils.h:316-338 | a line whose segments all have zero length (a single point, or one point repeated) holds no point |
| Predicates.OnLineExtended | XCFrameworks/sf_ios.xcframework/ios-arm64_x86_64-simulator/sf_ios.framework/Headers/SFGeometryUtils.h:316-338 | a point on a line stays on it when more points are appended |
| Predicates.Reverse | XCFrameworks/sf_ios.xcframework/ios-arm64_x86_64-simulator/sf_ios.framework/Headers/SFGeometryUtils.h:316-338 | the reversed list has the same length and holds point n-1-k at position k |
| Predicates.OnLineReversed | XCFrameworks/sf_ios.xcframework/ios-arm64_x86_64-simulator/sf_ios.framework/Headers/SFGeometryUtils.h:316-338 | a point is on a line if and only if it is on the line traversed backwards |
| PolygonPredicates.Prev | XCFrameworks/sf_ios.xcframework/ios-arm64_x86_64-simulator/sf_ios.framework/Headers/SFGeometryUtils.h:238-260 | the previous vertex of a ring (wrapping from the first to the last) is a valid index |
| PolygonPredicates.OnPolygonPointsEdge | XCFrameworks/sf_ios.xcframework/ios-arm64_x86_64-simulator/sf_ios.framework/Headers/SFGeometryUtils.h:238-260 | p is on the path of some ring edge, the closing edge included when the ring is not explicitly closed; the scan PointOnPolygonPointsEdge answers exactly this |
| PolygonPredicates.OnPolygonRingEdge | XCFrameworks/sf_ios.xcframework/ios-arm64_x86_64-simulator/sf_ios.framework/Headers/SFGeometryUtils.h:214-236 | p is on an edge of the ring's points |
| PolygonPredicates.OnPolygonEdge | XCFrameworks/sf_ios.xcframework/ios-arm64_x86_64-simulator/sf_ios.framework/Headers/SFGeometryUtils.h:190-212 | p is on an edge of the exterior ring, and a polygon without rings has no edge |
| PolygonPredicates.PointOnPolygonPointsEdge | XCFrameworks/sf_ios.xcframework/ios-arm64_x86_64-simulator/sf_ios.framework/Headers/SFGeometryUtils.h:238-260 | the scan answers true exactly when the point is on the path of some ring edge, including the closing edge |
| PolygonPredicates.ExplicitClosingKeepsEdges | XCFrameworks/sf_ios.xcframework/ios-arm64_x86_64-simulator/sf_ios.framework/Headers/SFGeometryUtils.h:214-260 | explicitly closing an open ring does not change which points are on its edges |
| PolygonPredicates.VertexOnRingEdge | XCFrameworks/sf_ios.xcframework/ios-arm64_x86_64-simulator/sf_ios.framework/Headers/SFGeometryUtils.h:238-260 | a vertex is on the ring's edge when one of the scanned edges it ends does not have zero length |
| PolygonPredicates.ClosingEdgeSkipped | XCFrameworks/sf_ios.xcframework/ios-arm64_x86_64-simulator/sf_ios.framework/Headers/SFGeometryUtils.h:238-260 | the closing edge of an explicitly closed ring has zero length and holds no point, so the scan may start after it |
| PolygonPredicates.Crossings | XCFrameworks/sf_ios.xcframework/ios-arm64_x86_64-simulator/sf_ios.framework/Headers/SFGeometryUtils.h:166-188 | the ray from the point crosses at most one edge per vertex scanned |
| PolygonPredicates.CrossingsFirst | XCFrameworks/sf_ios.xcframework/ios-arm64_x86_64-simulator/sf_ios.framework/Headers/SFGeometryUtils.h:166-188 | the crossing count of a range is that of its first edge plus that of the rest |
| PolygonPredicates.CrossingsAgree | XCFrameworks/sf_ios.xcframework/ios-arm64_x86_64-simulator/sf_ios.framework/Headers/SFGeometryUtils.h:166-188 | two rings with the same edges over a range cross the ray equally often there |
| PolygonPredicates.InPolygonPoints | XCFrameworks/sf_ios.xcframework/ios-arm64_x86_64-simulator/sf_ios.framework/Headers/SFGeometryUtils.h:166-188 | p is within epsilon of a vertex, or the ray from p crosses an odd number of edges, or p is exactly on an edge; UnitSquareHoldsCentre and UnitSquareExcludesRight show it both true and false |
| PolygonPredicates.InPolygonRing | XCFrameworks/sf_ios.xcframework/ios-arm64_x86_64-simulator/sf_ios.framework/Headers/SFGeometryUtils.h:142-164 | p is in the ring's points |
| PolygonPredicates.PointInPolygonPoints | XCFrameworks/sf_ios.xcframework/ios-arm64_x86_64-simulator/sf_ios.framework/Headers/SFGeometryUtils.h:166-188 | the crossing-number loop answers exactly the in-ring predicate: within epsilon of a vertex, an odd number of ray crossings, or exactly on an edge |
| PolygonPredicates.ExplicitClosingKeepsInside | XCFrameworks/sf_ios.xcframework/ios-arm64_x86_64-simulator/sf_ios.framework/Headers/SFGeometryUtils.h:142-188 | explicitly closing an open ring does not change which points are in it |
| PolygonPredicates.VertexInRing | XCFrameworks/sf_ios.xcframework/ios-arm64_x86_64-simulator/sf_ios.framework/Headers/SFGeometryUtils.h:166-188 | every vertex of a ring of two or more points counts as in the ring |
| PolygonPredicates.UnitSquareHoldsCentre | XCFrameworks/sf_ios.xcframework/ios-arm64_x86_64-simulator/sf_ios.framework/Headers/SFGeometryUtils.h:166-188 | (0.5, 0.5) is in the unit square with tolerance 0: its ray crosses exactly one edge |
| PolygonPredicates.UnitSquareExcludesRight | XCFrameworks/sf_ios.xcframework/ios-arm64_x86_64-simulator/sf_ios.framework/Headers/SFGeometryUtils.h:166-188 | (1.5, 0.5) is not in the unit square with tolerance 0: it is near no vertex, its ray crosses no edge and it is on no edge |
| PolygonPredicates.InPolygon | XCFrameworks/sf_ios.xcframework/ios-arm64_x86_64-simulator/sf_ios.framework/Headers/SFGeometryUtils.h:118-140 | p is in the exterior ring and in none of the holes, and a polygon without rings contains nothing; the loop PointInPolygon answers exactly this |
| PolygonPredicates.PointInPolygon | XCFrameworks/sf_ios.xcframework/ios-arm64_x86_64-simulator/sf_ios.framework/Headers/SFGeometryUtils.h:118-140 | the loop over rings answers exactly: in the exterior ring and in none of the holes |
| Simplification.ClosestPointOnSegment | XCFrameworks/sf_ios.xcframework/ios-arm64_x86_64-simulator/sf_ios.framework/Headers/SFGeometryUtils.h:104-116 | the foot from which the perpendicular distance is measured lies on the segment from line start to line end (on its path exactly when the segment does not have zero length), and no point of that segment is nearer to the point |
| Simplification.PerpendicularDistanceSq | XCFrameworks/sf_ios.xcframework/ios-arm64_x86_64-simulator/sf_ios.framework/Headers/SFGeometryUtils.h:104-116 | the squared distance from the point to the segment, measured to the foot of ClosestPointOnSegment |
| Simplification.PerpendicularDistanceIsNearest | XCFrameworks/sf_ios.xcframework/ios-arm64_x86_64-simulator/sf_ios.framework/Headers/SFGeometryUtils.h:104-116 | the perpendicular distance is at most the distance to every point a + t(b - a) with t in [0, 1], so it is the distance to the segment |
| Simplification.OnPathWithinTolerance | XCFrameworks/sf_ios.xcframework/ios-arm64_x86_64-simulator/sf_ios.framework/Headers/SFGeometryUtils.h:340-366 | a point on the path is within epsilon of the segment; conversely a point within epsilon of a segment of non-zero length that projects within it is on the path; a zero-length segment holds no point |
| Simplification.Farthest | XCFrameworks/sf_ios.xcframework/ios-arm64_x86_64-simulator/sf_ios.framework/Headers/SFGeometryUtils.h:91-102 | the chosen interior point is at least as far from the chord as every other, and is the first such point when that distance is positive |
| Simplification.FarthestPoint | XCFrameworks/sf_ios.xcframework/ios-arm64_x86_64-simulator/sf_ios.framework/Headers/SFGeometryUtils.h:91-102 | the scan for the farthest point returns the index and distance that Farthest specifies |
| Simplification.Simplified | XCFrameworks/sf_ios.xcframework/ios-arm64_x86_64-simulator/sf_ios.framework/Headers/SFGeometryUtils.h:91-102 | simplifying a range keeps at least two points and starts and ends with the range's own end points |
| Simplification.SimplifiedStep | XCFrameworks/sf_ios.xcframework/ios-arm64_x86_64-simulator/sf_ios.framework/Headers/SFGeometryUtils.h:91-102 | a range collapses to its two ends when no point is farther from the chord than the tolerance, and otherwise splits at the farthest point with the split point kept once |
| Simplification.SimplifiedIsSubsequence | XCFrameworks/sf_ios.xcframework/ios-arm64_x86_64-simulator/sf_ios.framework/Headers/SFGeometryUtils.h:91-102 | the simplified range is the input's points at strictly increasing indices from the range's start to its end |
| Simplification.SimplifyPoints | XCFrameworks/sf_ios.xcframework/ios-arm64_x86_64-simulator/sf_ios.framework/Headers/SFGeometryUtils.h:91-102 | a list of two points or fewer is returned unchanged, and a longer one is simplified over its whole range; SimplifyKeepsEnds and SimplifyIdempotent state its properties |
| Simplification.SimplifyKeepsEnds | XCFrameworks/sf_ios.xcframework/ios-arm64_x86_64-simulator/sf_ios.framework/Headers/SFGeometryUtils.h:91-102 | the result has no more points than the input, keeps the input's first and last point, and is a subsequence of the input |
| Simplification.ToleranceDecides | XCFrameworks/sf_ios.xcframework/ios-arm64_x86_64-simulator/sf_ios.framework/Headers/SFGeometryUtils.h:91-102 | a range whose interior points are all within the tolerance of the chord collapses to its two ends; otherwise the farthest interior point is kept |
| Simplification.SimplifiedLocal | XCFrameworks/sf_ios.xcframework/ios-arm64_x86_64-simulator/sf_ios.framework/Headers/SFGeometryUtils.h:91-102 | simplifying a range depends only on the points inside it |
| Simplification.Resimplified | XCFrameworks/sf_ios.xcframework/ios-arm64_x86_64-simulator/sf_ios.framework/Headers/SFGeometryUtils.h:91-102 | simplifying the simplified points of a range again gives them back unchanged |
| Simplification.SimplifyIdempotent | XCFrameworks/sf_ios.xcframework/ios-arm64_x86_64-simulator/sf_ios.framework/Headers/SFGeometryUtils.h:91-102 | simplifying twice with the same tolerance gives the same points as simplifying once |
| Simplification.SimplifyRange | XCFrameworks/sf_ios.xcframework/ios-arm64_x86_64-simulator/sf_ios.framework/Headers/SFGeometryUtils.h:91-102 | the recursive method returns exactly the simplified range |
| Simplification.Simplify | XCFrameworks/sf_ios.xcframework/ios-arm64_x86_64-simulator/sf_ios.framework/Headers/SFGeometryUtils.h:91-102 | simplifyPoints:withTolerance: returns exactly SimplifyPoints, so the properties above hold for it |
| Normalization.NormalizeX | XCFrameworks/sf_ios.xcframework/ios-arm64_x86_64-simulator/sf_ios.framework/Headers/SFGeometryUtils.h:74-89 | a normalized x lies in [-maxX, maxX], and an x already in that range is left alone |
| Normalization.NormalizeByWholeWidths | XCFrameworks/sf_ios.xcframework/ios-arm64_x86_64-simulator/sf_ios.framework/Headers/SFGeometryUtils.h:74-89 | normalizing moves x by a whole number of world widths (2 maxX), so the position on the globe is unchanged |
| Normalization.NormalizeNearRange | XCFrameworks/sf_ios.xcframework/ios-arm64_x86_64-simulator/sf_ios.framework/Headers/SFGeometryUtils.h:74-89 | for x within [-3 maxX, 3 maxX], normalizing is a single shift by one world width towards the range, or none |
| Normalization.NormalizedPoints | XCFrameworks/sf_ios.xcframework/ios-arm64_x86_64-simulator/sf_ios.framework/Headers/SFGeometryUtils.h:74-89 | every point is normalized in place in the list, and the list's length and order are kept |
| Normalization.NormalizePoints | XCFrameworks/sf_ios.xcframework/ios-arm64_x86_64-simulator/sf_ios.framework/Headers/SFGeometryUtils.h:74-89 | the in-place loop over a point array leaves exactly the normalized points |
| Normalization.NormalizeGeometry | XCFrameworks/sf_ios.xcframework/ios-arm64_x86_64-simulator/sf_ios.framework/Headers/SFGeometryUtils.h:74-89 | every point of the geometry tree normalized and the tree's shape and flags kept; NormalizeGeometryCoords states its coordinates |
| Normalization.NormalizeGeometryCoords | XCFrameworks/sf_ios.xcframework/ios-arm64_x86_64-simulator/sf_ios.framework/Headers/SFGeometryUtils.h:74-89 | the coordinates of a normalized geometry are its coordinates each normalized, so every x is in [-maxX, maxX] |
| Normalization.MinimizedPoints | XCFrameworks/sf_ios.xcframework/ios-arm64_x86_64-simulator/sf_ios.framework/Headers/SFGeometryUtils.h:56-72 | the first point stays; each later point moves one world width towards the first point when more than maxX away from it in x; nothing else changes |
| Normalization.MinimizePoints | XCFrameworks/sf_ios.xcframework/ios-arm64_x86_64-simulator/sf_ios.framework/Headers/SFGeometryUtils.h:56-72 | the in-place loop over a point array leaves exactly the minimized points |
| Normalization.MinimizeBound | XCFrameworks/sf_ios.xcframework/ios-arm64_x86_64-simulator/sf_ios.framework/Headers/SFGeometryUtils.h:56-72 | minimizing normalized points keeps every x within maxX of the first point's x, and so within [-3 maxX, 3 maxX] |
| Normalization.MinimizeGeometry | XCFrameworks/sf_ios.xcframework/ios-arm64_x86_64-simulator/sf_ios.framework/Headers/SFGeometryUtils.h:56-72 | every line string, ring and compound-curve part minimized and the tree's shape and flags kept; MinimizeGeometryBound and NormalizeThenMinimize bound its x values |
| Normalization.MinimizeGeometryBound | XCFrameworks/sf_ios.xcframework/ios-arm64_x86_64-simulator/sf_ios.framework/Headers/SFGeometryUtils.h:56-72 | minimizing a geometry whose x values are in [-maxX, maxX] leaves every x in [-3 maxX, 3 maxX] |
| Normalization.NormalizeThenMinimize | XCFrameworks/sf_ios.xcframework/ios-arm64_x86_64-simulator/sf_ios.framework/Headers/SFGeometryUtils.h:56-89 | normalizing and then minimizing any geometry leaves every x in [-3 maxX, 3 maxX] |
| Envelopes.Widen | sf-ios/SFGeometryEnvelopeBuilder.h:13-33 | widening an axis by a value covers the value and the old range, and each bound is either the value or the old bound |
| Envelopes.AddPoints | sf-ios/SFGeometryEnvelopeBuilder.h:27-33 | adding points keeps the envelope's hasZ and hasM flags |
| Envelopes.AddPointsSplit | sf-ios/SFGeometryEnvelopeBuilder.h:27-33 | adding a + b is adding a and then b |
| Envelopes.AddPointsCovers | sf-ios/SFGeometryEnvelopeBuilder.h:27-33 | after adding points, the envelope covers what it covered before and contains every added point |
| Envelopes.Expand | sf-ios/SFGeometryEnvelopeBuilder.h:27-33 | the envelope after buildEnvelope:andGeometry:, with the geometry's flags raised and its coordinates added; ExpandContains, ExpandCovers and ExpandIdempotent state its properties |
| Envelopes.ExpandContains | sf-ios/SFGeometryEnvelopeBuilder.h:27-33 | after buildEnvelope:andGeometry: the envelope contains every coordinate of the geometry |
| Envelopes.ExpandCovers | sf-ios/SFGeometryEnvelopeBuilder.h:27-33 | buildEnvelope:andGeometry: is monotone: the new envelope covers the old one, including its flags |
| Envelopes.AddContainedPoints | sf-ios/SFGeometryEnvelopeBuilder.h:27-33 | adding points an envelope already contains leaves it unchanged |
| Envelopes.AddPointsOrdered | sf-ios/SFGeometryEnvelopeBuilder.h:16-33 | adding points keeps min <= max on every axis |
| Envelopes.ExpandIdempotent | sf-ios/SFGeometryEnvelopeBuilder.h:27-33 | expanding any envelope twice by the same geometry is the same as expanding once |
| Envelopes.AddPointsBounds | sf-ios/SFGeometryEnvelopeBuilder.h:16-33 | once a point is added, x and y have bounds with min <= max, and so do z and m once a point with z or m is added |
| Envelopes.AddPointsTight | sf-ios/SFGeometryEnvelopeBuilder.h:13-25 | from an empty envelope, every bound is some coordinate of the points, and an axis has bounds exactly when some point has that coordinate |
| Envelopes.Build | sf-ios/SFGeometryEnvelopeBuilder.h:13-25 | the envelope built from an empty one; BuildTight states that it is tight and ordered |
| Envelopes.BuildTight | sf-ios/SFGeometryEnvelopeBuilder.h:13-25 | the built envelope is tight on the geometry's coordinates and ordered |
| Envelopes.GeometryEnvelope.constructor | sf-ios/SFGeometryEnvelopeBuilder.h:13-25 | a new envelope has no bounds and no Z or M |
| Envelopes.WidenAxis | sf-ios/SFGeometryEnvelopeBuilder.h:27-33 | updating one axis's min and max fields by a value is Widen on that axis |
| Envelopes.WidenAxisBy | sf-ios/SFGeometryEnvelopeBuilder.h:27-33 | an absent z or m leaves the axis's fields alone; a present one widens them |
| Envelopes.AddPointTo | sf-ios/SFGeometryEnvelopeBuilder.h:27-33 | the fields after adding a point are the value after adding that point |
| Envelopes.AddPointsTo | sf-ios/SFGeometryEnvelopeBuilder.h:27-33 | the loop over points leaves the envelope with the value after adding all of them |
| Envelopes.AddGeometryTo | sf-ios/SFGeometryEnvelopeBuilder.h:27-33 | walking the geometry tree adds exactly its coordinates, in order |
| Envelopes.BuildEnvelope | sf-ios/SFGeometryEnvelopeBuilder.h:27-33 | buildEnvelope:andGeometry: updates the envelope in place to the expanded value |
| Envelopes.BuildEnvelopeWithGeometry | sf-ios/SFGeometryEnvelopeBuilder.h:13-25 | buildEnvelopeWithGeometry: returns a fresh envelope holding the built value |
| Points.Point.constructor | sf-ios/SFPoint.h:37-42 | a default point is (0, 0) with no z, no m and no flags |
| Points.Point.FromXYValues | sf-ios/SFPoint.h:44-52 | the point holds exactly the given x and y, with no z or m |
| Points.Point.FromXY | sf-ios/SFPoint.h:54-62 | the point holds exactly the given x and y, with no z or m |
| Points.Point.FromXYZ | sf-ios/SFPoint.h:64-73 | the point holds x, y and the given z; hasZ follows whether z is present |
| Points.Point.FromXYValuesZ | sf-ios/SFPoint.h:75-84 | the same point as the decimal initialiser with x, y and z |
| Points.Point.FromXYZValues | sf-ios/SFPoint.h:86-95 | the point holds x, y and z, with hasZ set |
| Points.Point.FromXYZM | sf-ios/SFPoint.h:97-107 | the point holds all four given coordinates, with flags following whether z and m are present |
| Points.Point.FromXYValuesZM | sf-ios/SFPoint.h:109-119 | the same point as the decimal initialiser with x, y, z and m |
| Points.Point.FromXYZMValues | sf-ios/SFPoint.h:121-131 | the point holds all four coordinates, with hasZ and hasM set |
| Points.Point.WithFlags | sf-ios/SFPoint.h:133-143 | the point records the given flags, x and y, with z and m nil |
| Points.Point.WithFlagsValues | sf-ios/SFPoint.h:145-155 | the same point as the decimal initialiser with flags |
| Points.Point.SetXValue | sf-ios/SFPoint.h:157-162 | setting x changes x only; y, z, m and the flags are unchanged |
| Points.Point.SetYValue | sf-ios/SFPoint.h:164-169 | setting y changes y only |
| Points.Point.SetZValue | sf-ios/SFPoint.h:171-176 | setting z makes z present with that value and changes nothing else |
| Points.Point.SetMValue | sf-ios/SFPoint.h:178-183 | setting m makes m present with that value and changes nothing else |
| CompoundCurves.CompoundCurve.constructor | XCFrameworks/sf_ios.xcframework/ios-arm64/sf_ios.framework/Headers/SFCompoundCurve.h:22-27 | a new compound curve has no line strings and no Z or M |
| CompoundCurves.CompoundCurve.WithFlags | XCFrameworks/sf_ios.xcframework/ios-arm64/sf_ios.framework/Headers/SFCompoundCurve.h:29-37 | the curve records the given flags and has no line strings |
| CompoundCurves.CompoundCurve.WithLineStrings | XCFrameworks/sf_ios.xcframework/ios-arm64/sf_ios.framework/Headers/SFCompoundCurve.h:39-47 | the curve holds exactly the given line strings, and has Z (M) if and only if one of them does |
| CompoundCurves.CompoundCurve.WithLineString | XCFrameworks/sf_ios.xcframework/ios-arm64/sf_ios.framework/Headers/SFCompoundCurve.h:49-57 | the curve holds exactly the one line string and takes its flags |
| CompoundCurves.CompoundCurve.AddLineString | XCFrameworks/sf_ios.xcframework/ios-arm64/sf_ios.framework/Headers/SFCompoundCurve.h:59-64 | the line string is appended: the earlier ones and the flags are unchanged and it is the new last one |
| CompoundCurves.CompoundCurve.AddLineStrings | XCFrameworks/sf_ios.xcframework/ios-arm64/sf_ios.framework/Headers/SFCompoundCurve.h:66-72 | all the given line strings are appended in their order |
| CompoundCurves.CompoundCurve.NumLineStrings | XCFrameworks/sf_ios.xcframework/ios-arm64/sf_ios.framework/Headers/SFCompoundCurve.h:74-79 | the count is the length of the line-string list |
| CompoundCurves.CompoundCurve.LineStringAtIndex | XCFrameworks/sf_ios.xcframework/ios-arm64/sf_ios.framework/Headers/SFCompoundCurve.h:81-88 | for an index below the count, returns the line string at that index |

## Left out

- encodeGeometry/decodeGeometry (SFGeometryUtils.h:425-441): the byte format and the byte reader and writer are not part of this model.
- The Shamos–Hoey sweep-line validator is not modelled: only its imports in the umbrella header are available.
- The curve and surface centroid calculators are not part of this model. `GeometryUtils.Centroid` takes them as parameters and states only the x/y-only output; the point centroid is the mean of the points.
- Floating point is not modelled: coordinates are reals, and IEEE-754 rounding is left out.
- Square roots are not modelled: `distanceBetweenPoint1:andPoint2:` and the perpendicular distance are represented by their squares, compared with the squared tolerance.
- Concurrency (`nonatomic` properties) is out of scope.
- SFTIN, the umbrella header and the package manifest carry no behaviour beyond the TIN variant of a polyhedral surface.
- The overloads without an epsilon use `Predicates.DefaultEpsilon`, an exact test (0).
- The library's DBL_MAX/-DBL_MAX envelope sentinels and the nil z/m bounds are modelled as absent (`None`) bounds.
- Normalization.NormalizeGeometryCoords: normalizeGeometry:withMaxX: and minimizeGeometry:withMaxX: change the points of a geometry tree in place. The model performs the in-place update on a point array (`NormalizePoints`, `MinimizePoints`) and treats the tree as a value, so aliasing between geometries is not captured.
- Normalization.NormalizeX: the header promises the range but not how it is reached. The model shifts by the fewest whole world widths that land x in [-maxX, maxX]. `NormalizeNearRange` shows this is a single shift of 2 maxX for x within three half-widths.
- Normalization.MinimizeGeometryBound: the [-3 maxX, 3 maxX] bound is proved for input already within [-maxX, maxX] (for example after normalizing, `NormalizeThenMinimize`). Minimizing only moves each point towards its line's first point, so a lone point at 4 maxX keeps that x.
- Normalization.MinimizedPoints: each later point is compared with the first point of its line string, not with its predecessor.
- Simplification.SimplifyPoints: requires a tolerance that is not negative.
- GeometryTypes.ChildHierarchy: the library returns a dictionary keyed by child type, each value being that child's own hierarchy. The model returns an ordered list of nodes (type, entries below) in the order of `ChildTypes`; the dictionary's key lookup is not modelled.
- GeometryUtils.Dimension: the header lists the results 0, 1 and 2. A geometry collection, multi curve or multi surface with no member has no member dimension, and the model returns -1 for it.
- Predicates.ClosedPolygonPoints: compares x and y of the first and last point, like the other planar predicates. z and m do not take part.
- Predicates.OnPath: a segment whose two ends coincide is skipped, as the library's design rule for zero-length segments says, so it holds no point (not even its own end) and nothing is divided by its zero length. A line or ring made only of such segments holds nothing on its path. With a positive tolerance the accepted points have no parametric form: `OnPathWithinTolerance` bounds them by their distance to the segment, and `OnPathExactly` gives the exact form at tolerance 0.
- PolygonPredicates.PointInPolygon: uses the exterior ring and all hole rings. A point in any hole is outside, and a polygon without rings contains nothing.
- PolygonPredicates.OnPolygonEdge: tests the exterior ring only. In-polygon and on-edge stay independent predicates, since their interaction is left open.
- PolygonPredicates.InPolygonPoints: a point within epsilon of a vertex counts as in the ring. Otherwise an odd crossing number or an exact hit on an edge decides, and an empty list contains nothing.
- CompoundCurves.CompoundCurve.WithLineStrings: the library keeps the caller's mutable array itself (a `strong` property, SFCompoundCurve.h:20), so a later change made through either reference shows in the other. The model copies the list as a value, so this aliasing is not captured.
- Curve polygons and collections: the rings of a curve polygon are plain line strings rather than any curve, and a collection's members are not tied to its kind (a multi point may hold polygons). The model accepts every such tree; `GeometryUtils.Dimension` then reports the largest member dimension whatever the kind.
