/**
 * SFGeometryEnvelope and SFGeometryEnvelopeBuilder: the axis-aligned bounding
 * box of a geometry, folded point by point over every coordinate reachable in
 * the geometry tree, either into a fresh envelope or into an existing one in
 * place.
 *
 * The library starts a fresh envelope with minimum +DBL_MAX and maximum
 * -DBL_MAX on x and y; here an axis that has seen no coordinate yet is None.
 */
module Envelopes {
  import opened Wrappers
  import G = Geometries

  /** A closed interval [lo, hi] of one axis. */
  datatype Range = Range(lo: real, hi: real)

  /** The value of an envelope: flags and, per axis, the bounds seen so far. */
  datatype Envelope = Envelope(
    hasZ: bool, hasM: bool,
    x: Option<Range>, y: Option<Range>, z: Option<Range>, m: Option<Range>)

  const Empty := Envelope(false, false, None, None, None, None)

  datatype Measure = Z | M

  // ------------------------------------------------------------ folding

  /** The bounds r extended to include v. */
  function Widen(r: Option<Range>, v: real): (w: Range)
    ensures w.lo <= v <= w.hi
    ensures r.Some? ==> w.lo <= r.value.lo && r.value.hi <= w.hi
    ensures w.lo == v || (r.Some? && w.lo == r.value.lo)
    ensures w.hi == v || (r.Some? && w.hi == r.value.hi)
  {
    match r
    case None => Range(v, v)
    case Some(b) => Range(if v < b.lo then v else b.lo, if b.hi < v then v else b.hi)
  }

  function WidenBy(r: Option<Range>, v: Option<real>): Option<Range> {
    match v
    case None => r
    case Some(w) => Some(Widen(r, w))
  }

  /** The z value a point contributes: only a point that has z and a non-nil z. */
  function ZOf(p: G.Point): Option<real> {
    if p.hasZ then p.z else None
  }

  function MOf(p: G.Point): Option<real> {
    if p.hasM then p.m else None
  }

  function AddPoint(e: Envelope, p: G.Point): Envelope {
    e.(x := Some(Widen(e.x, p.x)), y := Some(Widen(e.y, p.y)),
       z := WidenBy(e.z, ZOf(p)), m := WidenBy(e.m, MOf(p)))
  }

  function AddPoints(e: Envelope, ps: seq<G.Point>): (r: Envelope)
    ensures r.hasZ == e.hasZ && r.hasM == e.hasM
  {
    if ps == [] then e else AddPoint(AddPoints(e, ps[..|ps| - 1]), ps[|ps| - 1])
  }

  function Own(d: Measure, hasZ: bool, hasM: bool): bool {
    if d == Z then hasZ else hasM
  }

  function AnyPointFlag(d: Measure, ps: seq<G.Point>): bool {
    ps != [] && (Own(d, ps[0].hasZ, ps[0].hasM) || AnyPointFlag(d, ps[1..]))
  }

  function LineFlag(d: Measure, l: G.LineString): bool {
    Own(d, l.hasZ, l.hasM) || AnyPointFlag(d, l.points)
  }

  function AnyLineFlag(d: Measure, ls: seq<G.LineString>): bool {
    ls != [] && (LineFlag(d, ls[0]) || AnyLineFlag(d, ls[1..]))
  }

  function PolygonFlag(d: Measure, p: G.Polygon): bool {
    Own(d, p.hasZ, p.hasM) || AnyLineFlag(d, p.rings)
  }

  function AnyPolygonFlag(d: Measure, ps: seq<G.Polygon>): bool {
    ps != [] && (PolygonFlag(d, ps[0]) || AnyPolygonFlag(d, ps[1..]))
  }

  /** Whether some geometry visited by the builder (the geometry or a part of it) has z (m). */
  function GeometryFlag(d: Measure, g: G.Geometry): bool
    decreases g
  {
    match g
    case PointGeometry(p) => Own(d, p.hasZ, p.hasM)
    case LineStringGeometry(l) => LineFlag(d, l)
    case PolygonGeometry(p) => PolygonFlag(d, p)
    case CompoundCurve(hz, hm, ls) => Own(d, hz, hm) || AnyLineFlag(d, ls)
    case PolyhedralSurface(hz, hm, _, ps) => Own(d, hz, hm) || AnyPolygonFlag(d, ps)
    case Collection(hz, hm, _, gs) => Own(d, hz, hm) || AnyGeometryFlag(d, gs)
  }

  function AnyGeometryFlag(d: Measure, gs: seq<G.Geometry>): bool
    decreases gs
  {
    gs != [] && (GeometryFlag(d, gs[0]) || AnyGeometryFlag(d, gs[1..]))
  }

  /** buildEnvelope:andGeometry: as a function of the envelope's value. */
  function Expand(e: Envelope, g: G.Geometry): Envelope {
    AddPoints(e.(hasZ := e.hasZ || GeometryFlag(Z, g), hasM := e.hasM || GeometryFlag(M, g)),
              G.Coords(g))
  }

  /** buildEnvelopeWithGeometry: as a function of the geometry. */
  function Build(g: G.Geometry): Envelope {
    Expand(Empty, g)
  }

  // ------------------------------------------------------------ containment

  predicate In(r: Option<Range>, v: real) {
    r.Some? && r.value.lo <= v <= r.value.hi
  }

  predicate InBy(r: Option<Range>, v: Option<real>) {
    v.Some? ==> In(r, v.value)
  }

  /** The envelope covers the point on every axis the point contributes. */
  predicate Contains(e: Envelope, p: G.Point) {
    In(e.x, p.x) && In(e.y, p.y) && InBy(e.z, ZOf(p)) && InBy(e.m, MOf(p))
  }

  predicate RangeCovers(outer: Option<Range>, inner: Option<Range>) {
    inner.Some? ==> outer.Some? && outer.value.lo <= inner.value.lo && inner.value.hi <= outer.value.hi
  }

  /** Everything e covers, outer covers too. */
  predicate Covers(outer: Envelope, e: Envelope) {
    RangeCovers(outer.x, e.x) && RangeCovers(outer.y, e.y) &&
    RangeCovers(outer.z, e.z) && RangeCovers(outer.m, e.m) &&
    (e.hasZ ==> outer.hasZ) && (e.hasM ==> outer.hasM)
  }

  /** Every present axis has min <= max. */
  predicate Ordered(e: Envelope) {
    (e.x.Some? ==> e.x.value.lo <= e.x.value.hi) &&
    (e.y.Some? ==> e.y.value.lo <= e.y.value.hi) &&
    (e.z.Some? ==> e.z.value.lo <= e.z.value.hi) &&
    (e.m.Some? ==> e.m.value.lo <= e.m.value.hi)
  }

  lemma {:induction false} AddPointsSplit(e: Envelope, a: seq<G.Point>, b: seq<G.Point>)
    ensures AddPoints(e, a + b) == AddPoints(AddPoints(e, a), b)
    decreases b
  {
    if b == [] {
      assert a + b == a;
    } else {
      var k := |b| - 1;
      assert (a + b)[..|a + b| - 1] == a + b[..k];
      AddPointsSplit(e, a, b[..k]);
    }
  }

  /**
   * Adding points never shrinks the envelope, and afterwards it contains
   * every point added.
   */
  lemma {:induction false} AddPointsCovers(e: Envelope, ps: seq<G.Point>)
    ensures Covers(AddPoints(e, ps), e)
    ensures forall i :: 0 <= i < |ps| ==> Contains(AddPoints(e, ps), ps[i])
    decreases ps
  {
    if ps != [] {
      var k := |ps| - 1;
      AddPointsCovers(e, ps[..k]);
      var before := AddPoints(e, ps[..k]);
      var after := AddPoint(before, ps[k]);
      assert AddPoints(e, ps) == after;
      AddPointGrows(before, ps[k]);
      CoversTransitive(after, before, e);
      forall i | 0 <= i < |ps|
        ensures Contains(after, ps[i])
      {
        if i < k {
          assert ps[..k][i] == ps[i];
          CoversContains(after, before, ps[i]);
        }
      }
    }
  }

  /** Adding a point keeps what the envelope covered and takes the point in. */
  lemma AddPointGrows(e: Envelope, p: G.Point)
    ensures Covers(AddPoint(e, p), e) && Contains(AddPoint(e, p), p)
  {
  }

  lemma CoversTransitive(outer: Envelope, middle: Envelope, e: Envelope)
    requires Covers(outer, middle) && Covers(middle, e)
    ensures Covers(outer, e)
  {
  }

  lemma CoversContains(outer: Envelope, e: Envelope, p: G.Point)
    requires Covers(outer, e) && Contains(e, p)
    ensures Contains(outer, p)
  {
  }

  /** Every coordinate of the geometry lies within the expanded envelope. */
  lemma ExpandContains(e: Envelope, g: G.Geometry)
    ensures forall i :: 0 <= i < |G.Coords(g)| ==> Contains(Expand(e, g), G.Coords(g)[i])
  {
    AddPointsCovers(e.(hasZ := e.hasZ || GeometryFlag(Z, g), hasM := e.hasM || GeometryFlag(M, g)),
                    G.Coords(g));
  }

  /** Expanding is monotone: whatever the envelope covered before, it still covers. */
  lemma ExpandCovers(e: Envelope, g: G.Geometry)
    ensures Covers(Expand(e, g), e)
  {
    AddPointsCovers(e.(hasZ := e.hasZ || GeometryFlag(Z, g), hasM := e.hasM || GeometryFlag(M, g)),
                    G.Coords(g));
  }

  /** Adding a point the envelope already contains changes nothing. */
  lemma {:induction false} AddContainedPoints(e: Envelope, ps: seq<G.Point>)
    requires forall i :: 0 <= i < |ps| ==> Contains(e, ps[i])
    ensures AddPoints(e, ps) == e
    decreases ps
  {
    if ps != [] {
      var k := |ps| - 1;
      AddContainedPoints(e, ps[..k]);
      assert ps[..k] + [ps[k]] == ps;
      assert Contains(e, ps[k]);
    }
  }

  /** Adding points keeps every present axis ordered, and orders the axes it creates. */
  lemma {:induction false} AddPointsOrdered(e: Envelope, ps: seq<G.Point>)
    requires Ordered(e)
    ensures Ordered(AddPoints(e, ps))
    decreases ps
  {
    if ps != [] {
      AddPointsOrdered(e, ps[..|ps| - 1]);
    }
  }

  /** Expanding twice with the same geometry gives the same envelope as expanding once. */
  lemma ExpandIdempotent(e: Envelope, g: G.Geometry)
    ensures Expand(Expand(e, g), g) == Expand(e, g)
  {
    var once := Expand(e, g);
    ExpandContains(e, g);
    var again := once.(hasZ := once.hasZ || GeometryFlag(Z, g), hasM := once.hasM || GeometryFlag(M, g));
    assert again == once;
    AddContainedPoints(once, G.Coords(g));
  }

  /**
   * Once a point has been included, min <= max on x and y, whatever the
   * envelope held before; z and m likewise once a z (m) value is included.
   */
  lemma {:induction false} AddPointsBounds(e: Envelope, ps: seq<G.Point>)
    requires ps != []
    ensures AddPoints(e, ps).x.Some? && AddPoints(e, ps).x.value.lo <= AddPoints(e, ps).x.value.hi
    ensures AddPoints(e, ps).y.Some? && AddPoints(e, ps).y.value.lo <= AddPoints(e, ps).y.value.hi
    ensures (exists i :: 0 <= i < |ps| && ZOf(ps[i]).Some?) ==>
              AddPoints(e, ps).z.Some? && AddPoints(e, ps).z.value.lo <= AddPoints(e, ps).z.value.hi
    ensures (exists i :: 0 <= i < |ps| && MOf(ps[i]).Some?) ==>
              AddPoints(e, ps).m.Some? && AddPoints(e, ps).m.value.lo <= AddPoints(e, ps).m.value.hi
  {
    var k := |ps| - 1;
    if (exists i :: 0 <= i < |ps| && ZOf(ps[i]).Some?) && ZOf(ps[k]).None? {
      var i :| 0 <= i < |ps| && ZOf(ps[i]).Some?;
      assert ps[..k][i] == ps[i];
      AddPointsBounds(e, ps[..k]);
    }
    if (exists i :: 0 <= i < |ps| && MOf(ps[i]).Some?) && MOf(ps[k]).None? {
      var i :| 0 <= i < |ps| && MOf(ps[i]).Some?;
      assert ps[..k][i] == ps[i];
      AddPointsBounds(e, ps[..k]);
    }
  }

  // ------------------------------------------------------------ tightness

  predicate LoFrom(r: Option<Range>, vs: seq<real>) {
    r.Some? ==> exists i :: 0 <= i < |vs| && r.value.lo == vs[i]
  }

  predicate HiFrom(r: Option<Range>, vs: seq<real>) {
    r.Some? ==> exists i :: 0 <= i < |vs| && r.value.hi == vs[i]
  }

  /** The z values the points contribute, in order. */
  function Zs(ps: seq<G.Point>): seq<real> {
    if ps == [] then []
    else Zs(ps[..|ps| - 1]) + (match ZOf(ps[|ps| - 1]) case None => [] case Some(v) => [v])
  }

  function Ms(ps: seq<G.Point>): seq<real> {
    if ps == [] then []
    else Ms(ps[..|ps| - 1]) + (match MOf(ps[|ps| - 1]) case None => [] case Some(v) => [v])
  }

  /** Tight: every bound of a fresh envelope is a coordinate of some point added. */
  predicate Tight(e: Envelope, ps: seq<G.Point>) {
    (e.x.Some? <==> ps != []) && (e.y.Some? <==> ps != []) &&
    (e.z.Some? <==> Zs(ps) != []) && (e.m.Some? <==> Ms(ps) != []) &&
    LoFrom(e.x, G.Xs(ps)) && HiFrom(e.x, G.Xs(ps)) &&
    LoFrom(e.y, G.Ys(ps)) && HiFrom(e.y, G.Ys(ps)) &&
    LoFrom(e.z, Zs(ps)) && HiFrom(e.z, Zs(ps)) &&
    LoFrom(e.m, Ms(ps)) && HiFrom(e.m, Ms(ps))
  }

  lemma WidenFrom(r: Option<Range>, vs: seq<real>, v: real)
    requires LoFrom(r, vs) && HiFrom(r, vs)
    ensures LoFrom(Some(Widen(r, v)), vs + [v]) && HiFrom(Some(Widen(r, v)), vs + [v])
  {
    var w := Widen(r, v);
    if w.lo != v {
      var i :| 0 <= i < |vs| && r.value.lo == vs[i];
      assert (vs + [v])[i] == vs[i];
    } else {
      assert (vs + [v])[|vs|] == v;
    }
    if w.hi != v {
      var i :| 0 <= i < |vs| && r.value.hi == vs[i];
      assert (vs + [v])[i] == vs[i];
    } else {
      assert (vs + [v])[|vs|] == v;
    }
  }

  lemma WidenByFrom(r: Option<Range>, vs: seq<real>, v: Option<real>)
    requires LoFrom(r, vs) && HiFrom(r, vs)
    requires r.Some? <==> vs != []
    ensures var vs' := vs + (match v case None => [] case Some(w) => [w]);
      LoFrom(WidenBy(r, v), vs') && HiFrom(WidenBy(r, v), vs') && (WidenBy(r, v).Some? <==> vs' != [])
  {
    match v
    case None =>
      assert vs + [] == vs;
    case Some(w) =>
      WidenFrom(r, vs, w);
  }

  lemma {:induction false} AddPointsTight(ps: seq<G.Point>, hz: bool, hm: bool)
    ensures Tight(AddPoints(Empty.(hasZ := hz, hasM := hm), ps), ps)
    decreases ps
  {
    if ps != [] {
      var k := |ps| - 1;
      var e := AddPoints(Empty.(hasZ := hz, hasM := hm), ps[..k]);
      AddPointsTight(ps[..k], hz, hm);
      assert G.Xs(ps) == G.Xs(ps[..k]) + [ps[k].x];
      assert G.Ys(ps) == G.Ys(ps[..k]) + [ps[k].y];
      WidenFrom(e.x, G.Xs(ps[..k]), ps[k].x);
      WidenFrom(e.y, G.Ys(ps[..k]), ps[k].y);
      WidenByFrom(e.z, Zs(ps[..k]), ZOf(ps[k]));
      WidenByFrom(e.m, Ms(ps[..k]), MOf(ps[k]));
    }
  }

  /**
   * The built envelope is tight: it is empty on x and y exactly when the
   * geometry has no coordinate, and each of its bounds is a coordinate of the
   * geometry; z and m bounds exist exactly when some point contributes one.
   */
  lemma BuildTight(g: G.Geometry)
    ensures Tight(Build(g), G.Coords(g))
    ensures Ordered(Build(g))
  {
    AddPointsTight(G.Coords(g), GeometryFlag(Z, g), GeometryFlag(M, g));
    AddPointsOrdered(Empty.(hasZ := GeometryFlag(Z, g), hasM := GeometryFlag(M, g)), G.Coords(g));
  }

  // ------------------------------------------------------------ in place

  function RangeOf(lo: Option<real>, hi: Option<real>): Option<Range> {
    if lo.Some? && hi.Some? then Some(Range(lo.value, hi.value)) else None
  }

  /** SFGeometryEnvelope: mutable min/max fields, nil until a value is seen. */
  class GeometryEnvelope {
    var hasZ: bool
    var hasM: bool
    var minX: Option<real>
    var maxX: Option<real>
    var minY: Option<real>
    var maxY: Option<real>
    var minZ: Option<real>
    var maxZ: Option<real>
    var minM: Option<real>
    var maxM: Option<real>

    /** Each axis has both bounds or neither. */
    predicate Valid()
      reads this
    {
      minX.Some? == maxX.Some? && minY.Some? == maxY.Some? &&
      minZ.Some? == maxZ.Some? && minM.Some? == maxM.Some?
    }

    function Value(): Envelope
      reads this
    {
      Envelope(hasZ, hasM, RangeOf(minX, maxX), RangeOf(minY, maxY),
               RangeOf(minZ, maxZ), RangeOf(minM, maxM))
    }

    constructor ()
      ensures Valid() && Value() == Empty
    {
      hasZ, hasM := false, false;
      minX, maxX, minY, maxY := None, None, None, None;
      minZ, maxZ, minM, maxM := None, None, None, None;
    }
  }

  /** One axis of the builder's addPoint: min and max moved out to v where needed. */
  method WidenAxis(min: Option<real>, max: Option<real>, v: real) returns (min': Option<real>, max': Option<real>)
    requires min.Some? == max.Some?
    ensures min'.Some? && max'.Some?
    ensures RangeOf(min', max') == Some(Widen(RangeOf(min, max), v))
  {
    min', max' := min, max;
    if min.None? || v < min.value { min' := Some(v); }
    if max.None? || max.value < v { max' := Some(v); }
  }

  /** Widens an axis by an optional value: nothing changes when the value is absent. */
  method WidenAxisBy(min: Option<real>, max: Option<real>, v: Option<real>) returns (min': Option<real>, max': Option<real>)
    requires min.Some? == max.Some?
    ensures min'.Some? == max'.Some?
    ensures RangeOf(min', max') == WidenBy(RangeOf(min, max), v)
  {
    min', max' := min, max;
    if v.Some? {
      min', max' := WidenAxis(min, max, v.value);
    }
  }

  /** Widens the x and y axes of the envelope by one point. */
  method AddXYTo(env: GeometryEnvelope, p: G.Point)
    requires env.Valid()
    modifies env
    ensures env.Valid()
    ensures env.Value() == old(env.Value()).(x := Some(Widen(old(env.Value()).x, p.x)),
                                             y := Some(Widen(old(env.Value()).y, p.y)))
  {
    var minX, maxX := WidenAxis(env.minX, env.maxX, p.x);
    var minY, maxY := WidenAxis(env.minY, env.maxY, p.y);
    env.minX, env.maxX, env.minY, env.maxY := minX, maxX, minY, maxY;
  }

  /** Widens the z and m axes of the envelope by the values the point contributes. */
  method AddZMTo(env: GeometryEnvelope, p: G.Point)
    requires env.Valid()
    modifies env
    ensures env.Valid()
    ensures env.Value() == old(env.Value()).(z := WidenBy(old(env.Value()).z, ZOf(p)),
                                             m := WidenBy(old(env.Value()).m, MOf(p)))
  {
    var minZ, maxZ := WidenAxisBy(env.minZ, env.maxZ, ZOf(p));
    var minM, maxM := WidenAxisBy(env.minM, env.maxM, MOf(p));
    env.minZ, env.maxZ, env.minM, env.maxM := minZ, maxZ, minM, maxM;
  }

  /** Widens every axis of the envelope by one point. */
  method AddPointTo(env: GeometryEnvelope, p: G.Point)
    requires env.Valid()
    modifies env
    ensures env.Valid() && env.Value() == AddPoint(old(env.Value()), p)
  {
    AddXYTo(env, p);
    AddZMTo(env, p);
  }

  method AddPointsTo(env: GeometryEnvelope, ps: seq<G.Point>)
    requires env.Valid()
    modifies env
    ensures env.Valid() && env.Value() == AddPoints(old(env.Value()), ps)
  {
    var i := 0;
    while i < |ps|
      invariant 0 <= i <= |ps|
      invariant env.Valid() && env.Value() == AddPoints(old(env.Value()), ps[..i])
    {
      assert ps[..i + 1][..i] == ps[..i];
      AddPointTo(env, ps[i]);
      i := i + 1;
    }
    assert ps[..i] == ps;
  }

  method AddLineStringsTo(env: GeometryEnvelope, ls: seq<G.LineString>)
    requires env.Valid()
    modifies env
    ensures env.Valid() && env.Value() == AddPoints(old(env.Value()), G.LinePoints(ls))
  {
    var i := 0;
    while i < |ls|
      invariant 0 <= i <= |ls|
      invariant env.Valid() && env.Value() == AddPoints(old(env.Value()), G.LinePoints(ls[..i]))
    {
      assert ls[..i + 1][..i] == ls[..i];
      AddPointsSplit(old(env.Value()), G.LinePoints(ls[..i]), ls[i].points);
      AddPointsTo(env, ls[i].points);
      i := i + 1;
    }
    assert ls[..i] == ls;
  }

  method AddPolygonsTo(env: GeometryEnvelope, ps: seq<G.Polygon>)
    requires env.Valid()
    modifies env
    ensures env.Valid() && env.Value() == AddPoints(old(env.Value()), G.PolygonPoints(ps))
  {
    var i := 0;
    while i < |ps|
      invariant 0 <= i <= |ps|
      invariant env.Valid() && env.Value() == AddPoints(old(env.Value()), G.PolygonPoints(ps[..i]))
    {
      assert ps[..i + 1][..i] == ps[..i];
      AddPointsSplit(old(env.Value()), G.PolygonPoints(ps[..i]), G.LinePoints(ps[i].rings));
      AddLineStringsTo(env, ps[i].rings);
      i := i + 1;
    }
    assert ps[..i] == ps;
  }

  /** Visits every coordinate of the geometry tree, widening the envelope. */
  method AddGeometryTo(env: GeometryEnvelope, g: G.Geometry)
    requires env.Valid()
    modifies env
    ensures env.Valid() && env.Value() == AddPoints(old(env.Value()), G.Coords(g))
    decreases g
  {
    match g
    case PointGeometry(p) =>
      AddPointTo(env, p);
      assert [p][..0] == [];
    case LineStringGeometry(l) =>
      AddPointsTo(env, l.points);
    case PolygonGeometry(p) =>
      AddLineStringsTo(env, p.rings);
    case CompoundCurve(_, _, ls) =>
      AddLineStringsTo(env, ls);
    case PolyhedralSurface(_, _, _, ps) =>
      AddPolygonsTo(env, ps);
    case Collection(_, _, _, gs) =>
      var i := 0;
      while i < |gs|
        invariant 0 <= i <= |gs|
        invariant env.Valid() && env.Value() == AddPoints(old(env.Value()), G.CoordsOfAll(gs[..i]))
      {
        assert gs[..i + 1][..i] == gs[..i];
        AddPointsSplit(old(env.Value()), G.CoordsOfAll(gs[..i]), G.Coords(gs[i]));
        AddGeometryTo(env, gs[i]);
        i := i + 1;
      }
      assert gs[..i] == gs;
  }

  /** Raises the envelope's z and m flags. */
  method RaiseFlags(env: GeometryEnvelope, z: bool, m: bool)
    requires env.Valid()
    modifies env
    ensures env.Valid() && env.Value() == old(env.Value()).(hasZ := old(env.hasZ) || z, hasM := old(env.hasM) || m)
  {
    env.hasZ, env.hasM := env.hasZ || z, env.hasM || m;
  }

  /** buildEnvelope:andGeometry: expands an existing envelope in place. */
  method BuildEnvelope(env: GeometryEnvelope, g: G.Geometry)
    requires env.Valid()
    modifies env
    ensures env.Valid() && env.Value() == Expand(old(env.Value()), g)
  {
    var z := GeometryFlag(Z, g);
    var m := GeometryFlag(M, g);
    RaiseFlags(env, z, m);
    AddGeometryTo(env, g);
  }

  /** buildEnvelopeWithGeometry: a fresh envelope holding the geometry's bounds. */
  method BuildEnvelopeWithGeometry(g: G.Geometry) returns (env: GeometryEnvelope)
    ensures fresh(env) && env.Valid() && env.Value() == Build(g)
  {
    env := new GeometryEnvelope();
    BuildEnvelope(env, g);
  }
}
