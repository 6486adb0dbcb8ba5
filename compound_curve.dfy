/**
 * SFCompoundCurve: a curve made of line strings, held in a mutable list that
 * is appended to in place.
 */
module CompoundCurves {
  import G = Geometries
  import GeometryUtils

  /** The line strings of a list, each as a geometry. */
  function AsGeometries(ls: seq<G.LineString>): (r: seq<G.Geometry>)
    ensures |r| == |ls| && forall i :: 0 <= i < |ls| ==> r[i] == G.LineStringGeometry(ls[i])
  {
    seq(|ls|, i requires 0 <= i < |ls| => G.LineStringGeometry(ls[i]))
  }

  class CompoundCurve {
    const hasZ: bool
    const hasM: bool
    var lineStrings: seq<G.LineString>

    /** The compound curve as a geometry value. */
    function Value(): G.Geometry
      reads this
    {
      G.CompoundCurve(hasZ, hasM, lineStrings)
    }

    /** init: no line strings, no z, no m. */
    constructor ()
      ensures Value() == G.CompoundCurve(false, false, [])
    {
      hasZ, hasM := false, false;
      lineStrings := [];
    }

    /** initWithHasZ:andHasM: -- the given flags and no line strings. */
    constructor WithFlags(hasZ: bool, hasM: bool)
      ensures Value() == G.CompoundCurve(hasZ, hasM, [])
    {
      this.hasZ, this.hasM := hasZ, hasM;
      lineStrings := [];
    }

    /**
     * initWithLineStrings: holds exactly the given list; it has z (m) values
     * iff one of the line strings does.
     */
    constructor WithLineStrings(ls: seq<G.LineString>)
      ensures lineStrings == ls
      ensures hasZ <==> exists i :: 0 <= i < |ls| && ls[i].hasZ
      ensures hasM <==> exists i :: 0 <= i < |ls| && ls[i].hasM
    {
      var gs := AsGeometries(ls);
      var z := GeometryUtils.HasZ(gs);
      var m := GeometryUtils.HasM(gs);
      assert forall i :: 0 <= i < |ls| ==> G.HasZ(gs[i]) == ls[i].hasZ && G.HasM(gs[i]) == ls[i].hasM;
      hasZ, hasM := z, m;
      lineStrings := ls;
    }

    /** initWithLineString: holds exactly that one line string, with its flags. */
    constructor WithLineString(l: G.LineString)
      ensures Value() == G.CompoundCurve(l.hasZ, l.hasM, [l])
    {
      hasZ, hasM := l.hasZ, l.hasM;
      lineStrings := [l];
    }

    /** addLineString: appends at the end; earlier line strings and the flags are unchanged. */
    method AddLineString(l: G.LineString)
      modifies this
      ensures Value() == G.CompoundCurve(hasZ, hasM, old(lineStrings) + [l])
    {
      lineStrings := lineStrings + [l];
    }

    /** addLineStrings: appends every given line string, in the given order. */
    method AddLineStrings(ls: seq<G.LineString>)
      modifies this
      ensures Value() == G.CompoundCurve(hasZ, hasM, old(lineStrings) + ls)
    {
      var i := 0;
      while i < |ls|
        invariant 0 <= i <= |ls|
        invariant lineStrings == old(lineStrings) + ls[..i]
      {
        AddLineString(ls[i]);
        assert ls[..i + 1] == ls[..i] + [ls[i]];
        i := i + 1;
      }
    }

    /** numLineStrings */
    method NumLineStrings() returns (n: nat)
      ensures n == |lineStrings|
    {
      n := |lineStrings|;
    }

    /** lineStringAtIndex: the n-th line string, for n within the list. */
    method LineStringAtIndex(n: nat) returns (l: G.LineString)
      requires n < |lineStrings|
      ensures l == lineStrings[n]
    {
      l := lineStrings[n];
    }
  }
}
