/**
 * SFPoint: a single location with an x and y coordinate and optional z and m
 * values. The coordinate properties are mutable; the hasZ / hasM flags are
 * fixed by the initialiser. Double-valued initialisers and setters take the
 * same reals as the decimal ones: IEEE-754 rounding is not modelled.
 */
module Points {
  import opened Wrappers
  import G = Geometries

  class Point {
    const hasZ: bool
    const hasM: bool
    var x: real
    var y: real
    var z: Option<real>
    var m: Option<real>

    /** The point as a geometry value. */
    function Value(): G.Point
      reads this
    {
      G.Point(hasZ, hasM, x, y, z, m)
    }

    /** init: the origin, without z or m. */
    constructor ()
      ensures Value() == G.Point(false, false, 0.0, 0.0, None, None)
    {
      hasZ, hasM := false, false;
      x, y, z, m := 0.0, 0.0, None, None;
    }

    /** initWithXValue:andYValue: */
    constructor FromXYValues(x: real, y: real)
      ensures Value() == G.Point(false, false, x, y, None, None)
    {
      hasZ, hasM := false, false;
      this.x, this.y, z, m := x, y, None, None;
    }

    /** initWithX:andY: */
    constructor FromXY(x: real, y: real)
      ensures Value() == G.Point(false, false, x, y, None, None)
    {
      hasZ, hasM := false, false;
      this.x, this.y, z, m := x, y, None, None;
    }

    /** initWithX:andY:andZ: -- hasZ records whether a z was given. */
    constructor FromXYZ(x: real, y: real, z: Option<real>)
      ensures Value() == G.Point(z.Some?, false, x, y, z, None)
    {
      hasZ, hasM := z.Some?, false;
      this.x, this.y, this.z, m := x, y, z, None;
    }

    /** initWithXValue:andYValue:andZ: */
    constructor FromXYValuesZ(x: real, y: real, z: Option<real>)
      ensures Value() == G.Point(z.Some?, false, x, y, z, None)
    {
      hasZ, hasM := z.Some?, false;
      this.x, this.y, this.z, m := x, y, z, None;
    }

    /** initWithXValue:andYValue:andZValue: */
    constructor FromXYZValues(x: real, y: real, z: real)
      ensures Value() == G.Point(true, false, x, y, Some(z), None)
    {
      hasZ, hasM := true, false;
      this.x, this.y, this.z, m := x, y, Some(z), None;
    }

    /** initWithX:andY:andZ:andM: -- the flags record which of z and m were given. */
    constructor FromXYZM(x: real, y: real, z: Option<real>, m: Option<real>)
      ensures Value() == G.Point(z.Some?, m.Some?, x, y, z, m)
    {
      hasZ, hasM := z.Some?, m.Some?;
      this.x, this.y, this.z, this.m := x, y, z, m;
    }

    /** initWithXValue:andYValue:andZ:andM: */
    constructor FromXYValuesZM(x: real, y: real, z: Option<real>, m: Option<real>)
      ensures Value() == G.Point(z.Some?, m.Some?, x, y, z, m)
    {
      hasZ, hasM := z.Some?, m.Some?;
      this.x, this.y, this.z, this.m := x, y, z, m;
    }

    /** initWithXValue:andYValue:andZValue:andMValue: */
    constructor FromXYZMValues(x: real, y: real, z: real, m: real)
      ensures Value() == G.Point(true, true, x, y, Some(z), Some(m))
    {
      hasZ, hasM := true, true;
      this.x, this.y, this.z, this.m := x, y, Some(z), Some(m);
    }

    /** initWithHasZ:andHasM:andX:andY: -- flags as given, z and m still nil. */
    constructor WithFlags(hasZ: bool, hasM: bool, x: real, y: real)
      ensures Value() == G.Point(hasZ, hasM, x, y, None, None)
    {
      this.hasZ, this.hasM := hasZ, hasM;
      this.x, this.y, z, m := x, y, None, None;
    }

    /** initWithHasZ:andHasM:andXValue:andYValue: */
    constructor WithFlagsValues(hasZ: bool, hasM: bool, x: real, y: real)
      ensures Value() == G.Point(hasZ, hasM, x, y, None, None)
    {
      this.hasZ, this.hasM := hasZ, hasM;
      this.x, this.y, z, m := x, y, None, None;
    }

    /** setXValue: changes x and nothing else. */
    method SetXValue(v: real)
      modifies this
      ensures Value() == old(Value()).(x := v)
    {
      x := v;
    }

    /** setYValue: changes y and nothing else. */
    method SetYValue(v: real)
      modifies this
      ensures Value() == old(Value()).(y := v)
    {
      y := v;
    }

    /** setZValue: gives z a value; the hasZ flag is left as it was. */
    method SetZValue(v: real)
      modifies this
      ensures Value() == old(Value()).(z := Some(v))
    {
      z := Some(v);
    }

    /** setMValue: gives m a value; the hasM flag is left as it was. */
    method SetMValue(v: real)
      modifies this
      ensures Value() == old(Value()).(m := Some(v))
    {
      m := Some(v);
    }
  }
}
