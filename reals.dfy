/**
 * Facts of real arithmetic that the solver does not find unaided once
 * products of variables are involved.
 */
module Reals {
  lemma SameProduct(a: real, b: real, c: real, d: real)
    requires a == c && b == d
    ensures a * b == c * d
  {
  }

  lemma ProductWithZero(t: real, d: real)
    requires d == 0.0
    ensures t * d == 0.0
  {
  }

  lemma ProductPositive(u: real, d: real)
    ensures u > 0.0 && d > 0.0 ==> u * d > 0.0
  {
  }

  lemma DivisionCancels(n: real, d: real)
    requires d > 0.0
    ensures n / d * d == n
  {
  }

  lemma FractionBelowOne(n: real, d: real)
    requires 0.0 < n && n < d
    ensures 0.0 < n / d < 1.0
  {
    var t := n / d;
    DivisionCancels(n, d);
    ProductPositive(t - 1.0, d);
    assert (t - 1.0) * d == t * d - d;
  }

  lemma QuotientAtMostOne(n: real, d: real)
    requires 0.0 < n && n <= d
    ensures 0.0 < n / d <= 1.0
  {
    if n < d {
      FractionBelowOne(n, d);
    } else {
      assert n / d == 1.0;
    }
  }

  /**
   * The sign of a product, stated about a name for it: a fact about the
   * product written out against zero is not kept in that form by the
   * solver, so callers pass the product's value as m.
   */
  lemma ProductSign(u: real, d: real, m: real)
    requires m == u * d
    ensures u > 0.0 && d > 0.0 ==> m > 0.0
    ensures u >= 0.0 && d >= 0.0 ==> m >= 0.0
  {
  }

  lemma ProductVanishes(u: real, d: real, m: real)
    requires m == u * d && d > 0.0 && m == 0.0
    ensures u == 0.0
  {
    if u > 0.0 { ProductSign(u, d, m); }
    if u < 0.0 { ProductSign(-u, d, -m); }
  }

  lemma SquareSign(u: real, m: real)
    requires m == u * u
    ensures m >= 0.0
    ensures u != 0.0 ==> m > 0.0
  {
    if u > 0.0 { ProductSign(u, u, m); }
    if u < 0.0 { ProductSign(-u, -u, m); }
  }

  /** A sum of two squares is not negative, and vanishes only with both terms. */
  lemma SumSquaresSign(u: real, v: real, s: real)
    requires s == u * u + v * v
    ensures s >= 0.0
    ensures s <= 0.0 ==> u == 0.0 && v == 0.0
  {
    var mu, mv := u * u, v * v;
    SquareSign(u, mu);
    SquareSign(v, mv);
  }

  /**
   * A plane vector w with no cross product against d (of squared length c2
   * > 0) and dot product t c2 with it is t d.
   */
  lemma CollinearMultiple(wx: real, wy: real, dx: real, dy: real, t: real, c2: real)
    requires c2 == dx * dx + dy * dy && c2 > 0.0
    requires wx * dy - wy * dx == 0.0
    requires wx * dx + wy * dy == t * c2
    ensures wx == t * dx && wy == t * dy
  {
    var k, e := wx * dy - wy * dx, wx * dx + wy * dy - t * c2;
    assert (wx - t * dx) * c2 == dy * k + dx * e;
    assert (wy - t * dy) * c2 == e * dy - k * dx;
    ProductVanishes(wx - t * dx, c2, dy * k + dx * e);
    ProductVanishes(wy - t * dy, c2, e * dy - k * dx);
  }

  /**
   * |w - t d|^2 expanded, for plane vectors w and d, with u = w - t d, in
   * terms of sw = |w|^2, c1 = w . d and c2 = |d|^2.
   */
  lemma AlongSquares(ux: real, uy: real, wx: real, wy: real, dx: real, dy: real, t: real,
                     sw: real, c1: real, c2: real)
    requires ux == wx - t * dx && uy == wy - t * dy
    requires sw == wx * wx + wy * wy && c1 == wx * dx + wy * dy && c2 == dx * dx + dy * dy
    ensures ux * ux + uy * uy == sw - 2.0 * t * c1 + t * t * c2
  {
    SameProduct(ux, ux, wx - t * dx, wx - t * dx);
    SameProduct(uy, uy, wy - t * dy, wy - t * dy);
    SameProduct(t, c1, t, wx * dx + wy * dy);
    SameProduct(t * t, c2, t * t, dx * dx + dy * dy);
  }

  // The squared distance from a point to a + t (b - a) is the quadratic
  // w - 2 t c1 + t^2 c2 in t (w the squared distance to a, c1 the dot
  // product, c2 the squared length). The three lemmas below place its
  // minimum over [0, 1].

  /** With c1 <= 0 the quadratic is least at t = 0. */
  lemma QuadraticLeastAtStart(w: real, c1: real, c2: real, t: real)
    requires c2 >= 0.0 && 0.0 <= t <= 1.0 && c1 <= 0.0
    ensures w <= w - 2.0 * t * c1 + t * t * c2
  {
    var tc2 := t * c2;
    ProductSign(t, c2, tc2);
    var m := t * (tc2 - 2.0 * c1);
    ProductSign(t, tc2 - 2.0 * c1, m);
    assert w - 2.0 * t * c1 + t * t * c2 == w + m;
  }

  /** With 0 < c1 and c2 <= c1 the quadratic is least at t = 1. */
  lemma QuadraticLeastAtEnd(w: real, c1: real, c2: real, t: real)
    requires 0.0 <= t <= 1.0 && 0.0 < c1 && c2 <= c1
    ensures w - 2.0 * c1 + c2 <= w - 2.0 * t * c1 + t * t * c2
  {
    var m1, m2 := c1 * (1.0 - t), (c1 - c2) * (1.0 + t);
    ProductSign(c1, 1.0 - t, m1);
    ProductSign(c1 - c2, 1.0 + t, m2);
    var g := 2.0 * c1 - c2 * (1.0 + t);
    assert g == m1 + m2;
    var m3 := (1.0 - t) * g;
    ProductSign(1.0 - t, g, m3);
    assert (w - 2.0 * t * c1 + t * t * c2) - (w - 2.0 * c1 + c2) == m3;
  }

  /** The quadratic is least at t0 = c1 / c2 when c2 is positive. */
  /** QuadraticLeastAtFoot with the two values of the quadratic named. */
  lemma QuadraticLeastAtFootValues(w: real, c1: real, c2: real, t: real, t0: real, f: real, f0: real)
    ensures (c2 >= 0.0 && t0 * c2 == c1 && f == w - 2.0 * t * c1 + t * t * c2 &&
             f0 == w - 2.0 * t0 * c1 + t0 * t0 * c2) ==> f0 <= f
  {
    if c2 >= 0.0 && t0 * c2 == c1 {
      QuadraticLeastAtFoot(w, c1, c2, t, t0);
    }
  }

  lemma QuadraticLeastAtFoot(w: real, c1: real, c2: real, t: real, t0: real)
    requires c2 >= 0.0 && t0 * c2 == c1
    ensures w - 2.0 * t0 * c1 + t0 * t0 * c2 <= w - 2.0 * t * c1 + t * t * c2
  {
    var s := (t - t0) * (t - t0);
    SquareSign(t - t0, s);
    var m := c2 * s;
    ProductSign(c2, s, m);
    SameProduct(t, c1, t, t0 * c2);
    SameProduct(t0, c1, t0, t0 * c2);
    assert (w - 2.0 * t * c1 + t * t * c2) - (w - 2.0 * t0 * c1 + t0 * t0 * c2) == m;
  }

  /** Scaling by a positive c keeps the order: d <= e exactly when d c <= e c. */
  lemma ScaledBound(d: real, e: real, c: real, dc: real)
    requires c > 0.0 && dc == d * c
    ensures d <= e <==> dc <= e * c
  {
    var m := (e - d) * c;
    ProductSign(e - d, c, m);
    ProductSign(d - e, c, -m);
  }

  /**
   * A bound k <= epsilon^2 c on k = d c, with c > 0, is the bound
   * d <= epsilon^2.
   */
  lemma ToleranceScaled(d: real, c: real, k: real, epsilon: real, within: bool)
    ensures c > 0.0 && k == d * c && (within <==> epsilon >= 0.0 && k <= epsilon * epsilon * c) ==>
            (within <==> epsilon >= 0.0 && d <= epsilon * epsilon)
  {
    if c > 0.0 && k == d * c {
      ScaledBound(d, epsilon * epsilon, c, k);
    }
  }
}
