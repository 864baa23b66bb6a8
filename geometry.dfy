/** Exact 2D vector arithmetic over the reals, standing in for the p5.Vector
    operations both games use (add, sub, mult, div, dot, mag, normalize, dist).
    Square roots have no exact counterpart in Dafny: wherever the games call
    mag(), dist() or normalize(), the model receives a square-root oracle and
    requires it to be the real square root (IsSqrt). */
module Geometry {

  datatype Vec = Vec(x: real, y: real)

  const Zero := Vec(0.0, 0.0)

  function Add(a: Vec, b: Vec): Vec { Vec(a.x + b.x, a.y + b.y) }

  function Sub(a: Vec, b: Vec): Vec { Vec(a.x - b.x, a.y - b.y) }

  function Scale(a: Vec, k: real): Vec { Vec(a.x * k, a.y * k) }

  function Dot(a: Vec, b: Vec): real { a.x * b.x + a.y * b.y }

  /** The squared length |a|^2. */
  function NormSq(a: Vec): (r: real)
    ensures r >= 0.0
  {
    a.x * a.x + a.y * a.y
  }

  /** The squared distance between two points, as the games' own
      `(dx)**2 + (dy)**2` expressions compute it. */
  function DistSq(a: Vec, b: Vec): (r: real)
    ensures r >= 0.0
  {
    NormSq(Sub(a, b))
  }

  /** A unit vector: the caller's stand-in for fromAngle(θ) or normalize(). */
  predicate IsUnit(n: Vec) { n.x * n.x + n.y * n.y == 1.0 }

  /** The oracle is the non-negative square root on every non-negative real. */
  ghost predicate IsSqrt(sqrt: real -> real) {
    forall t :: 0.0 <= t ==> 0.0 <= sqrt(t) && sqrt(t) * sqrt(t) == t
  }

  /** p5's constrain(v, lo, hi). */
  function Constrain(v: real, lo: real, hi: real): (r: real)
    requires lo <= hi
    ensures lo <= r <= hi
    ensures lo <= v <= hi ==> r == v
  {
    if v < lo then lo else if v > hi then hi else v
  }

  /** p5's Vector.normalize(): divide by the length, leaving a zero vector as it is. */
  function Normalize(a: Vec, sqrt: real -> real): Vec {
    var m := sqrt(NormSq(a));
    if m != 0.0 then Scale(a, 1.0 / m) else a
  }

  /** Comparing squared distances is the same test as comparing distances:
      for a non-negative bound R, |a - b| < R exactly when |a - b|^2 < R^2. */
  lemma {:induction false} SquaredTestIsDistanceTest(a: Vec, b: Vec, bound: real, sqrt: real -> real)
    requires IsSqrt(sqrt) && 0.0 <= bound
    ensures DistSq(a, b) < bound * bound <==> sqrt(DistSq(a, b)) < bound
  {
    var t := DistSq(a, b);
    var d := sqrt(t);
    assert 0.0 <= d && d * d == t;
    if d < bound {
      SquareStrict(d, bound);
    } else {
      SquareMono(bound, d);
    }
  }

  /** The strict "further than" form used by the jelly game's pickup gate:
      |a - b| > R exactly when R < 0 or |a - b|^2 > R^2. */
  lemma {:induction false} SquaredFartherIsDistanceFarther(a: Vec, b: Vec, bound: real, sqrt: real -> real)
    requires IsSqrt(sqrt)
    ensures (bound < 0.0 || DistSq(a, b) > bound * bound) <==> sqrt(DistSq(a, b)) > bound
  {
    var t := DistSq(a, b);
    var d := sqrt(t);
    assert 0.0 <= d && d * d == t;
    if bound >= 0.0 {
      if d > bound {
        SquareStrict(bound, d);
      } else {
        SquareMono(d, bound);
      }
    }
  }

  /** Squaring is monotonic on the non-negative reals. */
  lemma SquareMono(x: real, y: real)
    requires 0.0 <= x <= y
    ensures x * x <= y * y
  {
    MulNonneg(y - x, y + x);
  }

  /** Squaring is strictly monotonic on the non-negative reals. */
  lemma SquareStrict(x: real, y: real)
    requires 0.0 <= x < y
    ensures x * x < y * y
  {
    MulPos(y - x, y + x);
  }

  lemma MulNonneg(a: real, b: real)
    requires 0.0 <= a && 0.0 <= b
    ensures 0.0 <= a * b
  {
  }

  lemma MulPos(a: real, b: real)
    requires 0.0 < a && 0.0 < b
    ensures 0.0 < a * b
  {
  }

  /** normalize() divides a vector of nonzero length by that length, which
      gives a unit vector pointing the same way, and leaves a vector of
      length 0 as it is. */
  lemma NormalizeIsUnit(a: Vec, sqrt: real -> real)
    requires IsSqrt(sqrt)
    ensures sqrt(NormSq(a)) != 0.0 ==> IsUnit(Normalize(a, sqrt)) && 0.0 < Dot(Normalize(a, sqrt), a)
    ensures sqrt(NormSq(a)) == 0.0 ==> Normalize(a, sqrt) == a
  {
    var m := sqrt(NormSq(a));
    if m != 0.0 {
      NormalizedIsUnit(a, sqrt);
      var k := 1.0 / m;
      assert 0.0 < k;
      assert m * m == NormSq(a);
      MulPos(m, m);
      assert Dot(Normalize(a, sqrt), a) == k * NormSq(a);
      MulPos(k, NormSq(a));
    }
  }

  /** Dividing a vector by its (positive) length gives a unit vector. */
  lemma {:induction false} NormalizedIsUnit(t: Vec, sqrt: real -> real)
    requires IsSqrt(sqrt) && 0.0 < sqrt(NormSq(t))
    ensures IsUnit(Scale(t, 1.0 / sqrt(NormSq(t))))
  {
    var d := sqrt(NormSq(t));
    var k := 1.0 / d;
    var dd, kk := d * d, k * k;
    assert dd == NormSq(t);
    assert k * d == 1.0;
    assert kk * dd == (k * d) * (k * d);
    var u := Scale(t, k);
    assert u.x * u.x + u.y * u.y == kk * (t.x * t.x + t.y * t.y);
  }
}
