/** The Circle shape model of the visual mesh (src/geometry/Circle.hpp).

    A shape answers two questions for a camera at signed height `h` above the
    observation plane: given the elevation `phi_n` of one ring of the mesh
    (radians from straight down), where is the next ring (`Phi`), and how
    wide an angle must the points of a ring at elevation `phi` be spaced
    (`Theta`). Both return NaN, modelled here as `None`, where no ring is
    defined.

    `Scalar` is modelled as `real`. The `<cmath>` functions tan, atan and asin
    are uninterpreted: they are the fields of a `Trig` value passed to every
    operation, and the few facts about them a lemma relies on are stated as
    that lemma's preconditions. */
module Geometry {
  import opened Wrappers

  /** `M_PI` and `M_PI_2` as the C headers spell them. */
  const Pi: real := 3.14159265358979323846
  const HalfPi: real := 1.57079632679489661923

  /** The trigonometric functions of `<cmath>`, left uninterpreted. */
  datatype Trig = Trig(tan: real -> real, atan: real -> real, asin: real -> real)

  function Abs(x: real): real {
    if x < 0.0 then -x else x
  }

  /** The elevation measured from the nearer vertical: `phi` itself below the
      horizon and `π - phi` above it. `|h| * tan(Folded(phi))` is the
      distance along the observation plane at which a ray at elevation `phi`
      meets it. */
  function Folded(phi: real): real {
    if phi > HalfPi then Pi - phi else phi
  }

  /** The side conditions under which a next ring exists: below the horizon
      for a camera above the plane, above the horizon for one below it. */
  predicate OnValidSide(phi: real, h: real) {
    (h > 0.0 && phi < HalfPi) || (h < 0.0 && phi > HalfPi)
  }

  /** The facts about tan and atan the outward-step lemmas rely on: atan is
      strictly increasing, and it inverts tan between 0 and π/2. */
  ghost predicate AtanInvertsTan(t: Trig) {
    && (forall x, y :: x < y ==> t.atan(x) < t.atan(y))
    && (forall x :: 0.0 < x < HalfPi ==> t.atan(t.tan(x)) == x)
  }

  /** A circle of radius `r` that the mesh must intersect at least `k` times
      when it lies within distance `d` of the camera. */
  datatype Circle = Circle(r: real, k: nat, d: real) {

    /** The max-distance gate shared by both operations. */
    predicate BeyondMaxDistance(t: Trig, phi: real, h: real) {
      Abs(h) * t.tan(Folded(phi)) > d
    }

    /** The elevation of the ring after the one at `phi_n`; `None` beyond the
        maximum distance and wherever no side condition holds. */
    function Phi(t: Trig, phi_n: real, h: real): (next: Option<real>)
      requires k > 0
      ensures next.None? <==> BeyondMaxDistance(t, phi_n, h) || !OnValidSide(phi_n, h)
    {
      if BeyondMaxDistance(t, phi_n, h) then None
      else if h > 0.0 && phi_n < HalfPi then Some(t.atan(TanNextBelow(t, phi_n, h)))
      else if h < 0.0 && phi_n > HalfPi then Some(Pi - t.atan(TanNextAbove(t, phi_n, h)))
      else None
    }

    /** Below the horizon: the tangent of the next elevation, the current
        ground distance plus one step of `2r/k`, over the height. */
    function TanNextBelow(t: Trig, phi_n: real, h: real): real
      requires k > 0
      requires h != 0.0
    {
      (2.0 * r / (k as real) + h * t.tan(phi_n)) / h
    }

    /** Above the horizon: the same with `π - phi_n` for `phi_n` and `-h` for `h`. */
    function TanNextAbove(t: Trig, phi_n: real, h: real): real
      requires k > 0
      requires h != 0.0
    {
      (2.0 * r / (k as real) - h * t.tan(Pi - phi_n)) / -h
    }

    /** The angular width the points of a ring at elevation `phi` may be
        apart; `None` under the same gate and side conditions as `Phi`. */
    function Theta(t: Trig, phi: real, h: real): (width: Option<real>)
      requires k > 0
      ensures BeyondMaxDistance(t, phi, h) || !OnValidSide(phi, h) ==> width.None?
    {
      if BeyondMaxDistance(t, phi, h) then None
      else if h > 0.0 && phi < HalfPi then AngularWidth(t, DenominatorBelow(t, phi, h))
      else if h < 0.0 && phi > HalfPi then AngularWidth(t, DenominatorAbove(t, phi, h))
      else None
    }

    /** Below the horizon: the distance to the centre of a circle whose
        near edge is where the ray at `phi` meets the plane. */
    function DenominatorBelow(t: Trig, phi: real, h: real): real {
      h * t.tan(phi) + r
    }

    /** Above the horizon: the mirror image of `DenominatorBelow`. */
    function DenominatorAbove(t: Trig, phi: real, h: real): real {
      -h * t.tan(Pi - phi) + r
    }

    /** `2 * asin(r / den) / k` under IEEE rules: `r / den` is infinite or NaN
        when `den` is zero, and asin is NaN outside [-1, 1]. */
    function AngularWidth(t: Trig, den: real): (width: Option<real>)
      requires k > 0
      ensures width.Some? <==> den != 0.0 && -1.0 <= r / den <= 1.0
    {
      if den == 0.0 then None
      else if -1.0 <= r / den <= 1.0 then Some(2.0 * t.asin(r / den) / (k as real))
      else None
    }
  }

  /** The cases in which `Phi` is NaN, one by one: the max-distance gate, a
      camera on the plane, and a ring on the wrong side of the horizon. */
  lemma PhiNaNCases(c: Circle, t: Trig, phi_n: real, h: real)
    requires c.k > 0
    ensures Abs(h) * t.tan(Folded(phi_n)) > c.d ==> c.Phi(t, phi_n, h).None?
    ensures h == 0.0 ==> c.Phi(t, phi_n, h).None?
    ensures h > 0.0 && phi_n >= HalfPi ==> c.Phi(t, phi_n, h).None?
    ensures h < 0.0 && phi_n <= HalfPi ==> c.Phi(t, phi_n, h).None?
  {
  }

  /** The two closed forms of `Phi` once the gate is passed: the arctangent
      of `TanNextBelow` below the horizon, and `π` minus the arctangent of
      `TanNextAbove` above it. */
  lemma PhiBranchValues(c: Circle, t: Trig, phi_n: real, h: real)
    requires c.k > 0
    requires !c.BeyondMaxDistance(t, phi_n, h)
    ensures h > 0.0 && phi_n < HalfPi ==> c.Phi(t, phi_n, h) == Some(t.atan(c.TanNextBelow(t, phi_n, h)))
    ensures h < 0.0 && phi_n > HalfPi ==> c.Phi(t, phi_n, h) == Some(Pi - t.atan(c.TanNextAbove(t, phi_n, h)))
  {
  }

  /** `Theta` takes the same branch as `Phi` for the same angle and height:
      NaN whenever `Phi` is, and otherwise the asin closed form of the side
      `Phi` chose. */
  lemma ThetaSharesPhiGuards(c: Circle, t: Trig, phi: real, h: real)
    requires c.k > 0
    ensures c.Phi(t, phi, h).None? ==> c.Theta(t, phi, h).None?
    ensures c.Phi(t, phi, h).Some? && h > 0.0 ==>
      c.Theta(t, phi, h) == c.AngularWidth(t, c.DenominatorBelow(t, phi, h))
    ensures c.Phi(t, phi, h).Some? && h < 0.0 ==>
      c.Theta(t, phi, h) == c.AngularWidth(t, c.DenominatorAbove(t, phi, h))
  {
  }

  /** For a circle of positive radius, `Theta` is never NaN where the gate
      and the side conditions pass, provided tan is positive between 0 and
      π/2: the argument of asin then lies strictly between 0 and 1. */
  lemma ThetaDefinedWherePhiIs(c: Circle, t: Trig, phi: real, h: real)
    requires c.k > 0 && c.r > 0.0
    requires forall x :: 0.0 < x < HalfPi ==> t.tan(x) > 0.0
    requires 0.0 < phi < Pi
    requires c.Phi(t, phi, h).Some?
    ensures c.Theta(t, phi, h).Some?
  {
    var den;
    if h > 0.0 {
      MulPositive(h, t.tan(phi));
      den := c.DenominatorBelow(t, phi, h);
    } else {
      MulPositive(-h, t.tan(Pi - phi));
      den := c.DenominatorAbove(t, phi, h);
    }
    assert den > c.r;
    QuotientInUnitInterval(c.r, den);
  }

  lemma MulPositive(x: real, y: real)
    requires x > 0.0 && y > 0.0
    ensures x * y > 0.0
  {
  }

  lemma QuotientInUnitInterval(a: real, b: real)
    requires 0.0 < a < b
    ensures 0.0 < a / b < 1.0
  {
    var q := a / b;
    assert q * b == a;
    if q >= 1.0 {
      MulAtLeast(q, b);
      assert false;
    }
  }

  lemma MulAtLeast(q: real, b: real)
    requires q >= 1.0 && b > 0.0
    ensures q * b >= b
  {
    assert q * b - b == (q - 1.0) * b;
  }

  lemma FoldedMirror(x: real)
    ensures Folded(Pi - x) == Folded(x)
  {
  }

  /** Mirror symmetry about the horizon: rotating the angle to `π - x` and
      negating the height mirrors the next ring, and NaN in one case is NaN
      in the other. */
  lemma PhiMirror(c: Circle, t: Trig, x: real, h: real)
    requires c.k > 0
    ensures c.Phi(t, Pi - x, -h).None? <==> c.Phi(t, x, h).None?
    ensures c.Phi(t, x, h).Some? ==> c.Phi(t, Pi - x, -h) == Some(Pi - c.Phi(t, x, h).value)
  {
    FoldedMirror(x);
    assert Abs(-h) == Abs(h);
    if h < 0.0 && x > HalfPi {
      assert c.TanNextBelow(t, Pi - x, -h) == c.TanNextAbove(t, x, h);
    } else if h > 0.0 && x < HalfPi {
      assert Pi - (Pi - x) == x;
      assert c.TanNextAbove(t, Pi - x, -h) == c.TanNextBelow(t, x, h);
    }
  }

  /** The mirror image has the same angular width. */
  lemma ThetaMirror(c: Circle, t: Trig, x: real, h: real)
    requires c.k > 0
    ensures c.Theta(t, Pi - x, -h) == c.Theta(t, x, h)
  {
    FoldedMirror(x);
    assert Abs(-h) == Abs(h);
    if h < 0.0 && x > HalfPi {
      assert c.DenominatorBelow(t, Pi - x, -h) == c.DenominatorAbove(t, x, h);
    } else if h > 0.0 && x < HalfPi {
      assert Pi - (Pi - x) == x;
      assert c.DenominatorAbove(t, Pi - x, -h) == c.DenominatorBelow(t, x, h);
    }
  }

  /** Below the horizon each step moves outward: for a positive radius and
      intersection count, the next ring lies strictly beyond the current one. */
  lemma PhiOutwardBelow(c: Circle, t: Trig, phi_n: real, h: real)
    requires AtanInvertsTan(t)
    requires c.k > 0 && c.r > 0.0
    requires h > 0.0 && 0.0 < phi_n < HalfPi
    requires !c.BeyondMaxDistance(t, phi_n, h)
    ensures c.Phi(t, phi_n, h).Some?
    ensures c.Phi(t, phi_n, h).value > phi_n
  {
    var tn := t.tan(phi_n);
    var a := 2.0 * c.r / (c.k as real);
    assert a > 0.0;
    var y := c.TanNextBelow(t, phi_n, h);
    assert y == (a + h * tn) / h;
    assert y == a / h + tn;
    assert a / h > 0.0;
    assert t.atan(y) > t.atan(tn);
  }

  /** Above the horizon the step mirrors the one below: the next ring lies
      strictly nearer straight up. */
  lemma PhiOutwardAbove(c: Circle, t: Trig, phi_n: real, h: real)
    requires AtanInvertsTan(t)
    requires c.k > 0 && c.r > 0.0
    requires h < 0.0 && HalfPi < phi_n < Pi
    requires !c.BeyondMaxDistance(t, phi_n, h)
    ensures c.Phi(t, phi_n, h).Some?
    ensures c.Phi(t, phi_n, h).value < phi_n
  {
    FoldedMirror(phi_n);
    assert Abs(-h) == Abs(h);
    assert Pi - (Pi - phi_n) == phi_n;
    PhiOutwardBelow(c, t, Pi - phi_n, -h);
    PhiMirror(c, t, Pi - phi_n, -h);
  }

  /** Consecutive rings are `2r/k` apart on the observation plane: the
      ground distance `|h| * tan` of the folded elevation grows by exactly
      that much per step, on either side of the horizon, when tan inverts
      atan. */
  lemma PhiRingSpacing(c: Circle, t: Trig, phi_n: real, h: real)
    requires forall y :: t.tan(t.atan(y)) == y
    requires c.k > 0
    requires c.Phi(t, phi_n, h).Some?
    ensures h > 0.0 ==>
      h * t.tan(c.Phi(t, phi_n, h).value) == h * t.tan(phi_n) + 2.0 * c.r / (c.k as real)
    ensures h < 0.0 ==>
      -h * t.tan(Pi - c.Phi(t, phi_n, h).value) == -h * t.tan(Pi - phi_n) + 2.0 * c.r / (c.k as real)
  {
    var a := 2.0 * c.r / (c.k as real);
    if h > 0.0 {
      var y := c.TanNextBelow(t, phi_n, h);
      assert h * y == a + h * t.tan(phi_n);
    } else {
      var y := c.TanNextAbove(t, phi_n, h);
      assert Pi - (Pi - t.atan(y)) == t.atan(y);
      assert -h * y == a - h * t.tan(Pi - phi_n);
    }
  }
}
