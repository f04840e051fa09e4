/** Small fixed-size vector algebra of the visual mesh (src/util/math.hpp).
    `Scalar` is modelled as `real`; a `std::array<Scalar, n>` as a sequence
    of exactly n reals. */
module VecMath {
  import opened Wrappers

  type Vec3 = s: seq<real> | |s| == 3 witness [0.0, 0.0, 0.0]
  type Vec4 = s: seq<real> | |s| == 4 witness [0.0, 0.0, 0.0, 0.0]
  type Mat4 = m: seq<Vec4> | |m| == 4 witness [Zero4, Zero4, Zero4, Zero4]

  const Zero4: Vec4 := [0.0, 0.0, 0.0, 0.0]

  /** Inner product of two 3-vectors; the inner product of a vector with
      itself, its squared length, is never negative. */
  function Dot3(a: Vec3, b: Vec3): (r: real)
    ensures a == b ==> r >= 0.0
  {
    a[0] * b[0] + a[1] * b[1] + a[2] * b[2]
  }

  /** Inner product of two 4-vectors; a squared length is never negative,
      and with a zero fourth component on either side it is the 3-vector
      inner product of the first three components. */
  function Dot4(a: Vec4, b: Vec4): (r: real)
    ensures a == b ==> r >= 0.0
    ensures a[3] == 0.0 || b[3] == 0.0 ==> r == Dot3(a[..3], b[..3])
  {
    a[0] * b[0] + a[1] * b[1] + a[2] * b[2] + a[3] * b[3]
  }

  /** The vector (cross) product of two 3-vectors, orthogonal to both. */
  function Cross(a: Vec3, b: Vec3): (c: Vec3)
    ensures Dot3(a, c) == 0.0 && Dot3(b, c) == 0.0
  {
    [ a[1] * b[2] - a[2] * b[1],
      a[2] * b[0] - a[0] * b[2],
      a[0] * b[1] - a[1] * b[0] ]
  }

  /** Transpose of a 4x4 matrix: entry (i, j) of the result is entry (j, i) of `m`. */
  function Transpose(m: Mat4): (t: Mat4)
    ensures forall i, j | 0 <= i < 4 && 0 <= j < 4 :: t[i][j] == m[j][i]
  {
    [ [m[0][0], m[1][0], m[2][0], m[3][0]],
      [m[0][1], m[1][1], m[2][1], m[3][1]],
      [m[0][2], m[1][2], m[2][2], m[3][2]],
      [m[0][3], m[1][3], m[2][3], m[3][3]] ]
  }

  function Scale(a: Vec3, f: real): (r: Vec3)
    ensures forall i | 0 <= i < 3 :: r[i] == a[i] * f
  {
    [a[0] * f, a[1] * f, a[2] * f]
  }

  /** The properties of a square root function the lemmas below rely on. */
  ghost predicate IsSqrt(sqrt: real -> real) {
    forall x :: x >= 0.0 ==> sqrt(x) >= 0.0 && sqrt(x) * sqrt(x) == x
  }

  /** The quantity `normalise` takes the square root of, as written:
      the third term is `a[2] + a[2]` where `a[2] * a[2]` is evidently meant. */
  function SquaredLengthAsWritten(a: Vec3): real {
    a[0] * a[0] + a[1] * a[1] + a[2] + a[2]
  }

  /** Scaling `a` by 1/sqrt(s). When `s` is not positive the C++ result is not
      finite (the square root of a negative number is NaN, and 1/0 is
      infinite), modelled as `None`; otherwise all three components are
      multiplied by the one positive factor 1/sqrt(s). */
  function ScaleByInverseRoot(a: Vec3, s: real, sqrt: real -> real): (r: Option<Vec3>)
    requires forall x :: x > 0.0 ==> sqrt(x) > 0.0
    ensures r.None? <==> s <= 0.0
    ensures r.Some? ==>
      var f := 1.0 / sqrt(s);
      f > 0.0 && f * sqrt(s) == 1.0 && forall i | 0 <= i < 3 :: r.value[i] == a[i] * f
  {
    if s <= 0.0 then None else Some(Scale(a, 1.0 / sqrt(s)))
  }

  /** `normalise` as written; the square root is a parameter. */
  function NormaliseAsWritten(a: Vec3, sqrt: real -> real): (r: Option<Vec3>)
    requires forall x :: x > 0.0 ==> sqrt(x) > 0.0
    ensures r.None? <==> SquaredLengthAsWritten(a) <= 0.0
    ensures r.Some? ==>
      forall i | 0 <= i < 3 :: r.value[i] == a[i] * (1.0 / sqrt(SquaredLengthAsWritten(a)))
  {
    ScaleByInverseRoot(a, SquaredLengthAsWritten(a), sqrt)
  }

  /** Euclidean normalisation, the evidently intended behaviour of `normalise`:
      the radicand is the squared Euclidean length `Dot3(a, a)`. */
  function Normalise(a: Vec3, sqrt: real -> real): (r: Option<Vec3>)
    requires forall x :: x > 0.0 ==> sqrt(x) > 0.0
    ensures r.None? <==> Dot3(a, a) <= 0.0
    ensures r.Some? ==> forall i | 0 <= i < 3 :: r.value[i] == a[i] * (1.0 / sqrt(Dot3(a, a)))
  {
    ScaleByInverseRoot(a, Dot3(a, a), sqrt)
  }

  /** The only non-negative square root of one is one. */
  lemma UnitRoot(q: real)
    requires q >= 0.0 && q * q == 1.0
    ensures q == 1.0
  {
    assert (q - 1.0) * (q + 1.0) == 0.0;
    assert q - 1.0 == ((q - 1.0) * (q + 1.0)) / (q + 1.0);
  }

  lemma Dot3Symmetric(a: Vec3, b: Vec3)
    ensures Dot3(a, b) == Dot3(b, a)
  {
  }

  lemma Dot4Symmetric(a: Vec4, b: Vec4)
    ensures Dot4(a, b) == Dot4(b, a)
  {
  }

  /** With a zero fourth component the 4-vector inner product is the
      3-vector inner product of the first three components. */
  lemma Dot4ExtendsDot3(a: Vec4, b: Vec4)
    requires a[3] == 0.0 || b[3] == 0.0
    ensures Dot4(a, b) == Dot3(a[..3], b[..3])
  {
  }

  lemma CrossAntiCommutative(a: Vec3, b: Vec3)
    ensures forall i | 0 <= i < 3 :: Cross(a, b)[i] == -Cross(b, a)[i]
  {
  }

  lemma CrossSelfZero(a: Vec3)
    ensures Cross(a, a) == [0.0, 0.0, 0.0]
  {
  }

  /** The cross product is orthogonal to both of its arguments. */
  lemma CrossOrthogonal(a: Vec3, b: Vec3)
    ensures Dot3(a, Cross(a, b)) == 0.0
    ensures Dot3(b, Cross(a, b)) == 0.0
  {
  }

  lemma TransposeInvolution(m: Mat4)
    ensures Transpose(Transpose(m)) == m
  {
    var t := Transpose(Transpose(m));
    forall i | 0 <= i < 4 ensures t[i] == m[i] {
      assert forall j | 0 <= j < 4 :: t[i][j] == m[i][j];
    }
  }

  /** Every vector of positive length normalises to a unit vector that
      points the same way. */
  lemma NormaliseUnitLength(a: Vec3, sqrt: real -> real)
    requires IsSqrt(sqrt)
    requires Dot3(a, a) > 0.0
    ensures forall x :: x > 0.0 ==> sqrt(x) > 0.0
    ensures Normalise(a, sqrt).Some?
    ensures Dot3(Normalise(a, sqrt).value, Normalise(a, sqrt).value) == 1.0
    ensures exists f: real :: f > 0.0 && Normalise(a, sqrt).value == Scale(a, f)
  {
    SqrtPositive(sqrt);
    var s := Dot3(a, a);
    var q := sqrt(s);
    assert q * q == s;
    var f := 1.0 / q;
    var r := Scale(a, f);
    assert Normalise(a, sqrt).value == r;
    calc {
      Dot3(r, r);
      (a[0] * a[0] + a[1] * a[1] + a[2] * a[2]) * (f * f);
      s * (f * f);
      (q * q) * (f * f);
      (q * f) * (q * f);
      1.0;
    }
  }

  lemma SqrtPositive(sqrt: real -> real)
    requires IsSqrt(sqrt)
    ensures forall x :: x > 0.0 ==> sqrt(x) > 0.0
  {
    forall x | x > 0.0 ensures sqrt(x) > 0.0 {
      var q := sqrt(x);
      assert q >= 0.0 && q * q == x;
    }
  }

  /** The as-written `normalise` mishandles unit vectors along the third
      axis: (0, 0, 1) comes out with squared length 1/2, and (0, 0, -1) is
      not finite at all, although the Euclidean normalisation returns each
      of them unchanged. */
  lemma NormaliseAsWrittenCounterexample(sqrt: real -> real)
    requires IsSqrt(sqrt)
    ensures forall x :: x > 0.0 ==> sqrt(x) > 0.0
    ensures NormaliseAsWritten([0.0, 0.0, 1.0], sqrt).Some?
    ensures Dot3(NormaliseAsWritten([0.0, 0.0, 1.0], sqrt).value,
                 NormaliseAsWritten([0.0, 0.0, 1.0], sqrt).value) == 0.5
    ensures NormaliseAsWritten([0.0, 0.0, -1.0], sqrt).None?
    ensures Normalise([0.0, 0.0, 1.0], sqrt) == Some([0.0, 0.0, 1.0])
    ensures Normalise([0.0, 0.0, -1.0], sqrt) == Some([0.0, 0.0, -1.0])
  {
    SqrtPositive(sqrt);
    SqrtOne(sqrt);
    var q := sqrt(2.0);
    assert q * q == 2.0;
    var r := NormaliseAsWritten([0.0, 0.0, 1.0], sqrt).value;
    assert r == [0.0, 0.0, 1.0 / q];
    calc {
      Dot3(r, r);
      (1.0 / q) * (1.0 / q);
      1.0 / (q * q);
      0.5;
    }
  }

  lemma SqrtOne(sqrt: real -> real)
    requires IsSqrt(sqrt)
    ensures sqrt(1.0) == 1.0
  {
    var q := sqrt(1.0);
    assert q >= 0.0 && q * q == 1.0;
    UnitRoot(q);
  }
}
