/** Two-dimensional vectors over the reals (`Vec2<f64>` of the math crate). */
module Vector {

  /** `sqrt` is the standard library's square root: on a non-negative argument it
      returns the non-negative root. */
  ghost predicate IsSqrt(sqrt: real -> real)
  {
    forall x: real :: 0.0 <= x ==> 0.0 <= sqrt(x) && sqrt(x) * sqrt(x) == x
  }

  /** The square-root facts at one argument. */
  lemma Root(sqrt: real -> real, x: real)
    requires IsSqrt(sqrt) && 0.0 <= x
    ensures 0.0 <= sqrt(x) && sqrt(x) * sqrt(x) == x
  {
  }

  datatype Vec2 = Vec2(x: real, y: real)
  {
    /** `Vec2 + Vec2` (and `+=`): componentwise. */
    function Add(other: Vec2): Vec2 { Vec2(x + other.x, y + other.y) }

    /** `Vec2 - Vec2` (and `-=`). */
    function Sub(other: Vec2): Vec2 { Vec2(x - other.x, y - other.y) }

    /** `Vec2 + T`: the scalar is added to both components. */
    function AddScalar(k: real): Vec2 { Vec2(x + k, y + k) }

    /** `Vec2 - T`. */
    function SubScalar(k: real): Vec2 { Vec2(x - k, y - k) }

    /** `Vec2 * T`. */
    function Scale(k: real): Vec2 { Vec2(x * k, y * k) }

    /** `Vec2 / T`; the source does not guard a zero divisor. */
    function Div(k: real): Vec2
      requires k != 0.0
    {
      Vec2(x / k, y / k)
    }

    /** Unary `-`. */
    function Neg(): Vec2 { Vec2(-x, -y) }

    function AmplitudeSquared(): real { x * x + y * y }

    function BreakSelf(): (real, real) { (x, y) }

    /** `module`: the Euclidean length. */
    function Module(sqrt: real -> real): real
    {
      sqrt(AmplitudeSquared())
    }

    /** `normalize` divides by `module`; a zero vector is not normalizable. */
    function Normalize(sqrt: real -> real): (r: Vec2)
      requires IsSqrt(sqrt) && AmplitudeSquared() > 0.0
      ensures r.AmplitudeSquared() == 1.0
    {
      AmplitudeNonNegative(this);
      var m := Module(sqrt);
      assert m != 0.0;
      UnitAfterDivision(this, m);
      Div(m)
    }
  }

  const Zero := Vec2(0.0, 0.0)

  /** `From<(T, T)>`. */
  function FromPair(p: (real, real)): Vec2 { Vec2(p.0, p.1) }

  lemma AmplitudeNonNegative(v: Vec2)
    ensures v.AmplitudeSquared() >= 0.0
  {
    SquareSign(v.x);
    SquareSign(v.y);
  }

  lemma SquareSign(a: real)
    ensures a * a >= 0.0
    ensures a != 0.0 ==> a * a > 0.0
  {
    if a > 0.0 {
      ProductPositive(a, a);
    } else if a < 0.0 {
      ProductPositive(-a, -a);
      assert (-a) * (-a) == a * a;
    }
  }

  lemma ProductPositive(a: real, b: real)
    requires 0.0 < a && 0.0 < b
    ensures 0.0 < a * b
  {
  }

  lemma SquareStrictlyMonotone(a: real, b: real)
    requires 0.0 <= a < b
    ensures a * a < b * b
  {
    var aa, ab, bb := a * a, a * b, b * b;
    assert aa <= ab;
    assert ab < bb;
  }

  /** Dividing by the length leaves a vector of squared length 1. */
  lemma UnitAfterDivision(v: Vec2, m: real)
    requires m != 0.0 && m * m == v.AmplitudeSquared()
    ensures v.Div(m).AmplitudeSquared() == 1.0
  {
    var u := v.Div(m);
    assert u.x * m == v.x && u.y * m == v.y;
    calc {
      u.AmplitudeSquared() * (m * m);
      (u.x * m) * (u.x * m) + (u.y * m) * (u.y * m);
      v.AmplitudeSquared();
      1.0 * (m * m);
    }
  }

  /** The square root of the square `aa` of a non-negative number is that number. */
  lemma SqrtOfSquare(sqrt: real -> real, a: real, aa: real)
    requires IsSqrt(sqrt) && 0.0 <= a && aa == a * a
    ensures sqrt(aa) == a
  {
    SquareSign(a);
    var s := sqrt(aa);
    assert 0.0 <= s && s * s == a * a;
    if s < a {
      SquareStrictlyMonotone(s, a);
    } else if a < s {
      SquareStrictlyMonotone(a, s);
    }
  }

  /** A vector pointing along the positive x axis has length `x` and normalizes
      to the unit x vector. */
  lemma NormalizeOnX(sqrt: real -> real, v: Vec2)
    requires IsSqrt(sqrt) && v.y == 0.0 && 0.0 < v.x
    ensures v.AmplitudeSquared() > 0.0
    ensures v.Module(sqrt) == v.x
    ensures v.Normalize(sqrt).x == 1.0 && v.Normalize(sqrt).y == 0.0
  {
    var a := v.x;
    SquareStrictlyMonotone(0.0, a);
    assert v.AmplitudeSquared() == a * a;
    SqrtOfSquare(sqrt, a, v.AmplitudeSquared());
    assert v.Normalize(sqrt) == v.Div(a);
    assert a / a == 1.0;
  }

  lemma SqrtPositive(sqrt: real -> real, a: real)
    requires IsSqrt(sqrt) && 0.0 < a
    ensures 0.0 < sqrt(a)
  {
  }

  lemma AddSubCancel(a: Vec2, b: Vec2)
    ensures a.Add(b).Sub(b) == a
  {
  }

  lemma SubSelf(v: Vec2)
    ensures v.Sub(v) == Zero
  {
  }

  lemma AddScalarSubScalar(v: Vec2, k: real)
    ensures v.AddScalar(k).SubScalar(k) == v
    ensures v.AddScalar(k) == v.Add(Vec2(k, k))
  {
  }

  lemma ScaleDivCancel(v: Vec2, k: real)
    requires k != 0.0
    ensures v.Scale(k).Div(k) == v
  {
    assert v.x * k / k == v.x;
    assert v.y * k / k == v.y;
  }

  lemma NegInvolutive(v: Vec2)
    ensures v.Neg().Neg() == v
    ensures v.Neg() == v.Scale(-1.0)
  {
  }

  lemma AmplitudeOfNeg(v: Vec2)
    ensures v.Neg().AmplitudeSquared() == v.AmplitudeSquared()
  {
  }

  lemma BreakSelfFromPair(x: real, y: real)
    ensures FromPair((x, y)).BreakSelf() == (x, y)
    ensures FromPair(Vec2(x, y).BreakSelf()) == Vec2(x, y)
  {
  }

  /** The squared length of `v * k` is `k^2` times that of `v`. */
  lemma AmplitudeOfScale(v: Vec2, k: real)
    ensures v.Scale(k).AmplitudeSquared() == k * k * v.AmplitudeSquared()
  {
  }

  /** Moving `e` along its own direction by `s - |e|` leaves a vector of length `s`
      (in squared form). */
  lemma PushToRadius(sqrt: real -> real, e: Vec2, s: real)
    requires IsSqrt(sqrt) && e.AmplitudeSquared() > 0.0
    ensures e.Add(e.Normalize(sqrt).Scale(s - e.Module(sqrt))).AmplitudeSquared() == s * s
  {
    AmplitudeNonNegative(e);
    var m := e.Module(sqrt);
    assert m * m == e.AmplitudeSquared();
    assert m != 0.0;
    var pushed := e.Add(e.Normalize(sqrt).Scale(s - m));
    ScaleStep(e.x, m, s);
    ScaleStep(e.y, m, s);
    assert pushed == e.Scale(s / m);
    AmplitudeOfScale(e, s / m);
    QuotientSquared(s, m);
  }

  lemma ScaleStep(a: real, m: real, s: real)
    requires m != 0.0
    ensures a + (a / m) * (s - m) == a * (s / m)
  {
    var q := a / m;
    assert a == q * m;
    var sm := s / m;
    assert s == sm * m;
    calc {
      a + q * (s - m);
      q * m + q * s - q * m;
      q * s;
      q * (sm * m);
      (q * m) * sm;
      a * sm;
    }
  }

  lemma QuotientSquared(s: real, m: real)
    requires m != 0.0
    ensures (s / m) * (s / m) * (m * m) == s * s
  {
    var k := s / m;
    assert s == k * m;
    calc {
      k * k * (m * m);
      (k * m) * (k * m);
      s * s;
    }
  }

  /** Normalizing `-v` gives the negation of normalizing `v`. */
  lemma NormalizeNeg(sqrt: real -> real, v: Vec2)
    requires IsSqrt(sqrt) && v.AmplitudeSquared() > 0.0
    ensures v.Neg().AmplitudeSquared() > 0.0
    ensures v.Neg().Normalize(sqrt) == v.Normalize(sqrt).Neg()
  {
    AmplitudeOfNeg(v);
    var m := v.Module(sqrt);
    assert v.Neg().Module(sqrt) == m;
    AmplitudeNonNegative(v);
    assert m * m == v.AmplitudeSquared();
    assert m != 0.0;
    NegDiv(v.x, m);
    NegDiv(v.y, m);
  }

  lemma NegDiv(a: real, m: real)
    requires m != 0.0
    ensures (-a) / m == -(a / m)
  {
    var q := a / m;
    assert a == q * m;
    assert -a == (-q) * m;
  }
}
