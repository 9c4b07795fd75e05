/** What `collide_with` computes, shape pair by shape pair. */
module ColliderProperties {
  import opened Wrappers
  import opened Vector
  import opened Collider

  // ---- Circle / Circle ----

  /** Circles collide exactly when the squared sum of the radii exceeds the squared
      distance of the centres: touching or separated circles give no vector. */
  lemma CircleCircleIff(sqrt: real -> real, r1: real, r2: real, p1: Vec2, p2: Vec2)
    requires IsSqrt(sqrt) && CircleCircleDefined(r1, r2, p1, p2)
    ensures CircleCircle(sqrt, r1, r2, p1, p2).Some?
      <==> (r1 + r2) * (r1 + r2) > p2.Sub(p1).AmplitudeSquared()
  {
  }

  /** The root of a square is the magnitude of the squared number. The square
      is passed as its own argument `aa` so that callers can name it. */
  lemma SqrtOfSquareAbs(sqrt: real -> real, a: real, aa: real)
    requires IsSqrt(sqrt) && aa == a * a
    ensures sqrt(aa) == Abs(a)
  {
    var s, b := sqrt(aa), Abs(a);
    SquareSign(a);
    assert 0.0 <= s && s * s == a * a;
    assert b * b == a * a;
    if s < b {
      SquareStrictlyMonotone(s, b);
    } else if b < s {
      SquareStrictlyMonotone(b, s);
    }
  }

  /** The Circle/Circle vector points from the centre `p2` towards `p1` and its
      length is the overlap `|r1 + r2| - |p2 - p1|`, which is positive. */
  lemma CircleCircleVector(sqrt: real -> real, r1: real, r2: real, p1: Vec2, p2: Vec2)
    requires IsSqrt(sqrt) && CircleCircleDefined(r1, r2, p1, p2)
    requires CircleCircle(sqrt, r1, r2, p1, p2).Some?
    ensures p1.Sub(p2).AmplitudeSquared() > 0.0
    ensures CircleCircle(sqrt, r1, r2, p1, p2).value
      == p1.Sub(p2).Normalize(sqrt).Scale(Abs(r1 + r2) - p2.Sub(p1).Module(sqrt))
    ensures Abs(r1 + r2) - p2.Sub(p1).Module(sqrt) > 0.0
  {
    CircleCircleIff(sqrt, r1, r2, p1, p2);
    assert p1.Sub(p2) == p2.Sub(p1).Neg();
    OverlapVector(sqrt, r1 + r2, (r1 + r2) * (r1 + r2), p2.Sub(p1), CircleCircle(sqrt, r1, r2, p1, p2).value);
  }

  /** The Circle/Circle vector for the sum of radii `c` and the centre line
      `line`, taken apart from the circles. */
  lemma OverlapVector(sqrt: real -> real, c: real, rad: real, line: Vec2, v: Vec2)
    requires IsSqrt(sqrt) && rad == c * c && rad > line.AmplitudeSquared() > 0.0
    requires v == line.Normalize(sqrt).Neg().Scale(sqrt(rad) - sqrt(line.AmplitudeSquared()))
    ensures line.Neg().AmplitudeSquared() > 0.0
    ensures v == line.Neg().Normalize(sqrt).Scale(Abs(c) - line.Module(sqrt))
    ensures Abs(c) - line.Module(sqrt) > 0.0
  {
    OverlapPositive(sqrt, c, line);
    NormalizeNeg(sqrt, line);
    SqrtOfSquareAbs(sqrt, c, rad);
  }

  /** When the square of `c` exceeds the squared length of `line`, `|c|`
      exceeds the length of `line`. */
  lemma OverlapPositive(sqrt: real -> real, c: real, line: Vec2)
    requires IsSqrt(sqrt) && c * c > line.AmplitudeSquared()
    ensures Abs(c) - line.Module(sqrt) > 0.0
  {
    var m := line.Module(sqrt);
    SqrtOfSquareAbs(sqrt, c, c * c);
    AmplitudeNonNegative(line);
    Root(sqrt, line.AmplitudeSquared());
    RootsOrdered(Abs(c), m, c * c, line.AmplitudeSquared());
  }

  /** Non-negative roots are ordered as their squares are. */
  lemma RootsOrdered(s: real, d: real, ss: real, dd: real)
    requires 0.0 <= s && 0.0 <= d && s * s == ss && d * d == dd && ss > dd
    ensures s > d
  {
    if s <= d {
      SquareMonotone(s, d);
    }
  }

  lemma SquareMonotone(a: real, b: real)
    requires 0.0 <= a <= b
    ensures a * a <= b * b
  {
    if a < b {
      SquareStrictlyMonotone(a, b);
    }
  }

  /** Applying the Circle/Circle vector to `p1` leaves the centres exactly
      `r1 + r2` apart (in squared form). */
  lemma CircleCircleSeparates(sqrt: real -> real, r1: real, r2: real, p1: Vec2, p2: Vec2)
    requires IsSqrt(sqrt) && CircleCircleDefined(r1, r2, p1, p2)
    requires CircleCircle(sqrt, r1, r2, p1, p2).Some?
    ensures p1.Add(CircleCircle(sqrt, r1, r2, p1, p2).value).Sub(p2).AmplitudeSquared()
      == (r1 + r2) * (r1 + r2)
  {
    CircleCircleVector(sqrt, r1, r2, p1, p2);
    var e := p1.Sub(p2);
    var s := Abs(r1 + r2);
    var v := CircleCircle(sqrt, r1, r2, p1, p2).value;
    AmplitudeOfNeg(e);
    assert e.Module(sqrt) == p2.Sub(p1).Module(sqrt) by {
      assert e == p2.Sub(p1).Neg();
    }
    assert p1.Add(v).Sub(p2) == e.Add(e.Normalize(sqrt).Scale(s - e.Module(sqrt)));
    PushToRadius(sqrt, e, s);
    assert s * s == (r1 + r2) * (r1 + r2);
  }

  /** Swapping both shapes and both positions negates the Circle/Circle vector. */
  lemma CircleCircleSwap(sqrt: real -> real, r1: real, r2: real, p1: Vec2, p2: Vec2)
    requires IsSqrt(sqrt) && CircleCircleDefined(r1, r2, p1, p2)
    ensures CircleCircleDefined(r2, r1, p2, p1)
    ensures var a := CircleCircle(sqrt, r1, r2, p1, p2);
            var b := CircleCircle(sqrt, r2, r1, p2, p1);
            a.Some? == b.Some? && (a.Some? ==> b.value == a.value.Neg())
  {
    var line := p2.Sub(p1);
    assert p1.Sub(p2) == line.Neg();
    AmplitudeOfNeg(line);
    assert (r2 + r1) * (r2 + r1) == (r1 + r2) * (r1 + r2);
    if (r1 + r2) * (r1 + r2) > line.AmplitudeSquared() {
      NormalizeNeg(sqrt, line);
    }
  }

  /** Circles on a horizontal line at least the sum of their radii apart do
      not collide: touching is not overlapping. */
  lemma CircleCircleHorizontalApart(sqrt: real -> real, r1: real, r2: real, p1: Vec2, p2: Vec2)
    requires IsSqrt(sqrt) && p1.y == p2.y && Abs(p2.x - p1.x) >= Abs(r1 + r2)
    ensures CircleCircleDefined(r1, r2, p1, p2)
    ensures CircleCircle(sqrt, r1, r2, p1, p2) == None
  {
    HorizontalAtLeast(r1 + r2, p2.Sub(p1));
  }

  /** A horizontal vector at least `|c|` long has a squared length of at
      least `c * c`. */
  lemma HorizontalAtLeast(c: real, line: Vec2)
    requires line.y == 0.0 && Abs(c) <= Abs(line.x)
    ensures c * c <= line.AmplitudeSquared()
  {
    var d := line.x;
    assert line.AmplitudeSquared() == d * d;
    SquareMonotone(Abs(c), Abs(d));
    assert Abs(d) * Abs(d) == d * d;
    assert Abs(c) * Abs(c) == c * c;
  }

  // ---- Rect / Rect ----

  /** The first-match search returns a hit exactly when some corner is strictly
      inside, and then it is the hit of the earliest such corner. */
  lemma {:induction false} FirstHitSpec(cs: seq<(real, real)>, b: Box, negate: bool)
    ensures FirstHit(cs, b, negate).Some? <==> exists k :: 0 <= k < |cs| && b.StrictlyInside(cs[k])
    ensures FirstHit(cs, b, negate).Some? ==>
      exists k :: 0 <= k < |cs| && b.StrictlyInside(cs[k])
        && (forall j :: 0 <= j < k ==> !b.StrictlyInside(cs[j]))
        && FirstHit(cs, b, negate) == CornerHit(cs[k], b, negate)
  {
    if cs != [] {
      FirstHitSpec(cs[1..], b, negate);
      if b.StrictlyInside(cs[0]) {
        assert FirstHit(cs, b, negate) == CornerHit(cs[0], b, negate);
      } else {
        assert FirstHit(cs, b, negate) == FirstHit(cs[1..], b, negate);
        if FirstHit(cs, b, negate).Some? {
          var k :| 0 <= k < |cs[1..]| && b.StrictlyInside(cs[1..][k])
            && (forall j :: 0 <= j < k ==> !b.StrictlyInside(cs[1..][j]))
            && FirstHit(cs[1..], b, negate) == CornerHit(cs[1..][k], b, negate);
          assert b.StrictlyInside(cs[k + 1]);
          forall j | 0 <= j < k + 1
            ensures !b.StrictlyInside(cs[j])
          {
            if j > 0 {
              assert cs[j] == cs[1..][j - 1];
            }
          }
        } else {
          forall k | 0 <= k < |cs|
            ensures !b.StrictlyInside(cs[k])
          {
            if k > 0 {
              assert cs[k] == cs[1..][k - 1];
            }
          }
        }
      }
    }
  }

  /** Rects collide exactly when a corner of one lies strictly inside the other. */
  lemma RectRectIff(w1: real, h1: real, w2: real, h2: real, p1: Vec2, p2: Vec2)
    ensures var b1 := BoxAt(p1, w1, h1);
            var b2 := BoxAt(p2, w2, h2);
            RectRect(w1, h1, w2, h2, p1, p2).Some? <==>
              ((exists k :: 0 <= k < 4 && b2.StrictlyInside(b1.Corners()[k]))
               || (exists k :: 0 <= k < 4 && b1.StrictlyInside(b2.Corners()[k])))
  {
    var b1 := BoxAt(p1, w1, h1);
    var b2 := BoxAt(p2, w2, h2);
    FirstHitSpec(b1.Corners(), b2, true);
    FirstHitSpec(b2.Corners(), b1, false);
  }

  /** A corner strictly inside a box is at a non-zero distance from each edge. */
  lemma PenetrationNonZero(c: (real, real), b: Box)
    requires b.StrictlyInside(c)
    ensures Penetration(c, b).0 != 0.0 && Penetration(c, b).1 != 0.0
  {
  }

  /** A corner's push lies along exactly one axis: along x exactly when the x
      distance is strictly smaller in magnitude (ties go to y). Box 1's corner
      is moved onto the nearer edge of box 2; for a corner of box 2, box 1's
      nearer edge is moved onto the corner. */
  lemma CornerHitAxis(c: (real, real), b: Box, negate: bool)
    requires b.StrictlyInside(c)
    ensures var v := CornerHit(c, b, negate).value;
            var (v1, v2) := Penetration(c, b);
            && (v.x == 0.0 <==> v.y != 0.0)
            && (v.x != 0.0 <==> Abs(v1) < Abs(v2))
            && (negate && v.x != 0.0 ==> c.0 + v.x in {b.xMin, b.xMax})
            && (negate && v.y != 0.0 ==> c.1 + v.y in {b.yMin, b.yMax})
            && (!negate && v.x != 0.0 ==> b.xMin + v.x == c.0 || b.xMax + v.x == c.0)
            && (!negate && v.y != 0.0 ==> b.yMin + v.y == c.1 || b.yMax + v.y == c.1)
  {
    PenetrationNonZero(c, b);
  }

  /** The pushed-to edge is the nearer one: the magnitude of the push is the
      distance to the nearer edge on its axis. */
  lemma CornerHitNearest(c: (real, real), b: Box, negate: bool)
    requires b.StrictlyInside(c)
    ensures var v := CornerHit(c, b, negate).value;
            && Abs(v.x) <= Abs(c.0 - b.xMin) && Abs(v.x) <= Abs(c.0 - b.xMax)
            && Abs(v.y) <= Abs(c.1 - b.yMin) && Abs(v.y) <= Abs(c.1 - b.yMax)
  {
  }

  /** `v` is the push of some corner of `cs` strictly inside `b`. */
  ghost predicate PushOfSomeCorner(cs: seq<(real, real)>, b: Box, negate: bool, v: Vec2)
  {
    exists k :: 0 <= k < |cs| && b.StrictlyInside(cs[k]) && Some(v) == CornerHit(cs[k], b, negate)
  }

  /** Every push the Rect/Rect arm reports is the push of one corner strictly
      inside the other box, and so lies along exactly one axis. */
  lemma RectRectPush(w1: real, h1: real, w2: real, h2: real, p1: Vec2, p2: Vec2)
    requires RectRect(w1, h1, w2, h2, p1, p2).Some?
    ensures var v := RectRect(w1, h1, w2, h2, p1, p2).value;
            var b1 := BoxAt(p1, w1, h1);
            var b2 := BoxAt(p2, w2, h2);
            && (v.x == 0.0 <==> v.y != 0.0)
            && (PushOfSomeCorner(b1.Corners(), b2, true, v)
                || PushOfSomeCorner(b2.Corners(), b1, false, v))
  {
    var b1 := BoxAt(p1, w1, h1);
    var b2 := BoxAt(p2, w2, h2);
    FirstHitSpec(b1.Corners(), b2, true);
    FirstHitSpec(b2.Corners(), b1, false);
    if FirstHit(b1.Corners(), b2, true).Some? {
      var k :| 0 <= k < 4 && b2.StrictlyInside(b1.Corners()[k])
        && FirstHit(b1.Corners(), b2, true) == CornerHit(b1.Corners()[k], b2, true);
      CornerHitAxis(b1.Corners()[k], b2, true);
    } else {
      var k :| 0 <= k < 4 && b1.StrictlyInside(b2.Corners()[k])
        && FirstHit(b2.Corners(), b1, false) == CornerHit(b2.Corners()[k], b1, false);
      CornerHitAxis(b2.Corners()[k], b1, false);
    }
  }

  /** Boxes of equal height side by side on the same horizontal line never
      collide: every corner lies on the other's top or bottom edge. */
  lemma AlignedEqualHeightNoHit(w1: real, w2: real, h: real, p1: Vec2, p2: Vec2)
    requires p1.y == p2.y
    ensures RectRect(w1, h, w2, h, p1, p2) == None
  {
    RectRectIff(w1, h, w2, h, p1, p2);
  }

  /** Two 2x2 boxes at (0, 0) and (1.5, 0) overlap by half a unit yet are
      reported as not colliding. */
  lemma OverlappingSquaresMissed()
    ensures RectRect(2.0, 2.0, 2.0, 2.0, Vec2(0.0, 0.0), Vec2(1.5, 0.0)) == None
  {
    AlignedEqualHeightNoHit(2.0, 2.0, 2.0, Vec2(0.0, 0.0), Vec2(1.5, 0.0));
  }

  /** A corner of box 1 at equal distance from the x and y edges of box 2 is
      pushed along y. */
  lemma RectRectTieGoesToY()
    ensures RectRect(2.0, 2.0, 2.0, 2.0, Vec2(0.0, 0.0), Vec2(1.5, 0.5)) == Some(Vec2(0.0, 0.5))
  {
    var b1 := BoxAt(Vec2(0.0, 0.0), 2.0, 2.0);
    var b2 := BoxAt(Vec2(1.5, 0.5), 2.0, 2.0);
    assert !b2.StrictlyInside(b1.Corners()[0]);
    assert !b2.StrictlyInside(b1.Corners()[1]);
    assert !b2.StrictlyInside(b1.Corners()[2]);
    assert b2.StrictlyInside(b1.Corners()[3]);
    assert Penetration(b1.Corners()[3], b2) == (0.5, -0.5);
  }

  // ---- Rect / Circle and Circle / Rect ----

  /** The index of the first corner of `cs` within radius `r` of `center`, or
      `|cs|` when there is none. */
  function FirstWithin(cs: seq<(real, real)>, center: Vec2, r: real): (k: nat)
    ensures k <= |cs|
    ensures k < |cs| ==> Within(cs[k], center, r)
    ensures forall j :: 0 <= j < k ==> !Within(cs[j], center, r)
  {
    if cs == [] then 0
    else if Within(cs[0], center, r) then 0
    else 1 + FirstWithin(cs[1..], center, r)
  }

  /** The search is defined exactly when the first corner within the radius,
      if any, is not the centre. */
  lemma {:induction false} CircleSearchDefinedIff(cs: seq<(real, real)>, center: Vec2, r: real)
    ensures CircleSearchDefined(cs, center, r) <==>
      (FirstWithin(cs, center, r) < |cs| ==>
         FromPair(cs[FirstWithin(cs, center, r)]).Sub(center).AmplitudeSquared() > 0.0)
  {
    if cs != [] && !Within(cs[0], center, r) {
      CircleSearchDefinedIff(cs[1..], center, r);
      var k := FirstWithin(cs[1..], center, r);
      if k < |cs[1..]| {
        assert cs[1..][k] == cs[k + 1];
      }
    }
  }

  /** The corner search returns a vector exactly when some corner lies strictly
      within the radius, and then it is the push of the earliest such corner,
      which is not the centre itself. */
  lemma {:induction false} CircleHitSpec(sqrt: real -> real, cs: seq<(real, real)>, center: Vec2, r: real)
    requires IsSqrt(sqrt) && CircleSearchDefined(cs, center, r)
    ensures CircleHit(sqrt, cs, center, r).Some? <==> FirstWithin(cs, center, r) < |cs|
    ensures FirstWithin(cs, center, r) < |cs| ==>
      var c := cs[FirstWithin(cs, center, r)];
      && FromPair(c).Sub(center).AmplitudeSquared() > 0.0
      && CircleHit(sqrt, cs, center, r).value == CornerPush(sqrt, c, center, r)
  {
    if cs != [] && !Within(cs[0], center, r) {
      CircleHitSpec(sqrt, cs[1..], center, r);
      var k := FirstWithin(cs[1..], center, r);
      if k < |cs[1..]| {
        assert cs[1..][k] == cs[k + 1];
      }
    }
  }

  /** No corner within the radius, no vector; otherwise some corner is within it. */
  lemma CircleHitIff(sqrt: real -> real, cs: seq<(real, real)>, center: Vec2, r: real)
    requires IsSqrt(sqrt) && CircleSearchDefined(cs, center, r)
    ensures CircleHit(sqrt, cs, center, r).Some? <==> exists k :: 0 <= k < |cs| && Within(cs[k], center, r)
  {
    CircleHitSpec(sqrt, cs, center, r);
  }

  /** The Rect/Circle push moves the hitting corner exactly onto the circle
      (in squared form). */
  lemma RectCircleOntoCircle(sqrt: real -> real, w: real, h: real, r: real, p1: Vec2, p2: Vec2)
    requires IsSqrt(sqrt) && RectCircleDefined(w, h, r, p1, p2)
    requires RectCircle(sqrt, w, h, r, p1, p2).Some?
    ensures var v := RectCircle(sqrt, w, h, r, p1, p2).value;
            exists k :: 0 <= k < 4
              && Within(BoxAt(p1, w, h).Corners()[k], p2, r)
              && FromPair(BoxAt(p1, w, h).Corners()[k]).Add(v).Sub(p2).AmplitudeSquared() == r * r
  {
    var cs := BoxAt(p1, w, h).Corners();
    var v := RectCircle(sqrt, w, h, r, p1, p2).value;
    CircleHitSpec(sqrt, cs, p2, r);
    var k := FirstWithin(cs, p2, r);
    var e := FromPair(cs[k]).Sub(p2);
    assert FromPair(cs[k]).Add(v).Sub(p2) == e.Add(v);
    PushToRadius(sqrt, e, r);
  }

  /** Circle/Rect negates Rect/Circle evaluated with the SAME positions, so the
      rectangle is placed at the circle's centre and the circle at the
      rectangle's. Example: a radius-2 circle at `c` and a 2x2 rectangle centred
      at `q = c + (1.6, 1.8)` overlap. The circle is pushed by `(0.6, 0.8)`,
      towards the rectangle; Rect/Circle with the positions in the order of the
      shapes pushes the rectangle by the same `(0.6, 0.8)`, away from the
      circle, so the circle's share is `(-0.6, -0.8)`. */
  lemma CircleRectUnswapped(sqrt: real -> real, c: Vec2, q: Vec2)
    requires IsSqrt(sqrt) && q.x == c.x + 1.6 && q.y == c.y + 1.8
    ensures RectCircleDefined(2.0, 2.0, 2.0, c, q)
    ensures var v := CircleRect(sqrt, 2.0, 2.0, 2.0, c, q);
            v.Some? && v.value.x == q.x - c.x - 1.0 && v.value.y == q.y - c.y - 1.0
    ensures RectCircleDefined(2.0, 2.0, 2.0, q, c)
    ensures var v := RectCircle(sqrt, 2.0, 2.0, 2.0, q, c);
            v.Some? && v.value.x == q.x - c.x - 1.0 && v.value.y == q.y - c.y - 1.0
  {
    CircleRectAsWritten(sqrt, c, q);
    RectCircleInShapeOrder(sqrt, c, q);
  }

  /** The search of Circle/Rect: only the (max, max) corner of the box at `c`
      is within the circle at `q`, at offset `(-0.6, -0.8)`. */
  lemma CircleRectAsWritten(sqrt: real -> real, c: Vec2, q: Vec2)
    requires IsSqrt(sqrt) && q.x == c.x + 1.6 && q.y == c.y + 1.8
    ensures RectCircleDefined(2.0, 2.0, 2.0, c, q)
    ensures var v := RectCircle(sqrt, 2.0, 2.0, 2.0, c, q);
            v.Some? && v.value.x == c.x + 1.0 - q.x && v.value.y == c.y + 1.0 - q.y
  {
    var cs := BoxAt(c, 2.0, 2.0).Corners();
    SumOfSquares(FromPair(cs[0]).Sub(q), -2.6, -2.8);
    SumOfSquares(FromPair(cs[1]).Sub(q), -2.6, -0.8);
    SumOfSquares(FromPair(cs[2]).Sub(q), -0.6, -2.8);
    var d := FromPair(cs[3]).Sub(q);
    SumOfSquares(d, -0.6, -0.8);
    assert FirstWithin(cs, q, 2.0) == 3;
    CircleSearchDefinedIff(cs, q, 2.0);
    CircleHitSpec(sqrt, cs, q, 2.0);
    UnitDirection(sqrt, d);
  }

  /** Rect/Circle with the rectangle at `q` and the circle at `c`: the (min, min)
      corner of the box at `q` is within the circle, at offset `(0.6, 0.8)`. */
  lemma RectCircleInShapeOrder(sqrt: real -> real, c: Vec2, q: Vec2)
    requires IsSqrt(sqrt) && q.x == c.x + 1.6 && q.y == c.y + 1.8
    ensures RectCircleDefined(2.0, 2.0, 2.0, q, c)
    ensures var v := RectCircle(sqrt, 2.0, 2.0, 2.0, q, c);
            v.Some? && v.value.x == q.x - c.x - 1.0 && v.value.y == q.y - c.y - 1.0
  {
    var cs := BoxAt(q, 2.0, 2.0).Corners();
    var d := FromPair(cs[0]).Sub(c);
    SumOfSquares(d, 0.6, 0.8);
    assert FirstWithin(cs, c, 2.0) == 0;
    CircleSearchDefinedIff(cs, c, 2.0);
    CircleHitSpec(sqrt, cs, c, 2.0);
    UnitDirection(sqrt, d);
  }

  /** The squared length of a vector with the given components. */
  lemma SumOfSquares(v: Vec2, a: real, b: real)
    requires v.x == a && v.y == b
    ensures v.AmplitudeSquared() == a * a + b * b
  {
  }

  /** A unit vector normalizes to itself, and the push that moves it onto the
      circle of radius 2 is itself. */
  lemma UnitDirection(sqrt: real -> real, v: Vec2)
    requires IsSqrt(sqrt) && v.AmplitudeSquared() == 1.0
    ensures v.Module(sqrt) == 1.0
    ensures v.Normalize(sqrt).Scale(2.0 - v.Module(sqrt)) == v
  {
    SqrtOfSquare(sqrt, 1.0, 1.0);
    assert v.Normalize(sqrt) == v.Div(1.0);
  }

  /** Any pairing with `ColliderType::None` gives no vector. */
  lemma NoShapeNeverCollides(sqrt: real -> real, other: ColliderType, p1: Vec2, p2: Vec2)
    requires IsSqrt(sqrt)
    ensures NoShape.CollideWith(sqrt, other, p1, p2) == None
    ensures other.CollideWith(sqrt, NoShape, p1, p2) == None
  {
  }
}
