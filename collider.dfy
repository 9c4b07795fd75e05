/** Narrow-phase collision of the engine crate: collider shapes, the optional
    translation vector `collide_with` reports for the first body, and the
    builder and component records around it. */
module Collider {
  import opened Wrappers
  import opened Vector

  function Abs(a: real): (r: real)
    ensures r >= 0.0 && (r == a || r == -a)
  {
    if a < 0.0 then -a else a
  }

  /** `min_abs!(a, b)`: the argument of smaller magnitude; a tie goes to `b`. */
  function MinAbs(a: real, b: real): (r: real)
    ensures r == a || r == b
    ensures Abs(r) <= Abs(a) && Abs(r) <= Abs(b)
    ensures r == a <==> Abs(a) < Abs(b) || a == b
  {
    if Abs(a) < Abs(b) then a else b
  }

  /** An axis-aligned box, given by its edges. */
  datatype Box = Box(xMin: real, xMax: real, yMin: real, yMax: real)
  {
    /** A point strictly inside: points on an edge do not count. */
    predicate StrictlyInside(c: (real, real))
    {
      xMin < c.0 && c.0 < xMax && yMin < c.1 && c.1 < yMax
    }

    /** The corners, in the order (min, min), (min, max), (max, min), (max, max). */
    function Corners(): (cs: seq<(real, real)>)
      ensures |cs| == 4
      ensures forall k :: 0 <= k < 4 ==> cs[k].0 in {xMin, xMax} && cs[k].1 in {yMin, yMax}
    {
      [(xMin, yMin), (xMin, yMax), (xMax, yMin), (xMax, yMax)]
    }
  }

  /** The box of a `Rect(w, h)` centred at `p`. */
  function BoxAt(p: Vec2, w: real, h: real): (b: Box)
    ensures b.xMax - b.xMin == w && b.yMax - b.yMin == h
  {
    Box(p.x - w / 2.0, p.x + w / 2.0, p.y - h / 2.0, p.y + h / 2.0)
  }

  /** The signed distances from a corner to the nearer x edge and the nearer
      y edge of `b`. */
  function Penetration(c: (real, real), b: Box): (real, real)
  {
    (MinAbs(c.0 - b.xMin, c.0 - b.xMax), MinAbs(c.1 - b.yMin, c.1 - b.yMax))
  }

  /** The axis choice of lines 137 and 160: along x when the x distance is
      non-zero and strictly smaller in magnitude, otherwise along y. */
  function AxisPush(v1: real, v2: real): Vec2
  {
    if v2 == 0.0 || (v1 != 0.0 && Abs(v1) < Abs(v2)) then Vec2(v1, 0.0) else Vec2(0.0, v2)
  }

  /** The push a single corner yields against box `b`: `negate` for box 1's
      corners inside box 2 (the first body moves the corner out), not for box 2's
      corners inside box 1 (the first body moves its edge onto the corner). */
  function CornerHit(c: (real, real), b: Box, negate: bool): Option<Vec2>
  {
    if b.StrictlyInside(c) then
      var (v1, v2) := Penetration(c, b);
      Some(if negate then AxisPush(v1, v2).Neg() else AxisPush(v1, v2))
    else
      None
  }

  /** The first corner of `cs` that yields a push (`.map(..).flat_map(..).next()`). */
  function FirstHit(cs: seq<(real, real)>, b: Box, negate: bool): Option<Vec2>
  {
    if cs == [] then None
    else if CornerHit(cs[0], b, negate).Some? then CornerHit(cs[0], b, negate)
    else FirstHit(cs[1..], b, negate)
  }

  /** The Rect/Rect arm: box 1's corners inside box 2 first, then box 2's corners
      inside box 1. */
  function RectRect(w1: real, h1: real, w2: real, h2: real, p1: Vec2, p2: Vec2): Option<Vec2>
  {
    var b1 := BoxAt(p1, w1, h1);
    var b2 := BoxAt(p2, w2, h2);
    var first := FirstHit(b1.Corners(), b2, true);
    if first.Some? then first else FirstHit(b2.Corners(), b1, false)
  }

  /** A corner strictly within radius `r` of `center` (the circle's interior). */
  predicate Within(c: (real, real), center: Vec2, r: real)
  {
    FromPair(c).Sub(center).AmplitudeSquared() < r * r
  }

  /** The push that moves corner `c` along its direction from `center` onto
      the circle of radius `r`. */
  function CornerPush(sqrt: real -> real, c: (real, real), center: Vec2, r: real): Vec2
    requires IsSqrt(sqrt) && FromPair(c).Sub(center).AmplitudeSquared() > 0.0
  {
    var dir := FromPair(c).Sub(center);
    dir.Normalize(sqrt).Scale(r - dir.Module(sqrt))
  }

  /** Whether normalizing a corner direction in the Rect/Circle search is defined:
      the first corner within the radius must not be the circle's centre. */
  predicate CircleSearchDefined(cs: seq<(real, real)>, center: Vec2, r: real)
  {
    cs != [] ==>
      if Within(cs[0], center, r) then FromPair(cs[0]).Sub(center).AmplitudeSquared() > 0.0
      else CircleSearchDefined(cs[1..], center, r)
  }

  /** The Rect/Circle corner search: the first corner strictly within radius `r`
      of the centre is pushed onto the circle along its direction from the centre. */
  function CircleHit(sqrt: real -> real, cs: seq<(real, real)>, center: Vec2, r: real): Option<Vec2>
    requires IsSqrt(sqrt) && CircleSearchDefined(cs, center, r)
  {
    if cs == [] then None
    else if Within(cs[0], center, r) then Some(CornerPush(sqrt, cs[0], center, r))
    else CircleHit(sqrt, cs[1..], center, r)
  }

  /** The Circle/Circle arm: when the squared sum of the radii exceeds the
      squared distance `dist` of the centres, the first circle is pushed along
      `-(p2 - p1)` normalized, by `sqrt((r1 + r2)^2) - sqrt(dist)`. */
  function CircleCircle(sqrt: real -> real, r1: real, r2: real, p1: Vec2, p2: Vec2): Option<Vec2>
    requires IsSqrt(sqrt) && CircleCircleDefined(r1, r2, p1, p2)
  {
    var line := p2.Sub(p1);
    var dist := line.AmplitudeSquared();
    var rad := (r1 + r2) * (r1 + r2);
    if rad > dist then Some(line.Normalize(sqrt).Neg().Scale(sqrt(rad) - sqrt(dist))) else None
  }

  /** The Circle/Circle arm normalizes `p2 - p1` only when the circles overlap,
      and that needs distinct centres. */
  predicate CircleCircleDefined(r1: real, r2: real, p1: Vec2, p2: Vec2)
  {
    var line := p2.Sub(p1);
    (r1 + r2) * (r1 + r2) > line.AmplitudeSquared() ==> line.AmplitudeSquared() > 0.0
  }

  /** The Rect/Circle arm: the rectangle `w` x `h` centred at `p1` against the
      circle of radius `r` centred at `p2`, through the box's corners. */
  function RectCircle(sqrt: real -> real, w: real, h: real, r: real, p1: Vec2, p2: Vec2): Option<Vec2>
    requires IsSqrt(sqrt) && RectCircleDefined(w, h, r, p1, p2)
  {
    CircleHit(sqrt, BoxAt(p1, w, h).Corners(), p2, r)
  }

  predicate RectCircleDefined(w: real, h: real, r: real, p1: Vec2, p2: Vec2)
  {
    CircleSearchDefined(BoxAt(p1, w, h).Corners(), p2, r)
  }

  /** The Circle/Rect arm: the negated Rect/Circle arm, called with the same
      `p1` and `p2` (the positions are not swapped with the shapes). */
  function CircleRect(sqrt: real -> real, r: real, w: real, h: real, p1: Vec2, p2: Vec2): Option<Vec2>
    requires IsSqrt(sqrt) && RectCircleDefined(w, h, r, p1, p2)
  {
    var v := RectCircle(sqrt, w, h, r, p1, p2);
    if v.Some? then Some(v.value.Neg()) else None
  }

  /** `ColliderType`; `NoShape` is the source's `ColliderType::None`. */
  datatype ColliderType = Circle(radius: real) | Rect(w: real, h: real) | NoShape
  {
    /** Whether `collide_with` stays clear of normalizing a zero vector. */
    predicate CollideDefined(other: ColliderType, p1: Vec2, p2: Vec2)
    {
      match (this, other)
      case (Circle(r1), Circle(r2)) => CircleCircleDefined(r1, r2, p1, p2)
      case (Rect(w, h), Circle(r)) => RectCircleDefined(w, h, r, p1, p2)
      case (Circle(r), Rect(w, h)) => RectCircleDefined(w, h, r, p1, p2)
      case _ => true
    }

    /** `collide_with(other, p1, p2)`: the translation for the body of shape
        `this` at `p1` out of the body of shape `other` at `p2`, if they overlap. */
    function CollideWith(sqrt: real -> real, other: ColliderType, p1: Vec2, p2: Vec2): (r: Option<Vec2>)
      requires IsSqrt(sqrt) && CollideDefined(other, p1, p2)
      ensures this.NoShape? || other.NoShape? ==> r == None
    {
      match (this, other)
      case (Circle(r1), Circle(r2)) => CircleCircle(sqrt, r1, r2, p1, p2)
      case (Rect(w1, h1), Rect(w2, h2)) => RectRect(w1, h1, w2, h2, p1, p2)
      case (Rect(w, h), Circle(r)) => RectCircle(sqrt, w, h, r, p1, p2)
      case (Circle(r), Rect(w, h)) => CircleRect(sqrt, r, w, h, p1, p2)
      case _ => None
    }
  }

  /** `ColliderBuilder`: the shape is optional until `build`. */
  datatype ColliderBuilder = ColliderBuilder(colType: Option<ColliderType>)
  {
    /** `collider_type(c)`. */
    function SetType(c: ColliderType): (b: ColliderBuilder)
      ensures b.Build() == Collider(c)
    {
      ColliderBuilder(Some(c))
    }

    /** `build`: an unset shape builds as `ColliderType::None`. */
    function Build(): (c: Collider)
      ensures colType.Some? ==> c.shape == colType.value
      ensures colType.None? ==> c.shape == NoShape
    {
      Collider(if colType.Some? then colType.value else NoShape)
    }
  }

  /** `ColliderBuilder::new()`. */
  const NewBuilder := ColliderBuilder(None)

  lemma NewBuilderBuildsNoShape()
    ensures NewBuilder.Build() == Collider(NoShape)
  {
  }

  /** The `Collider` component. */
  datatype Collider = Collider(shape: ColliderType)

  /** A recorded hit: the partner entity (by slot index) and the translation. */
  datatype Collision = Collision(with: nat, at: Vec2)

  /** The `Collisions` component: the hits of the last detection pass and the
      "hit bottom" flag. */
  datatype Collisions = Collisions(list: seq<Collision>, hitBottom: bool)
  {
    /** `has_hit_bottom`. */
    function HasHitBottom(): bool { hitBottom }
  }

  /** `Collisions::default()`. */
  const NoCollisions := Collisions([], false)
}
