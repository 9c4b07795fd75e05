/** Rigid bodies and the semi-implicit Euler step of the physics system. */
module Physics {
  import opened Wrappers
  import opened Vector
  import opened Transforms

  /** The constant pull added to every body's acceleration on each tick. */
  const Gravity := Vec2(0.0, -9.90 / 60.0)

  /** `RigidBody`: every field starts at zero (`derive(Default)`). */
  datatype RigidBody = RigidBody(mass: real, force: Vec2, acceleration: Vec2, velocity: Vec2)

  const DefaultBody := RigidBody(0.0, Zero, Zero, Zero)

  /** `RigidBodyBuilder`: the mass is optional until `build`. */
  datatype RigidBodyBuilder = RigidBodyBuilder(mass: Option<real>)
  {
    /** `set_mass(m)`. */
    function SetMass(m: real): (b: RigidBodyBuilder)
      ensures b.Build().mass == m
      ensures b.Build().force == Zero && b.Build().acceleration == Zero && b.Build().velocity == Zero
    {
      RigidBodyBuilder(Some(m))
    }

    /** `build`: the default body with the mass set, 0 when none was given. */
    function Build(): (r: RigidBody)
      ensures mass.Some? ==> r.mass == mass.value
      ensures mass.None? ==> r.mass == 0.0
      ensures r.force == Zero && r.acceleration == Zero && r.velocity == Zero
    {
      DefaultBody.(mass := if mass.Some? then mass.value else 0.0)
    }
  }

  /** `RigidBodyBuilder::new()`. */
  const NewBodyBuilder := RigidBodyBuilder(None)

  lemma UnsetMassBuildsZero()
    ensures NewBodyBuilder.Build() == DefaultBody
  {
  }

  /** The acceleration a body gains on one tick: `force / mass + GRAVITY`. The
      division is unguarded, so a mass of zero is outside the model. */
  function Pull(b: RigidBody): Vec2
    requires b.mass != 0.0
  {
    b.force.Div(b.mass).Add(Gravity)
  }

  /** One integration step of `PhysicsSystem::run` for one joined entity:
      acceleration first, then velocity from the new acceleration, then the
      position from the new velocity. */
  function Step(t: Transform, b: RigidBody): (Transform, RigidBody)
    requires b.mass != 0.0
  {
    var acc := b.acceleration.Add(Pull(b));
    var vel := b.velocity.Add(acc);
    (t.SetPosition(t.Position().Add(vel)), b.(acceleration := acc, velocity := vel))
  }

  /** `n` ticks of the physics system on one entity. */
  function Steps(t: Transform, b: RigidBody, n: nat): (Transform, RigidBody)
    requires b.mass != 0.0
    ensures Steps(t, b, n).1.mass == b.mass && Steps(t, b, n).1.force == b.force
    decreases n
  {
    if n == 0 then (t, b)
    else
      var (t1, b1) := Step(t, b);
      Steps(t1, b1, n - 1)
  }

  /** `0 + 1 + ... + n`, as a real. */
  function Triangle(n: nat): real
  {
    if n == 0 then 0.0 else Triangle(n - 1) + n as real
  }

  /** One component of the closed form after `n` ticks with a constant pull
      `c`: the acceleration grows by `c` on each tick, and the velocity by the
      new acceleration. */
  lemma {:induction false} ComponentClosedForm(a0: real, v0: real, c: real, n: nat)
    ensures AccAfter(a0, c, n) == a0 + c * (n as real)
    ensures VelAfter(a0, v0, c, n) == v0 + a0 * (n as real) + c * Triangle(n)
  {
    if n > 0 {
      ComponentClosedForm(a0, v0, c, n - 1);
      var m := (n - 1) as real;
      assert c * (m + 1.0) == c * m + c;
      assert a0 * (m + 1.0) == a0 * m + a0;
      assert c * Triangle(n) == c * Triangle(n - 1) + c * (m + 1.0);
    }
  }

  /** The acceleration component after `n` ticks of a constant pull. */
  function AccAfter(a0: real, c: real, n: nat): real
  {
    if n == 0 then a0 else AccAfter(a0, c, n - 1) + c
  }

  /** The velocity component after `n` ticks of a constant pull. */
  function VelAfter(a0: real, v0: real, c: real, n: nat): real
  {
    if n == 0 then v0 else VelAfter(a0, v0, c, n - 1) + AccAfter(a0, c, n)
  }

  /** The position component after `n` ticks of a constant pull: each tick
      adds the velocity that tick produced. */
  function PosAfter(p0: real, a0: real, v0: real, c: real, n: nat): real
  {
    if n == 0 then p0 else PosAfter(p0, a0, v0, c, n - 1) + VelAfter(a0, v0, c, n)
  }

  /** After `n` ticks, the body's acceleration and velocity and the entity's
      position are the componentwise recurrences, and rotation and scale are
      kept. The force is never cleared, so the pull is the same on every tick
      and acceleration accumulates. */
  lemma {:induction false} StepsComponents(t: Transform, b: RigidBody, n: nat)
    requires b.mass != 0.0
    ensures var c := Pull(b);
            var b' := Steps(t, b, n).1;
            && b'.acceleration.x == AccAfter(b.acceleration.x, c.x, n)
            && b'.acceleration.y == AccAfter(b.acceleration.y, c.y, n)
            && b'.velocity.x == VelAfter(b.acceleration.x, b.velocity.x, c.x, n)
            && b'.velocity.y == VelAfter(b.acceleration.y, b.velocity.y, c.y, n)
    ensures var c := Pull(b);
            var t' := Steps(t, b, n).0;
            && t'.Position().x == PosAfter(t.Position().x, b.acceleration.x, b.velocity.x, c.x, n)
            && t'.Position().y == PosAfter(t.Position().y, b.acceleration.y, b.velocity.y, c.y, n)
            && t'.rotation == t.rotation && t'.scale == t.scale
    decreases n
  {
    if n > 0 {
      var (t1, b1) := Step(t, b);
      StepsComponents(t1, b1, n - 1);
      assert Pull(b1) == Pull(b);
      StepsShift(t.Position().x, b.acceleration.x, b.velocity.x, Pull(b).x, n);
      StepsShift(t.Position().y, b.acceleration.y, b.velocity.y, Pull(b).y, n);
    }
  }

  /** Running `n - 1` ticks from the state after one tick is running `n` ticks. */
  lemma {:induction false} StepsShift(p0: real, a0: real, v0: real, c: real, n: nat)
    requires n > 0
    ensures AccAfter(a0 + c, c, n - 1) == AccAfter(a0, c, n)
    ensures VelAfter(a0 + c, v0 + (a0 + c), c, n - 1) == VelAfter(a0, v0, c, n)
    ensures PosAfter(p0 + (v0 + (a0 + c)), a0 + c, v0 + (a0 + c), c, n - 1) == PosAfter(p0, a0, v0, c, n)
  {
    if n > 1 {
      StepsShift(p0, a0, v0, c, n - 1);
    }
  }

  /** With the constant pull `c = force / mass + GRAVITY`, after `n` ticks the
      acceleration is `a0 + n c` and the velocity `v0 + n a0 + (1 + ... + n) c`. */
  lemma Accumulates(t: Transform, b: RigidBody, n: nat)
    requires b.mass != 0.0
    ensures var c := Pull(b);
            var b' := Steps(t, b, n).1;
            && b'.acceleration == b.acceleration.Add(c.Scale(n as real))
            && b'.velocity == b.velocity.Add(b.acceleration.Scale(n as real)).Add(c.Scale(Triangle(n)))
  {
    StepsComponents(t, b, n);
    var b' := Steps(t, b, n).1;
    RecurrencesClosedForm(b.acceleration, b.velocity, Pull(b), n, b'.acceleration, b'.velocity);
  }

  /** The componentwise recurrences in vector form. */
  lemma RecurrencesClosedForm(a: Vec2, v: Vec2, c: Vec2, n: nat, a': Vec2, v': Vec2)
    requires a'.x == AccAfter(a.x, c.x, n) && a'.y == AccAfter(a.y, c.y, n)
    requires v'.x == VelAfter(a.x, v.x, c.x, n) && v'.y == VelAfter(a.y, v.y, c.y, n)
    ensures a' == a.Add(c.Scale(n as real))
    ensures v' == v.Add(a.Scale(n as real)).Add(c.Scale(Triangle(n)))
  {
    ComponentClosedForm(a.x, v.x, c.x, n);
    ComponentClosedForm(a.y, v.y, c.y, n);
    VectorClosedForm(a, v, c, n as real, Triangle(n), a', v');
  }

  /** A vector form of the closed form, with `k` ticks and the sum `t`. */
  lemma VectorClosedForm(a: Vec2, v: Vec2, c: Vec2, k: real, t: real, a': Vec2, v': Vec2)
    requires a'.x == a.x + c.x * k && a'.y == a.y + c.y * k
    requires v'.x == v.x + a.x * k + c.x * t && v'.y == v.y + a.y * k + c.y * t
    ensures a' == a.Add(c.Scale(k))
    ensures v' == v.Add(a.Scale(k)).Add(c.Scale(t))
  {
  }

  /** Without a horizontal force, the horizontal acceleration and velocity never
      change: gravity has no x component. */
  lemma NoHorizontalForceKeepsX(t: Transform, b: RigidBody, n: nat)
    requires b.mass != 0.0 && b.force.x == 0.0
    ensures Steps(t, b, n).1.acceleration.x == b.acceleration.x
    ensures b.acceleration.x == 0.0 ==> Steps(t, b, n).1.velocity.x == b.velocity.x
  {
    Accumulates(t, b, n);
    assert Pull(b).x == 0.0;
  }
}
