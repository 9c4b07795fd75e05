/** The entity store the systems of one tick work on, and what each system does
    to it. The store is a sequence of entity slots, each with optional
    components; a join visits, in slot order, the slots that carry every
    component it asks for. The functions here specify the systems; the methods
    of `Worlds.World` carry them out in place. */
module Systems {
  import opened Wrappers
  import opened Vector
  import opened Transforms
  import opened Physics
  import opened Collider

  /** The two collision layers of `flag!(Layer1, AntiLayer1, Layer1System)` and
      `flag!(Layer2, AntiLayer2, Layer2System)`. */
  datatype Layer = Layer1 | Layer2

  /** One entity: its components (the flags are `NullStorage` markers). The
      entity's identity is its slot index. */
  datatype Slot = Slot(
    transform: Option<Transform>,
    body: Option<RigidBody>,
    collider: Option<Collider>,
    collisions: Option<Collisions>,
    layer1: bool, antiLayer1: bool,
    layer2: bool, antiLayer2: bool)
  {
    predicate Flag(l: Layer)
    {
      match l
      case Layer1 => layer1
      case Layer2 => layer2
    }

    predicate AntiFlag(l: Layer)
    {
      match l
      case Layer1 => antiLayer1
      case Layer2 => antiLayer2
    }

    /** What every system but the named one leaves as it is. */
    predicate SameShapeAndFlags(other: Slot)
    {
      collider == other.collider
      && layer1 == other.layer1 && antiLayer1 == other.antiLayer1
      && layer2 == other.layer2 && antiLayer2 == other.antiLayer2
    }
  }

  // ---------------------------------------------------------------- physics

  /** `PhysicsSystem`'s join: Transform, RigidBody and Collider. */
  predicate Integrated(s: Slot)
  {
    s.transform.Some? && s.body.Some? && s.collider.Some?
  }

  /** The mass of every integrated body can be divided by. */
  predicate MassesDefined(slots: seq<Slot>)
  {
    forall i | 0 <= i < |slots| :: Integrated(slots[i]) ==> slots[i].body.value.mass != 0.0
  }

  function IntegrateSlot(s: Slot): Slot
    requires Integrated(s) ==> s.body.value.mass != 0.0
  {
    if Integrated(s) then
      var (t, b) := Step(s.transform.value, s.body.value);
      s.(transform := Some(t), body := Some(b))
    else s
  }

  /** The store after `PhysicsSystem::run`. */
  function Integrate(slots: seq<Slot>): (r: seq<Slot>)
    requires MassesDefined(slots)
    ensures |r| == |slots|
  {
    seq(|slots|, i requires 0 <= i < |slots| => IntegrateSlot(slots[i]))
  }

  /** An integrated entity gains `force / mass + GRAVITY` of acceleration, then
      the new acceleration of velocity, then the new velocity of position; its
      mass, force, collider, collisions and flags stay, and so do its rotation
      and scale. Every other entity is left as it is. */
  lemma IntegrateEffect(slots: seq<Slot>, i: nat)
    requires MassesDefined(slots) && i < |slots|
    ensures var s, r := slots[i], Integrate(slots)[i];
      && r.SameShapeAndFlags(s) && r.collisions == s.collisions
      && (!Integrated(s) ==> r == s)
      && (Integrated(s) ==>
            var t, b, t', b' := s.transform.value, s.body.value, r.transform.value, r.body.value;
            && r.transform.Some? && r.body.Some?
            && b'.mass == b.mass && b'.force == b.force
            && b'.acceleration == b.acceleration.Add(b.force.Div(b.mass).Add(Gravity))
            && b'.velocity == b.velocity.Add(b'.acceleration)
            && t'.position == t.position.Add(b'.velocity)
            && t'.rotation == t.rotation && t'.scale == t.scale)
  {
  }

  /** Integration keeps the join and the masses, so a second tick is defined
      whenever the first is. */
  lemma IntegrateKeepsMasses(slots: seq<Slot>)
    requires MassesDefined(slots)
    ensures MassesDefined(Integrate(slots))
    ensures forall i | 0 <= i < |slots| :: Integrated(Integrate(slots)[i]) <==> Integrated(slots[i])
  {
  }

  // ---------------------------------------------------------------- detection

  /** The outer join of a layer system: Collisions, Collider, Transform and the flag. */
  predicate Detecting(s: Slot, l: Layer)
  {
    s.collisions.Some? && s.collider.Some? && s.transform.Some? && s.Flag(l)
  }

  /** The inner join: Collider, Transform, the flag and not the anti-flag. */
  predicate Partner(s: Slot, l: Layer)
  {
    s.collider.Some? && s.transform.Some? && s.Flag(l) && !s.AntiFlag(l)
  }

  /** Every pair the layer system tests stays clear of normalizing a zero vector. */
  predicate DetectDefined(slots: seq<Slot>, l: Layer)
  {
    forall i, j | 0 <= i < |slots| && 0 <= j < |slots| && i != j && Detecting(slots[i], l) && Partner(slots[j], l) ::
      slots[i].collider.value.shape.CollideDefined(
        slots[j].collider.value.shape, slots[i].transform.value.position, slots[j].transform.value.position)
  }

  /** What entity `i` records against entity `j`. */
  function Hit(sqrt: real -> real, slots: seq<Slot>, l: Layer, i: nat, j: nat): Option<Vec2>
    requires IsSqrt(sqrt) && DetectDefined(slots, l)
    requires i < |slots| && j < |slots| && Detecting(slots[i], l)
  {
    if i != j && Partner(slots[j], l) then
      slots[i].collider.value.shape.CollideWith(
        sqrt, slots[j].collider.value.shape, slots[i].transform.value.position, slots[j].transform.value.position)
    else None
  }

  /** The list entity `i` has built after testing the partners below slot `n`. */
  function Hits(sqrt: real -> real, slots: seq<Slot>, l: Layer, i: nat, n: nat): seq<Collision>
    requires IsSqrt(sqrt) && DetectDefined(slots, l)
    requires i < |slots| && n <= |slots| && Detecting(slots[i], l)
  {
    if n == 0 then []
    else
      var v := Hit(sqrt, slots, l, i, n - 1);
      Hits(sqrt, slots, l, i, n - 1) + (if v.Some? then [Collision(n - 1, v.value)] else [])
  }

  /** Some recorded vector points up. */
  predicate SomeUp(list: seq<Collision>)
  {
    exists k | 0 <= k < |list| :: list[k].at.y > 0.0
  }

  lemma SomeUpSnoc(list: seq<Collision>, c: Collision)
    ensures SomeUp(list + [c]) <==> SomeUp(list) || c.at.y > 0.0
  {
    if SomeUp(list) {
      var k :| 0 <= k < |list| && list[k].at.y > 0.0;
      assert (list + [c])[k] == list[k];
    }
    assert (list + [c])[|list|] == c;
  }

  /** The `Collisions` entity `i` ends the layer system with. */
  function Detected(sqrt: real -> real, slots: seq<Slot>, l: Layer, i: nat): Collisions
    requires IsSqrt(sqrt) && DetectDefined(slots, l)
    requires i < |slots| && Detecting(slots[i], l)
  {
    var list := Hits(sqrt, slots, l, i, |slots|);
    Collisions(list, SomeUp(list))
  }

  /** The store after the layer system of `l`. */
  function Detect(sqrt: real -> real, slots: seq<Slot>, l: Layer): (r: seq<Slot>)
    requires IsSqrt(sqrt) && DetectDefined(slots, l)
    ensures |r| == |slots|
  {
    seq(|slots|, i requires 0 <= i < |slots| =>
      if Detecting(slots[i], l) then slots[i].(collisions := Some(Detected(sqrt, slots, l, i))) else slots[i])
  }

  /** A recorded collision is with a partner other than the entity itself, with the
      vector `collide_with` gives for the pair; the partners come in slot order. */
  lemma {:induction false} HitsRecord(sqrt: real -> real, slots: seq<Slot>, l: Layer, i: nat, n: nat, k: nat)
    requires IsSqrt(sqrt) && DetectDefined(slots, l)
    requires i < |slots| && n <= |slots| && Detecting(slots[i], l)
    requires k < |Hits(sqrt, slots, l, i, n)|
    ensures var c := Hits(sqrt, slots, l, i, n)[k];
      && c.with < n && c.with != i && Partner(slots[c.with], l)
      && Hit(sqrt, slots, l, i, c.with) == Some(c.at)
  {
    var prev := Hits(sqrt, slots, l, i, n - 1);
    if k < |prev| {
      HitsRecord(sqrt, slots, l, i, n - 1, k);
    }
  }

  /** The partners appear in strictly increasing slot order, so none twice. */
  lemma {:induction false} HitsOrdered(sqrt: real -> real, slots: seq<Slot>, l: Layer, i: nat, n: nat, k1: nat, k2: nat)
    requires IsSqrt(sqrt) && DetectDefined(slots, l)
    requires i < |slots| && n <= |slots| && Detecting(slots[i], l)
    requires k1 < k2 < |Hits(sqrt, slots, l, i, n)|
    ensures Hits(sqrt, slots, l, i, n)[k1].with < Hits(sqrt, slots, l, i, n)[k2].with
  {
    var prev := Hits(sqrt, slots, l, i, n - 1);
    if k2 < |prev| {
      HitsOrdered(sqrt, slots, l, i, n - 1, k1, k2);
    } else {
      HitsRecord(sqrt, slots, l, i, n - 1, k1);
    }
  }

  /** Every partner below `n` that yields a vector is recorded, with that vector. */
  lemma {:induction false} HitsComplete(sqrt: real -> real, slots: seq<Slot>, l: Layer, i: nat, n: nat, j: nat)
    requires IsSqrt(sqrt) && DetectDefined(slots, l)
    requires i < |slots| && n <= |slots| && Detecting(slots[i], l)
    requires j < n && Hit(sqrt, slots, l, i, j).Some?
    ensures exists k | 0 <= k < |Hits(sqrt, slots, l, i, n)| ::
      Hits(sqrt, slots, l, i, n)[k] == Collision(j, Hit(sqrt, slots, l, i, j).value)
  {
    var prev := Hits(sqrt, slots, l, i, n - 1);
    if j < n - 1 {
      HitsComplete(sqrt, slots, l, i, n - 1, j);
      var k :| 0 <= k < |prev| && prev[k] == Collision(j, Hit(sqrt, slots, l, i, j).value);
      assert Hits(sqrt, slots, l, i, n)[k] == prev[k];
    } else {
      assert Hits(sqrt, slots, l, i, n)[|prev|] == Collision(j, Hit(sqrt, slots, l, i, j).value);
    }
  }

  /** After a layer system, a detecting entity's list holds exactly its hits on
      partners (never itself, never an entity with the anti-flag), and its "hit
      bottom" flag is set exactly when one of them points up; whatever it held
      before is gone. */
  lemma DetectRecordsExactly(sqrt: real -> real, slots: seq<Slot>, l: Layer, i: nat, j: nat)
    requires IsSqrt(sqrt) && DetectDefined(slots, l) && i < |slots| && j < |slots| && Detecting(slots[i], l)
    ensures var c := Detect(sqrt, slots, l)[i].collisions;
      && c.Some?
      && (c.value.HasHitBottom() <==> SomeUp(c.value.list))
      && ((exists k | 0 <= k < |c.value.list| :: c.value.list[k].with == j) <==>
            i != j && Partner(slots[j], l) && Hit(sqrt, slots, l, i, j).Some?)
  {
    var list := Hits(sqrt, slots, l, i, |slots|);
    if exists k | 0 <= k < |list| :: list[k].with == j {
      var k :| 0 <= k < |list| && list[k].with == j;
      HitsRecord(sqrt, slots, l, i, |slots|, k);
    }
    if i != j && Partner(slots[j], l) && Hit(sqrt, slots, l, i, j).Some? {
      HitsComplete(sqrt, slots, l, i, |slots|, j);
    }
  }

  /** A layer system changes only the lists of its detecting entities: positions
      are only read, and every other component and entity is left as it is. */
  lemma DetectFrame(sqrt: real -> real, slots: seq<Slot>, l: Layer, i: nat)
    requires IsSqrt(sqrt) && DetectDefined(slots, l) && i < |slots|
    ensures var r := Detect(sqrt, slots, l)[i];
      && r.transform == slots[i].transform && r.body == slots[i].body
      && r.SameShapeAndFlags(slots[i])
      && (!Detecting(slots[i], l) ==> r == slots[i])
  {
  }

  /** Two stores that differ only in their collision lists. */
  predicate SameButLists(a: seq<Slot>, b: seq<Slot>)
  {
    |a| == |b| &&
    forall i | 0 <= i < |a| ::
      a[i].transform == b[i].transform && a[i].body == b[i].body && a[i].SameShapeAndFlags(b[i])
      && a[i].collisions.Some? == b[i].collisions.Some?
  }

  lemma {:induction false} HitsIgnoreLists(sqrt: real -> real, a: seq<Slot>, b: seq<Slot>, l: Layer, i: nat, n: nat)
    requires IsSqrt(sqrt) && SameButLists(a, b) && DetectDefined(a, l) && DetectDefined(b, l)
    requires i < |a| && n <= |a| && Detecting(a[i], l) && Detecting(b[i], l)
    ensures Hits(sqrt, a, l, i, n) == Hits(sqrt, b, l, i, n)
  {
    if n > 0 {
      HitsIgnoreLists(sqrt, a, b, l, i, n - 1);
      assert Hit(sqrt, a, l, i, n - 1) == Hit(sqrt, b, l, i, n - 1);
    }
  }

  /** The list a layer system builds does not depend on the lists held before it. */
  lemma DetectedIgnoresLists(sqrt: real -> real, a: seq<Slot>, b: seq<Slot>, l: Layer, i: nat)
    requires IsSqrt(sqrt) && SameButLists(a, b) && DetectDefined(a, l)
    requires i < |a| && Detecting(a[i], l)
    ensures DetectDefined(b, l) && Detecting(b[i], l)
    ensures Detected(sqrt, a, l, i) == Detected(sqrt, b, l, i)
  {
    assert DetectDefined(b, l);
    HitsIgnoreLists(sqrt, a, b, l, i, |a|);
  }

  /** What one layer system leaves for the next: the same store but for lists. */
  lemma DetectSameButLists(sqrt: real -> real, slots: seq<Slot>, l: Layer)
    requires IsSqrt(sqrt) && DetectDefined(slots, l)
    ensures SameButLists(Detect(sqrt, slots, l), slots)
    ensures forall m: Layer :: DetectDefined(slots, m) ==> DetectDefined(Detect(sqrt, slots, l), m)
  {
    var r := Detect(sqrt, slots, l);
    forall m: Layer | DetectDefined(slots, m) ensures DetectDefined(r, m) {
      assert forall i | 0 <= i < |slots| :: Detecting(r[i], m) == Detecting(slots[i], m) && Partner(r[i], m) == Partner(slots[i], m);
    }
  }

  /** Running a layer system twice is running it once. */
  lemma DetectIdempotent(sqrt: real -> real, slots: seq<Slot>, l: Layer)
    requires IsSqrt(sqrt) && DetectDefined(slots, l)
    ensures DetectDefined(Detect(sqrt, slots, l), l)
    ensures Detect(sqrt, Detect(sqrt, slots, l), l) == Detect(sqrt, slots, l)
  {
    var d := Detect(sqrt, slots, l);
    DetectSameButLists(sqrt, slots, l);
    forall i | 0 <= i < |slots| ensures Detect(sqrt, d, l)[i] == d[i] {
      if Detecting(slots[i], l) {
        DetectedIgnoresLists(sqrt, slots, d, l, i);
      }
    }
  }

  // ---------------------------------------------------------------- repulsion

  /** `RepultionSystem`'s join: Collisions, Transform and RigidBody. */
  predicate Repelled(s: Slot)
  {
    s.collisions.Some? && s.transform.Some? && s.body.Some?
  }

  /** One recorded vector applied: on each axis where it is non-zero, the
      position moves by it and the acceleration and velocity on that axis
      become 0. */
  function Push(t: Transform, b: RigidBody, v: Vec2): (Transform, RigidBody)
  {
    var (colX, colY) := v.BreakSelf();
    var (t1, b1) :=
      if colX != 0.0 then
        (t.(position := Vec2(t.position.x + colX, t.position.y)),
         b.(acceleration := Vec2(0.0, b.acceleration.y), velocity := Vec2(0.0, b.velocity.y)))
      else (t, b);
    if colY != 0.0 then
      (t1.(position := Vec2(t1.position.x, t1.position.y + colY)),
       b1.(acceleration := Vec2(b1.acceleration.x, 0.0), velocity := Vec2(b1.velocity.x, 0.0)))
    else (t1, b1)
  }

  /** The list applied in order. */
  function PushAll(t: Transform, b: RigidBody, list: seq<Collision>): (Transform, RigidBody)
  {
    if list == [] then (t, b)
    else
      var (t1, b1) := PushAll(t, b, list[..|list| - 1]);
      Push(t1, b1, list[|list| - 1].at)
  }

  /** The sum of the recorded vectors. */
  function Total(list: seq<Collision>): Vec2
  {
    if list == [] then Zero else Total(list[..|list| - 1]).Add(list[|list| - 1].at)
  }

  predicate SomeX(list: seq<Collision>)
  {
    exists k | 0 <= k < |list| :: list[k].at.x != 0.0
  }

  predicate SomeY(list: seq<Collision>)
  {
    exists k | 0 <= k < |list| :: list[k].at.y != 0.0
  }

  /** One vector applied: the position moves by it, and each axis on which it is
      non-zero has its acceleration and velocity zeroed. */
  lemma PushEffect(t: Transform, b: RigidBody, v: Vec2)
    ensures var (t', b') := Push(t, b, v);
      && t'.position == t.position.Add(v)
      && t'.rotation == t.rotation && t'.scale == t.scale
      && b'.mass == b.mass && b'.force == b.force
      && (v.x != 0.0 ==> b'.acceleration.x == 0.0 && b'.velocity.x == 0.0)
      && (v.x == 0.0 ==> b'.acceleration.x == b.acceleration.x && b'.velocity.x == b.velocity.x)
      && (v.y != 0.0 ==> b'.acceleration.y == 0.0 && b'.velocity.y == 0.0)
      && (v.y == 0.0 ==> b'.acceleration.y == b.acceleration.y && b'.velocity.y == b.velocity.y)
  {
  }

  lemma SomeXSnoc(list: seq<Collision>)
    requires list != []
    ensures SomeX(list) <==> SomeX(list[..|list| - 1]) || list[|list| - 1].at.x != 0.0
  {
    var init := list[..|list| - 1];
    if SomeX(list) && list[|list| - 1].at.x == 0.0 {
      var k :| 0 <= k < |list| && list[k].at.x != 0.0;
      assert init[k] == list[k];
    }
    if SomeX(init) {
      var k :| 0 <= k < |init| && init[k].at.x != 0.0;
      assert list[k] == init[k];
    }
  }

  lemma SomeYSnoc(list: seq<Collision>)
    requires list != []
    ensures SomeY(list) <==> SomeY(list[..|list| - 1]) || list[|list| - 1].at.y != 0.0
  {
    var init := list[..|list| - 1];
    if SomeY(list) && list[|list| - 1].at.y == 0.0 {
      var k :| 0 <= k < |list| && list[k].at.y != 0.0;
      assert init[k] == list[k];
    }
    if SomeY(init) {
      var k :| 0 <= k < |init| && init[k].at.y != 0.0;
      assert list[k] == init[k];
    }
  }

  /** Applying a list moves the position by the sum of its vectors; mass, force,
      rotation and scale stay. */
  lemma {:induction false} PushAllMoves(t: Transform, b: RigidBody, list: seq<Collision>)
    ensures var (t', b') := PushAll(t, b, list);
      && t'.position == t.position.Add(Total(list))
      && t'.rotation == t.rotation && t'.scale == t.scale
      && b'.mass == b.mass && b'.force == b.force
  {
    if list != [] {
      var init := list[..|list| - 1];
      PushAllMoves(t, b, init);
      var (t1, b1) := PushAll(t, b, init);
      PushEffect(t1, b1, list[|list| - 1].at);
    }
  }

  /** On the x axis, acceleration and velocity become 0 when some vector of the
      list has a non-zero x, and are unchanged otherwise. */
  lemma {:induction false} PushAllStopsX(t: Transform, b: RigidBody, list: seq<Collision>)
    ensures var b' := PushAll(t, b, list).1;
      && (SomeX(list) ==> b'.acceleration.x == 0.0 && b'.velocity.x == 0.0)
      && (!SomeX(list) ==> b'.acceleration.x == b.acceleration.x && b'.velocity.x == b.velocity.x)
  {
    if list != [] {
      var init := list[..|list| - 1];
      PushAllStopsX(t, b, init);
      SomeXSnoc(list);
      var (t1, b1) := PushAll(t, b, init);
      PushEffect(t1, b1, list[|list| - 1].at);
    }
  }

  /** The same on the y axis. */
  lemma {:induction false} PushAllStopsY(t: Transform, b: RigidBody, list: seq<Collision>)
    ensures var b' := PushAll(t, b, list).1;
      && (SomeY(list) ==> b'.acceleration.y == 0.0 && b'.velocity.y == 0.0)
      && (!SomeY(list) ==> b'.acceleration.y == b.acceleration.y && b'.velocity.y == b.velocity.y)
  {
    if list != [] {
      var init := list[..|list| - 1];
      PushAllStopsY(t, b, init);
      SomeYSnoc(list);
      var (t1, b1) := PushAll(t, b, init);
      PushEffect(t1, b1, list[|list| - 1].at);
    }
  }

  function RepelSlot(s: Slot): Slot
  {
    if Repelled(s) then
      var (t, b) := PushAll(s.transform.value, s.body.value, s.collisions.value.list);
      s.(transform := Some(t), body := Some(b))
    else s
  }

  /** The store after `RepultionSystem::run`. */
  function Repel(slots: seq<Slot>): (r: seq<Slot>)
    ensures |r| == |slots|
  {
    seq(|slots|, i requires 0 <= i < |slots| => RepelSlot(slots[i]))
  }

  /** Repulsion changes only transforms and bodies, and an entity with an empty
      list is left as it is. */
  lemma RepelFrame(slots: seq<Slot>, i: nat)
    requires i < |slots|
    ensures var r := Repel(slots)[i];
      && r.collisions == slots[i].collisions && r.SameShapeAndFlags(slots[i])
      && (!Repelled(slots[i]) || slots[i].collisions.value.list == [] ==> r == slots[i])
  {
  }

  // ---------------------------------------------------------------- one tick

  /** What `run_sys` needs of the store: every division and every normalization
      of the tick is defined. */
  ghost predicate RunSysDefined(sqrt: real -> real, slots: seq<Slot>)
  {
    && IsSqrt(sqrt) && MassesDefined(slots)
    && DetectDefined(Integrate(slots), Layer1)
    && DetectDefined(Integrate(slots), Layer2)
  }

  /** The store after `run_sys`: physics, layer 1, layer 2, then repulsion. */
  function RunSys(sqrt: real -> real, slots: seq<Slot>): (r: seq<Slot>)
    requires RunSysDefined(sqrt, slots)
    ensures |r| == |slots|
  {
    var s1 := Integrate(slots);
    var s2 := Detect(sqrt, s1, Layer1);
    DetectSameButLists(sqrt, s1, Layer1);
    var s3 := Detect(sqrt, s2, Layer2);
    Repel(s3)
  }

  /** An entity in both layers ends the tick with only its layer-2 list, detected
      on the positions this tick's integration produced; the layer-1 list it built
      is lost. */
  lemma Layer2Wins(sqrt: real -> real, slots: seq<Slot>, i: nat)
    requires RunSysDefined(sqrt, slots) && i < |slots|
    requires Detecting(Integrate(slots)[i], Layer2)
    ensures RunSys(sqrt, slots)[i].collisions == Some(Detected(sqrt, Integrate(slots), Layer2, i))
  {
    var s1 := Integrate(slots);
    DetectSameButLists(sqrt, s1, Layer1);
    var s2 := Detect(sqrt, s1, Layer1);
    DetectedIgnoresLists(sqrt, s2, s1, Layer2, i);
    RepelFrame(Detect(sqrt, s2, Layer2), i);
  }

  /** An entity in layer 1 only keeps its layer-1 list through the tick. */
  lemma Layer1Kept(sqrt: real -> real, slots: seq<Slot>, i: nat)
    requires RunSysDefined(sqrt, slots) && i < |slots|
    requires Detecting(Integrate(slots)[i], Layer1) && !Integrate(slots)[i].layer2
    ensures RunSys(sqrt, slots)[i].collisions == Some(Detected(sqrt, Integrate(slots), Layer1, i))
  {
    var s1 := Integrate(slots);
    DetectSameButLists(sqrt, s1, Layer1);
    var s2 := Detect(sqrt, s1, Layer1);
    RepelFrame(Detect(sqrt, s2, Layer2), i);
  }
}
