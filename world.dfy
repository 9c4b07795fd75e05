/** The world the systems of one tick run on: the component store of the
    entities, the `Sprite` storage, and the `KeyPress` and `Camera` resources. */
module Worlds {
  import opened Wrappers
  import opened Vector
  import opened Transforms
  import opened Physics
  import opened Collider
  import opened Events
  import opened Animations
  import opened Sprites
  import opened Systems

  /** The animation `update` advances on sprite `s`, if its name is bound. */
  function CurrentOf(s: Sprite): set<Animation>
    reads s
  {
    if s.currAnimation in s.animations then {s.animations[s.currAnimation]} else {}
  }

  /** The animation with the current name took exactly one update. */
  twostate predicate Advanced(s: Sprite)
    reads s, s.animations.Values
  {
    s.currAnimation in s.animations ==>
      var a := s.animations[s.currAnimation];
      && old(allocated(a)) && old(a.CanUpdate())
      && a.images == old(a.images) && a.length == old(a.length)
      && a.Counters() == Tick(old(a.Counters()), old(a.length), |old(a.images)|)
  }

  /** The animation with the current name is as it was. */
  twostate predicate Untouched(s: Sprite)
    reads s, s.animations.Values
  {
    s.currAnimation in s.animations ==>
      var a := s.animations[s.currAnimation];
      old(allocated(a)) && a.images == old(a.images) && a.length == old(a.length)
      && a.index == old(a.index) && a.currTimer == old(a.currTimer)
  }

  class World {
    /** The entities with their value components, in storage order. */
    var slots: seq<Slot>
    /** The `Sprite` storage, in storage order. */
    var sprites: seq<Sprite>
    /** The `KeyPress` resource. */
    var keys: KeyPress
    /** The `Camera` resource, which holds only a transform. */
    var camera: Transform

    /** A world holding the two resources and no entity. */
    constructor Make(kp: KeyPress, cam: Transform)
      ensures slots == [] && sprites == [] && keys == kp && camera == cam
    {
      slots := [];
      sprites := [];
      keys := kp;
      camera := cam;
    }

    /** Every animation of every sprite. */
    ghost function Animations(): set<Animation>
      reads this`sprites, sprites
    {
      set i, n | 0 <= i < |sprites| && n in sprites[i].animations :: sprites[i].animations[n]
    }

    /** The animations the sprite updater advances. */
    ghost function Currents(): set<Animation>
      reads this`sprites, sprites
    {
      set i | 0 <= i < |sprites| && sprites[i].currAnimation in sprites[i].animations
        :: sprites[i].animations[sprites[i].currAnimation]
    }

    /** The sprites are valid, distinct and share no animation. */
    ghost predicate SpritesValid()
      reads this`sprites, sprites, Animations()
    {
      && (forall i | 0 <= i < |sprites| :: sprites[i].Valid())
      && (forall i, j | 0 <= i < j < |sprites| :: sprites[i] != sprites[j])
      && (forall i, j, n, m | 0 <= i < |sprites| && 0 <= j < |sprites| && i != j
            && n in sprites[i].animations && m in sprites[j].animations ::
            sprites[i].animations[n] != sprites[j].animations[m])
    }

    /** Every current animation can take an update without a modulo by zero. */
    ghost predicate SpritesCanUpdate()
      reads this`sprites, sprites, Animations()
    {
      forall i | 0 <= i < |sprites| && sprites[i].currAnimation in sprites[i].animations ::
        sprites[i].animations[sprites[i].currAnimation].CanUpdate()
    }

    /** `PhysicsSystem::run`. */
    method RunPhysics()
      requires MassesDefined(slots)
      modifies this`slots
      ensures slots == Integrate(old(slots))
      ensures sprites == old(sprites) && keys == old(keys) && camera == old(camera)
    {
      ghost var s0 := slots;
      var i := 0;
      while i < |slots|
        invariant 0 <= i <= |slots| == |s0|
        invariant forall j | 0 <= j < i :: slots[j] == IntegrateSlot(s0[j])
        invariant forall j | i <= j < |slots| :: slots[j] == s0[j]
        invariant sprites == old(sprites) && keys == old(keys) && camera == old(camera)
      {
        var s := slots[i];
        if s.transform.Some? && s.body.Some? && s.collider.Some? {
          var t, r := s.transform.value, s.body.value;
          r := r.(acceleration := r.acceleration.Add(r.force.Div(r.mass).Add(Gravity)));
          r := r.(velocity := r.velocity.Add(r.acceleration));
          t := t.SetPosition(t.Position().Add(r.velocity));
          slots := slots[i := s.(transform := Some(t), body := Some(r))];
        }
        i := i + 1;
      }
      assert forall j | 0 <= j < |slots| :: slots[j] == Integrate(s0)[j];
    }

    /** `Layer1System::run` or `Layer2System::run`: every detecting entity's list
        is rebuilt from empty against the partners, in storage order. */
    method RunLayer(sqrt: real -> real, l: Layer)
      requires IsSqrt(sqrt) && DetectDefined(slots, l)
      modifies this`slots
      ensures slots == Detect(sqrt, old(slots), l)
      ensures sprites == old(sprites) && keys == old(keys) && camera == old(camera)
    {
      ghost var s0 := slots;
      var i := 0;
      while i < |slots|
        invariant 0 <= i <= |slots| == |s0|
        invariant forall j | 0 <= j < i :: slots[j] == Detect(sqrt, s0, l)[j]
        invariant forall j | i <= j < |slots| :: slots[j] == s0[j]
        invariant SameButLists(slots, s0)
        invariant sprites == old(sprites) && keys == old(keys) && camera == old(camera)
      {
        if Detecting(slots[i], l) {
          var list, bottom := CollectHits(sqrt, l, i, s0);
          slots := slots[i := slots[i].(collisions := Some(Collisions(list, bottom)))];
        }
        i := i + 1;
      }
      assert forall j | 0 <= j < |slots| :: slots[j] == Detect(sqrt, s0, l)[j];
    }

    /** The inner join of a layer system for detecting entity `i`: every other
        partner is tested in storage order, and the list records each vector
        `collide_with` gives; `bottom` says whether one of them points up. The
        lists already rebuilt this tick play no part. */
    method CollectHits(sqrt: real -> real, l: Layer, i: nat, ghost s0: seq<Slot>)
      returns (list: seq<Collision>, bottom: bool)
      requires IsSqrt(sqrt) && DetectDefined(s0, l) && SameButLists(slots, s0)
      requires i < |s0| && Detecting(s0[i], l) && Detecting(slots[i], l)
      ensures list == Hits(sqrt, s0, l, i, |s0|)
      ensures bottom <==> SomeUp(list)
    {
      list := [];
      bottom := false;
      var j := 0;
      while j < |slots|
        invariant 0 <= j <= |slots|
        invariant list == Hits(sqrt, s0, l, i, j)
        invariant bottom <==> SomeUp(list)
      {
        if i != j && Partner(slots[j], l) {
          var v := slots[i].collider.value.shape.CollideWith(
            sqrt, slots[j].collider.value.shape, slots[i].transform.value.position, slots[j].transform.value.position);
          if v.Some? {
            if v.value.y > 0.0 {
              bottom := true;
            }
            SomeUpSnoc(list, Collision(j, v.value));
            list := list + [Collision(j, v.value)];
          }
        }
        j := j + 1;
      }
    }

    /** `RepultionSystem::run`: every vector of every list, in order. */
    method RunRepulsion()
      modifies this`slots
      ensures slots == Repel(old(slots))
      ensures sprites == old(sprites) && keys == old(keys) && camera == old(camera)
    {
      ghost var s0 := slots;
      var i := 0;
      while i < |slots|
        invariant 0 <= i <= |slots| == |s0|
        invariant forall j | 0 <= j < i :: slots[j] == RepelSlot(s0[j])
        invariant forall j | i <= j < |slots| :: slots[j] == s0[j]
        invariant sprites == old(sprites) && keys == old(keys) && camera == old(camera)
      {
        var s := slots[i];
        if s.collisions.Some? && s.transform.Some? && s.body.Some? {
          var t, r := s.transform.value, s.body.value;
          var list := s.collisions.value.list;
          var k := 0;
          while k < |list|
            invariant 0 <= k <= |list|
            invariant (t, r) == PushAll(s.transform.value, s.body.value, list[..k])
          {
            assert list[..k + 1][..k] == list[..k];
            var (colX, colY) := list[k].at.BreakSelf();
            if colX != 0.0 {
              t := t.(position := Vec2(t.position.x + colX, t.position.y));
              r := r.(acceleration := Vec2(0.0, r.acceleration.y), velocity := Vec2(0.0, r.velocity.y));
            }
            if colY != 0.0 {
              t := t.(position := Vec2(t.position.x, t.position.y + colY));
              r := r.(acceleration := Vec2(r.acceleration.x, 0.0), velocity := Vec2(r.velocity.x, 0.0));
            }
            k := k + 1;
          }
          assert list[..|list|] == list;
          slots := slots[i := s.(transform := Some(t), body := Some(r))];
        }
        i := i + 1;
      }
      assert forall j | 0 <= j < |slots| :: slots[j] == Repel(s0)[j];
    }

    /** `SpriteUpdaterSystem::run`: every sprite's current animation takes exactly
        one update, and nothing else changes. */
    method RunSpriteUpdater()
      requires SpritesValid() && SpritesCanUpdate()
      modifies Currents()
      ensures SpritesValid()
      ensures forall i | 0 <= i < |sprites| :: Advanced(sprites[i])
    {
      var k := 0;
      while k < |sprites|
        invariant 0 <= k <= |sprites|
        invariant SpritesValid()
        invariant forall i | 0 <= i < k :: Advanced(sprites[i])
        invariant forall i | k <= i < |sprites| :: Untouched(sprites[i])
      {
        AdvanceOne(k);
        k := k + 1;
      }
    }

    /** One iteration of the sprite updater: sprite `k`'s update touches no
        other sprite's animations. */
    method AdvanceOne(k: nat)
      requires k < |sprites| && SpritesValid()
      requires sprites[k].currAnimation in sprites[k].animations ==>
                 sprites[k].animations[sprites[k].currAnimation].CanUpdate()
      modifies CurrentOf(sprites[k])
      ensures SpritesValid()
      ensures Advanced(sprites[k])
      ensures forall i | 0 <= i < |sprites| && i != k :: unchanged(sprites[i].animations.Values)
    {
      var s := sprites[k];
      assert forall i | 0 <= i < |sprites| && i != k :: CurrentOf(s) !! sprites[i].animations.Values;
      s.Update();
    }
  }
}
