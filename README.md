# wasm_rust_game: a verified model of the engine's per-tick simulation

The repository is a small browser game written in Rust. Its engine crate follows
the entity/component/system pattern. Every frame, `Game::run_sys` runs five
systems in a fixed order:

1. physics integrates every rigid body;
2. collision layer 1 rebuilds each flagged entity's list of hits;
3. collision layer 2 does the same for its own flags;
4. repulsion moves bodies out of what they hit;
5. the sprite updater advances every sprite's current animation.

Around that pipeline sit value types:
- two-dimensional vectors;
- the `Transform` component;
- RGBA images, and sprite sheets cut into animation frames;
- the keyboard-state resource;
- the dynamic value `Var__` of the scripting experiment.

This project models those parts in Dafny and proves properties of the model.

Layout, one module per source file:

| file | module | source |
|---|---|---|
| `wrappers.dfy` | `Wrappers` | `Option`, and `Result` (a panic is a `Failure`) |
| `vector.dfy` | `Vector` | `math/src/vector.rs` |
| `transform.dfy` | `Transforms` | `engine/src/transform.rs` |
| `collider.dfy`, `collider_props.dfy` | `Collider`, `ColliderProperties` | `engine/src/collider.rs`: shapes, builder, `collide_with` and its properties |
| `physics.dfy` | `Physics` | `engine/src/physics.rs` |
| `ecs.dfy` | `Systems` | the component store as a sequence of entity slots, and each system as a function on it |
| `world.dfy` | `Worlds` | the world the systems run on; each system as a method proved against its function |
| `game.dfy` | `Games` | `engine/src/lib.rs` |
| `image.dfy` | `Images` | `engine/src/render/image.rs` and the `Color`/`Image` part of `src/sprite.rs` |
| `animation.dfy` | `Animations` | `engine/src/render/animation.rs` |
| `sprite.dfy` | `Sprites` | `engine/src/render/sprite.rs` |
| `web_sprite.dfy` | `WebSprites` | the `Sprite` part of `src/sprite.rs` |
| `event.dfy` | `Events` | `engine/src/event/mod.rs` |
| `var.dfy`, `var_text.dfy` | `Vars`, `VarText` | `script_lang/src/var.rs` |
| `arith.dfy` | `Arith` | integer division and modulo facts used by the proofs |

Representation choices:
- `f64` is `real`.
- `f64::sqrt` belongs to the standard library, so it is a parameter `sqrt` of every
  function that needs it. The predicate `IsSqrt` constrains it: on a non-negative
  argument it returns the non-negative root.
- A NaN the source would produce is excluded by a precondition instead:
  - normalizing a zero vector;
  - dividing by a zero mass.
- The modulo by zero of `update` on an animation with no frame is excluded by a
  precondition too (see "## Left out").
- A panic is a `Failure` of `Result`:
  - an index out of bounds, including `get` and `image()` on an animation with no frame;
  - `get_nested__` or a `cast` on the wrong variant;
  - indexing an empty description list.
- The specs entity store is a sequence of slots. Each slot holds optional components
  and the four layer flags. A join visits, in slot order, the slots carrying every
  requested component.
- In-place updates:
  - State the source mutates through `&mut` is a class with `modifies` clauses:
    `Animation`, `Sprite`, `KeyPress`, `World` and `Game`.
  - The per-entity components are values inside the slots. The systems hold
    exclusive access to them, so there is no aliasing to model.
  - `obj__`, `get_nested__` and `update_nested__` update a `Var__` in place
    through `&mut`. They are functions returning the new value, and an
    assignment along a path rebuilds the enclosing objects outward. A `&mut`
    reference is unique, so no other value can observe the intermediate state,
    and the rebuilt value is the one the in-place writes leave.
- Every system method is proved against its specification function:
  - `World.RunPhysics` against `Integrate`;
  - `World.RunLayer` against `Detect`;
  - `World.RunRepulsion` against `Repel`;
  - `Game.RunSys` against `Systems.RunSys`.
- The code is modelled as written, not repaired:
  - the mass division has no guard;
  - acceleration accumulates;
  - a Rect corner counts only when strictly inside;
  - Circle/Rect does not swap the positions;
  - the short-circuit reads of the transparency pass can overrun the buffer.

Two 2 x 2 squares at (0, 0) and (1.5, 0) overlap by half a unit, yet
`collide_with` returns `None` for them: every corner of each box lies on an edge
of the other, and a corner on an edge does not count
(`ColliderProperties.OverlappingSquaresMissed`).

## Model

| member | source | states |
|---|---|---|
| `Vector.Vec2.Normalize` | math/src/vector.rs:26-32 | a non-zero vector divided by its length has squared length 1 |
| `Vector.AmplitudeNonNegative` | math/src/vector.rs:11-18 | `amplitude_squared` is never negative |
| `Vector.AmplitudeOfNeg` | math/src/vector.rs:11-18 | negation keeps `amplitude_squared` |
| `Vector.AddSubCancel` | math/src/vector.rs:41-54 | subtracting a vector undoes adding it |
| `Vector.SubSelf` | math/src/vector.rs:85-98 | `v - v` is the zero vector |
| `Vector.AddScalarSubScalar` | math/src/vector.rs:55-68 | adding a scalar adds it to both components, and subtracting it undoes that |
| `Vector.ScaleDivCancel` | math/src/vector.rs:70-83 | dividing by a non-zero scalar undoes multiplying by it |
| `Vector.AmplitudeOfScale` | math/src/vector.rs:114-128 | scaling by `k` multiplies the squared length by `k^2` |
| `Vector.NegInvolutive` | math/src/vector.rs:130-138 | negating twice restores the vector, and negation is scaling by -1 |
| `Vector.BreakSelfFromPair` | math/src/vector.rs:20-22 | `break_self` and `From<(T, T)>` are inverse |
| `Vector.NormalizeOnX` | math/src/vector.rs:26-32 | a vector along positive x has length x and normalizes to (1, 0) |
| `Vector.NormalizeNeg` | math/src/vector.rs:26-32 | normalizing `-v` gives the negation of normalizing `v` |
| `Vector.PushToRadius` | math/src/vector.rs:26-32 | moving `e` along its direction by `s` minus its length leaves a vector of length `s` |
| `Vector.Vec2.Add` | math/src/vector.rs:41-54 | componentwise sum; `AddSubCancel` proves `Sub` undoes it |
| `Vector.Vec2.Sub` | math/src/vector.rs:85-98 | componentwise difference; `AddSubCancel` and `SubSelf` characterise it |
| `Vector.Vec2.AddScalar` | math/src/vector.rs:55-68 | the scalar added to both components; `AddScalarSubScalar` proves `SubScalar` undoes it |
| `Vector.Vec2.SubScalar` | math/src/vector.rs:99-112 | the scalar subtracted from both components; the inverse of `AddScalar` by `AddScalarSubScalar` |
| `Vector.Vec2.Scale` | math/src/vector.rs:114-128 | both components multiplied; `AmplitudeOfScale` and `ScaleDivCancel` characterise it |
| `Vector.Vec2.Div` | math/src/vector.rs:70-83 | both components divided, by a non-zero divisor; `ScaleDivCancel` proves it undoes `Scale` |
| `Vector.Vec2.Neg` | math/src/vector.rs:130-138 | both components negated; `NegInvolutive` and `AmplitudeOfNeg` characterise it |
| `Vector.Vec2.AmplitudeSquared` | math/src/vector.rs:11-18 | `x*x + y*y`; `AmplitudeNonNegative` proves it never negative |
| `Vector.Vec2.BreakSelf` | math/src/vector.rs:20-22 | the pair of components; `BreakSelfFromPair` proves it inverse to `FromPair` |
| `Vector.Vec2.Module` | math/src/vector.rs:30-32 | the root of the squared length; `NormalizeOnX` and `PushToRadius` use its meaning under `IsSqrt` |
| `Vector.FromPair` | math/src/vector.rs:35-39 | `From<(T, T)>`; the inverse of `BreakSelf` by `BreakSelfFromPair` |
| `Transforms.Transform.SetPosition` | engine/src/transform.rs:17-19 | the written position is read back; rotation and scale are kept |
| `Transforms.Transform.Position` | engine/src/transform.rs:12-15 | the position field; `ReadAfterWrite` proves it returns the last write through `SetPosition` |
| `Transforms.Transform.Translate` | engine/src/transform.rs:21-23 | position moves by the argument componentwise; rotation and scale are kept |
| `Transforms.DefaultIsZero` | engine/src/transform.rs:4-9 | the default transform has position (0, 0), rotation 0 and scale (0, 0), not (1, 1) |
| `Transforms.TranslateCompose` | engine/src/transform.rs:21-23 | two translations equal one translation by their sum |
| `Transforms.ReadAfterWrite` | engine/src/transform.rs:13-19 | a read returns the last write, a later write overrides an earlier one, and writing back what was read changes nothing |
| `Transforms.TranslateInverse` | engine/src/transform.rs:21-23 | translating by `d` and then by `-d` restores the transform |
| `Collider.MinAbs` | engine/src/collider.rs:20-30 | returns the argument of smaller magnitude; a tie goes to the second |
| `Collider.CircleCircle` | engine/src/collider.rs:99-109 | the Circle/Circle arm; `ColliderProperties.CircleCircleIff`, `CircleCircleVector`, `CircleCircleSeparates` and `CircleCircleSwap` characterise it |
| `Collider.RectRect` | engine/src/collider.rs:110-172 | the Rect/Rect arm; `ColliderProperties.RectRectIff`, `FirstHitSpec` and `RectRectPush` characterise it |
| `Collider.RectCircle` | engine/src/collider.rs:173-201 | the Rect/Circle arm; `ColliderProperties.CircleHitIff`, `CircleHitSpec` and `RectCircleOntoCircle` characterise it |
| `Collider.CircleRect` | engine/src/collider.rs:202-204 | the Circle/Rect arm; `ColliderProperties.CircleRectUnswapped` proves it is the negated Rect/Circle arm with the positions unswapped |
| `Collider.ColliderType.CollideWith` | engine/src/collider.rs:92-207 | any pairing with `None` yields no vector |
| `Collider.ColliderBuilder.SetType` | engine/src/collider.rs:218-221 | a builder with a shape set builds a collider of that shape |
| `Collider.ColliderBuilder.Build` | engine/src/collider.rs:223-230 | the set shape is used, and an unset shape builds as `None` |
| `Collider.NewBuilderBuildsNoShape` | engine/src/collider.rs:214-230 | a fresh builder builds a collider of shape `None` |
| `Collider.Collisions.HasHitBottom` | engine/src/collider.rs:258-260 | the hit-bottom flag of a list; `Systems.DetectRecordsExactly` proves that after a layer run it holds exactly when some recorded vector has `y > 0` |
| `ColliderProperties.CircleCircleIff` | engine/src/collider.rs:99-108 | two circles yield a vector iff `(r1 + r2)^2` exceeds the squared centre distance, so touching circles do not collide |
| `ColliderProperties.CircleCircleVector` | engine/src/collider.rs:100-105 | the vector points from p2 towards p1 and its length is `|r1 + r2|` minus the centre distance |
| `ColliderProperties.CircleCircleSeparates` | engine/src/collider.rs:100-105 | adding the vector to p1 leaves the centres exactly `r1 + r2` apart |
| `ColliderProperties.CircleCircleSwap` | engine/src/collider.rs:99-108 | swapping both shapes and positions negates the vector |
| `ColliderProperties.CircleCircleHorizontalApart` | engine/src/collider.rs:99-108 | two circles on one horizontal line, at least `r1 + r2` apart, yield no vector |
| `ColliderProperties.FirstHitSpec` | engine/src/collider.rs:126-171 | the corner search returns the push of the first corner that yields one, in corner order |
| `ColliderProperties.RectRectIff` | engine/src/collider.rs:110-172 | two rectangles yield a vector iff some corner of one lies strictly inside the other |
| `ColliderProperties.PenetrationNonZero` | engine/src/collider.rs:126-140 | a corner strictly inside a box has non-zero distances to that box's nearer edges |
| `ColliderProperties.CornerHitAxis` | engine/src/collider.rs:135-140 | a corner push lies along exactly one axis: x when the x distance is strictly smaller, y otherwise |
| `ColliderProperties.CornerHitNearest` | engine/src/collider.rs:135-140 | the push moves the corner exactly onto the nearer edge |
| `ColliderProperties.RectRectPush` | engine/src/collider.rs:110-172 | the Rect/Rect vector comes from a corner of box 1 inside box 2, or is the negated push of a corner of box 2 inside box 1, and lies along exactly one axis |
| `ColliderProperties.AlignedEqualHeightNoHit` | engine/src/collider.rs:110-172 | equal-height boxes aligned vertically and overlapping along x are reported as not colliding |
| `ColliderProperties.OverlappingSquaresMissed` | engine/src/collider.rs:110-172 | two 2 x 2 squares at (0, 0) and (1.5, 0) are reported as not colliding |
| `ColliderProperties.RectRectTieGoesToY` | engine/src/collider.rs:135-140 | equal x and y distances push along y |
| `ColliderProperties.FirstWithin` | engine/src/collider.rs:182-200 | the Rect/Circle search picks the first corner strictly inside the circle |
| `ColliderProperties.CircleSearchDefinedIff` | engine/src/collider.rs:182-200 | the search is free of a zero normalization iff the first corner strictly inside the circle, if any, is not its centre |
| `ColliderProperties.CircleHitSpec` | engine/src/collider.rs:182-200 | the vector of the first inside corner is `normalize(corner - p2)` scaled by `r` minus the corner's distance to p2 |
| `ColliderProperties.CircleHitIff` | engine/src/collider.rs:173-201 | Rect/Circle yields a vector iff some box corner lies strictly inside the circle |
| `ColliderProperties.RectCircleOntoCircle` | engine/src/collider.rs:182-200 | the vector moves the hitting corner exactly onto the circle |
| `ColliderProperties.CircleRectUnswapped` | engine/src/collider.rs:202-204 | Circle/Rect negates Rect/Circle without swapping the positions. For a radius-2 circle at `c` overlapping a 2 x 2 box at `c + (1.6, 1.8)`, it pushes the circle by (0.6, 0.8), towards the box, while Rect/Circle in shape order pushes the box by the same (0.6, 0.8) |
| `ColliderProperties.CircleRectAsWritten` | engine/src/collider.rs:202-204 | in that example, the search Circle/Rect runs places the box at the circle's centre and finds its (max, max) corner at offset (-0.6, -0.8) from the circle |
| `ColliderProperties.RectCircleInShapeOrder` | engine/src/collider.rs:173-201 | in that example, Rect/Circle with the box at `c + (1.6, 1.8)` and the circle at `c` finds the box's (min, min) corner and pushes the box by (0.6, 0.8) |
| `ColliderProperties.NoShapeNeverCollides` | engine/src/collider.rs:205 | `None` against any shape, in either order, yields no vector |
| `Physics.RigidBodyBuilder.SetMass` | engine/src/physics.rs:20-23 | a builder with a mass set builds a body with that mass and zero vectors |
| `Physics.RigidBodyBuilder.Build` | engine/src/physics.rs:25-42 | the mass is the one set, or 0 when unset; force, acceleration and velocity are (0, 0) |
| `Physics.UnsetMassBuildsZero` | engine/src/physics.rs:16-42 | a fresh builder builds the default body |
| `Physics.Pull` | engine/src/physics.rs:61 | `force / mass + GRAVITY`; `Accumulates` proves it is added on every tick |
| `Physics.Step` | engine/src/physics.rs:59-63 | one tick on one body; `StepsComponents` gives its effect on acceleration, velocity and position |
| `Physics.Steps` | engine/src/physics.rs:59-64 | integration keeps mass and force over any number of ticks |
| `Physics.ComponentClosedForm` | engine/src/physics.rs:61-62 | after `n` ticks with a constant pull `c`, acceleration is `a0 + n c` and velocity is `v0 + n a0 + (1 + ... + n) c` |
| `Physics.StepsComponents` | engine/src/physics.rs:61-63 | each tick adds `force / mass + GRAVITY` to acceleration, then the new acceleration to velocity, then the new velocity to position (`PosAfter`); rotation and scale are kept |
| `Physics.StepsShift` | engine/src/physics.rs:61-62 | `n - 1` ticks after the first tick are `n` ticks |
| `Physics.Accumulates` | engine/src/physics.rs:61 | acceleration accumulates: after `n` ticks it is the initial one plus `n` times the pull |
| `Physics.NoHorizontalForceKeepsX` | engine/src/physics.rs:7-9 | with no horizontal force, horizontal acceleration never changes, and neither does horizontal velocity when that acceleration is 0 |
| `Systems.Integrate` | engine/src/physics.rs:59-65 | the physics system keeps the number of entities |
| `Systems.IntegrateEffect` | engine/src/physics.rs:59-65 | only entities holding Transform, RigidBody and Collider move, by one semi-implicit Euler step; their mass and force and every other component are kept |
| `Systems.IntegrateSlot` | engine/src/physics.rs:59-64 | one entity's step in the physics join; `IntegrateEffect` proves only the Transform+RigidBody+Collider join moves, by `Physics.Step` |
| `Systems.IntegrateKeepsMasses` | engine/src/physics.rs:59-65 | integration keeps the join and the masses, so the next tick is defined again |
| `Systems.Detect` | engine/src/collider.rs:58-77 | a layer system keeps the number of entities |
| `Systems.SomeUpSnoc` | engine/src/collider.rs:70-73 | the hit-bottom flag after a push is the old flag or the pushed vector's `y > 0` |
| `Systems.HitsRecord` | engine/src/collider.rs:63-74 | a recorded hit is with a partner other than the entity itself, and carries that partner's vector |
| `Systems.HitsOrdered` | engine/src/collider.rs:63-74 | hits are recorded in partner slot order, so no partner twice |
| `Systems.HitsComplete` | engine/src/collider.rs:63-74 | every partner that yields a vector is recorded |
| `Systems.Hits` | engine/src/collider.rs:63-74 | the inner join of a layer system for one entity; `HitsRecord`, `HitsOrdered` and `HitsComplete` characterise it, and `Worlds.World.CollectHits` is proved equal to it |
| `Systems.DetectRecordsExactly` | engine/src/collider.rs:58-77 | after a layer system, a flagged entity's list holds exactly its hits on other flagged, non-anti-flagged colliders, and the hit-bottom flag is true iff some recorded vector has `y > 0` |
| `Systems.DetectFrame` | engine/src/collider.rs:58-77 | a layer system changes only the lists of its detecting entities, and only reads transforms |
| `Systems.HitsIgnoreLists` | engine/src/collider.rs:63-74 | the hits found do not depend on any entity's previous list |
| `Systems.DetectedIgnoresLists` | engine/src/collider.rs:61-62 | the list is rebuilt from empty, so previous lists play no part |
| `Systems.DetectSameButLists` | engine/src/collider.rs:58-77 | a layer system leaves the next one the same store but for lists, on which that one is still defined |
| `Systems.DetectIdempotent` | engine/src/collider.rs:58-77 | running a layer system twice is running it once |
| `Systems.PushEffect` | engine/src/collider.rs:291-302 | one vector moves the position by itself and zeroes acceleration and velocity on each axis where it is non-zero |
| `Systems.Push` | engine/src/collider.rs:291-302 | the repulsion of one vector; `PushEffect` gives its effect on position, acceleration and velocity |
| `Systems.PushAll` | engine/src/collider.rs:290-303 | the vectors of one list applied in order; `PushAllMoves`, `PushAllStopsX` and `PushAllStopsY` characterise it |
| `Systems.SomeXSnoc` | engine/src/collider.rs:293 | a list has a vector with non-zero x iff its prefix does or its last vector does |
| `Systems.SomeYSnoc` | engine/src/collider.rs:298 | the same for y |
| `Systems.PushAllMoves` | engine/src/collider.rs:286-306 | applying a list moves the position by the sum of its vectors and keeps mass, force, rotation and scale |
| `Systems.PushAllStopsX` | engine/src/collider.rs:293-297 | x acceleration and velocity become 0 iff some vector has non-zero x, and are otherwise kept |
| `Systems.PushAllStopsY` | engine/src/collider.rs:298-302 | the same for y |
| `Systems.Repel` | engine/src/collider.rs:286-306 | repulsion keeps the number of entities |
| `Systems.RepelFrame` | engine/src/collider.rs:286-306 | repulsion changes only transforms and bodies, and an empty list changes nothing |
| `Systems.RepelSlot` | engine/src/collider.rs:286-306 | one entity's repulsion; `RepelFrame` proves only its transform and body change, by `PushAll` of its list |
| `Systems.RunSys` | engine/src/lib.rs:77-81 | one tick keeps the number of entities |
| `Systems.Layer2Wins` | engine/src/lib.rs:79-80 | an entity in both layers ends the tick with only its layer-2 list, detected on the integrated positions |
| `Systems.Layer1Kept` | engine/src/lib.rs:79-80 | an entity in layer 1 only keeps its layer-1 list through the tick |
| `Worlds.World.Make` | engine/src/lib.rs:45-48 | a world holds the given resources and no entity |
| `Worlds.World.RunPhysics` | engine/src/physics.rs:59-65 | the loop leaves the store `Integrate` describes, and the resources and sprites are untouched |
| `Worlds.World.RunLayer` | engine/src/collider.rs:54-78 | the nested loop leaves the store `Detect` describes, and the resources and sprites are untouched |
| `Worlds.World.CollectHits` | engine/src/collider.rs:61-75 | the inner join for one detecting entity yields the list `Hits` describes, every other colliding partner in storage order, and `bottom` holds exactly when one recorded vector points up |
| `Worlds.World.RunRepulsion` | engine/src/collider.rs:286-306 | the nested loop leaves the store `Repel` describes, and the resources and sprites are untouched |
| `Worlds.World.RunSpriteUpdater` | engine/src/render/sprite.rs:160-170 | every sprite's current animation takes exactly one update, and the sprites stay valid and share no animation |
| `Worlds.World.AdvanceOne` | engine/src/render/sprite.rs:166-168 | one sprite's update touches no other sprite's animations |
| `Games.Game.New` | engine/src/lib.rs:45-75 | a new game has no entity, every key released and a default camera |
| `Games.Game.RunSys` | engine/src/lib.rs:77-83 | one tick leaves the store `Systems.RunSys` describes (physics, layer 1, layer 2, repulsion, in that order), advances every sprite's current animation exactly once, and keeps the resources |
| `Images.ColorConstants` | src/sprite.rs:26-38 | red is (255, 0, 0, 255), green (0, 255, 0, 255) and blue (0, 0, 255, 255) |
| `Images.FromRaw` | engine/src/render/image.rs:10-16 | the buffer, width and height read back as given |
| `Images.Image.Data` | engine/src/render/image.rs:36-38 | the buffer; `FromRaw` and `Rec` state what it holds |
| `Images.Image.Width` | engine/src/render/image.rs:40-42 | the width; `FromRaw` and `Rec` state what it is |
| `Images.Image.Height` | engine/src/render/image.rs:44-46 | the height; `FromRaw` and `Rec` state what it is |
| `Images.Rec` | engine/src/render/image.rs:17-34 | a `w` x `h` fill has `w * h * 4` bytes, and byte `i` is channel `i % 4` of the colour in R, G, B, A order |
| `Images.RecPixels` | src/sprite.rs:47-64 | every pixel of a fill has the fill colour, its alpha included |
| `Animations.Tick` | engine/src/render/animation.rs:19-25 | after an update the timer is below a non-zero length, a frame index in range stays in range, and the timer is either incremented or reset |
| `Animations.TicksFromReset` | engine/src/render/animation.rs:19-25 | from a reset state, after `k` updates the timer is `k mod L` and the frame is `(k div L) mod frames` |
| `Animations.TickOfClosedForm` | engine/src/render/animation.rs:19-25 | one update moves that closed form from `k` to `k + 1` |
| `Animations.FrameChangesEveryLength` | engine/src/render/animation.rs:19-25 | from a reset state, the frame changes on update `k + 1` exactly when `k + 1` is a multiple of `L` |
| `Animations.ReturnsToStart` | engine/src/render/animation.rs:19-25 | after `L * frames` updates from a reset state, the animation is back at frame 0 with a zero timer |
| `Animations.LengthZeroIsOne` | engine/src/render/animation.rs:21 | a length of 0 behaves like a length of 1: every update advances the frame |
| `Animations.Animation.From` | engine/src/render/animation.rs:32-41 | a new animation shows frame 0, with length 1 and timer 0 |
| `Animations.Animation.ChangeLength` | engine/src/render/animation.rs:11-13 | only the length changes; the timer is not reset |
| `Animations.Animation.Get` | engine/src/render/animation.rs:15-17 | the image at the current index, one of the animation's frames; the panic exactly when the index is past the end, which for a valid animation means it has no frame |
| `Animations.Animation.Update` | engine/src/render/animation.rs:19-25 | the counters move by `Tick`, and the frames and length are kept |
| `Animations.Animation.Reset` | engine/src/render/animation.rs:27-30 | frame and timer become 0, and nothing else changes |
| `Sprites.SpriteBuilder.AddAnimDesc` | engine/src/render/sprite.rs:21-24 | sets the description and keeps the other parts |
| `Sprites.SpriteBuilder.AddImageFromRaw` | engine/src/render/sprite.rs:25-28 | sets the sheet to the buffer with its dimensions and keeps the other parts |
| `Sprites.SpriteBuilder.AddImage` | engine/src/render/sprite.rs:29-32 | sets the sheet and keeps the other parts |
| `Sprites.SpriteBuilder.RegisterSpriteSize` | engine/src/render/sprite.rs:33-36 | sets the frame size and keeps the other parts |
| `Sprites.SpriteBuilder.ApplyTransparencyOn` | engine/src/render/sprite.rs:37-49 | the step-by-4 loop over the buffer leaves the builder `Transparent` describes, or fails when a trailing partial pixel makes the reads overrun |
| `Sprites.Transparent` | engine/src/render/sprite.rs:37-49 | the builder after `apply_transparancy_on`, or the overrun; `FailsAtTail`, `MaskedBytes`, `TransparentIdempotent`, `TransparentWithoutImage` and `TransparentWholePixels` characterise it |
| `Sprites.Masked` | engine/src/render/sprite.rs:42-46 | masking keeps the buffer length |
| `Sprites.FailsAtTail` | engine/src/render/sprite.rs:42-43 | the test at a pixel boundary overruns exactly at a trailing partial pixel whose available bytes match the colour |
| `Sprites.MaskStep` | engine/src/render/sprite.rs:43-45 | one loop step clears the alpha byte of a matching pixel and changes nothing else |
| `Sprites.MaskedBytes` | engine/src/render/sprite.rs:37-47 | only alpha bytes of whole pixels change, and such a byte becomes 0 exactly when its pixel's R, G, B match (or it was already 0) |
| `Sprites.MaskIgnoresAlpha` | engine/src/render/sprite.rs:41 | the colour's own alpha plays no part |
| `Sprites.MaskIdempotent` | engine/src/render/sprite.rs:42-46 | masking twice equals masking once |
| `Sprites.TransparentIdempotent` | engine/src/render/sprite.rs:37-49 | `apply_transparancy_on` is idempotent |
| `Sprites.TransparentWithoutImage` | engine/src/render/sprite.rs:40 | without a sheet the builder is unchanged |
| `Sprites.TransparentWholePixels` | engine/src/render/sprite.rs:37-49 | a buffer of whole pixels never fails, and only the buffer changes |
| `Sprites.LocalIndex` | engine/src/render/sprite.rs:79-81 | the local pixel index lies within the frame |
| `Sprites.SplitPixels` | engine/src/render/sprite.rs:61-87 | the cut so far has `(height / h) * (width / w)` buffers of `w * h * 4` bytes |
| `Sprites.CopyPixel` | engine/src/render/sprite.rs:64-86 | copying a pixel keeps the number and size of the frame buffers |
| `Sprites.Split` | engine/src/render/sprite.rs:58-92 | a successful cut has a non-zero frame size and `(width / w) * (height / h)` frames of size `w` x `h` |
| `Sprites.SubLocalInverse` | engine/src/render/sprite.rs:69-81 | when the frame size divides the sheet size, every sheet pixel lands in an existing frame and can be recovered from its frame and local index |
| `Sprites.GlobalInverse` | engine/src/render/sprite.rs:69-81 | conversely, every pixel of every frame comes from exactly one sheet pixel |
| `Sprites.SplitSheet` | engine/src/render/sprite.rs:58-92 | the loop succeeds exactly when `Split` does, with the same frames |
| `Sprites.CopyOnePixel` | engine/src/render/sprite.rs:63-85 | one pass of the loop copies the four bytes of pixel `p` into its slot of its frame, or fails when the bytes or the frame are out of bounds, exactly as `CopyPixel` says |
| `Sprites.SplitStep` | engine/src/render/sprite.rs:63-87 | one loop pass computes the frame `gx / w + (gy / h) * nb_col` and local pixel `gx % w + (gy % h) * w` of pixel `k`, and either fails the cut or copies that pixel |
| `Sprites.SplitPixelsSuccess` | engine/src/render/sprite.rs:63-87 | copying the first `k` pixels succeeds iff each of them can be copied |
| `Sprites.SplitSucceedsIff` | engine/src/render/sprite.rs:58-92 | the cut succeeds iff the frame size is non-zero and, for a non-empty sheet, the buffer holds every pixel and the frame size covers every pixel |
| `Sprites.SplitPixelsContents` | engine/src/render/sprite.rs:83-86 | each byte of each frame is the matching channel of the sheet pixel that maps to it |
| `Sprites.SplitRearranges` | engine/src/render/sprite.rs:58-92 | with a dividing frame size and a long enough buffer, the cut is an exact rearrangement of the sheet's pixels |
| `Sprites.SplitIntoPixels` | engine/src/render/sprite.rs:58-92 | a one-row sheet cut into 1 x 1 frames gives one frame per pixel, holding that pixel's four bytes |
| `Sprites.SpriteSplittingExample` | engine/src/render/sprite.rs:172-184 | any 4 x 1 sheet of sixteen bytes, such as the test's `0..15`, cut into 1 x 1 frames gives exactly four frames, bytes 0-3, 4-7, 8-11 and 12-15 of the buffer, in that order |
| `Sprites.Frames` | engine/src/render/sprite.rs:107-111 | an entry's frame list has one frame per listed index |
| `Sprites.SheetFallbacks` | engine/src/render/sprite.rs:57-95 | with no sheet, `build` uses one 10 x 10 red frame; with a sheet but no frame size, the sheet itself |
| `Sprites.Sheet` | engine/src/render/sprite.rs:57-95 | the frames `build` cuts or falls back to; `SheetFallbacks` and `BuildFromSheet` characterise it |
| `Sprites.Built` | engine/src/render/sprite.rs:50-125 | what `build` produces, or its panic; `BuildWithoutDescription`, `BuildWithDescription`, `BuildFromSheet` and `SpriteBuilder.Build` characterise it |
| `Sprites.BuildWithoutDescription` | engine/src/render/sprite.rs:99-119 | without a description there is one animation `""` over every frame, with length 1, and it is current |
| `Sprites.BuildWithDescription` | engine/src/render/sprite.rs:97-119 | with a description, `build` fails iff it is empty or lists a frame index past the frames; otherwise the first entry's name is current |
| `Sprites.BuildFromSheet` | engine/src/render/sprite.rs:57-95 | a build from a sheet with a frame size fails when the cut fails, and otherwise uses the cut frames |
| `Sprites.TableSuccess` | engine/src/render/sprite.rs:105-116 | the table fails iff some entry lists an index past the frames |
| `Sprites.TableKeys` | engine/src/render/sprite.rs:105-116 | the table has one animation per distinct name in the description |
| `Sprites.TableLastWins` | engine/src/render/sprite.rs:105-116 | the animation under a name is the last entry with that name: its listed frames in order, with its length |
| `Sprites.TableFailure` | engine/src/render/sprite.rs:109-111 | an out-of-range frame index makes the table fail |
| `Sprites.Table` | engine/src/render/sprite.rs:105-116 | the animation table the description loop inserts; `TableSuccess`, `TableKeys`, `TableLastWins` and `TableFailure` characterise it |
| `Sprites.SpriteBuilder.Build` | engine/src/render/sprite.rs:50-125 | `build` succeeds exactly when `Built` does, and then yields a valid sprite of fresh animations holding that table |
| `Sprites.BuildTable` | engine/src/render/sprite.rs:104-116 | the loop over the description fails exactly when `Table` does, and otherwise yields fresh animations holding the table `Table` describes |
| `Sprites.NewAnimation` | engine/src/render/sprite.rs:113-114 | `Animation::from(imgs)` then `change_length(length)`: a fresh valid animation over those frames with that length, at frame 0 with timer 0 |
| `Sprites.CollectFrames` | engine/src/render/sprite.rs:107-111 | the frames an entry lists, in its order, or the panic exactly when one index is beyond the cut frames |
| `Sprites.Sprite.From` | engine/src/render/sprite.rs:146-155 | one animation `""` over all the images, current and at its first frame |
| `Sprites.Sprite.CurrentImage` | engine/src/render/sprite.rs:134-136 | `None` iff no animation has the current name; the panic of `get` exactly when that animation has no frame; otherwise that animation's frame at its current index |
| `Sprites.Sprite.SetAnimation` | engine/src/render/sprite.rs:137-139 | only the current name changes |
| `Sprites.Sprite.Update` | engine/src/render/sprite.rs:140-144 | the animation with the current name takes one update; an unknown name changes nothing |
| `WebSprites.Sprite.CurrentImage` | src/sprite.rs:9-11 | the image at the index, failing iff the index is past the end |
| `WebSprites.From` | src/sprite.rs:14-18 | the images, shown from index 0 |
| `WebSprites.FromShowsFirst` | src/sprite.rs:9-18 | a sprite made from a non-empty list shows its first image, and one made from an empty list fails |
| `Events.SetThenGet` | engine/src/event/mod.rs:13-24 | a read after a write of a key returns the value written, and every other key is unchanged |
| `Events.SetUnknown` | engine/src/event/mod.rs:16 | a name that is not a key's changes nothing |
| `Events.SetIdempotent` | engine/src/event/mod.rs:13-18 | repeating an update changes nothing more, and of two updates of one key the last wins |
| `Events.Keys.Set` | engine/src/event/mod.rs:13-18 | the flags after `update_from_str`; `SetThenGet`, `SetUnknown` and `SetIdempotent` characterise it |
| `Events.KeyPress.Default` | engine/src/event/mod.rs:5-10 | every key starts released |
| `Events.KeyPress.UpdateFromStr` | engine/src/event/mod.rs:13-18 | the new state is the old one with the named key set |
| `Events.KeyPress.KeyA` | engine/src/event/mod.rs:20-24 | returns the `KeyA` flag of the state |
| `Events.KeyPress.KeyD` | engine/src/event/mod.rs:20-24 | returns the `KeyD` flag of the state |
| `Events.KeyPress.Space` | engine/src/event/mod.rs:20-24 | returns the `Space` flag of the state |
| `Events.KeyPress.ShiftLeft` | engine/src/event/mod.rs:20-24 | returns the `ShiftLeft` flag of the state |
| `Vars.Obj` | script_lang/src/var.rs:20-32 | on an object the key is inserted or overwritten and the other keys are kept; on any other value a one-entry object results |
| `Vars.ObjectLiteral` | script_lang/src/var.rs:20-32 | two chained `obj__` calls build the two-entry object, the second winning on equal keys |
| `Vars.GetNested` | script_lang/src/var.rs:33-43 | fails iff the value is not an object; otherwise the key is present afterwards, as `Null` when it was absent, and the other entries are kept |
| `Vars.UpdateNested` | script_lang/src/var.rs:44-46 | the referenced value becomes a copy of `val`; `AssignThenRead` and `AssignKeepsSiblings` give its effect through a path |
| `Vars.AssignPathSucceedsIff` | script_lang/src/var.rs:33-46 | an assignment along a path succeeds iff every value on the way is an object |
| `Vars.AssignThenRead` | script_lang/src/var.rs:33-46 | after an assignment, reading the same path gives the value assigned |
| `Vars.AssignKeepsSiblings` | script_lang/src/var.rs:33-46 | an assignment through a key keeps every other key of the object |
| `Vars.AssignPath` | script_lang/src/var.rs:33-46 | a chain of `get_nested__` then `update_nested__`; `AssignPathSucceedsIff`, `AssignThenRead` and `AssignKeepsSiblings` characterise it |
| `Vars.FromNumber` | script_lang/src/var.rs:48-57 | an `f64` or `f32` becomes a number holding that value |
| `Vars.FromInteger` | script_lang/src/var.rs:58-67 | an integer an `f64` holds exactly becomes that number |
| `Vars.FromStr` | script_lang/src/var.rs:68-72 | the conversion in; `CastAfterFrom` proves `cast` gives the string back |
| `Vars.FromBool` | script_lang/src/var.rs:73-77 | the conversion in; `CastAfterFrom` proves `cast` gives the boolean back |
| `Vars.FromArray` | script_lang/src/var.rs:78-83 | the conversion in; `CastAfterFrom` proves the array holds the list's elements |
| `Vars.FromVar` | script_lang/src/var.rs:84-88 | the clone; `CastAfterFrom` proves it is the value itself |
| `Vars.CastNumber` | script_lang/src/var.rs:114-121 | succeeds iff the value is a number, with that number |
| `Vars.CastBool` | script_lang/src/var.rs:146-153 | succeeds iff the value is a boolean, with that boolean |
| `Vars.CastString` | script_lang/src/var.rs:154-161 | succeeds iff the value is a string, with that string |
| `Vars.CastVar` | script_lang/src/var.rs:162-166 | the clone, which never fails; `CastAfterFrom` proves it gives back the value |
| `Vars.CastAfterFrom` | script_lang/src/var.rs:48-166 | casting back what was converted in gives the original value, and a converted list is an array of exactly its elements |
| `Vars.CastsExclusive` | script_lang/src/var.rs:114-161 | no value casts to two different scalar types, and null, objects and arrays cast to none |
| `Vars.Eq` | script_lang/src/var.rs:167-181 | `PartialEq`; `VariantsNeverEqual`, `EqReflexive`, `EqSymmetric`, `ObjectKeysMatter`, `PrefixEqual` and `EqNotTransitive` characterise it |
| `Vars.VariantsNeverEqual` | script_lang/src/var.rs:167-181 | values of different variants are never equal |
| `Vars.EqReflexive` | script_lang/src/var.rs:167-181 | every NaN-free value equals itself |
| `Vars.EqSymmetric` | script_lang/src/var.rs:167-181 | equality is symmetric |
| `Vars.ObjectKeysMatter` | script_lang/src/var.rs:177 | objects with different key sets are never equal |
| `Vars.EmptyArrayEqualsEvery` | script_lang/src/var.rs:174-176 | the empty array equals every array, in both orders |
| `Vars.PrefixEqual` | script_lang/src/var.rs:174-176 | an array equals each of its prefixes: the extra elements are never compared |
| `Vars.EqNotTransitive` | script_lang/src/var.rs:174-176 | `[null] == []` and `[] == [true]`, but `[null] != [true]` |
| `Vars.PartialCmp` | script_lang/src/var.rs:182-190 | on NaN-free values, there is an ordering iff both values are null or both are numbers |
| `Vars.PartialCmpNumbers` | script_lang/src/var.rs:186 | numbers compare numerically, and swapping the operands reverses the order |
| `Vars.PartialCmpEqualAgrees` | script_lang/src/var.rs:182-190 | `Equal` implies `==`, but two equal booleans have no ordering |
| `VarText.StrLeTotal` | script_lang/src/var.rs:103-108 | the key order is total |
| `VarText.StrLeAntisymmetric` | script_lang/src/var.rs:103-108 | the key order is antisymmetric |
| `VarText.StrLeTransitive` | script_lang/src/var.rs:103-108 | the key order is transitive |
| `VarText.LeastExists` | script_lang/src/var.rs:103-108 | every non-empty key set has a first key |
| `VarText.SortedKeys` | script_lang/src/var.rs:103-108 | an object's keys iterate in strictly ascending order, each key once |
| `VarText.AscendingUnique` | script_lang/src/var.rs:103-108 | that order is determined by the key set alone |
| `VarText.JoinCons` | script_lang/src/var.rs:100 | the fold puts the first part and its comma first |
| `VarText.ArrayTextCons` | script_lang/src/var.rs:96-101 | an array renders `[`, then each element followed by a comma, from the first |
| `VarText.EmptyTexts` | script_lang/src/var.rs:96-108 | the empty array renders `[]` and the empty object `{}` |
| `VarText.ObjectTextInKeyOrder` | script_lang/src/var.rs:103-108 | an object renders its entries by ascending key whatever the insertion order: `{a: true,b: null,}` |
| `VarText.TextNotInjective` | script_lang/src/var.rs:94-101 | strings are quoted without escaping, so two different arrays render alike |
| `VarText.Text` | script_lang/src/var.rs:89-112 | the `Display` text; `EmptyTexts`, `ArrayTextCons`, `ObjectTextInKeyOrder` and `TextNotInjective` characterise it |

## Left out

- Canvas drawing, the browser event loop and console logging are I/O. They are
  in `src/draw.rs`, `src/render.rs`, `src/helper.rs`, `src/lib.rs` and `log/src/lib.rs`.
- The specs library (the world, storage kinds, `join`, `RunNow::setup`) is not part
  of this model. The store is a sequence of slots, and a join visits slots in order.
  Entities are identified by slot index.
- `engine/src/camera.rs` only exposes a `Transform` field. The camera is a
  `Transform` in the world, and its accessors are not modelled.
- The `lang!` macros and the test crate are compile-time rewriting, with no
  runtime behaviour: `script_lang/src/lib.rs`, `engine/src/macros/mod.rs`,
  `testing/src/main.rs`. So is `generate_kp!`: the model holds its expansion
  for `KeyA`, `KeyD`, `Space` and `ShiftLeft`.
- `TransformBuilder`, `AnimationBuilder` and `render::color` are not part of this model.
- `Image::data_mut`, which `apply_transparancy_on` calls, is not defined in
  `engine/src/render/image.rs`; the model takes it as mutable access to the
  image's buffer.
  `Color` is a 4-tuple of bytes, and the red of `build`'s placeholder is
  `Color::red()` of `src/sprite.rs`.
- `src/vector.rs` and `src/transform.rs` are the browser front end's own
  `Vec2<f32>` and `Position` types (declared in `src/lib.rs:4-5`, used by
  `src/render.rs:3`), outside the engine core; only `src/sprite.rs` of that crate
  is modelled. The copies under `src/engine/`, `src/engine_old/` and `src/math/`
  and `src/player.rs` are not declared by `src/lib.rs`, and are superseded by the
  engine crate.
- `f64::sqrt` is the parameter `sqrt`, constrained only by `IsSqrt`. Rounding is
  not modelled: `f64` is `real`.
- Vector.Vec2.Normalize: requires a non-zero vector, where the source returns NaN components.
- Vector.Vec2.Div: requires a non-zero divisor, where the source's `f64` division gives infinite or NaN components.
- Physics.Step: requires a non-zero mass, where the source divides by zero. So do
  `Systems.Integrate` and the tick, through `MassesDefined`.
- Collider.ColliderType.CollideWith: requires `CollideDefined`, which excludes
  exactly the calls that would normalize a zero vector. Those are:
  - coincident centres of overlapping circles;
  - a box corner at the circle's centre, reached by the corner search.
  The contract about its vector is in the `ColliderProperties` lemmas.
- The compound assignments `+=`, `-=`, `*=` and `/=` of `Vec2`, and `position_mut`,
  update in place. They are modelled as functions returning the new value, and
  the systems write that value back into the slot.
- Worlds.World.RunLayer: the source pushes into the entity's list in place. The
  model builds the list in a local and writes it back after the inner loop. No
  other system reads that list in between, so the result is the same.
- Animations.Tick: requires `frames > 0 || timer + 1 < length`, so that the
  update never wraps an animation with no frame. `update` would then take a
  modulo by zero, which panics in the source; that panic is not modelled.
- Animations.Animation.Update: requires `CanUpdate`, the same exclusion of the
  modulo by zero.
- Sprites.Sprite.Update: requires `CanUpdate` of the current animation, the
  same exclusion of the modulo by zero.
- Worlds.World.RunSpriteUpdater: requires that no two sprites share an animation
  object, which Rust's ownership guarantees. It also requires each current
  animation to have a frame to wrap to, because `update` on an empty frame list
  divides by zero.
- Animations.Tick: the `u32` timer cannot overflow under `Valid`. Lengths and
  timers are bounded by `U32Max`, but `usize` overflow of `index + 1` is not
  modelled.
- Images.Image.Width: the `as u32` casts of `width()` and `height()` are lossless
  on the wasm32 target, so they are the identity here.
- Vars.EqReflexive: holds for every value of the model because `f64` is `real`.
  In the source a `Number` holding NaN is not equal to itself, nor is any array
  or object containing one; the lemma does not speak about NaN.
- Vars.PartialCmp: two numbers always have an ordering in the model. In the
  source `partial_cmp` of a NaN number is `None`; that case is not modelled.
- Vars.FromInteger: covers only integers up to 2^53 in magnitude, which an `f64`
  holds exactly. Larger `i64` values round in the source.
- The `Cast<f32>`, `Cast<i64>` and `Cast<i32>` impls are left out. Their
  truncating float casts need IEEE rounding, which `real` does not have.
- VarText.Text: the text of an `f64` is left to the standard library's
  formatting, and is the parameter `numText`.
- Sprites.SplitSheet: compares its verdict and its frames with `Split`, but not
  which panic message a failure carries.
- The `sprite_splitting` test ends in `unimplemented!()`. It stands here as the
  worked example `Sprites.SpriteSplittingExample`, not as a passing test.
- `Sprites.Table` and `Sprites.SpriteBuilder.Build` model the `BTreeMap` of
  animations as a Dafny `map`. Its iteration order plays no part in the source.
