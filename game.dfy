/** `Game`: the world and the five systems, run in a fixed order once per frame. */
module Games {
  import opened Vector
  import opened Transforms
  import opened Events
  import opened Systems
  import opened Worlds

  class Game {
    var world: World

    /** `Game::new()`: a world holding a default `KeyPress` (every key released)
        and a default `Camera`, with no entity yet. */
    constructor New()
      ensures fresh(world) && fresh(world.keys)
      ensures world.slots == [] && world.sprites == []
      ensures world.keys.State() == Keys(false, false, false, false)
      ensures world.camera == Transforms.Default
    {
      var kp := new KeyPress.Default();
      world := new World.Make(kp, Transforms.Default);
    }

    /** `run_sys`: physics, layer 1, layer 2, repulsion, then the sprite
        updater. Detection sees the positions this tick's integration produced,
        repulsion applies the lists of both detections, and every sprite's current
        animation takes exactly one update; the resources are left alone. */
    method RunSys(sqrt: real -> real)
      requires RunSysDefined(sqrt, world.slots)
      requires world.SpritesValid() && world.SpritesCanUpdate()
      modifies world, world.Currents()
      ensures world == old(world)
      ensures world.slots == Systems.RunSys(sqrt, old(world.slots))
      ensures world.SpritesValid()
      ensures world.sprites == old(world.sprites)
      ensures forall i | 0 <= i < |world.sprites| :: Advanced(world.sprites[i])
      ensures world.keys == old(world.keys) && world.camera == old(world.camera)
    {
      world.RunPhysics();
      world.RunLayer(sqrt, Layer1);
      DetectSameButLists(sqrt, Integrate(old(world.slots)), Layer1);
      world.RunLayer(sqrt, Layer2);
      world.RunRepulsion();
      world.RunSpriteUpdater();
    }
  }
}
