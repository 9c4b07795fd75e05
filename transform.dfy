/** The `Transform` component: a position, a rotation and a scale. */
module Transforms {
  import opened Vector

  /** A transform held in a component slot. The source's in-place updates
      (`translate`, writes through `position_mut`) are modelled as producing
      the slot's new value. */
  datatype Transform = Transform(position: Vec2, rotation: real, scale: Vec2)
  {
    /** `position()`. */
    function Position(): Vec2 { position }

    /** A write of `p` through `position_mut()`. */
    function SetPosition(p: Vec2): (t: Transform)
      ensures t.Position() == p
      ensures t.rotation == rotation && t.scale == scale
    {
      this.(position := p)
    }

    /** `translate(d)`: `position += d`. */
    function Translate(d: Vec2): (t: Transform)
      ensures t.position.x == position.x + d.x && t.position.y == position.y + d.y
      ensures t.rotation == rotation && t.scale == scale
    {
      SetPosition(position.Add(d))
    }
  }

  /** `Transform::default()`: every field is zero, the scale included. */
  const Default := Transform(Zero, 0.0, Zero)

  lemma DefaultIsZero()
    ensures Default.Position() == Vec2(0.0, 0.0)
    ensures Default.rotation == 0.0
    ensures Default.scale == Vec2(0.0, 0.0) && Default.scale != Vec2(1.0, 1.0)
  {
  }

  /** Two translations are one translation by the sum. */
  lemma TranslateCompose(t: Transform, a: Vec2, b: Vec2)
    ensures t.Translate(a).Translate(b) == t.Translate(a.Add(b))
  {
  }

  /** A position read returns the last position written, and a later write
      replaces an earlier one. */
  lemma ReadAfterWrite(t: Transform, p: Vec2, q: Vec2)
    ensures t.SetPosition(p).Position() == p
    ensures t.SetPosition(p).SetPosition(q) == t.SetPosition(q)
    ensures t.SetPosition(t.Position()) == t
  {
  }

  /** Translating by `d` and then by `-d` restores the transform. */
  lemma TranslateInverse(t: Transform, d: Vec2)
    ensures t.Translate(d).Translate(d.Neg()) == t
  {
  }
}
