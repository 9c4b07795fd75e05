/** The keyboard state resource: one flag per watched key. */
module Events {

  /** The four flags as a value. */
  datatype Keys = Keys(keyA: bool, keyD: bool, space: bool, shiftLeft: bool)
  {
    /** The flag with the key name `name`, when it is one of the four. */
    function Get(name: string): (r: bool)
      requires IsKeyName(name)
    {
      if name == "KeyA" then keyA
      else if name == "KeyD" then keyD
      else if name == "Space" then space
      else shiftLeft
    }

    /** The flags after `update_from_str(name, b)`: the named flag becomes `b`,
        and an unknown name changes nothing. */
    function Set(name: string, b: bool): (r: Keys)
    {
      if name == "KeyA" then this.(keyA := b)
      else if name == "KeyD" then this.(keyD := b)
      else if name == "Space" then this.(space := b)
      else if name == "ShiftLeft" then this.(shiftLeft := b)
      else this
    }
  }

  /** The names `update_from_str` recognises: the field names. */
  predicate IsKeyName(name: string)
  {
    name == "KeyA" || name == "KeyD" || name == "Space" || name == "ShiftLeft"
  }

  /** A read after a write of the same key returns the value written; every
      other key keeps its value. */
  lemma SetThenGet(k: Keys, name: string, b: bool, other: string)
    requires IsKeyName(name) && IsKeyName(other)
    ensures k.Set(name, b).Get(name) == b
    ensures other != name ==> k.Set(name, b).Get(other) == k.Get(other)
  {
  }

  /** A name that is not a key's changes nothing. */
  lemma SetUnknown(k: Keys, name: string, b: bool)
    requires !IsKeyName(name)
    ensures k.Set(name, b) == k
  {
  }

  /** Repeating an update changes nothing more, and of two updates of one key
      the later wins. */
  lemma SetIdempotent(k: Keys, name: string, b: bool, c: bool)
    ensures k.Set(name, b).Set(name, b) == k.Set(name, b)
    ensures k.Set(name, b).Set(name, c) == k.Set(name, c)
  {
  }

  /** `KeyPress`, as `generate_kp!(KeyA, KeyD, Space, ShiftLeft)` expands it. */
  class KeyPress {
    var keyA: bool
    var keyD: bool
    var space: bool
    var shiftLeft: bool

    /** `KeyPress::default()`: every key released. */
    constructor Default()
      ensures State() == Keys(false, false, false, false)
    {
      keyA, keyD, space, shiftLeft := false, false, false, false;
    }

    function State(): Keys
      reads this
    {
      Keys(keyA, keyD, space, shiftLeft)
    }

    /** `update_from_str(val, new_val)`. */
    method UpdateFromStr(val: string, newVal: bool)
      modifies this
      ensures State() == old(State()).Set(val, newVal)
    {
      match val {
        case "KeyA" => keyA := newVal;
        case "KeyD" => keyD := newVal;
        case "Space" => space := newVal;
        case "ShiftLeft" => shiftLeft := newVal;
        case _ =>
      }
    }

    /** The getters `KeyA()`, `KeyD()`, `Space()`, `ShiftLeft()`. */
    function KeyA(): (r: bool)
      reads this
      ensures r == State().Get("KeyA")
    {
      keyA
    }

    function KeyD(): (r: bool)
      reads this
      ensures r == State().Get("KeyD")
    {
      keyD
    }

    function Space(): (r: bool)
      reads this
      ensures r == State().Get("Space")
    {
      space
    }

    function ShiftLeft(): (r: bool)
      reads this
      ensures r == State().Get("ShiftLeft")
    {
      shiftLeft
    }
  }
}
