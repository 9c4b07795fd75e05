/** The frame/timer state machine of an animation. */
module Animations {
  import opened Wrappers
  import opened Images
  import opened Arith

  /** The largest `u32`. */
  const U32Max: nat := 0xFFFF_FFFF

  /** A `u32` value. */
  type U32 = x: nat | x <= U32Max

  /** The two changing counters of an animation: the frame shown and the ticks
      spent on it. */
  datatype Clock = Clock(index: nat, timer: nat)

  /** The counters after one `update` of an animation with `frames` images, each
      shown for `length` ticks. When the frame advances the index wraps modulo
      `frames`, which the source cannot do for an empty animation. */
  function Tick(c: Clock, length: nat, frames: nat): (r: Clock)
    requires frames > 0 || c.timer + 1 < length
    ensures 1 <= length ==> r.timer < length
    ensures frames > 0 && c.index < frames ==> r.index < frames
    ensures r.timer == 0 || r.timer == c.timer + 1
  {
    if c.timer + 1 >= length then Clock((c.index + 1) % frames, 0) else Clock(c.index, c.timer + 1)
  }

  /** `k` updates in a row. */
  function Ticks(c: Clock, length: nat, frames: nat, k: nat): Clock
    requires frames > 0
  {
    if k == 0 then c else Tick(Ticks(c, length, frames, k - 1), length, frames)
  }

  /** From a reset state, after `k` updates the timer is `k mod length` and the
      frame is `(k div length) mod frames`: the frame changes exactly every
      `length` updates. */
  lemma {:induction false} TicksFromReset(length: nat, frames: nat, k: nat)
    requires 1 <= length && 1 <= frames
    ensures Ticks(Clock(0, 0), length, frames, k) == Clock((k / length) % frames, k % length)
  {
    if k > 0 {
      var c := Ticks(Clock(0, 0), length, frames, k - 1);
      assert Ticks(Clock(0, 0), length, frames, k) == Tick(c, length, frames);
      TicksFromReset(length, frames, k - 1);
      TickOfClosedForm(length, frames, k);
    }
  }

  /** One update moves the closed form at `k - 1` to the closed form at `k`. */
  lemma TickOfClosedForm(length: nat, frames: nat, k: nat)
    requires 1 <= length && 1 <= frames && 1 <= k
    ensures Tick(Clock(((k - 1) / length) % frames, (k - 1) % length), length, frames)
         == Clock((k / length) % frames, k % length)
  {
    var q, m := (k - 1) / length, (k - 1) % length;
    assert k - 1 == q * length + m;
    if m + 1 == length {
      assert k == (q + 1) * length;
      DivModOfMultiple(q + 1, length);
      ModSucc(q, frames);
    } else {
      assert k == q * length + (m + 1);
      DivModOfSum(q, length, m + 1);
    }
  }

  /** The frame changes on update `k + 1` exactly when `k + 1` is a multiple of
      the length (with at least two frames to change between). */
  lemma FrameChangesEveryLength(length: nat, frames: nat, k: nat)
    requires 1 <= length && 2 <= frames
    ensures Ticks(Clock(0, 0), length, frames, k + 1).index != Ticks(Clock(0, 0), length, frames, k).index
      <==> (k + 1) % length == 0
  {
    TicksFromReset(length, frames, k);
    TicksFromReset(length, frames, k + 1);
    FrameStep(length, frames, k);
  }

  /** The closed-form frame moves from `k` to `k + 1` exactly at a multiple of
      the length. */
  lemma FrameStep(length: nat, frames: nat, k: nat)
    requires 1 <= length && 2 <= frames
    ensures ((k + 1) / length) % frames != (k / length) % frames <==> (k + 1) % length == 0
  {
    var q, m := k / length, k % length;
    assert k == q * length + m;
    if m + 1 == length {
      assert k + 1 == (q + 1) * length;
      DivModOfMultiple(q + 1, length);
      ModSucc(q, frames);
      assert (q % frames + 1) % frames != q % frames;
    } else {
      assert k + 1 == q * length + (m + 1);
      DivModOfSum(q, length, m + 1);
    }
  }

  /** After `length * frames` updates from a reset state, the animation is back at
      frame 0 with a zero timer. */
  lemma ReturnsToStart(length: nat, frames: nat)
    requires 1 <= length && 1 <= frames
    ensures Ticks(Clock(0, 0), length, frames, length * frames) == Clock(0, 0)
  {
    TicksFromReset(length, frames, length * frames);
    assert length * frames == frames * length;
    DivModOfMultiple(frames, length);
    DivModOfMultiple(1, frames);
  }

  /** A length of 0 behaves like a length of 1: every update advances the frame. */
  lemma LengthZeroIsOne(c: Clock, frames: nat)
    requires frames > 0
    ensures Tick(c, 0, frames) == Tick(c, 1, frames)
    ensures Tick(c, 0, frames).index == (c.index + 1) % frames && Tick(c, 0, frames).timer == 0
  {
  }

  /** `Animation`: the frames, the frame shown, the ticks per frame and the ticks
      spent on the current frame. */
  class Animation {
    var images: seq<Image>
    var index: nat
    var length: nat
    var currTimer: nat

    /** The `u32` fields fit, the timer is below `u32::MAX` so that its increment
        cannot overflow, and `index` addresses a frame when there is one. */
    ghost predicate Valid()
      reads this
    {
      && length <= U32Max && currTimer < U32Max
      && (|images| > 0 ==> index < |images|)
      && (|images| == 0 ==> index == 0)
    }

    function Counters(): Clock
      reads this
    {
      Clock(index, currTimer)
    }

    /** `Animation::from(images)`: frame 0, one tick per frame, timer 0. */
    constructor From(imgs: seq<Image>)
      ensures Valid()
      ensures images == imgs && index == 0 && length == 1 && currTimer == 0
    {
      images := imgs;
      index := 0;
      length := 1;
      currTimer := 0;
    }

    /** `change_length`: the timer is left as it is. */
    method ChangeLength(l: nat)
      requires Valid() && l <= U32Max
      modifies this
      ensures Valid()
      ensures length == l
      ensures images == old(images) && index == old(index) && currTimer == old(currTimer)
    {
      length := l;
    }

    /** An update does not divide by zero: there is a frame to wrap to, or the
        timer stays below the length. */
    predicate CanUpdate()
      reads this
    {
      |images| > 0 || currTimer + 1 < length
    }

    /** `get`: the image of the current frame; indexing an animation with no
        frame panics. */
    function Get(): (r: Result<Image>)
      reads this
      ensures r.Success? <==> index < |images|
      ensures Valid() ==> (r.Failure? <==> |images| == 0)
      ensures r.Success? ==> r.value in images && r.value == images[index]
    {
      if index < |images| then Success(images[index]) else Failure("index out of bounds")
    }

    /** `update`: the counters move by `Tick`; the modulo by the number of frames
        makes an update that advances an empty animation an error. */
    method Update()
      requires Valid() && CanUpdate()
      modifies this
      ensures Valid()
      ensures images == old(images) && length == old(length)
      ensures Counters() == Tick(old(Counters()), length, |images|)
    {
      assert currTimer + 1 <= U32Max;
      currTimer := currTimer + 1;
      if currTimer >= length {
        index := (index + 1) % |images|;
        currTimer := 0;
      }
    }

    /** `reset`: back to frame 0 with a zero timer. */
    method Reset()
      requires Valid()
      modifies this
      ensures Valid()
      ensures index == 0 && currTimer == 0
      ensures images == old(images) && length == old(length)
    {
      currTimer := 0;
      index := 0;
    }
  }
}
