/** Sprites: a sprite sheet cut into frames, the animations over those frames,
    and the builder that assembles them. */
module Sprites {
  import opened Wrappers
  import opened Arith
  import opened Images
  import opened Animations

  /** One entry of an animation description: its name, the ticks each frame is
      shown, and the indices of its frames among the cut sprites. */
  datatype AnimDesc = AnimDesc(name: string, length: U32, frames: seq<nat>)

  /** `SpriteBuilder`: each part is optional until `build`. */
  datatype SpriteBuilder = SpriteBuilder(
    rawImage: Option<Image>,
    imageSize: Option<(nat, nat)>,
    animIndex: Option<seq<AnimDesc>>)
  {
    /** `add_anim_desc`: replaces the description and keeps the other parts. */
    function AddAnimDesc(desc: seq<AnimDesc>): (b: SpriteBuilder)
      ensures b.animIndex == Some(desc)
      ensures b.rawImage == rawImage && b.imageSize == imageSize
    {
      this.(animIndex := Some(desc))
    }

    /** `add_image_from_raw`: the sheet is the buffer with its dimensions. */
    function AddImageFromRaw(data: seq<byte>, width: nat, height: nat): (b: SpriteBuilder)
      ensures b.rawImage.Some? && b.rawImage.value.Data() == data
      ensures b.rawImage.value.Width() == width && b.rawImage.value.Height() == height
      ensures b.imageSize == imageSize && b.animIndex == animIndex
    {
      this.(rawImage := Some(FromRaw(data, width, height)))
    }

    /** `add_image`. */
    function AddImage(img: Image): (b: SpriteBuilder)
      ensures b.rawImage == Some(img)
      ensures b.imageSize == imageSize && b.animIndex == animIndex
    {
      this.(rawImage := Some(img))
    }

    /** `register_sprite_size`: the size of one frame of the sheet. */
    function RegisterSpriteSize(width: nat, height: nat): (b: SpriteBuilder)
      ensures b.imageSize == Some((width, height))
      ensures b.rawImage == rawImage && b.animIndex == animIndex
    {
      this.(imageSize := Some((width, height)))
    }

    /** `apply_transparancy_on(c)`: a pass over the sheet's buffer in steps of
        four bytes that clears the alpha byte of every pixel whose red, green and
        blue bytes equal `c`'s. The three comparisons short-circuit, so a trailing
        partial pixel is read, and fails, exactly as far as it matches. */
    method ApplyTransparencyOn(c: Color) returns (r: Result<SpriteBuilder>)
      ensures r == Transparent(this, c)
    {
      if rawImage.None? {
        return Success(this);
      }
      var img := rawImage.value;
      var data := img.data;
      var buf := new byte[|data|](j => if 0 <= j < |data| then data[j] else 0);
      var i := 0;
      ghost var pixel := 0;
      while i < buf.Length
        invariant buf.Length == |data|
        invariant i == 4 * pixel
        invariant buf[..] == MaskedUpTo(data, c, i)
        invariant i > TailStart(data) ==> !TailOverruns(data, c)
        decreases buf.Length - i
      {
        FailsAtTail(data, c, i);
        MaskStep(data, c, i);
        if buf[i] == c.r {
          if i + 1 >= buf.Length {
            return Failure("index out of bounds");
          }
          if buf[i + 1] == c.g {
            if i + 2 >= buf.Length {
              return Failure("index out of bounds");
            }
            if buf[i + 2] == c.b {
              if i + 3 >= buf.Length {
                return Failure("index out of bounds");
              }
              buf[i + 3] := 0;
            }
          }
        }
        i := i + 4;
        pixel := pixel + 1;
      }
      MaskedUpToEnd(data, c, i);
      return Success(this.(rawImage := Some(img.(data := buf[..]))));
    }

    /** `build`: cuts the sheet into frames, then creates one animation per
        entry of the description, in order, each over the frames it lists and
        with its length; a later entry with the same name replaces an earlier
        one. The current animation is the first entry's name. Without a
        description there is one animation `""` over all the frames. */
    method Build() returns (r: Result<Sprite>)
      ensures r.Success? <==> Built(this).Success?
      ensures r.Success? ==> fresh(r.value) && r.value.Valid() && r.value.Holds(Built(this).value)
      ensures r.Success? ==> forall n :: n in r.value.animations ==> fresh(r.value.animations[n])
    {
      var sprites: seq<Image>;
      match (rawImage, imageSize) {
        case (Some(img), Some((w, h))) =>
          var cut := SplitSheet(img, w, h);
          if cut.Failure? {
            return Failure(cut.reason);
          }
          sprites := cut.value;
        case (Some(img), None) =>
          sprites := [img];
        case (None, _) =>
          sprites := [Rec(Red, 10, 10)];
      }
      assert Sheet(this) == Success(sprites);
      var current: string;
      var tree: map<string, Animation> := map[];
      if animIndex.Some? {
        if |animIndex.value| == 0 {
          return Failure("index out of bounds");
        }
        current := animIndex.value[0].name;
      } else {
        current := "";
      }
      if animIndex.Some? {
        var table := BuildTable(animIndex.value, sprites);
        if table.Failure? {
          return Failure(table.reason);
        }
        tree := table.value;
      } else {
        var anim := new Animation.From(sprites);
        tree := map["" := anim];
      }
      var sprite := new Sprite.Make(tree, current);
      return Success(sprite);
    }
  }

  /** `SpriteBuilder::new()`. */
  const NewSpriteBuilder := SpriteBuilder(None, None, None)

  /** Bytes `i`, `i + 1` and `i + 2` hold `c`'s red, green and blue. */
  predicate Matches(data: seq<byte>, i: nat, c: Color)
    requires i + 2 < |data|
  {
    data[i] == c.r && data[i + 1] == c.g && data[i + 2] == c.b
  }

  /** The buffer with the alpha byte of every matching whole pixel cleared. */
  function Masked(data: seq<byte>, c: Color): (r: seq<byte>)
    ensures |r| == |data|
  {
    seq(|data|, j requires 0 <= j < |data| => if j % 4 == 3 && Matches(data, j - 3, c) then 0 else data[j])
  }

  /** Where the trailing partial pixel starts (`|data|` when there is none). */
  function TailStart(data: seq<byte>): nat
  {
    |data| - |data| % 4
  }

  /** The pass reads or writes past the end of the buffer: there is a partial
      pixel at the end and each of its bytes equals the matching channel of `c`. */
  predicate TailOverruns(data: seq<byte>, c: Color)
  {
    && |data| % 4 != 0
    && forall k :: TailStart(data) <= k < |data| ==> data[k] == c.Channel(k - TailStart(data))
  }

  /** The buffer while the pass is at byte `i`: masked before `i`, as given from
      `i` on. */
  function MaskedUpTo(data: seq<byte>, c: Color, i: nat): (r: seq<byte>)
    ensures |r| == |data|
  {
    seq(|data|, j requires 0 <= j < |data| => if j < i then Masked(data, c)[j] else data[j])
  }

  /** The short-circuiting test at byte `i` runs past the end of the buffer. */
  predicate FailsAt(data: seq<byte>, c: Color, i: nat)
    requires i < |data|
  {
    data[i] == c.r && (i + 1 >= |data| || (data[i + 1] == c.g && (i + 2 >= |data| || (data[i + 2] == c.b && i + 3 >= |data|))))
  }

  /** The test at a pixel boundary fails exactly at an overrunning tail. */
  lemma FailsAtTail(data: seq<byte>, c: Color, i: nat)
    requires i % 4 == 0 && i < |data|
    ensures FailsAt(data, c, i) <==> i == TailStart(data) && TailOverruns(data, c)
    ensures i <= TailStart(data)
    ensures i < TailStart(data) ==> i + 4 <= TailStart(data)
  {
    TailStartFacts(data, i);
  }

  /** One step of the pass: the pixel at `i` is masked. */
  lemma MaskStep(data: seq<byte>, c: Color, i: nat)
    requires i % 4 == 0 && i < |data|
    ensures i + 3 < |data| && Matches(data, i, c) ==> MaskedUpTo(data, c, i + 4) == MaskedUpTo(data, c, i)[i + 3 := 0]
    ensures !(i + 3 < |data| && Matches(data, i, c)) ==> MaskedUpTo(data, c, i + 4) == MaskedUpTo(data, c, i)
  {
    var m := Masked(data, c);
    forall k | i <= k < i + 4 && k < |data|
      ensures k % 4 == k - i
    {
      DivModOfSum(i / 4, 4, k - i);
    }
  }

  lemma MaskedUpToEnd(data: seq<byte>, c: Color, i: nat)
    requires i >= |data|
    ensures MaskedUpTo(data, c, i) == Masked(data, c)
  {
  }

  /** The builder after `apply_transparancy_on(c)`, or the out-of-bounds error. */
  function Transparent(b: SpriteBuilder, c: Color): Result<SpriteBuilder>
  {
    if b.rawImage.None? then Success(b)
    else if TailOverruns(b.rawImage.value.data, c) then Failure("index out of bounds")
    else Success(b.(rawImage := Some(b.rawImage.value.(data := Masked(b.rawImage.value.data, c)))))
  }

  /** A multiple of four below `|data|` is either the tail's start or at least
      four bytes before it. */
  lemma TailStartFacts(data: seq<byte>, i: nat)
    requires i % 4 == 0 && i < |data|
    ensures TailStart(data) % 4 == 0
    ensures i < TailStart(data) ==> i + 4 <= TailStart(data)
    ensures i >= TailStart(data) ==> i == TailStart(data) && |data| - i == |data| % 4
  {
    var n := |data|;
    var q := n / 4;
    assert n == q * 4 + n % 4;
    assert TailStart(data) == q * 4;
    DivModOfMultiple(q, 4);
    var p := i / 4;
    assert i == p * 4;
    if i >= TailStart(data) {
      assert p >= q;
      assert p <= q;
    }
  }

  /** Only alpha bytes of whole pixels change, and such a byte becomes 0 exactly
      when its pixel's colour bytes match `c`. */
  lemma MaskedBytes(data: seq<byte>, c: Color, j: nat)
    requires j < |data|
    ensures j % 4 != 3 ==> Masked(data, c)[j] == data[j]
    ensures j % 4 == 3 ==> (Masked(data, c)[j] == 0 <==> Matches(data, j - 3, c) || data[j] == 0)
    ensures Masked(data, c)[j] != data[j] ==> j % 4 == 3 && Matches(data, j - 3, c)
  {
  }

  /** The colour's own alpha plays no part. */
  lemma MaskIgnoresAlpha(data: seq<byte>, c: Color, alpha: byte)
    ensures Masked(data, c.(a := alpha)) == Masked(data, c)
    ensures TailOverruns(data, c.(a := alpha)) == TailOverruns(data, c)
  {
  }

  /** Masking a second time changes nothing: it clears only alpha bytes, and
      reads only colour bytes. */
  lemma MaskIdempotent(data: seq<byte>, c: Color)
    ensures Masked(Masked(data, c), c) == Masked(data, c)
    ensures TailOverruns(Masked(data, c), c) == TailOverruns(data, c)
  {
    forall j | 0 <= j < |data|
      ensures Masked(Masked(data, c), c)[j] == Masked(data, c)[j]
    {
      if j % 4 == 3 {
        MaskKeepsColour(data, c, j - 3);
      }
    }
    forall k | TailStart(data) <= k < |data|
      ensures Masked(data, c)[k] == data[k]
    {
      MaskKeepsTail(data, c, k);
    }
  }

  lemma MaskKeepsColour(data: seq<byte>, c: Color, i: nat)
    requires i + 3 < |data| && i % 4 == 0
    ensures Matches(Masked(data, c), i, c) == Matches(data, i, c)
  {
    MaskedBytes(data, c, i);
    MaskedBytes(data, c, i + 1);
    MaskedBytes(data, c, i + 2);
  }

  lemma MaskKeepsTail(data: seq<byte>, c: Color, k: nat)
    requires TailStart(data) <= k < |data|
    ensures Masked(data, c)[k] == data[k]
  {
    var n := |data|;
    assert n == (n / 4) * 4 + n % 4;
    assert TailStart(data) == (n / 4) * 4;
    DivModOfSum(n / 4, 4, k - TailStart(data));
    MaskedBytes(data, c, k);
  }

  /** `apply_transparancy_on` is idempotent. */
  lemma TransparentIdempotent(b: SpriteBuilder, c: Color)
    requires Transparent(b, c).Success?
    ensures Transparent(Transparent(b, c).value, c) == Transparent(b, c)
  {
    if b.rawImage.Some? {
      MaskIdempotent(b.rawImage.value.data, c);
    }
  }

  /** Without an image there is nothing to mask. */
  lemma TransparentWithoutImage(b: SpriteBuilder, c: Color)
    requires b.rawImage.None?
    ensures Transparent(b, c) == Success(b)
  {
  }

  /** A buffer of whole pixels is always masked without error, and only the
      image changes. */
  lemma TransparentWholePixels(b: SpriteBuilder, c: Color)
    requires b.rawImage.Some? && |b.rawImage.value.data| % 4 == 0
    ensures Transparent(b, c).Success?
    ensures Transparent(b, c).value.imageSize == b.imageSize
    ensures Transparent(b, c).value.animIndex == b.animIndex
    ensures Transparent(b, c).value.rawImage.value.width == b.rawImage.value.width
    ensures Transparent(b, c).value.rawImage.value.height == b.rawImage.value.height
  {
  }

  /* Cutting a sheet into frames. Pixel `p` of a sheet `width` pixels wide sits
     at column `p % width` and row `p / width`; with frames of `w` x `h` pixels
     there are `width / w` frames per row. */

  /** The frame that pixel `p` is copied into. */
  function SubIndex(p: nat, width: nat, w: nat, h: nat): nat
    requires width > 0 && w > 0 && h > 0
  {
    var gx, gy, cols := p % width, p / width, width / w;
    DivNonNegative(p, width);
    DivNonNegative(width, w);
    DivNonNegative(gx, w);
    DivNonNegative(gy, h);
    Cell(gx / w, gy / h, cols)
  }

  /** Cell `x` of row `y` in a grid `cols` cells wide, row by row. */
  function Cell(x: nat, y: nat, cols: nat): nat
  {
    MulNonNegative(y, cols);
    x + y * cols
  }

  /** The pixel of that frame it is copied to. */
  function LocalIndex(p: nat, width: nat, w: nat, h: nat): (l: nat)
    requires width > 0 && w > 0 && h > 0
    ensures l < w * h
  {
    IndexBound((p % width) % w, (p / width) % h, w, h);
    (p % width) % w + ((p / width) % h) * w
  }

  /** The sheet pixel that lands at pixel `l` of frame `s`: the inverse of
      `SubIndex` and `LocalIndex` when the frame size divides the sheet size. */
  function GlobalIndex(s: nat, l: nat, width: nat, w: nat, h: nat): nat
    requires w > 0 && width / w > 0
  {
    var nbCol := width / w;
    DivNonNegative(s, nbCol);
    DivNonNegative(l, w);
    MulNonNegative(s / nbCol, h);
    MulNonNegative(s % nbCol, w);
    var row: nat := (s / nbCol) * h + l / w;
    MulNonNegative(row, width);
    ((s % nbCol) * w + l % w) + row * width
  }

  /** The frame buffers after the first `k` pixels of the sheet are copied:
      all-zero buffers at first, then each pixel's four bytes written into its
      frame, or the error the source panics with when a read of the sheet or a
      write of a frame is out of bounds. */
  function SplitPixels(img: Image, w: nat, h: nat, k: nat): (r: Result<seq<seq<byte>>>)
    requires w > 0 && h > 0 && k <= img.width * img.height
    ensures r.Success? ==> |r.value| == (img.height / h) * (img.width / w)
    ensures r.Success? ==> forall s :: 0 <= s < |r.value| ==> |r.value[s]| == w * h * 4
  {
    if k == 0 then Success(seq((img.height / h) * (img.width / w), _ => seq(w * h * 4, _ => 0)))
    else
      match SplitPixels(img, w, h, k - 1)
      case Failure(e) => Failure(e)
      case Success(res) => CopyPixel(res, img, w, h, k - 1)
  }

  /** Copies pixel `p` of the sheet into its frame. */
  function CopyPixel(res: seq<seq<byte>>, img: Image, w: nat, h: nat, p: nat): (r: Result<seq<seq<byte>>>)
    requires w > 0 && h > 0 && p < img.width * img.height
    requires forall s :: 0 <= s < |res| ==> |res[s]| == w * h * 4
    ensures r.Success? ==> |r.value| == |res|
    ensures r.Success? ==> forall s :: 0 <= s < |r.value| ==> |r.value[s]| == w * h * 4
  {
    if 4 * p + 3 >= |img.data| then Failure("index out of bounds")
    else
      var s := SubIndex(p, img.width, w, h);
      var l := LocalIndex(p, img.width, w, h);
      if s >= |res| then Failure("index out of bounds")
      else
        var d := img.data;
        Success(res[s := res[s][4 * l := d[4 * p]][4 * l + 1 := d[4 * p + 1]][4 * l + 2 := d[4 * p + 2]][4 * l + 3 := d[4 * p + 3]]])
  }

  /** The frames `build` cuts from a sheet with a registered frame size. A zero
      frame width or height is the source's division by zero. */
  function Split(img: Image, w: nat, h: nat): (r: Result<seq<Image>>)
    ensures r.Success? ==> w > 0 && h > 0 && |r.value| == (img.width / w) * (img.height / h)
    ensures r.Success? ==> forall s :: 0 <= s < |r.value| ==>
                             r.value[s].width == w && r.value[s].height == h && |r.value[s].data| == w * h * 4
  {
    if w == 0 || h == 0 then Failure("attempt to divide by zero")
    else
      match SplitPixels(img, w, h, img.width * img.height)
      case Failure(e) => Failure(e)
      case Success(res) => Success(seq(|res|, s requires 0 <= s < |res| => FromRaw(res[s], w, h)))
  }

  /** When `w` divides `width` and `h` divides `height`, every sheet pixel is
      copied into an existing frame, and `GlobalIndex` recovers it. */
  lemma SubLocalInverse(p: nat, width: nat, height: nat, w: nat, h: nat)
    requires w > 0 && h > 0 && width % w == 0 && height % h == 0 && p < width * height
    ensures width > 0 && width / w > 0
    ensures SubIndex(p, width, w, h) < (height / h) * (width / w)
    ensures GlobalIndex(SubIndex(p, width, w, h), LocalIndex(p, width, w, h), width, w, h) == p
  {
    DivLess(p, width, height);
    var nbCol, nbRow := width / w, height / h;
    assert width == nbCol * w;
    assert height == nbRow * h;
    var gx, gy := p % width, p / width;
    assert p == gy * width + gx;
    var sx, lx := gx / w, gx % w;
    var sy, ly := gy / h, gy % h;
    assert gx == sx * w + lx;
    assert gy == sy * h + ly;
    DivLess(gx, w, nbCol);
    DivLess(gy, h, nbRow);
    var sub, loc := sx + sy * nbCol, lx + ly * w;
    assert SubIndex(p, width, w, h) == sub;
    assert LocalIndex(p, width, w, h) == loc;
    IndexBound(sx, sy, nbCol, nbRow);
    assert nbCol * nbRow == (height / h) * (width / w);
    DivModOfSum(sy, nbCol, sx);
    DivModOfSum(ly, w, lx);
    assert sub == sy * nbCol + sx;
    assert loc == ly * w + lx;
  }

  /** Conversely, every pixel of every frame comes from exactly one sheet pixel. */
  lemma GlobalInverse(s: nat, l: nat, width: nat, height: nat, w: nat, h: nat)
    requires w > 0 && h > 0 && width % w == 0 && height % h == 0
    requires s < (height / h) * (width / w) && l < w * h
    ensures width > 0 && width / w > 0
    ensures GlobalIndex(s, l, width, w, h) < width * height
    ensures SubIndex(GlobalIndex(s, l, width, w, h), width, w, h) == s
    ensures LocalIndex(GlobalIndex(s, l, width, w, h), width, w, h) == l
  {
    var nbCol, nbRow := width / w, height / h;
    assert s < nbCol * nbRow;
    DivLess(s, nbCol, nbRow);
    DivLess(l, w, h);
    assert width == nbCol * w;
    assert height == nbRow * h;
    var sx, sy := s % nbCol, s / nbCol;
    var lx, ly := l % w, l / w;
    assert s == sy * nbCol + sx;
    assert l == ly * w + lx;
    var gx, gy := sx * w + lx, sy * h + ly;
    IndexBound(lx, sx, w, nbCol);
    IndexBound(ly, sy, h, nbRow);
    assert gx < width && gy < height;
    var g := gx + gy * width;
    assert GlobalIndex(s, l, width, w, h) == g;
    IndexBound(gx, gy, width, height);
    DivModOfSum(gy, width, gx);
    assert g == gy * width + gx;
    DivModOfSum(sx, w, lx);
    DivModOfSum(sy, h, ly);
    assert SubIndex(g, width, w, h) == sx + sy * nbCol;
    assert LocalIndex(g, width, w, h) == lx + ly * w;
  }

  /** The loop of `build` that cuts a sheet with a registered frame size into
      its frames, pixel by pixel in buffer order. */
  method SplitSheet(img: Image, w: nat, h: nat) returns (r: Result<seq<Image>>)
    ensures r.Success? <==> Split(img, w, h).Success?
    ensures r.Success? ==> r == Split(img, w, h)
  {
    if w == 0 || h == 0 {
      return Failure("attempt to divide by zero");
    }
    var nbCol := img.width / w;
    var nbRow := img.height / h;
    var res: seq<seq<byte>> := seq(nbRow * nbCol, _ => seq(w * h * 4, _ => 0));
    var n := img.width * img.height * 4;
    var i := 0;
    ghost var k := 0;
    while i < n
      invariant i == 4 * k && i <= n
      invariant SplitPixels(img, w, h, k) == Success(res)
      decreases n - i
    {
      var pixelIndex := i / 4;
      assert pixelIndex == k;
      SplitStep(img, w, h, pixelIndex, res);
      var next := CopyOnePixel(img, w, h, nbCol, pixelIndex, res);
      if next.Failure? {
        CopyPixelSuccess(res, img, w, h, pixelIndex);
        return Failure("index out of bounds");
      }
      res := next.value;
      i, k := i + 4, k + 1;
    }
    assert k == img.width * img.height;
    return Success(seq(|res|, s requires 0 <= s < |res| => FromRaw(res[s], w, h)));
  }

  /** The body of that loop for pixel `p`: its four bytes are read and written
      into its frame, or an index is out of bounds. */
  method CopyOnePixel(img: Image, w: nat, h: nat, nbCol: nat, p: nat, res: seq<seq<byte>>)
    returns (r: Result<seq<seq<byte>>>)
    requires w > 0 && h > 0 && p < img.width * img.height && nbCol == img.width / w
    requires forall s :: 0 <= s < |res| ==> |res[s]| == w * h * 4
    ensures r == CopyPixel(res, img, w, h, p)
  {
    var i := 4 * p;
    if i + 3 >= |img.data| {
      return Failure("index out of bounds");
    }
    var colorR, colorG, colorB, colorA := img.data[i], img.data[i + 1], img.data[i + 2], img.data[i + 3];
    DivLess(p, img.width, img.height);
    var globalPixelX := p % img.width;
    var globalPixelY := p / img.width;
    var subImageX := globalPixelX / w;
    var subImageY := globalPixelY / h;
    var indexSubImage := subImageX + subImageY * nbCol;
    var localPixelX := globalPixelX % w;
    var localPixelY := globalPixelY % h;
    var localIndexPixel := localPixelX + localPixelY * w;
    assert indexSubImage == SubIndex(p, img.width, w, h);
    assert localIndexPixel == LocalIndex(p, img.width, w, h) < w * h;
    if indexSubImage >= |res| {
      return Failure("index out of bounds");
    }
    var frame := res[indexSubImage];
    frame := frame[localIndexPixel * 4 := colorR][localIndexPixel * 4 + 1 := colorG];
    frame := frame[localIndexPixel * 4 + 2 := colorB][localIndexPixel * 4 + 3 := colorA];
    return Success(res[indexSubImage := frame]);
  }

  /** One pass of the loop: pixel `k` is read, located and copied, or the cut
      fails. */
  lemma SplitStep(img: Image, w: nat, h: nat, k: nat, res: seq<seq<byte>>)
    requires w > 0 && h > 0 && 4 * k < img.width * img.height * 4
    requires SplitPixels(img, w, h, k) == Success(res)
    ensures img.width > 0 && k < img.width * img.height
    ensures SubIndex(k, img.width, w, h) == (k % img.width) / w + ((k / img.width) / h) * (img.width / w)
    ensures LocalIndex(k, img.width, w, h) == (k % img.width) % w + ((k / img.width) % h) * w
    ensures !PixelCopies(img, w, h, k) ==> Split(img, w, h).Failure?
    ensures PixelCopies(img, w, h, k) ==> SplitPixels(img, w, h, k + 1) == CopyPixel(res, img, w, h, k)
    ensures |res| == (img.height / h) * (img.width / w)
  {
    DivLess(k, img.width, img.height);
    SplitPixelsSuccess(img, w, h, img.width * img.height);
  }

  /** Pixel `p` can be copied: its bytes are in the sheet and its frame exists. */
  predicate PixelCopies(img: Image, w: nat, h: nat, p: nat)
    requires w > 0 && h > 0 && p < img.width * img.height
  {
    4 * p + 3 < |img.data| && SubIndex(p, img.width, w, h) < (img.height / h) * (img.width / w)
  }

  /** Copying the first `k` pixels succeeds exactly when each of them can be copied. */
  lemma {:induction false} SplitPixelsSuccess(img: Image, w: nat, h: nat, k: nat)
    requires w > 0 && h > 0 && k <= img.width * img.height
    ensures SplitPixels(img, w, h, k).Success? <==> forall p :: 0 <= p < k ==> PixelCopies(img, w, h, p)
  {
    if k > 0 {
      SplitPixelsSuccess(img, w, h, k - 1);
      var prev := SplitPixels(img, w, h, k - 1);
      if prev.Success? {
        CopyPixelSuccess(prev.value, img, w, h, k - 1);
      }
    }
  }

  lemma CopyPixelSuccess(res: seq<seq<byte>>, img: Image, w: nat, h: nat, p: nat)
    requires w > 0 && h > 0 && p < img.width * img.height
    requires |res| == (img.height / h) * (img.width / w)
    requires forall s :: 0 <= s < |res| ==> |res[s]| == w * h * 4
    ensures CopyPixel(res, img, w, h, p).Success? <==> PixelCopies(img, w, h, p)
  {
  }

  /** Some pixel of a non-empty sheet misses the frames when the frame size does
      not divide the sheet size: the last row, or the last column of the last
      row, overflows the frame list. */
  lemma UncoveredPixel(img: Image, w: nat, h: nat) returns (p: nat)
    requires w > 0 && h > 0 && img.width * img.height > 0
    requires !(img.width % w == 0 && img.height % h == 0)
    ensures p < img.width * img.height && !PixelCopies(img, w, h, p)
  {
    if img.height % h != 0 {
      p := LastRowOverflows(img.width, img.height, w, h);
    } else {
      p := LastColumnOverflows(img.width, img.height, w, h);
    }
  }

  lemma LastRowOverflows(width: nat, height: nat, w: nat, h: nat) returns (p: nat)
    requires w > 0 && h > 0 && width * height > 0 && height % h != 0
    ensures p < width * height && width > 0
    ensures SubIndex(p, width, w, h) >= (height / h) * (width / w)
  {
    DivLess(0, width, height);
    PredDiv(height, h);
    p := (height - 1) * width;
    IndexBound(0, height - 1, width, height);
    SubIndexAt(p, width, w, h, 0, height - 1);
  }

  lemma LastColumnOverflows(width: nat, height: nat, w: nat, h: nat) returns (p: nat)
    requires w > 0 && h > 0 && width * height > 0 && height % h == 0 && width % w != 0
    ensures p < width * height && width > 0
    ensures SubIndex(p, width, w, h) >= (height / h) * (width / w)
  {
    DivLess(0, width, height);
    PredDiv(width, w);
    PredDivExact(height, h);
    var gx, gy := width - 1, height - 1;
    p := gy * width + gx;
    IndexBound(gx, gy, width, height);
    SubIndexAt(p, width, w, h, gx, gy);
    MulPred(height / h, width / w);
  }

  lemma MulPred(a: nat, b: nat)
    requires a >= 1
    ensures b + (a - 1) * b == a * b
  {
  }

  /** The frame of the pixel at column `gx` and row `gy`. */
  lemma SubIndexAt(p: nat, width: nat, w: nat, h: nat, gx: nat, gy: nat)
    requires width > 0 && w > 0 && h > 0 && gx < width && p == gy * width + gx
    ensures SubIndex(p, width, w, h) == gx / w + (gy / h) * (width / w)
    ensures LocalIndex(p, width, w, h) == gx % w + (gy % h) * w
  {
    DivModOfSum(gy, width, gx);
  }

  /** Cutting succeeds exactly when the frame size is non-zero and, for a
      non-empty sheet, divides the sheet size and the buffer holds every pixel. */
  lemma SplitSucceedsIff(img: Image, w: nat, h: nat)
    ensures Split(img, w, h).Success? <==>
              && w > 0 && h > 0
              && (img.width * img.height == 0 ||
                  (&& 4 * (img.width * img.height) <= |img.data|
                   && img.width % w == 0 && img.height % h == 0))
  {
    if w > 0 && h > 0 {
      var n := img.width * img.height;
      SplitPixelsSuccess(img, w, h, n);
      if n > 0 {
        if Split(img, w, h).Success? {
          assert PixelCopies(img, w, h, n - 1);
          if !(img.width % w == 0 && img.height % h == 0) {
            var p := UncoveredPixel(img, w, h);
          }
        } else if 4 * n <= |img.data| && img.width % w == 0 && img.height % h == 0 {
          forall p | 0 <= p < n
            ensures PixelCopies(img, w, h, p)
          {
            SubLocalInverse(p, img.width, img.height, w, h);
          }
        }
      }
    }
  }

  /** Byte `j` of frame `s` after copying pixel `p`: one of the pixel's four
      bytes when `j` lies in the pixel's slot, unchanged otherwise. */
  lemma CopyPixelAt(res: seq<seq<byte>>, img: Image, w: nat, h: nat, p: nat, s: nat, j: nat)
    requires w > 0 && h > 0 && p < img.width * img.height
    requires forall t :: 0 <= t < |res| ==> |res[t]| == w * h * 4
    requires CopyPixel(res, img, w, h, p).Success? && s < |res| && j < w * h * 4
    ensures CopyPixel(res, img, w, h, p).value[s][j] ==
              if s == SubIndex(p, img.width, w, h) && j / 4 == LocalIndex(p, img.width, w, h)
              then img.data[4 * p + j % 4] else res[s][j]
  {
    var l := LocalIndex(p, img.width, w, h);
    DivMod(j, 4);
    if 4 * l <= j < 4 * l + 4 {
      DivModOfSum(l, 4, j - 4 * l);
    }
  }

  /** What the frame buffers hold after the first `k` pixels are copied: byte `j`
      of frame `s` is the matching byte of its sheet pixel once that pixel has
      been copied, and zero before. */
  lemma {:induction false} SplitPixelsContents(img: Image, w: nat, h: nat, k: nat)
    requires w > 0 && h > 0 && img.width % w == 0 && img.height % h == 0
    requires k <= img.width * img.height && 4 * (img.width * img.height) <= |img.data|
    ensures SplitPixels(img, w, h, k).Success?
    ensures forall s, j :: 0 <= s < |SplitPixels(img, w, h, k).value| && 0 <= j < w * h * 4 ==>
              GlobalIndex(s, j / 4, img.width, w, h) < img.width * img.height &&
              SplitPixels(img, w, h, k).value[s][j] ==
                if GlobalIndex(s, j / 4, img.width, w, h) < k
                then img.data[4 * GlobalIndex(s, j / 4, img.width, w, h) + j % 4] else 0
  {
    var nb := (img.height / h) * (img.width / w);
    FramesNeedWidth(img.width, img.height, w, h);
    SplitSucceedsIff(img, w, h);
    SplitPixelsSuccess(img, w, h, img.width * img.height);
    SplitPixelsSuccess(img, w, h, k);
    if k == 0 {
      forall s, j | 0 <= s < nb && 0 <= j < w * h * 4
        ensures GlobalIndex(s, j / 4, img.width, w, h) < img.width * img.height
      {
        DivLess(j, 4, w * h);
        GlobalInverse(s, j / 4, img.width, img.height, w, h);
      }
    } else {
      SplitPixelsContents(img, w, h, k - 1);
      forall s, j | 0 <= s < nb && 0 <= j < w * h * 4
        ensures var g := GlobalIndex(s, j / 4, img.width, w, h);
                SplitPixels(img, w, h, k).value[s][j] == if g < k then img.data[4 * g + j % 4] else 0
      {
        ContentsStep(img, w, h, k, s, j);
      }
    }
  }

  /** Frames exist only when the sheet is at least one frame wide. */
  lemma FramesNeedWidth(width: nat, height: nat, w: nat, h: nat)
    requires w > 0 && h > 0
    ensures (height / h) * (width / w) > 0 ==> width > 0 && width / w > 0
  {
    DivNonNegative(height, h);
    DivNonNegative(width, w);
    if width / w == 0 {
      MulZero(height / h);
    }
  }

  /** Copying pixel `k - 1` writes byte `j` of frame `s` exactly when that byte
      comes from pixel `k - 1`. */
  lemma ContentsStep(img: Image, w: nat, h: nat, k: nat, s: nat, j: nat)
    requires w > 0 && h > 0 && img.width % w == 0 && img.height % h == 0
    requires 0 < k <= img.width * img.height && 4 * (img.width * img.height) <= |img.data|
    requires SplitPixels(img, w, h, k - 1).Success? && SplitPixels(img, w, h, k).Success?
    requires s < (img.height / h) * (img.width / w) && j < w * h * 4
    requires img.width > 0 && img.width / w > 0
    requires var g := GlobalIndex(s, j / 4, img.width, w, h);
             SplitPixels(img, w, h, k - 1).value[s][j] == if g < k - 1 then img.data[4 * g + j % 4] else 0
    ensures var g := GlobalIndex(s, j / 4, img.width, w, h);
            g < img.width * img.height &&
            SplitPixels(img, w, h, k).value[s][j] == if g < k then img.data[4 * g + j % 4] else 0
  {
    var res, p := SplitPixels(img, w, h, k - 1).value, k - 1;
    SubLocalInverse(p, img.width, img.height, w, h);
    DivLess(j, 4, w * h);
    GlobalInverse(s, j / 4, img.width, img.height, w, h);
    CopyPixelAt(res, img, w, h, p, s, j);
  }

  /** With a frame size that divides the sheet size and a buffer that holds the
      sheet, `build` cuts `(width / w) * (height / h)` frames, and byte `j` of
      frame `s` is the matching byte of sheet pixel `GlobalIndex(s, j / 4)`. As
      `GlobalIndex` is a bijection (`SubLocalInverse`, `GlobalInverse`), every
      byte of every frame is written exactly once. */
  lemma SplitRearranges(img: Image, w: nat, h: nat)
    requires w > 0 && h > 0 && img.width % w == 0 && img.height % h == 0
    requires 4 * (img.width * img.height) <= |img.data|
    ensures Split(img, w, h).Success?
    ensures forall s, j :: 0 <= s < |Split(img, w, h).value| && 0 <= j < w * h * 4 ==>
              GlobalIndex(s, j / 4, img.width, w, h) < img.width * img.height &&
              Split(img, w, h).value[s].data[j] == img.data[4 * GlobalIndex(s, j / 4, img.width, w, h) + j % 4]
  {
    SplitPixelsContents(img, w, h, img.width * img.height);
  }

  /** A one-pixel-high sheet cut into 1 x 1 frames gives one frame per pixel,
      in order. */
  lemma SplitIntoPixels(img: Image)
    requires img.height == 1 && 4 * img.width <= |img.data|
    ensures Split(img, 1, 1).Success? && |Split(img, 1, 1).value| == img.width
    ensures forall s :: 0 <= s < img.width ==> Split(img, 1, 1).value[s] == FromRaw(img.data[4 * s..4 * s + 4], 1, 1)
  {
    SplitRearranges(img, 1, 1);
    var r := Split(img, 1, 1).value;
    forall s | 0 <= s < img.width
      ensures r[s] == FromRaw(img.data[4 * s..4 * s + 4], 1, 1)
    {
      forall j | 0 <= j < 4
        ensures r[s].data[j] == img.data[4 * s + j]
      {
        PixelFrameIndex(s, j, img.width);
      }
    }
  }

  /** With 1 x 1 frames in a one-pixel-high sheet, every byte of frame `s`
      comes from sheet pixel `s`. */
  lemma PixelFrameIndex(s: nat, j: nat, width: nat)
    requires s < width && j < 4
    ensures GlobalIndex(s, j / 4, width, 1, 1) == s
  {
    assert j / 4 == 0 && s / width == 0 && s % width == s;
  }

  /** The sheet of the `sprite_splitting` test: sixteen bytes holding four
      1 x 1 pixels in a row, cut into 1 x 1 frames, give one frame per pixel in
      order, bytes 0 to 3, 4 to 7, 8 to 11 and 12 to 15. */
  lemma SpriteSplittingExample(img: Image)
    requires img.width == 4 && img.height == 1 && |img.data| == 16
    ensures Split(img, 1, 1) == Success([FromRaw(img.data[0..4], 1, 1), FromRaw(img.data[4..8], 1, 1),
                                         FromRaw(img.data[8..12], 1, 1), FromRaw(img.data[12..16], 1, 1)])
  {
    SplitIntoPixels(img);
    var r := Split(img, 1, 1).value;
    assert r[0] == FromRaw(img.data[0..4], 1, 1) && r[1] == FromRaw(img.data[4..8], 1, 1);
    assert r[2] == FromRaw(img.data[8..12], 1, 1) && r[3] == FromRaw(img.data[12..16], 1, 1);
    ListOfFour(r);
  }

  lemma ListOfFour<T>(r: seq<T>)
    requires |r| == 4
    ensures r == [r[0], r[1], r[2], r[3]]
  {
  }

  /* The animation table and the sprite. */

  /** An animation as `build` creates it: its frames and its length, at the
      first frame with a zero timer. */
  datatype AnimSpec = AnimSpec(frames: seq<Image>, length: U32)

  /** The frames an entry lists, or the out-of-bounds error of indexing the cut
      frames. */
  function Frames(ids: seq<nat>, sprites: seq<Image>): (r: Result<seq<Image>>)
    ensures r.Success? ==> |r.value| == |ids|
  {
    if forall j :: 0 <= j < |ids| ==> ids[j] < |sprites|
    then Success(seq(|ids|, j requires 0 <= j < |ids| => sprites[ids[j]]))
    else Failure("index out of bounds")
  }

  /** The animation table after inserting the entries of `desc` in order. */
  function Table(desc: seq<AnimDesc>, sprites: seq<Image>): Result<map<string, AnimSpec>>
    decreases |desc|
  {
    if desc == [] then Success(map[])
    else
      match Table(desc[..|desc| - 1], sprites)
      case Failure(e) => Failure(e)
      case Success(t) =>
        var d := desc[|desc| - 1];
        match Frames(d.frames, sprites)
        case Failure(e) => Failure(e)
        case Success(fs) => Success(t[d.name := AnimSpec(fs, d.length)])
  }

  /** The sprite `build` describes: its animation table and current name. */
  datatype SpriteSpec = SpriteSpec(animations: map<string, AnimSpec>, current: string)

  /** The frames `build` starts from: the cut sheet, the sheet itself when no
      frame size is registered, or a 10 x 10 red placeholder without a sheet. */
  function Sheet(b: SpriteBuilder): Result<seq<Image>>
  {
    match (b.rawImage, b.imageSize)
    case (Some(img), Some((w, h))) => Split(img, w, h)
    case (Some(img), None) => Success([img])
    case (None, _) => Success([Rec(Red, 10, 10)])
  }

  /** What `build` produces, or the error it panics with. */
  function Built(b: SpriteBuilder): Result<SpriteSpec>
  {
    match Sheet(b)
    case Failure(e) => Failure(e)
    case Success(sprites) =>
      match b.animIndex
      case None => Success(SpriteSpec(map["" := AnimSpec(sprites, 1)], ""))
      case Some(desc) =>
        if desc == [] then Failure("index out of bounds")
        else
          match Table(desc, sprites)
          case Failure(e) => Failure(e)
          case Success(t) => Success(SpriteSpec(t, desc[0].name))
  }

  /** Without a sheet, `build` uses one 10 x 10 red frame; with a sheet but no
      frame size, the sheet is the only frame. */
  lemma SheetFallbacks(b: SpriteBuilder)
    ensures b.rawImage.None? ==> Sheet(b) == Success([Rec(Red, 10, 10)])
    ensures b.rawImage.None? ==> forall p :: 0 <= p < 100 ==> Rec(Red, 10, 10).Pixel(p) == Red
    ensures b.rawImage.Some? && b.imageSize.None? ==> Sheet(b) == Success([b.rawImage.value])
    ensures b.rawImage.Some? && b.imageSize.Some? ==>
              Sheet(b) == Split(b.rawImage.value, b.imageSize.value.0, b.imageSize.value.1)
  {
    forall p | 0 <= p < 100
      ensures 4 * p + 3 < |Rec(Red, 10, 10).Data()| && Rec(Red, 10, 10).Pixel(p) == Red
    {
      RecPixels(Red, 10, 10, p);
    }
  }

  /** Without a description there is one animation `""` over every frame, with
      length 1, and it is the current one. */
  lemma BuildWithoutDescription(b: SpriteBuilder)
    requires b.animIndex.None? && Sheet(b).Success?
    ensures Built(b).Success?
    ensures Built(b).value.current == "" && Built(b).value.animations.Keys == {""}
    ensures Built(b).value.animations[""] == AnimSpec(Sheet(b).value, 1)
  {
  }

  /** With a description, `build` fails exactly when it is empty or lists a frame
      index beyond the cut frames; otherwise the current animation is the first
      entry's, and the table has one animation per name, taken from the last
      entry with that name. */
  lemma BuildWithDescription(b: SpriteBuilder)
    requires b.animIndex.Some? && Sheet(b).Success?
    ensures var desc, sprites := b.animIndex.value, Sheet(b).value;
            Built(b).Success? <==>
              desc != [] && forall i, j :: 0 <= i < |desc| && 0 <= j < |desc[i].frames| ==> desc[i].frames[j] < |sprites|
    ensures Built(b).Success? ==>
              var desc := b.animIndex.value;
              && Built(b).value.current == desc[0].name
              && Built(b).value.current in Built(b).value.animations
              && (forall name :: name in Built(b).value.animations <==> exists i :: 0 <= i < |desc| && desc[i].name == name)
              && Built(b).value.animations == Table(desc, Sheet(b).value).value
  {
    var desc, sprites := b.animIndex.value, Sheet(b).value;
    TableSuccess(desc, sprites);
    if Built(b).Success? {
      TableKeys(desc, sprites);
    }
  }

  /** A build from a sheet with a frame size fails when the cut fails, and
      otherwise draws its frames from the `(width / w) * (height / h)` cut
      frames. */
  lemma BuildFromSheet(b: SpriteBuilder)
    requires b.rawImage.Some? && b.imageSize.Some?
    ensures Split(b.rawImage.value, b.imageSize.value.0, b.imageSize.value.1).Failure? ==> Built(b).Failure?
    ensures Built(b).Success? ==>
              var img, w, h := b.rawImage.value, b.imageSize.value.0, b.imageSize.value.1;
              w > 0 && h > 0 && |Sheet(b).value| == (img.width / w) * (img.height / h)
  {
  }

  /** The animation objects of `tree` are distinct, valid, at their first frame
      and hold the frames and lengths of `t`. */
  ghost predicate TableHeld(tree: map<string, Animation>, t: map<string, AnimSpec>)
    reads tree.Values
  {
    && tree.Keys == t.Keys
    && (forall n, m :: n in tree && m in tree && n != m ==> tree[n] != tree[m])
    && forall n :: n in tree ==>
         && tree[n].Valid()
         && tree[n].images == t[n].frames && tree[n].length == t[n].length
         && tree[n].index == 0 && tree[n].currTimer == 0
  }

  /** Inserting a fresh animation under `name` keeps the table held. */
  lemma TableHeldInsert(tree: map<string, Animation>, t: map<string, AnimSpec>, name: string, anim: Animation, a: AnimSpec)
    requires TableHeld(tree, t) && anim !in tree.Values
    requires anim.Valid() && anim.images == a.frames && anim.length == a.length && anim.index == 0 && anim.currTimer == 0
    ensures TableHeld(tree[name := anim], t[name := a])
  {
  }

  /** Building the table fails exactly when some entry lists a frame index
      beyond the cut frames. */
  lemma {:induction false} TableSuccess(desc: seq<AnimDesc>, sprites: seq<Image>)
    ensures Table(desc, sprites).Success? <==>
              forall i, j :: 0 <= i < |desc| && 0 <= j < |desc[i].frames| ==> desc[i].frames[j] < |sprites|
    decreases |desc|
  {
    if desc != [] {
      var init := desc[..|desc| - 1];
      TableSuccess(init, sprites);
      assert forall i :: 0 <= i < |init| ==> init[i] == desc[i];
    }
  }

  /** Otherwise the table has one animation per distinct name, ... */
  lemma {:induction false} TableKeys(desc: seq<AnimDesc>, sprites: seq<Image>)
    requires Table(desc, sprites).Success?
    ensures forall name :: name in Table(desc, sprites).value <==> exists i :: 0 <= i < |desc| && desc[i].name == name
    decreases |desc|
  {
    if desc != [] {
      var init := desc[..|desc| - 1];
      TableKeys(init, sprites);
      var last := desc[|desc| - 1];
      var t := Table(desc, sprites).value;
      assert t.Keys == Table(init, sprites).value.Keys + {last.name};
      forall name | name in t
        ensures exists i :: 0 <= i < |desc| && desc[i].name == name
      {
        if name != last.name {
          var i :| 0 <= i < |init| && init[i].name == name;
          assert desc[i].name == name;
        }
      }
      forall name | exists i :: 0 <= i < |desc| && desc[i].name == name
        ensures name in t
      {
        var i :| 0 <= i < |desc| && desc[i].name == name;
        if i < |init| {
          assert init[i].name == name;
        }
      }
    }
  }

  /** ... and the animation under a name is the one of the last entry with that
      name: entry `i`, when no later entry has its name, is in the table with
      the frames it lists and its length. */
  lemma {:induction false} TableLastWins(desc: seq<AnimDesc>, sprites: seq<Image>, i: nat)
    requires Table(desc, sprites).Success?
    requires i < |desc| && forall k :: i < k < |desc| ==> desc[k].name != desc[i].name
    ensures Frames(desc[i].frames, sprites).Success?
    ensures desc[i].name in Table(desc, sprites).value
    ensures Table(desc, sprites).value[desc[i].name] == AnimSpec(Frames(desc[i].frames, sprites).value, desc[i].length)
    decreases |desc|
  {
    var init, last := desc[..|desc| - 1], desc[|desc| - 1];
    assert Table(init, sprites).Success? && Frames(last.frames, sprites).Success?;
    var t0 := Table(init, sprites).value;
    assert Table(desc, sprites).value == t0[last.name := AnimSpec(Frames(last.frames, sprites).value, last.length)];
    if i < |init| {
      assert init[i] == desc[i];
      assert desc[i].name != last.name;
      forall k | i < k < |init|
        ensures init[k].name != init[i].name
      {
        assert init[k] == desc[k];
      }
      TableLastWins(init, sprites, i);
    }
  }

  /** The loop of `build` over the description: one fresh animation per entry,
      in order, a later entry replacing an earlier one of the same name, or
      the panic on the first frame index beyond the cut frames. */
  method BuildTable(v: seq<AnimDesc>, sprites: seq<Image>) returns (r: Result<map<string, Animation>>)
    ensures r.Success? <==> Table(v, sprites).Success?
    ensures r.Success? ==> TableHeld(r.value, Table(v, sprites).value)
    ensures r.Success? ==> forall n :: n in r.value ==> fresh(r.value[n])
  {
    var tree: map<string, Animation> := map[];
    var k := 0;
    while k < |v|
      invariant 0 <= k <= |v|
      invariant Table(v[..k], sprites).Success?
      invariant TableHeld(tree, Table(v[..k], sprites).value)
      invariant forall n :: n in tree ==> fresh(tree[n])
    {
      var AnimDesc(name, length, desc) := v[k];
      var frames := CollectFrames(desc, sprites);
      if frames.Failure? {
        TableFailureAt(v, sprites, k);
        return Failure("index out of bounds");
      }
      var imgs := frames.value;
      var anim := NewAnimation(imgs, length);
      assert v[..k + 1][..k] == v[..k];
      TableHeldInsert(tree, Table(v[..k], sprites).value, name, anim, AnimSpec(imgs, length));
      tree := tree[name := anim];
      k := k + 1;
    }
    assert v[..k] == v;
    return Success(tree);
  }

  /** One entry's animation, as `build` creates it: over the collected frames,
      at its first frame, then given the entry's length. */
  method NewAnimation(imgs: seq<Image>, length: U32) returns (anim: Animation)
    ensures fresh(anim) && anim.Valid()
    ensures anim.images == imgs && anim.length == length && anim.index == 0 && anim.currTimer == 0
  {
    anim := new Animation.From(imgs);
    anim.ChangeLength(length);
  }

  /** The inner loop of `build`: the frames one entry lists, in its order, or
      the panic on the first index beyond the cut frames. */
  method CollectFrames(ids: seq<nat>, sprites: seq<Image>) returns (r: Result<seq<Image>>)
    ensures r == Frames(ids, sprites)
  {
    var imgs: seq<Image> := [];
    var j := 0;
    while j < |ids|
      invariant 0 <= j <= |ids|
      invariant |imgs| == j
      invariant forall t :: 0 <= t < j ==> ids[t] < |sprites| && imgs[t] == sprites[ids[t]]
    {
      if ids[j] >= |sprites| {
        return Failure("index out of bounds");
      }
      imgs := imgs + [sprites[ids[j]]];
      j := j + 1;
    }
    assert imgs == seq(|ids|, t requires 0 <= t < |ids| => sprites[ids[t]]);
    return Success(imgs);
  }

  /** An entry whose frames cannot be collected makes the table fail. */
  lemma TableFailureAt(desc: seq<AnimDesc>, sprites: seq<Image>, i: nat)
    requires i < |desc| && Frames(desc[i].frames, sprites).Failure?
    ensures Table(desc, sprites).Failure?
  {
    TableSuccess(desc, sprites);
  }

  /** An out-of-range frame index makes the table fail. */
  lemma TableFailure(desc: seq<AnimDesc>, sprites: seq<Image>, i: nat, j: nat)
    requires i < |desc| && j < |desc[i].frames| && desc[i].frames[j] >= |sprites|
    ensures Table(desc, sprites).Failure?
  {
    TableSuccess(desc, sprites);
  }

  /** The `Sprite` component: animations by name and the name of the one shown. */
  class Sprite {
    var animations: map<string, Animation>
    var currAnimation: string

    /** Each animation is valid and owned by one name only. */
    ghost predicate Valid()
      reads this, animations.Values
    {
      && (forall n :: n in animations ==> animations[n].Valid())
      && (forall n, m :: n in animations && m in animations && n != m ==> animations[n] != animations[m])
    }

    /** The sprite is the one `spec` describes, every animation at its start. */
    ghost predicate Holds(spec: SpriteSpec)
      reads this, animations.Values
    {
      currAnimation == spec.current && TableHeld(animations, spec.animations)
    }

    constructor Make(anims: map<string, Animation>, curr: string)
      ensures animations == anims && currAnimation == curr
    {
      animations := anims;
      currAnimation := curr;
    }

    /** `Sprite::from(images)`: one animation `""` over all the images. */
    constructor From(images: seq<Image>)
      ensures Valid() && Holds(SpriteSpec(map["" := AnimSpec(images, 1)], ""))
      ensures forall n :: n in animations ==> fresh(animations[n])
    {
      var anim := new Animation.From(images);
      animations := map["" := anim];
      currAnimation := "";
    }

    /** `image()`: the current frame of the animation with the current name, and
        `None` when no animation has that name; an animation with no frame
        panics in `get`. */
    function CurrentImage(): (r: Result<Option<Image>>)
      reads this, animations.Values
      ensures r == Success(None) <==> currAnimation !in animations
      ensures Valid() ==> (r.Failure? <==> currAnimation in animations && |animations[currAnimation].images| == 0)
      ensures r.Success? && r.value.Some? ==>
                && currAnimation in animations && r.value.value in animations[currAnimation].images
                && animations[currAnimation].index < |animations[currAnimation].images|
                && r.value.value == animations[currAnimation].images[animations[currAnimation].index]
    {
      if currAnimation !in animations then Success(None)
      else
        var img := animations[currAnimation].Get();
        if img.Success? then Success(Some(img.value)) else Failure(img.reason)
    }

    /** `animation(name)`: only the name changes. */
    method SetAnimation(name: string)
      requires Valid()
      modifies this
      ensures Valid()
      ensures currAnimation == name && animations == old(animations)
    {
      currAnimation := name;
    }

    /** `update`: the animation with the current name takes one update; an
        unknown name changes nothing. */
    method Update()
      requires Valid()
      requires currAnimation in animations ==> animations[currAnimation].CanUpdate()
      modifies if currAnimation in animations then {animations[currAnimation]} else {}
      ensures Valid()
      ensures animations == old(animations) && currAnimation == old(currAnimation)
      ensures currAnimation in animations ==>
                && animations[currAnimation].images == old(animations[currAnimation].images)
                && animations[currAnimation].length == old(animations[currAnimation].length)
                && animations[currAnimation].Counters()
                   == Tick(old(animations[currAnimation].Counters()), animations[currAnimation].length, |animations[currAnimation].images|)
    {
      if currAnimation in animations {
        animations[currAnimation].Update();
      }
    }
  }
}
