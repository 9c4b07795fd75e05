/** RGBA images: a byte buffer with its width and height in pixels. */
module Images {

  newtype byte = x: int | 0 <= x < 256

  /** `Color(r, g, b, a)`. */
  datatype Color = Color(r: byte, g: byte, b: byte, a: byte)
  {
    /** Channel `k` in R, G, B, A order; `k >= 3` is the alpha channel. */
    function Channel(k: nat): byte
    {
      if k == 0 then r else if k == 1 then g else if k == 2 then b else a
    }
  }

  const Red := Color(255, 0, 0, 255)
  const Green := Color(0, 255, 0, 255)
  const Blue := Color(0, 0, 255, 255)

  lemma ColorConstants()
    ensures Red.r == 255 && Red.g == 0 && Red.b == 0 && Red.a == 255
    ensures Green.r == 0 && Green.g == 255 && Green.b == 0 && Green.a == 255
    ensures Blue.r == 0 && Blue.g == 0 && Blue.b == 255 && Blue.a == 255
  {
  }

  /** An image; the buffer holds four bytes per pixel, row by row. The source's
      `width()`/`height()` cast `usize` to `u32`, which is lossless on the
      32-bit target the crate is built for. */
  datatype Image = Image(data: seq<byte>, width: nat, height: nat)
  {
    function Data(): seq<byte> { data }
    function Width(): nat { width }
    function Height(): nat { height }

    /** The colour of pixel `p`, when the buffer holds it. */
    function Pixel(p: nat): Color
      requires 4 * p + 3 < |data|
    {
      Color(data[4 * p], data[4 * p + 1], data[4 * p + 2], data[4 * p + 3])
    }
  }

  /** `Image::from_raw`: the buffer and the dimensions are stored as given. */
  function FromRaw(data: seq<byte>, width: nat, height: nat): (img: Image)
    ensures img.Data() == data && img.Width() == width && img.Height() == height
  {
    Image(data, width, height)
  }

  /** `Image::rec(c, width, height)`: a `width` x `height` image filled with `c`. */
  function Rec(c: Color, width: nat, height: nat): (img: Image)
    ensures |img.Data()| == width * height * 4
    ensures forall i :: 0 <= i < |img.Data()| ==> img.Data()[i] == c.Channel(i % 4)
    ensures img.Width() == width && img.Height() == height
  {
    Image(seq(width * height * 4, i => c.Channel(i % 4)), width, height)
  }

  /** Every pixel of a filled rectangle has the fill colour, its alpha included. */
  lemma RecPixels(c: Color, width: nat, height: nat, p: nat)
    requires p < width * height
    ensures 4 * p + 3 < |Rec(c, width, height).Data()|
    ensures Rec(c, width, height).Pixel(p) == c
  {
    var img := Rec(c, width, height);
    assert 4 * p + 3 < |img.Data()|;
    assert (4 * p) % 4 == 0 && (4 * p + 1) % 4 == 1 && (4 * p + 2) % 4 == 2 && (4 * p + 3) % 4 == 3;
  }
}
