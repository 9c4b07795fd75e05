/** The sprite of the browser front end: a list of images and the index of the
    one shown. Its `Color` and `Image` have the same fields and functions as the
    engine's, and are modelled by the `Images` module. */
module WebSprites {
  import opened Wrappers
  import opened Images

  datatype Sprite = Sprite(images: seq<Image>, index: nat)
  {
    /** `image()`: the image at the index; indexing past the end panics. */
    function CurrentImage(): (r: Result<Image>)
      ensures r.Success? <==> index < |images|
      ensures r.Success? ==> r.value == images[index]
    {
      if index < |images| then Success(images[index]) else Failure("index out of bounds")
    }
  }

  /** `Sprite::from(images)`: the images, shown from the first. */
  function From(images: seq<Image>): (s: Sprite)
    ensures s.images == images && s.index == 0
  {
    Sprite(images, 0)
  }

  /** A sprite made from a list shows the list's first image, and one made from
      an empty list has no image to show. */
  lemma FromShowsFirst(images: seq<Image>)
    ensures |images| > 0 ==> From(images).CurrentImage() == Success(images[0])
    ensures |images| == 0 ==> From(images).CurrentImage().Failure?
  {
  }
}
