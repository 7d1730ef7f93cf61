/** Pixel comparison (crack.py, `is_pixel_equal`). */
module PixelCompare {
  import opened Errors
  import opened Images

  /** An RGBA pixel, the tuple PIL yields for an image in mode 'RGBA'. */
  datatype Rgba = Rgba(r: int, g: int, b: int, a: int)

  /** Largest per-channel difference (exclusive) that still counts as equal. */
  const Threshold: int := 20

  function Abs(n: int): (m: nat)
    ensures m == n || m == -n
  {
    if n < 0 then -n else n
  }

  /** Channel `c` of the pixel tuple, as Python's `pixel[c]`. */
  function Channel(p: Rgba, c: nat): int
    requires c < 4
  {
    match c
    case 0 => p.r
    case 1 => p.g
    case 2 => p.b
    case 3 => p.a
  }

  /** Two pixels are equal when each of the first three channels differs by
      less than the threshold; the alpha channel is never looked at. */
  predicate PixelEqual(p: Rgba, q: Rgba)
  {
    Abs(p.r - q.r) < Threshold && Abs(p.g - q.g) < Threshold && Abs(p.b - q.b) < Threshold
  }

  /** `is_pixel_equal(image1, image2, x, y)`: reads the pixel at (x, y) of both
      images; PIL raises IndexError for a coordinate outside either image. */
  function IsPixelEqual(image1: Image<Rgba>, image2: Image<Rgba>, x: nat, y: nat): (r: Result<bool>)
    ensures r.Err? <==> !InBounds(image1, x, y) || !InBounds(image2, x, y)
    ensures r.Err? ==> r.error == IndexError
    ensures r == Ok(true) <==>
      InBounds(image1, x, y) && InBounds(image2, x, y) &&
      forall c | 0 <= c < 3 :: Abs(Channel(At(image1, x, y), c) - Channel(At(image2, x, y), c)) < Threshold
  {
    if !InBounds(image1, x, y) || !InBounds(image2, x, y) then Err(IndexError)
    else
      var pixel1, pixel2 := At(image1, x, y), At(image2, x, y);
      assert Channel(pixel1, 0) == pixel1.r && Channel(pixel1, 1) == pixel1.g && Channel(pixel1, 2) == pixel1.b;
      assert Channel(pixel2, 0) == pixel2.r && Channel(pixel2, 1) == pixel2.g && Channel(pixel2, 2) == pixel2.b;
      Ok(PixelEqual(pixel1, pixel2))
  }

  lemma PixelEqualReflexive(p: Rgba)
    ensures PixelEqual(p, p)
  {
  }

  lemma PixelEqualSymmetric(p: Rgba, q: Rgba)
    ensures PixelEqual(p, q) <==> PixelEqual(q, p)
  {
  }

  /** Changing the alpha channel of either pixel never changes the verdict. */
  lemma AlphaIgnored(p: Rgba, q: Rgba, a: int)
    ensures PixelEqual(p.(a := a), q) <==> PixelEqual(p, q)
    ensures PixelEqual(p, q.(a := a)) <==> PixelEqual(p, q)
  {
  }
}
