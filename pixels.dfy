/**
 * Background keying of `combine_images` (the nested `remove_background` of bip.py):
 * every RGBA pixel whose red, green and blue channels each lie within a tolerance
 * of a reference colour loses its opacity and keeps its colour; every other pixel
 * is copied as it is.
 */
module Pixels {

  /** One 8-bit channel value. */
  type byte = x: int | 0 <= x < 256

  /** A pixel of an image converted to RGBA: red, green, blue, alpha. */
  datatype Pixel = Pixel(r: byte, g: byte, b: byte, a: byte)

  /** A reference colour, compared against the R, G and B channels only. */
  datatype Rgb = Rgb(r: byte, g: byte, b: byte)

  /**
   * An image as the compositor sees it: its size and its pixel data in RGBA,
   * row by row. The number of pixels is not tied to the size here because
   * nothing in the compositor depends on it.
   */
  datatype Image = Image(width: nat, height: nat, pixels: seq<Pixel>)

  /** The background colour `remove_background` assumes: white. */
  const BackgroundColor: Rgb := Rgb(255, 255, 255)

  /** The tolerance `remove_background` uses: exact matches only. */
  const Threshold: int := 0

  function Abs(x: int): nat
  {
    if x < 0 then -x else x
  }

  /** All three colour channels of `p` are within `threshold` of `bg`. */
  predicate Matches(p: Pixel, bg: Rgb, threshold: int)
  {
    Abs(p.r - bg.r) <= threshold && Abs(p.g - bg.g) <= threshold && Abs(p.b - bg.b) <= threshold
  }

  /** The per-pixel rule: a matching pixel becomes fully transparent, keeping its colour. */
  function KeyPixel(p: Pixel, bg: Rgb, threshold: int): (q: Pixel)
    ensures q.r == p.r && q.g == p.g && q.b == p.b
    ensures Matches(p, bg, threshold) ==> q.a == 0
    ensures !Matches(p, bg, threshold) ==> q == p
  {
    if Matches(p, bg, threshold) then Pixel(p.r, p.g, p.b, 0) else p
  }

  /**
   * The keyed pixel sequence, defined the way the source builds it: by appending
   * the keyed form of each pixel in turn.
   */
  function KeyOut(ps: seq<Pixel>, bg: Rgb, threshold: int): (out: seq<Pixel>)
    ensures |out| == |ps|
  {
    if ps == [] then [] else KeyOut(ps[..|ps| - 1], bg, threshold) + [KeyPixel(ps[|ps| - 1], bg, threshold)]
  }

  /** Keying works pixel by pixel: same length, and position k holds the keyed k-th pixel. */
  lemma {:induction false} KeyOutAt(ps: seq<Pixel>, bg: Rgb, threshold: int)
    ensures |KeyOut(ps, bg, threshold)| == |ps|
    ensures forall k :: 0 <= k < |ps| ==> KeyOut(ps, bg, threshold)[k] == KeyPixel(ps[k], bg, threshold)
  {
    if ps != [] {
      var init := ps[..|ps| - 1];
      KeyOutAt(init, bg, threshold);
      forall k | 0 <= k < |ps|
        ensures KeyOut(ps, bg, threshold)[k] == KeyPixel(ps[k], bg, threshold)
      {
        if k < |ps| - 1 {
          assert ps[k] == init[k];
        }
      }
    }
  }

  /**
   * What keying promises of every pixel: the count is kept, colours are kept,
   * a pixel within tolerance of the background gets alpha 0 and any other pixel
   * is returned exactly as it was.
   */
  lemma KeyOutSpec(ps: seq<Pixel>, bg: Rgb, threshold: int)
    ensures |KeyOut(ps, bg, threshold)| == |ps|
    ensures forall k :: 0 <= k < |ps| ==>
      var q := KeyOut(ps, bg, threshold)[k];
      q.r == ps[k].r && q.g == ps[k].g && q.b == ps[k].b &&
      (Matches(ps[k], bg, threshold) ==> q.a == 0) &&
      (!Matches(ps[k], bg, threshold) ==> q == ps[k])
  {
    KeyOutAt(ps, bg, threshold);
  }

  /** With the hardcoded white reference and tolerance 0 only pure white pixels are keyed. */
  lemma DefaultKeysOnlyPureWhite(p: Pixel)
    ensures Matches(p, BackgroundColor, Threshold) <==> p.r == 255 && p.g == 255 && p.b == 255
  {
  }

  /** Keying twice is keying once: a keyed pixel kept its colour, so it still matches. */
  lemma {:induction false} KeyOutIdempotent(ps: seq<Pixel>, bg: Rgb, threshold: int)
    ensures KeyOut(KeyOut(ps, bg, threshold), bg, threshold) == KeyOut(ps, bg, threshold)
  {
    var once := KeyOut(ps, bg, threshold);
    KeyOutAt(ps, bg, threshold);
    KeyOutAt(once, bg, threshold);
    forall k | 0 <= k < |once|
      ensures KeyOut(once, bg, threshold)[k] == once[k]
    {
      assert once[k] == KeyPixel(ps[k], bg, threshold);
    }
  }

  /** Raising the tolerance keys out every pixel that was keyed before, and possibly more. */
  lemma {:induction false} KeyOutMonotoneInThreshold(ps: seq<Pixel>, bg: Rgb, low: int, high: int)
    requires low <= high
    ensures forall k :: 0 <= k < |ps| && Matches(ps[k], bg, low) ==>
      Matches(ps[k], bg, high) && KeyOut(ps, bg, high)[k].a == 0
  {
    KeyOutAt(ps, bg, high);
  }

  /**
   * `remove_background`: walks the RGBA pixel data once, appending either the
   * pixel with alpha 0 (when it matches white exactly) or the pixel itself, and
   * returns an image of the same size holding the new data.
   */
  method RemoveBackground(image: Image) returns (keyed: Image)
    ensures keyed.width == image.width && keyed.height == image.height
    ensures keyed.pixels == KeyOut(image.pixels, BackgroundColor, Threshold)
  {
    var pixels := image.pixels;
    var newPixels: seq<Pixel> := [];
    var i := 0;
    while i < |pixels|
      invariant 0 <= i <= |pixels|
      invariant newPixels == KeyOut(pixels[..i], BackgroundColor, Threshold)
    {
      var pixel := pixels[i];
      if Abs(pixel.r - BackgroundColor.r) <= Threshold
        && Abs(pixel.g - BackgroundColor.g) <= Threshold
        && Abs(pixel.b - BackgroundColor.b) <= Threshold
      {
        newPixels := newPixels + [Pixel(pixel.r, pixel.g, pixel.b, 0)];
      } else {
        newPixels := newPixels + [pixel];
      }
      assert pixels[..i + 1][..i] == pixels[..i];
      i := i + 1;
    }
    assert pixels[..i] == pixels;
    keyed := Image(image.width, image.height, newPixels);
  }
}
