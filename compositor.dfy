/**
 * `combine_images` of bip.py with the imaging library's calls taken as
 * abstract effects. The images arrive already opened; the method returns the
 * effects it performs, in order: create the canvas, paste every image, save.
 * An invalid mode performs none of them.
 */
module Compositor {
  import opened Results
  import opened Pixels
  import opened Layout

  /** The canvas's pixel format: RGBA left transparent, or RGB filled with a named colour. */
  datatype CanvasFormat = Transparent | Solid(colour: string)

  /** What the compositor asks the imaging library to do. */
  datatype Effect =
    | NewCanvas(size: Size, format: CanvasFormat)
    | Paste(image: Image, at: Point)
    | Save(path: string)

  datatype CompositeError = ValueError(message: string)

  /** The canvas format chosen from the spacing colour: only "transparent" gives an RGBA canvas. */
  function FormatFor(spacingColor: string): (f: CanvasFormat)
    ensures f == Transparent <==> spacingColor == "transparent"
    ensures f.Solid? ==> f.colour == spacingColor
  {
    if spacingColor == "transparent" then Transparent else Solid(spacingColor)
  }

  /** The image actually pasted: background-keyed when requested, otherwise as opened. */
  function Prepared(image: Image, noBackground: bool): (p: Image)
    ensures p.width == image.width && p.height == image.height && |p.pixels| == |image.pixels|
    ensures !noBackground ==> p == image
    ensures noBackground ==> forall k :: 0 <= k < |p.pixels| ==>
      p.pixels[k].r == image.pixels[k].r && p.pixels[k].g == image.pixels[k].g && p.pixels[k].b == image.pixels[k].b
  {
    KeyOutSpec(image.pixels, BackgroundColor, Threshold);
    if noBackground then Image(image.width, image.height, KeyOut(image.pixels, BackgroundColor, Threshold))
    else image
  }

  /**
   * Composes `images` into one strip. The cell size is taken from the first
   * image only. A mode other than "horizontal" or "vertical" raises before the
   * canvas exists; otherwise the canvas has the strip's size, the k-th image is
   * pasted at `(k*(width+spacing), 0)` or `(0, k*(height+spacing))`, and the
   * result is saved to `outputPath`.
   */
  method CombineImages(images: seq<Image>, outputPath: string, mode: string, spacing: int,
                       spacingColor: string, noBackground: bool)
    returns (r: Result<seq<Effect>, CompositeError>)
    requires |images| > 0
    ensures r.Err? <==> ParseMode(mode) == None
    ensures r.Err? ==> r.error == ValueError(InvalidModeMessage)
    ensures r.Ok? ==>
      ParseMode(mode).Some? &&
      var axis, width, height, n := ParseMode(mode).value, images[0].width, images[0].height, |images|;
      |r.value| == n + 2 &&
      r.value[0] == NewCanvas(CanvasSize(axis, width, height, n, spacing), FormatFor(spacingColor)) &&
      (forall k :: 0 <= k < n ==>
        r.value[k + 1] == Paste(Prepared(images[k], noBackground), Offset(axis, width, height, spacing, k))) &&
      r.value[n + 1] == Save(outputPath)
  {
    var width, height := images[0].width, images[0].height;
    var n := |images|;

    var combinedWidth, combinedHeight;
    if mode == "horizontal" {
      combinedWidth := width * n + spacing * (n - 1);
      combinedHeight := height;
    } else if mode == "vertical" {
      combinedWidth := width;
      combinedHeight := height * n + spacing * (n - 1);
    } else {
      return Err(ValueError(InvalidModeMessage));
    }
    ghost var axis := ParseMode(mode).value;

    var effects := [NewCanvas(Size(combinedWidth, combinedHeight), FormatFor(spacingColor))];

    var x, y := 0, 0;
    var i := 0;
    while i < n
      invariant 0 <= i <= n
      invariant |effects| == i + 1
      invariant effects[0] == NewCanvas(CanvasSize(axis, width, height, n, spacing), FormatFor(spacingColor))
      invariant forall k :: 0 <= k < i ==>
        effects[k + 1] == Paste(Prepared(images[k], noBackground), Offset(axis, width, height, spacing, k))
      invariant Point(x, y) == Offset(axis, width, height, spacing, i)
    {
      var image := images[i];
      if noBackground {
        image := RemoveBackground(image);
      }
      effects := effects + [Paste(image, Point(x, y))];
      if mode == "horizontal" {
        x := x + width + spacing;
      } else if mode == "vertical" {
        y := y + height + spacing;
      }
      i := i + 1;
    }

    effects := effects + [Save(outputPath)];
    r := Ok(effects);
  }
}
