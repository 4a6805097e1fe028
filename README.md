# B-IP utilities: image strip compositor and video compress/mute tool

This project models the decision-making core of two small scripts and proves
properties of it in Dafny.

* `bip.py`, `combine_images`: pastes several images side by side
  (`'horizontal'`) or stacked (`'vertical'`) onto one canvas with a fixed
  spacing, optionally keying out a white background first. The model covers
  the canvas-size arithmetic and the mode check, the loop that pastes each
  image at a running offset, and the nested `remove_background` pixel loop.
  The imaging library's work is abstracted: the images arrive already opened,
  as their size and RGBA pixel data, and `CombineImages` returns the effects
  it asks the library for, in order (create the canvas, paste each image at a
  point, save). An invalid mode returns the ValueError and no effect at all.
* `compress_mute_video.py`: chooses the output file for a compress, mute or
  compress-and-mute job and builds the ffmpeg argument vector. The model covers
  `out_path_for`, the mode-to-tag and mode-to-extension table, and the three
  command lists. Paths are absolute POSIX paths given as their components;
  `stem`, `suffix`, `with_name`, `/` and `str` follow pathlib's rules (the
  suffix rule of Python up to 3.13: from the last dot, unless that dot is the
  first or the last character of the name). The filesystem queries `exists()`
  and `is_dir()` are oracle parameters.

Modules: `Results` (Option and Result), `Pixels` (keying), `Layout` (mode,
canvas size, offsets), `Compositor` (`combine_images`), `Paths` (the pathlib
subset) and `Video` (the video tool).

Facts about bip.py that shape the model: the modes are exactly the strings
`'horizontal'` and `'vertical'`. The first image is opened before the mode is
checked; the model has no I/O, so the check comes before any canvas effect.
`paste` is called without a mask and its compositing is not modelled.
Trimming appears only in the header comment at bip.py:3.

`Video.Command` is written as the common seven-element start, the mode's
options (`CompressOptions`, `MuteOptions` or `BothOptions`, chosen by
`ModeOptions`) and the output path; element for element this is the same as
the three literal lists of the source.

## Model

| member | source | states |
|---|---|---|
| `Pixels.KeyPixel` | bip.py:14-17 | a pixel keeps its R, G, B; if all three are within the threshold of the reference colour its alpha becomes 0, otherwise it is returned unchanged |
| `Pixels.KeyOut` | bip.py:12-17 | the keyed pixel list, built as the loop builds it by appending the keyed form of each pixel in turn; it has as many pixels as the input |
| `Pixels.KeyOutAt` | bip.py:12-18 | keying a pixel list keeps its length and puts the keyed k-th input pixel at position k |
| `Pixels.KeyOutSpec` | bip.py:13-18 | for every position: same R, G, B as the input; alpha 0 when the pixel matches; the input pixel exactly when it does not |
| `Pixels.DefaultKeysOnlyPureWhite` | bip.py:8-14 | with the hardcoded white and tolerance 0 a pixel is keyed exactly when it is (255, 255, 255) |
| `Pixels.KeyOutIdempotent` | bip.py:14-17 | keying an already keyed pixel list changes nothing |
| `Pixels.KeyOutMonotoneInThreshold` | bip.py:9-14 | every pixel keyed at a tolerance is also keyed (alpha 0) at any larger tolerance |
| `Pixels.RemoveBackground` | bip.py:7-19 | the append loop returns an image of the same size whose pixel data is the keyed form of the input's, with white and tolerance 0 |
| `Layout.ParseMode` | bip.py:26-33 | exactly "horizontal" and "vertical" are valid modes; every other string is rejected |
| `Layout.Span` | bip.py:27-31 | the source's extent formula `cell*n + spacing*(n-1)`; a single image spans exactly one cell |
| `Layout.CanvasSize` | bip.py:26-31 | the canvas size for a valid mode: the span along the axis, and across it the first image's height (horizontal) or width (vertical); one image gives a canvas of its own size |
| `Layout.Offset` | bip.py:42-55 | the closed form of the running paste position: `(k*(w+s), 0)` or `(0, k*(h+s))`; the first image at the origin and the other coordinate always 0 |
| `Layout.SpanIsStrip` | bip.py:27-31 | the formula `cell*n + spacing*(n-1)` equals the length of a strip of n cells with one gap between neighbours |
| `Layout.CanvasIsStripOfCells` | bip.py:26-31 | horizontally the canvas is a strip of n widths by the first image's height; vertically the first image's width by a strip of n heights |
| `Layout.OffsetsAdvanceByCellAndGap` | bip.py:42-55 | the first paste is at (0, 0) and each next one is one cell plus the spacing further along the axis, with the other coordinate 0 |
| `Layout.LastCellEndsAtCanvasEdge` | bip.py:52-55 | the far edge of the last pasted cell, `(n-1)*(cell+spacing) + cell`, is the canvas's extent along the axis |
| `Layout.CellsInsideCanvas` | bip.py:42-55 | with non-negative spacing every cell lies inside the canvas and consecutive cells are separated by exactly `spacing` pixels |
| `Compositor.FormatFor` | bip.py:36-39 | only the colour "transparent" gives an RGBA canvas; any other colour gives an RGB canvas filled with that colour |
| `Compositor.Prepared` | bip.py:47-49 | the image pasted: the opened image unchanged without background removal; with it, the same size and pixel count and the same colours, keyed as `KeyOut` says |
| `Compositor.CombineImages` | bip.py:21-58 | an invalid mode yields the ValueError and no effect; otherwise one canvas of the computed size, then image k pasted (keyed when requested) at `(k*(w+s), 0)` or `(0, k*(h+s))`, then one save to the output path |
| `Paths.Suffix` | compress_mute_video.py:18 | `Path.suffix`: a well-formed suffix that ends the name |
| `Paths.Stem` | compress_mute_video.py:14 | `Path.stem`: a prefix of the name, non-empty for a non-empty name |
| `Paths.Render` | compress_mute_video.py:60-111 | `str(path)` as passed to ffmpeg (lines 60, 75, 85, 89, 99, 111): `/` followed by the components joined with `/`, so always starting with `/` |
| `Paths.StemAndSuffix` | compress_mute_video.py:14-18 | a name is its stem followed by its suffix, and the suffix is empty or a dot and at least one more character with no other dot |
| `Paths.SuffixOfAppended` | compress_mute_video.py:14-20 | appending a non-empty well-formed extension to a non-empty prefix gives a name with that suffix and that stem |
| `Paths.WithName` | compress_mute_video.py:14 | replacing the name keeps the parent and sets the name; a path without a name is an error |
| `Paths.Join` | compress_mute_video.py:17-20 | `o / name` is the child `name` of `o` |
| `Video.Tag` | compress_mute_video.py:46 | each tag starts with `_` and contains no dot |
| `Video.Extension` | compress_mute_video.py:47 | ".mp4" for compress and both, the source's suffix for mute; always a well-formed suffix |
| `Video.GeneratedName` | compress_mute_video.py:14-20 | the f-string `stem + tag + ext` of lines 14, 17 and 20: it starts with the source's stem and ends with the extension |
| `Video.OutPathFor` | compress_mute_video.py:12-20 | no output argument: the generated name beside the source (an error only for a nameless source); an existing directory: the generated name inside it; otherwise the argument itself when it has a suffix, else the generated name inside it |
| `Video.GeneratedNameDiffers` | compress_mute_video.py:14-20 | in every mode the generated name `stem + tag + ext` differs from the source's name |
| `Video.OutputIsSourceOnlyWhenNamed` | compress_mute_video.py:12-20 | the chosen output is the source file only if the source itself was given as the output argument |
| `Video.GeneratedNameSuffix` | compress_mute_video.py:46-48 | a generated name has suffix ".mp4" in compress and both, and the source's suffix in mute when the source has one |
| `Video.CompressOptionsFlags` | compress_mute_video.py:61-74 | the compress options hold `-c:v libx264`, `-crf 23`, `-c:a aac` and `-b:a 128k`, and neither `-an` nor `-c copy` |
| `Video.MuteOptionsFlags` | compress_mute_video.py:86-88 | the mute options hold `-c copy` and `-an`, and neither `-c:a aac` nor `-c:v libx264` |
| `Video.BothOptionsFlags` | compress_mute_video.py:100-110 | the compress-and-mute options hold `-c:v libx264`, `-crf 23` and `-an`, and neither `-c:a aac` nor `-c copy` |
| `Video.ModeOptions` | compress_mute_video.py:52-112 | `-an` only in mute and both; `-c:a aac -b:a 128k` only in compress; `-c copy` only in mute; `-c:v libx264 -crf 23` in compress and both |
| `Video.Command` | compress_mute_video.py:52-112 | every command starts `ffmpeg -hide_banner -loglevel error -y -i <src>`, ends with `<out>`, and carries exactly the mode's options in between |
| `Video.PlanJob` | compress_mute_video.py:45-112 | the command reads the rendered source and writes the rendered output; the output is the source only when named explicitly; with no output argument it ends in ".mp4" in compress and both and keeps the source's suffix in mute when the source has one |

## Left out

- Imaging library calls (`Image.open`, `Image.new`, `convert`, `getdata`/`putdata`, `paste`, `save`): library code; images are inputs, the canvas, pastes and save are recorded as effects, and pixel compositing by `paste` and mode conversion are not modelled.
- Parsing of colour names for the spacing colour: done by the imaging library; the colour is kept as the given string.
- Default argument values of `combine_images` (`mode='horizontal'`, `spacing=0`, `spacing_color='transparent'`, `no_background=False`): the model takes every argument explicitly; the only call in the script passes all six.
- Trimming: mentioned only in the header comment of bip.py, never implemented.
- Checking that later images share the first image's size: the code does not do it; the cell size comes from the first image only and the first image's presence is a precondition (`images[0]`).
- Compositor.CombineImages: the effect list assumes every imaging-library call succeeds; the library raising partway through (on a negative canvas size, which only a negative spacing can produce, on an unknown colour name at `Image.new`, or on an unsupported extension or mode at `save`) is not modelled, and the effects listed after such a call would not happen.
- The hardcoded invocation at the end of bip.py: fixed example paths, no behaviour of its own.
- Command-line parsing, the `ffmpeg` lookup, `sys.exit`, the existence check of the source, `mkdir`, running the process and printing in `main`: process and filesystem plumbing; `PlanJob` starts from a source known to exist.
- `Path.resolve`: the source and the output argument are taken as already absolute and normalised.
- Paths.WithName: does not model pathlib rejecting an invalid new name (one containing a separator, or empty); the generated names are single components.
- Windows paths and drive letters: the path model is POSIX.
- Paths.Render: path components are not restricted; distinct path values whose components are empty, `.`, `..` or contain `/` can render to the same string, so the no-overwrite guarantee is about path values and carries over to ffmpeg's arguments only for well-formed components.
