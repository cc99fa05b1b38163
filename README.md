# giftotfx: the terminal text renderer of ansi.go, in Dafny

giftotfx turns the frames of an animated GIF into one text file of
terminal escape sequences. Each pixel becomes a cell: an SGR escape that
sets the background and foreground to the pixel's colour, then a glyph
chosen by the pixel's brightness. This project models the rendering
pipeline of `ansi.go` and proves properties of it. The pipeline covers
the constants, `getChar`, `getRGBEscape`, `imageToText`, and the frame
loop of `main`.

Modules, leaves first:

- `Bytes` (bytes.dfy): bytes, `Option`, and UTF-8. Go string literals are
  their UTF-8 bytes, and `string(b)` of a byte `b` is the UTF-8 encoding of
  the code point `b`. `EncodeRune` is proved against a reference decoder.
- `Fmt` (fmt.dfy): the `%d` verb (minimal decimal) and `fmt.Sprintf` over
  formats whose verbs are all `%d`.
- `Sgr` (sgr.dfy): ECMA-48 SGR control sequences `ESC [ p1;...;pn m`, a
  reference parser for them, and the meaning of the parameters the
  renderer writes: direct colours 38;2;r;g;b and 48;2;r;g;b.
- `Ansi` (ansi.dfy): the constants, `getChar` and `getRGBEscape`.
- `Render` (render.dfy): `imageToText` as a method with the same nested
  loops, proved against the specification functions `Rows`, `Cells` and
  `Trim`. The layout lemmas take the per-pixel text and the row end as
  parameters, so they hold for any cell text; `Render` then instantiates
  them with the real ones.
- `Animation` (animation.dfy): lines 78-92 of `main`. A method fills an
  array with the resized frames, then accumulates the output over the
  frames. It is proved against `Animation(Resized(frames, resize))`.

Three details of `ansi.go` shape the model:

- `CHARS` looks like a short alphabet but is eight bytes. Its literal is
  the text "â€Ž " (four characters, UTF-8 bytes c3 a2 e2 82 ac c5 bd 20),
  and `getChar` indexes it by byte. So the index is
  `int(brightness * 7)`, and the glyph is the UTF-8 encoding of that byte
  taken as a code point: one byte (the space) or two. Brightness in
  [3/7, 4/7) selects 0x82, whose glyph c2 82 is U+0082, a C1 control code
  rather than a printable character.
- The index is not clamped: out of range, `CHARS[index]` panics. The
  model's `GetChar` requires the index to be in range, and
  `InAlphabetExactly` says for which brightness values it is.
- The trim cuts 14 bytes, one more than the 13-byte row end ("\n" and
  "<<sleep(3)>>"). It removes the last byte of the last glyph too. The
  model cuts 14, and `LastGlyphCut` states what that leaves.

A panic of the Go program becomes `None`:

- a short text in `text[:len(text)-14]` makes `ImageToText` return `None`;
- `Animate` then returns `None`, and the program writes no file.

## Model

| member | source | states |
|---|---|---|
| Ansi.CharsBytes | ansi.go:14 | CHARS is the 8 UTF-8 bytes c3 a2 e2 82 ac c5 bd 20 of its literal, so `len(CHARS)` is 8 |
| Ansi.ControlLiterals | ansi.go:15-23 | RESET_CURSOR, HIDE_CURSOR and RESET_DISPLAY are the concatenations of ESC, CSI and the literals ansi.go gives; SGR_END is empty, so RESET_DISPLAY is ESC [ 0 ESC [ 2 J, with no 'm'; ESC is the single byte 0x1B that begins every control sequence |
| Ansi.ControlLengths | ansi.go:21-23 | RESET_CURSOR and HIDE_CURSOR take 6 bytes each, RESET_DISPLAY 7 |
| Render.RowEndLiterals | ansi.go:50-51 | the bytes appended after a row are those of the literals "\n" and "<<sleep(3)>>" |
| Render.RowEndParts | ansi.go:50-51 | a row end is the 1-byte newline followed by the 12-byte marker: 13 bytes |
| Ansi.Trunc | ansi.go:27 | `int(x)` truncates toward zero: for x ≥ 0 the result is the largest integer not above x, and for x < 0 the smallest not below it |
| Ansi.InAlphabetExactly | ansi.go:27-28 | `CHARS[index]` is in range exactly for brightness in (-1/7, 8/7); for brightness in [0, 1] the index lies in [0, 7] |
| Ansi.GetChar | ansi.go:26-29 | the glyph decodes as UTF-8 to exactly one rune, the code point CHARS[index], using all its bytes; it has 1 byte when that byte is below 0x80 and 2 otherwise |
| Ansi.GlyphExtremes | ansi.go:26-29 | brightness 0 selects CHARS[0] (glyph c3 83) and brightness 1 selects the last byte of CHARS (the space), in exact arithmetic |
| Ansi.C1Glyph | ansi.go:26-29 | the code point CHARS[index] is a C1 control exactly for brightness in [3/7, 4/7), where the glyph is c2 82 (U+0082) |
| Ansi.GlyphIndexMonotone | ansi.go:27 | a brighter pixel never selects an earlier index |
| Ansi.GlyphBytes | ansi.go:28 | no byte of a glyph is a C0 control byte, in particular no line feed and no ESC: each is at least 0x20 |
| Bytes.DecodeEncodeRune | ansi.go:28 | decoding the UTF-8 encoding of any scalar value gives it back with its length, whatever follows |
| Bytes.Utf8Append | ansi.go:14-23 | the bytes of a concatenation of literals are the concatenation of their bytes |
| Fmt.Dec | ansi.go:32 | `%d` writes a canonical numeral (digits only, no leading zero) of Digits(n) digits |
| Fmt.ValueOfDec | ansi.go:32 | reading back the numeral `%d` writes gives the number |
| Fmt.DecOfValue | ansi.go:32 | every canonical numeral is what `%d` writes for its value, so `%d` is a bijection onto canonical numerals |
| Fmt.FormatText | ansi.go:32 | Sprintf copies verb-free text as its UTF-8 bytes |
| Fmt.FormatVerb | ansi.go:32 | a `%d` verb consumes the next argument and writes it in decimal |
| Ansi.GetRGBEscape | ansi.go:31-33 | the escape is the SGR sequence 48;2;r;g;b followed by 38;2;r;g;b; it is 20 + 2·(digits of r, g and b) bytes long, between 26 and 38 |
| Ansi.GetRGBEscapeIsSprintf | ansi.go:32 | the escape is exactly `fmt.Sprintf` of the format literal with arguments r, g, b, r, g, b |
| Sgr.SequencesRoundTrip | ansi.go:32 | the reference parser reads any run of SGR sequences written in minimal decimal back into their parameter lists, in order |
| Ansi.RgbEscapeRoundTrip | ansi.go:32 | parsing the escape gives back [48,2,r,g,b] and [38,2,r,g,b]: the six decimal fields are r, g, b, r, g, b |
| Ansi.RgbEscapeSetsBothColours | ansi.go:32 | from any rendition state, the escape leaves background and foreground both set to (r, g, b) |
| Ansi.EscapeBytes | ansi.go:32 | the escape holds only ESC and printable ASCII bytes |
| Ansi.EscapeColours | ansi.go:32 | every ESC in the escape begins a colour selector: "[48;" or "[38;" follows it |
| Render.ChannelFitsByte | ansi.go:41-47 | a 16-bit channel shifted right by 8 is at most 255, so its `uint8` conversion loses nothing |
| Render.Brightness | ansi.go:45 | for 8-bit channels the brightness lies in [0, 1] |
| Render.BrightnessExtremes | ansi.go:45 | in exact arithmetic, black has brightness 0 and white has brightness 1 |
| Render.BrightnessMonotone | ansi.go:45 | more of any channel never gives a lower brightness |
| Render.CellBrightness | ansi.go:41-46 | the brightness of any 16-bit pixel is in [0, 1] and its glyph index is in range, so getChar never panics inside imageToText |
| Render.PixelText | ansi.go:41-48 | the inner loop body (shift each channel, brightness, glyph, escape, join) writes CellText of the pixel |
| Render.CellShape | ansi.go:46-48 | a cell is its escape followed by its glyph (SGR_END is empty) and takes 27 to 40 bytes |
| Render.CellMeaning | ansi.go:41-48 | a cell parses as the two SGR sequences of the shifted channels, sets both colours to them, then holds the one rune CHARS[index] for the brightness of the same shifted channels |
| Render.CellLastByte | ansi.go:48 | a cell ends in a byte of at least 0x20 |
| Render.CellLineFeeds | ansi.go:48 | a cell holds no line feed |
| Render.ImageToText | ansi.go:34-55 | the method's result is FrameText(img): the rows in order, each its cells in order followed by "\n" and the marker, with the last 14 bytes cut off; None exactly where that slice panics |
| Render.RowsLength | ansi.go:39-52 | a text of m rows built from cells of at least lo bytes and an end of k bytes is at least (lo·width + k)·m bytes long; with no pixels it is exactly k·m |
| Render.UntrimmedLength | ansi.go:39-52 | the built text is at least (27·width + 13)·height bytes long, and exactly 13·height when width is 0 |
| Render.FramePanics | ansi.go:53 | the slice panics exactly when the frame has no rows, or one row of no pixels |
| Render.LastGlyphCut | ansi.go:50-53 | for a frame with a pixel, the result is everything up to the last pixel's escape plus its glyph minus the glyph's last byte; of a two-byte glyph a lone lead byte remains, which does not decode |
| Render.FrameLines | ansi.go:50-53 | the result of a frame that renders holds height − 1 line feeds: the last row's one is cut with its row end |
| Render.CellPlacement | ansi.go:39-49 | the text of pixel (x, y) sits in the built text at Offset(x, y): after the rows above it and the cells before it in its row |
| Render.RowMajor | ansi.go:39-40 | pixels are written in row-major order: an earlier pixel in a row, or any pixel of an earlier row, ends before a later one starts |
| Render.FrameEscapes | ansi.go:34-55 | every ESC in the text of a frame begins a colour selector "[48;" or "[38;": the 14-byte cut never splits an escape, and a frame holds no cursor or display control |
| Animation.Resized | ansi.go:80-83 | resizedFrames has as many entries as there are frames, and entry i is frame i resized to 80 by 24 |
| Animation.ResizeAll | ansi.go:80-83 | the loop fills a new array whose contents are Resized(frames, resize) |
| Animation.TextsMeaning | ansi.go:87-90 | the frame loop yields texts exactly when the renderer succeeds on every frame, and then text i is the text of frame i |
| Animation.FrameTextsMeaning | ansi.go:87-90 | the same for imageToText: the texts exist exactly when no frame panics, and text i is imageToText of frame i |
| Animation.Animate | ansi.go:78-92 | the method's result is Animation(Resized(frames, resize)): HIDE_CURSOR, then for each frame in order RESET_CURSOR and its text, then RESET_DISPLAY; None when imageToText panics on a frame |
| Animation.AnimationLength | ansi.go:85-92 | the output is 6 + Σ(6 + length of text i) + 7 bytes long |
| Animation.AnimationFrame | ansi.go:85-90 | RESET_CURSOR and the text of frame i sit right after HIDE_CURSOR and the 6 + length bytes of each earlier frame |
| Animation.AnimationEnds | ansi.go:85-92 | the output opens with HIDE_CURSOR and closes with RESET_DISPLAY |
| Animation.FrameOffsetsIncrease | ansi.go:87-90 | an earlier frame starts at a smaller offset than a later one, so each frame has its own |
| Animation.HideCursorOnce | ansi.go:85-92 | HIDE_CURSOR occurs in the output exactly once, at its start |
| Animation.ResetCursorPerFrame | ansi.go:87-90 | RESET_CURSOR occurs in the output exactly at the offsets where the frames begin, and nowhere else |
| Animation.ResetDisplayOnce | ansi.go:85-92 | RESET_DISPLAY occurs in the output exactly once, at its end |
| Animation.AnimationPanics | ansi.go:87-90 | the animation fails exactly when some frame has no rows, or one row of no pixels |
| Animation.ScreenSizeRenders | ansi.go:82-90 | when resizeImage returns 80-by-24 frames, as main asks it to, no frame panics and the animation is produced |

## Left out

- Argument handling, `os.Open`, `gif.DecodeAll`, `ioutil.WriteFile` and the
  messages `main` prints (ansi.go:58-77, 94-99) are I/O. The model starts
  from the decoded frames and ends with the text `main` would write.
- `resizeImage` (ansi.go:102-108) wraps the Lanczos3 filter of
  `nfnt/resize` and `image/draw`, which are foreign libraries. It is the
  parameter `resize` of `Animate`; no property of its filter is claimed,
  and `ScreenSizeRenders` assumes only the size of what it returns.
- Floating point: the brightness formula (ansi.go:45) and the product in
  `getChar` (ansi.go:27) are computed on exact reals. A pixel whose exact
  brightness is k/7 lies on an index boundary, and there the float64
  program may pick index k − 1 or k, depending on the platform: Go lets
  the compiler fuse `x*y + z` into one multiply-add. Where it does not
  fuse (amd64 by default), white's brightness is just below 1, so
  `int(br*7)` is 6 and the glyph is c2 bd ("½"); where it fuses, white can
  come out at exactly 1 and render as the space. The model always picks
  index k at a boundary.
- `image.Image`: `Bounds().Max` is taken as width and height with the
  minimum at (0, 0). `At(x, y).RGBA()` is a total function giving four
  16-bit channels; colour models and alpha premultiplication are not
  modelled.
- `fmt.Sprintf` is modelled for `%d` verbs with unsigned arguments only,
  which is all `getRGBEscape` uses. Other verbs and surplus arguments
  (`%!(EXTRA ...)`) are not.
- Panics are values: where Go would crash the program, the model returns
  `None`. The runtime error message is not modelled.
- Ansi.GetChar: requires the index to be in range. Go panics there
  instead; the only caller, imageToText, always passes a brightness in
  [0, 1] (`CellBrightness`), where the index is in range.
- Ansi.GetRGBEscape: its body writes the bytes out directly rather than
  calling `Format`. This is not weaker: `GetRGBEscapeIsSprintf` proves it
  equal to the Sprintf call for all inputs.
- `CHA_END` (ansi.go:18) is declared but used nowhere in `ansi.go`; it is
  modelled as a constant only.
- The quadratic cost of repeated string concatenation does not change the
  output and is not modelled.
