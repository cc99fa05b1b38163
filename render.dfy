/** imageToText of ansi.go: one frame becomes one block of text, cell by cell
    in row-major order, each row followed by a newline and the placeholder
    "<<sleep(3)>>", with the last 14 bytes cut off at the end. */
module Render {
  import opened Bytes
  import opened Fmt
  import opened Ansi

  type uint16 = c: int | 0 <= c < 0x1_0000

  /** What `At(x, y).RGBA()` returns: 16-bit channels (alpha is not used). */
  datatype Rgba64 = Rgba64(r: uint16, g: uint16, b: uint16, a: uint16)

  /** A frame as imageToText sees it: the Max corner of its bounds as width
      and height, and the colour at every point. Go's `At` is total, so `at`
      is a total function. */
  datatype Image = Image(width: nat, height: nat, at: (int, int) -> Rgba64)

  /** Go's conversion `uint8(v)` keeps the low eight bits. */
  function Uint8(v: nat): byte {
    v % 256
  }

  /** A 16-bit channel shifted right by 8 fits in a byte, so the `uint8`
      conversion feeding the escape loses nothing: the escape and the
      brightness see the same value. */
  lemma ChannelFitsByte(c: uint16)
    ensures c / 256 <= 255 && Uint8(c / 256) == c / 256
  {
  }

  /** The brightness formula of imageToText, in exact arithmetic. For 8-bit
      channels it lies in [0, 1]. */
  function Brightness(r: nat, g: nat, b: nat): (br: real)
    ensures r <= 255 && g <= 255 && b <= 255 ==> 0.0 <= br <= 1.0
  {
    (0.2126 * r as real + 0.7152 * g as real + 0.0722 * b as real) / 255.0
  }

  /** Black is brightness 0 and white is brightness 1, since the weights sum to 1. */
  lemma BrightnessExtremes()
    ensures Brightness(0, 0, 0) == 0.0
    ensures Brightness(255, 255, 255) == 1.0
  {
  }

  /** More of any channel is never darker. */
  lemma BrightnessMonotone(r: nat, g: nat, b: nat, r': nat, g': nat, b': nat)
    requires r <= r' && g <= g' && b <= b'
    ensures Brightness(r, g, b) <= Brightness(r', g', b')
  {
  }

  /** The escape of one pixel: its channels after `>>= 8`, converted to uint8. */
  function CellEscape(p: Rgba64): seq<byte> {
    GetRGBEscape(Uint8(p.r / 256), Uint8(p.g / 256), Uint8(p.b / 256))
  }

  /** The brightness of one pixel, from the same shifted channels. */
  function CellBrightness(p: Rgba64): (br: real)
    ensures 0.0 <= br <= 1.0 && InAlphabet(br)
  {
    var br := Brightness(p.r / 256, p.g / 256, p.b / 256);
    InAlphabetExactly(br);
    br
  }

  /** The glyph of one pixel. */
  function CellGlyph(p: Rgba64): seq<byte> {
    GetChar(CellBrightness(p))
  }

  /** What imageToText appends for one pixel: `fgEscape + glyph + SGR_END`. */
  function CellText(p: Rgba64): seq<byte> {
    CellEscape(p) + CellGlyph(p) + SGR_END
  }

  /** What imageToText appends after each row: "\n" and then "<<sleep(3)>>". */
  const NEWLINE: seq<byte> := [0x0A]
  const SLEEP_MARKER: seq<byte> := [60, 60, 115, 108, 101, 101, 112, 40, 51, 41, 62, 62]
  const ROW_END: seq<byte> := NEWLINE + SLEEP_MARKER

  /** A row end is 13 bytes: the newline and the 12-byte marker. */
  lemma RowEndParts()
    ensures |NEWLINE| == 1 && |SLEEP_MARKER| == 12 && |ROW_END| == 13
  {
  }

  /** NEWLINE and SLEEP_MARKER are the bytes of the Go literals "\n" and "<<sleep(3)>>". */
  lemma RowEndLiterals()
    ensures NEWLINE == Utf8("\n") && SLEEP_MARKER == Utf8("<<sleep(3)>>")
  {
    Utf8Ascii("\n");
    AsciiLiteral("<<sleep(3)>>", SLEEP_MARKER);
  }

  lemma AsciiLiteral(t: string, bs: seq<byte>)
    requires IsAscii(t) && |bs| == |t|
    requires forall i :: 0 <= i < |t| ==> bs[i] == t[i] as int
    ensures Utf8(t) == bs
  {
    Utf8Ascii(t);
  }

  /** How many bytes imageToText cuts off at the end. */
  const TRIM: nat := 14

  /** The first n cells of row y, each pixel written by `cell`. The layout
      functions and their lemmas take the text of a pixel and the text after
      a row as parameters, so that the layout is proved once for any cell
      text and any row end; imageToText uses CellText and ROW_END. */
  function Cells(img: Image, cell: Rgba64 -> seq<byte>, y: int, n: nat): seq<byte> {
    if n == 0 then [] else Cells(img, cell, y, n - 1) + cell(img.at(n - 1, y))
  }

  /** The first m rows, each followed by `end`. */
  function Rows(img: Image, cell: Rgba64 -> seq<byte>, end: seq<byte>, m: nat): seq<byte> {
    if m == 0 then [] else Rows(img, cell, end, m - 1) + Cells(img, cell, m - 1, img.width) + end
  }

  /** The text imageToText has built when its loops end. */
  function Untrimmed(img: Image): seq<byte> {
    Rows(img, CellText, ROW_END, img.height)
  }

  /** imageToText's result; None where `text[:len(text)-14]` panics because
      the built text is shorter than 14 bytes. */
  function FrameText(img: Image): Option<seq<byte>> {
    Trim(Untrimmed(img))
  }

  /** `s[:len(s)-14]`; None where it panics because s is shorter than 14 bytes. */
  function Trim(s: seq<byte>): Option<seq<byte>>
  {
    if |s| < TRIM then None else Some(s[..|s| - TRIM])
  }

  /** One more cell of a row. */
  lemma CellsStep(img: Image, cell: Rgba64 -> seq<byte>, y: int, x: nat)
    ensures Cells(img, cell, y, x + 1) == Cells(img, cell, y, x) + cell(img.at(x, y))
  {
  }

  lemma CellsStepLength(img: Image, cell: Rgba64 -> seq<byte>, y: int, x: nat)
    ensures |Cells(img, cell, y, x + 1)| == |Cells(img, cell, y, x)| + |cell(img.at(x, y))|
  {
  }

  /** One more row. */
  lemma RowsStep(img: Image, cell: Rgba64 -> seq<byte>, end: seq<byte>, y: nat)
    ensures Rows(img, cell, end, y + 1) == Rows(img, cell, end, y) + Cells(img, cell, y, img.width) + end
  {
  }

  lemma RowsStepLength(img: Image, cell: Rgba64 -> seq<byte>, end: seq<byte>, y: nat)
    ensures |Rows(img, cell, end, y + 1)| == |Rows(img, cell, end, y)| + |Cells(img, cell, y, img.width)| + |end|
  {
  }

  /** The loop body of imageToText computes CellText of the pixel. */
  lemma CellParts(p: Rgba64, r: nat, g: nat, b: nat, brightness: real, glyph: seq<byte>, fgEscape: seq<byte>)
    requires r == p.r / 256 && g == p.g / 256 && b == p.b / 256
    requires brightness == Brightness(r, g, b) && InAlphabet(brightness)
    requires r <= 255 && g <= 255 && b <= 255
    requires glyph == GetChar(brightness)
    requires fgEscape == GetRGBEscape(Uint8(r), Uint8(g), Uint8(b))
    ensures fgEscape + glyph + SGR_END == CellText(p)
  {
  }

  /** The body of imageToText's inner loop for the pixel p: shift each
      16-bit channel right by 8, pick the glyph from the brightness and the
      escape from the same channels, and join escape, glyph and SGR_END. */
  method PixelText(p: Rgba64) returns (cell: seq<byte>)
    ensures cell == CellText(p)
  {
    var r, g, b := p.r, p.g, p.b;
    r := r / 256;
    g := g / 256;
    b := b / 256;
    var brightness := Brightness(r, g, b);
    InAlphabetExactly(brightness);
    var glyph := GetChar(brightness);
    var fgEscape := GetRGBEscape(Uint8(r), Uint8(g), Uint8(b));
    cell := fgEscape + glyph + SGR_END;
    CellParts(p, r, g, b, brightness, glyph, fgEscape);
  }

  lemma FrameTextOf(img: Image, s: seq<byte>)
    requires s == Untrimmed(img)
    ensures |s| < TRIM ==> FrameText(img) == None
    ensures |s| >= TRIM ==> FrameText(img) == Some(s[..|s| - TRIM])
  {
  }

  /** One step of the inner loop: the cell of pixel (x, y) extends the row. */
  lemma AppendCellStep(img: Image, cell: Rgba64 -> seq<byte>, end: seq<byte>, y: nat, x: nat, s: seq<byte>, c: seq<byte>)
    requires s == Rows(img, cell, end, y) + Cells(img, cell, y, x) && c == cell(img.at(x, y))
    ensures s + c == Rows(img, cell, end, y) + Cells(img, cell, y, x + 1)
  {
    CellsStep(img, cell, y, x);
  }

  /** The end of a row closes row y. */
  lemma AppendRowStep(img: Image, cell: Rgba64 -> seq<byte>, end: seq<byte>, y: nat, s: seq<byte>)
    requires s == Rows(img, cell, end, y) + Cells(img, cell, y, img.width)
    ensures s + end == Rows(img, cell, end, y + 1)
  {
    RowsStep(img, cell, end, y);
  }

  /** Appending "\n" and then the marker appends ROW_END. */
  lemma AppendRowEnd(s: seq<byte>)
    ensures s + NEWLINE + SLEEP_MARKER == s + ROW_END
  {
    RowEndParts();
  }

  /** imageToText: the text of the frame, or None where the final slice
      panics. */
  method ImageToText(img: Image) returns (text: Option<seq<byte>>)
    ensures text == FrameText(img)
  {
    ghost var cellText, rowEnd := CellText, ROW_END;
    var s: seq<byte> := [];
    var y := 0;
    while y < img.height
      invariant 0 <= y <= img.height
      invariant s == Rows(img, cellText, rowEnd, y)
    {
      var x := 0;
      assert s == Rows(img, cellText, rowEnd, y) + Cells(img, cellText, y, 0);
      while x < img.width
        invariant 0 <= x <= img.width
        invariant s == Rows(img, cellText, rowEnd, y) + Cells(img, cellText, y, x)
      {
        var cell := PixelText(img.at(x, y));
        AppendCellStep(img, cellText, rowEnd, y, x, s, cell);
        s := s + cell;
        x := x + 1;
      }
      AppendRowStep(img, cellText, rowEnd, y, s);
      AppendRowEnd(s);
      s := s + NEWLINE;
      s := s + SLEEP_MARKER;
      y := y + 1;
    }
    FrameTextOf(img, s);
    if |s| < TRIM {
      return None;
    }
    text := Some(s[..|s| - TRIM]);
  }

  // ---------------------------------------------------------------------
  // Properties of one cell

  /** SGR_END is empty, so a cell is its escape followed by its glyph; it
      takes between 27 and 40 bytes. */
  lemma CellShape(p: Rgba64)
    ensures CellText(p) == CellEscape(p) + CellGlyph(p)
    ensures 27 <= |CellText(p)| <= 40
  {
    assert SGR_END == [];
  }

  /** A cell sets both colours to the pixel's channels shifted right by 8,
      then writes the one rune that CHARS holds at the index chosen by the
      brightness of those same channels. */
  lemma CellMeaning(p: Rgba64, pen: Sgr.Pen)
    ensures var r, g, b := p.r / 256, p.g / 256, p.b / 256;
      var e := CellEscape(p);
      CellText(p) == e + CellGlyph(p) &&
      Sgr.ParseAll(e) == Some([[48, 2, r, g, b], [38, 2, r, g, b]]) &&
      Sgr.ApplyAll(pen, Sgr.ParseAll(e).value) == Sgr.Pen(Some((r, g, b)), Some((r, g, b))) &&
      DecodeRune(CellGlyph(p)) == Some((CHARS[GlyphIndex(Brightness(r, g, b))], |CellGlyph(p)|))
  {
    CellShape(p);
    ChannelFitsByte(p.r);
    ChannelFitsByte(p.g);
    ChannelFitsByte(p.b);
    var r, g, b := p.r / 256, p.g / 256, p.b / 256;
    RgbEscapeRoundTrip(r, g, b);
    RgbEscapeSetsBothColours(pen, r, g, b);
  }

  /** The last byte of a cell is the last byte of its glyph, not a line feed. */
  lemma CellLastByte(p: Rgba64)
    ensures |CellText(p)| >= 1 && CellText(p)[|CellText(p)| - 1] >= 0x20
  {
    CellShape(p);
    GlyphBytes(CellBrightness(p));
    var g := CellGlyph(p);
    assert CellText(p)[|CellText(p)| - 1] == g[|g| - 1];
  }

  /** Number of line feeds in s. */
  function LineFeeds(s: seq<byte>): nat {
    if |s| == 0 then 0 else LineFeeds(s[..|s| - 1]) + (if s[|s| - 1] == 0x0A then 1 else 0)
  }

  lemma {:induction false} LineFeedsAppend(a: seq<byte>, b: seq<byte>)
    ensures LineFeeds(a + b) == LineFeeds(a) + LineFeeds(b)
  {
    if |b| == 0 {
      assert a + b == a;
    } else {
      assert (a + b)[..|a + b| - 1] == a + b[..|b| - 1];
      LineFeedsAppend(a, b[..|b| - 1]);
    }
  }

  lemma {:induction false} NoLineFeeds(s: seq<byte>)
    requires forall i :: 0 <= i < |s| ==> s[i] != 0x0A
    ensures LineFeeds(s) == 0
  {
    if |s| > 0 {
      NoLineFeeds(s[..|s| - 1]);
    }
  }

  /** A cell never breaks its line. */
  lemma CellLineFeeds(p: Rgba64)
    ensures LineFeeds(CellText(p)) == 0
  {
    CellShape(p);
    var e, g := CellEscape(p), CellGlyph(p);
    EscapeBytes(Uint8(p.r / 256), Uint8(p.g / 256), Uint8(p.b / 256));
    GlyphBytes(CellBrightness(p));
    NoLineFeeds(e);
    NoLineFeeds(g);
    LineFeedsAppend(e, g);
  }

  /** Every cell takes between 27 and 40 bytes. */
  lemma CellTextLengths()
    ensures forall p :: 27 <= |CellText(p)| <= 40
  {
    forall p: Rgba64
      ensures 27 <= |CellText(p)| <= 40
    {
      CellShape(p);
    }
  }

  /** No cell holds a line feed, and none is empty. */
  lemma CellTextLines()
    ensures forall p :: |CellText(p)| >= 1 && CellText(p)[|CellText(p)| - 1] != 0x0A && LineFeeds(CellText(p)) == 0
  {
    forall p: Rgba64
      ensures |CellText(p)| >= 1 && CellText(p)[|CellText(p)| - 1] != 0x0A && LineFeeds(CellText(p)) == 0
    {
      CellLastByte(p);
      CellLineFeeds(p);
    }
  }

  /** A row end holds one line feed, at its start. */
  lemma RowEndLineFeed()
    ensures ROW_END[0] == 0x0A && LineFeeds(ROW_END) == 1
  {
    NoLineFeeds(SLEEP_MARKER);
    LineFeedsAppend(NEWLINE, SLEEP_MARKER);
  }

  // ---------------------------------------------------------------------
  // Length of a frame, and when imageToText panics

  lemma MulStep(k: nat, m: nat)
    requires m >= 1
    ensures k * m == k * (m - 1) + k
  {
  }

  lemma {:induction false} CellsLength(img: Image, cell: Rgba64 -> seq<byte>, y: int, n: nat, lo: nat)
    requires forall p :: |cell(p)| >= lo
    ensures |Cells(img, cell, y, n)| >= lo * n
  {
    if n > 0 {
      CellsLength(img, cell, y, n - 1, lo);
      CellsStepLength(img, cell, y, n - 1);
      assert |cell(img.at(n - 1, y))| >= lo;
      MulStep(lo, n);
    }
  }

  /** Each row takes k bytes for its end and at least lo per pixel; a
      row of no pixels takes exactly k. */
  lemma {:induction false} RowsLength(img: Image, cell: Rgba64 -> seq<byte>, end: seq<byte>, m: nat, lo: nat, k: nat)
    requires forall p :: |cell(p)| >= lo
    requires |end| == k
    ensures |Rows(img, cell, end, m)| >= (lo * img.width + k) * m
    ensures img.width == 0 ==> |Rows(img, cell, end, m)| == k * m
  {
    if m > 0 {
      RowsLength(img, cell, end, m - 1, lo, k);
      RowsStepLength(img, cell, end, m - 1);
      CellsLength(img, cell, m - 1, img.width, lo);
      MulStep(lo * img.width + k, m);
      MulStep(k, m);
    }
  }

  /** The built text of a frame takes at least 27 bytes per pixel and 13
      per row. */
  lemma UntrimmedLength(img: Image)
    ensures |Untrimmed(img)| >= (27 * img.width + 13) * img.height
    ensures img.width == 0 ==> |Untrimmed(img)| == 13 * img.height
  {
    CellTextLengths();
    RowEndParts();
    RowsOfCells(img, CellText, ROW_END);
  }

  lemma RowsOfCells(img: Image, cell: Rgba64 -> seq<byte>, end: seq<byte>)
    requires forall p :: |cell(p)| >= 27
    requires |end| == 13
    ensures |Rows(img, cell, end, img.height)| >= (27 * img.width + 13) * img.height
    ensures img.width == 0 ==> |Rows(img, cell, end, img.height)| == 13 * img.height
  {
    RowsLength(img, cell, end, img.height, 27, 13);
  }

  /** With a 13-byte row end and non-empty cells, cutting 14 bytes fails
      exactly for no rows, and for one row of no pixels. */
  lemma PanicsIn(img: Image, cell: Rgba64 -> seq<byte>, end: seq<byte>)
    requires |end| == 13 && forall p :: |cell(p)| >= 1
    ensures Trim(Rows(img, cell, end, img.height)).None? <==> img.height == 0 || (img.width == 0 && img.height == 1)
  {
    var h := img.height;
    if h >= 1 {
      RowsStepLength(img, cell, end, 0);
      RowsLonger(img, cell, end, 1, h);
      if img.width >= 1 {
        CellsLength(img, cell, 0, img.width, 1);
      } else if h >= 2 {
        RowsStepLength(img, cell, end, 1);
        RowsLonger(img, cell, end, 2, h);
      }
    }
  }

  /** `text[:len(text)-14]` panics exactly for a frame of no rows, and for a
      frame of one row of no pixels (13 bytes); every other frame renders. */
  lemma FramePanics(img: Image)
    ensures FrameText(img).None? <==> img.height == 0 || (img.width == 0 && img.height == 1)
  {
    CellTextLengths();
    RowEndParts();
    PanicsIn(img, CellText, ROW_END);
  }

  /** Cutting 14 bytes off `a + g + z`, where z is a row end, keeps a and
      all of g but its last byte. */
  lemma CutFourteen(a: seq<byte>, g: seq<byte>, z: seq<byte>)
    requires |g| >= 1 && |z| == 13
    ensures Trim(a + g + z) == Some(a + g[..|g| - 1])
  {
    var u := a + g + z;
    assert u[..|u| - 14] == a + g[..|g| - 1];
  }

  /** A run of rows of at least one pixel ends with the last pixel's cell
      and the last row end. */
  lemma RowsEnd(img: Image, cell: Rgba64 -> seq<byte>, end: seq<byte>)
    requires img.width >= 1 && img.height >= 1
    ensures Rows(img, cell, end, img.height) ==
      Rows(img, cell, end, img.height - 1) + Cells(img, cell, img.height - 1, img.width - 1) +
      cell(img.at(img.width - 1, img.height - 1)) + end
  {
    RowsStep(img, cell, end, img.height - 1);
    CellsStep(img, cell, img.height - 1, img.width - 1);
  }

  lemma CutLastCell(before: seq<byte>, c: seq<byte>, e: seq<byte>, g: seq<byte>, end: seq<byte>)
    requires c == e + g && |g| >= 1 && |end| == 13
    ensures Trim(before + c + end) == Some(before + e + g[..|g| - 1])
  {
    assert before + c + end == (before + e) + g + end;
    CutFourteen(before + e, g, end);
  }

  /** imageToText cuts the row end of the last row and one byte more: the
      last byte of the last pixel's glyph. A one-byte glyph (the space)
      disappears; of a two-byte glyph there is left a lead byte on its own,
      which is not valid UTF-8. */
  lemma LastGlyphCut(img: Image)
    requires img.width >= 1 && img.height >= 1
    ensures var last := img.at(img.width - 1, img.height - 1);
      var g := CellGlyph(last);
      FrameText(img) == Some(Rows(img, CellText, ROW_END, img.height - 1) + Cells(img, CellText, img.height - 1, img.width - 1) + CellEscape(last) + g[..|g| - 1]) &&
      (|g| == 2 ==> DecodeRune(g[..1]) == None)
  {
    var last := img.at(img.width - 1, img.height - 1);
    var before := Rows(img, CellText, ROW_END, img.height - 1) + Cells(img, CellText, img.height - 1, img.width - 1);
    RowsEnd(img, CellText, ROW_END);
    CellShape(last);
    RowEndParts();
    CutLastCell(before, CellText(last), CellEscape(last), CellGlyph(last), ROW_END);
  }

  // ---------------------------------------------------------------------
  // Lines of a frame

  lemma {:induction false} CellsLineFeeds(img: Image, cell: Rgba64 -> seq<byte>, y: int, n: nat)
    requires forall p :: LineFeeds(cell(p)) == 0
    ensures LineFeeds(Cells(img, cell, y, n)) == 0
  {
    if n > 0 {
      CellsLineFeeds(img, cell, y, n - 1);
      CellsStep(img, cell, y, n - 1);
      LineFeedsAppend(Cells(img, cell, y, n - 1), cell(img.at(n - 1, y)));
    }
  }

  /** Each row ends in exactly one line feed. */
  lemma {:induction false} RowsLineFeeds(img: Image, cell: Rgba64 -> seq<byte>, end: seq<byte>, m: nat)
    requires forall p :: LineFeeds(cell(p)) == 0
    requires LineFeeds(end) == 1
    ensures LineFeeds(Rows(img, cell, end, m)) == m
  {
    if m > 0 {
      RowsLineFeeds(img, cell, end, m - 1);
      CellsLineFeeds(img, cell, m - 1, img.width);
      RowsStep(img, cell, end, m - 1);
      OneMoreLine(Rows(img, cell, end, m - 1), Cells(img, cell, m - 1, img.width), end, Rows(img, cell, end, m), m - 1);
    } else {
      assert Rows(img, cell, end, 0) == [];
    }
  }

  /** A row without line feeds and an end with one add one line. */
  lemma OneMoreLine(a: seq<byte>, b: seq<byte>, end: seq<byte>, total: seq<byte>, k: nat)
    requires total == a + b + end
    requires LineFeeds(a) == k && LineFeeds(b) == 0 && LineFeeds(end) == 1
    ensures LineFeeds(total) == k + 1
  {
    LineFeedsAppend(a, b);
    LineFeedsAppend(a + b, end);
  }

  /** The last byte of a row end that starts with its only line feed is not a line feed. */
  lemma EndLastByte(end: seq<byte>)
    requires |end| >= 2 && end[0] == 0x0A && LineFeeds(end) == 1
    ensures end[|end| - 1] != 0x0A
  {
    var init := end[..|end| - 1];
    assert init == [0x0A] + init[1..];
    LineFeedsAppend([0x0A], init[1..]);
    assert LineFeeds([0x0A]) == 1 by {
      assert [0x0A][..0] == [];
    }
  }

  /** Without its row end, the last row of a text of rows is not empty and
      does not end in a line feed when there is a pixel or an earlier row:
      it ends either in a cell, or in the row end before it. */
  lemma LastRowBody(img: Image, cell: Rgba64 -> seq<byte>, end: seq<byte>)
    requires img.height >= 1 && (img.width >= 1 || img.height >= 2)
    requires forall p :: |cell(p)| >= 1 && cell(p)[|cell(p)| - 1] != 0x0A
    requires |end| >= 1 && end[|end| - 1] != 0x0A
    ensures var body := Rows(img, cell, end, img.height - 1) + Cells(img, cell, img.height - 1, img.width);
      Rows(img, cell, end, img.height) == body + end && |body| >= 1 && body[|body| - 1] != 0x0A
  {
    var h := img.height;
    RowsStep(img, cell, end, h - 1);
    var body := Rows(img, cell, end, h - 1) + Cells(img, cell, h - 1, img.width);
    if img.width == 0 {
      RowsStep(img, cell, end, h - 2);
      var above := Rows(img, cell, end, h - 2) + Cells(img, cell, h - 2, img.width);
      assert Cells(img, cell, h - 1, 0) == [];
      assert body == above + end;
    } else {
      CellsStep(img, cell, h - 1, img.width - 1);
      var c := cell(img.at(img.width - 1, h - 1));
      var front := Rows(img, cell, end, h - 1) + Cells(img, cell, h - 1, img.width - 1);
      assert body == front + c;
    }
  }

  /** Cutting 14 bytes off `body + end`, for a 13-byte end, drops the end
      and the last byte of body, which is not a line feed. */
  lemma CutLineFeeds(u: seq<byte>, body: seq<byte>, end: seq<byte>)
    requires u == body + end
    requires |body| >= 1 && body[|body| - 1] != 0x0A && |end| == 13
    ensures Trim(u).Some?
    ensures LineFeeds(Trim(u).value) == LineFeeds(body)
  {
    var init, last := body[..|body| - 1], [body[|body| - 1]];
    assert body == init + last;
    CutFourteen(init, last, end);
    assert init + last[..0] == init;
    LineFeedsAppend(init, last);
    assert last[..0] == [];
    assert LineFeeds(last) == 0;
  }

  /** Rows of cells without line feeds, each followed by a 13-byte end that
      starts with its one line feed, lose the last line feed to the cut. */
  lemma LinesIn(img: Image, cell: Rgba64 -> seq<byte>, end: seq<byte>)
    requires img.height >= 1 && (img.width >= 1 || img.height >= 2)
    requires forall p :: |cell(p)| >= 1 && cell(p)[|cell(p)| - 1] != 0x0A && LineFeeds(cell(p)) == 0
    requires |end| == 13 && end[0] == 0x0A && LineFeeds(end) == 1
    ensures Trim(Rows(img, cell, end, img.height)).Some?
    ensures LineFeeds(Trim(Rows(img, cell, end, img.height)).value) == img.height - 1
  {
    var h := img.height;
    var a, b := Rows(img, cell, end, h - 1), Cells(img, cell, h - 1, img.width);
    EndLastByte(end);
    LastRowBody(img, cell, end);
    RowsLineFeeds(img, cell, end, h - 1);
    CellsLineFeeds(img, cell, h - 1, img.width);
    CutLines(Rows(img, cell, end, h), a, b, end, h - 1);
  }

  lemma CutLines(u: seq<byte>, a: seq<byte>, b: seq<byte>, end: seq<byte>, k: nat)
    requires u == a + b + end && |end| == 13
    requires |a + b| >= 1 && (a + b)[|a + b| - 1] != 0x0A
    requires LineFeeds(a) == k && LineFeeds(b) == 0
    ensures Trim(u).Some? && LineFeeds(Trim(u).value) == k
  {
    CutLineFeeds(u, a + b, end);
    LineFeedsAppend(a, b);
  }

  /** The text of a frame that renders has one line feed fewer than the
      frame has rows: the last row's line feed is cut with its row end. */
  lemma FrameLines(img: Image)
    requires FrameText(img).Some?
    ensures LineFeeds(FrameText(img).value) == img.height - 1
  {
    FramePanics(img);
    CellTextLines();
    RowEndParts();
    RowEndLineFeed();
    LinesIn(img, CellText, ROW_END);
  }

  // ---------------------------------------------------------------------
  // Row-major order

  /** Where the text of pixel (x, y) starts in the built text. */
  function Offset(img: Image, x: nat, y: nat): nat {
    |Rows(img, CellText, ROW_END, y)| + |Cells(img, CellText, y, x)|
  }

  lemma {:induction false} CellsGrow(img: Image, cell: Rgba64 -> seq<byte>, y: int, n: nat, m: nat)
    requires n <= m
    ensures Cells(img, cell, y, n) <= Cells(img, cell, y, m)
  {
    if n < m {
      CellsGrow(img, cell, y, n, m - 1);
      CellsStep(img, cell, y, m - 1);
      PrefixTrans(Cells(img, cell, y, n), Cells(img, cell, y, m - 1), Cells(img, cell, y, m));
    }
  }

  lemma {:induction false} RowsGrow(img: Image, cell: Rgba64 -> seq<byte>, end: seq<byte>, n: nat, m: nat)
    requires n <= m
    ensures Rows(img, cell, end, n) <= Rows(img, cell, end, m)
  {
    if n < m {
      RowsGrow(img, cell, end, n, m - 1);
      RowsStep(img, cell, end, m - 1);
      PrefixTrans(Rows(img, cell, end, n), Rows(img, cell, end, m - 1), Rows(img, cell, end, m));
    }
  }

  lemma SliceOfPrefix(a: seq<byte>, c: seq<byte>, w: seq<byte>, u: seq<byte>)
    requires a + c == w && w <= u
    ensures |a| + |c| <= |u| && u[|a|..|a| + |c|] == c
  {
    assert u[..|a| + |c|] == a + c;
  }

  lemma PrefixAppend(p: seq<byte>, a: seq<byte>, b: seq<byte>)
    requires a <= b
    ensures p + a <= p + b
  {
    assert (p + b)[..|p + a|] == p + b[..|a|];
  }

  lemma PrefixTrans(a: seq<byte>, b: seq<byte>, c: seq<byte>)
    requires a <= b && b <= c
    ensures a <= c
  {
    assert c[..|a|] == c[..|b|][..|a|];
  }

  /** A text of rows up to and including the cell of pixel (x, y) is a
      prefix of the text of the rows up to and including row y. */
  lemma CellInRow(img: Image, cell: Rgba64 -> seq<byte>, end: seq<byte>, x: nat, y: nat)
    requires x < img.width
    ensures Rows(img, cell, end, y) + Cells(img, cell, y, x + 1) <= Rows(img, cell, end, y + 1)
  {
    var above, row := Rows(img, cell, end, y), Cells(img, cell, y, img.width);
    RowsStep(img, cell, end, y);
    CellsGrow(img, cell, y, x + 1, img.width);
    PrefixAppend(above, Cells(img, cell, y, x + 1), row);
    PrefixTrans(above + Cells(img, cell, y, x + 1), above + row, above + row + end);
  }

  lemma CellInRows(img: Image, cell: Rgba64 -> seq<byte>, end: seq<byte>, x: nat, y: nat)
    requires x < img.width && y < img.height
    ensures Rows(img, cell, end, y) + Cells(img, cell, y, x + 1) <= Rows(img, cell, end, img.height)
  {
    CellInRow(img, cell, end, x, y);
    RowsGrow(img, cell, end, y + 1, img.height);
    PrefixTrans(Rows(img, cell, end, y) + Cells(img, cell, y, x + 1), Rows(img, cell, end, y + 1), Rows(img, cell, end, img.height));
  }

  /** In a text of rows, the text of pixel (x, y) sits right after the rows
      above it and the cells before it in its row. */
  lemma PlacementIn(img: Image, cell: Rgba64 -> seq<byte>, end: seq<byte>, x: nat, y: nat, u: seq<byte>, o: nat, c: seq<byte>)
    requires x < img.width && y < img.height
    requires u == Rows(img, cell, end, img.height) && o == |Rows(img, cell, end, y)| + |Cells(img, cell, y, x)|
    requires c == cell(img.at(x, y))
    ensures o + |c| <= |u| && u[o..o + |c|] == c
  {
    var a := Rows(img, cell, end, y) + Cells(img, cell, y, x);
    CellInRows(img, cell, end, x, y);
    CellsStep(img, cell, y, x);
    assert a + cell(img.at(x, y)) == Rows(img, cell, end, y) + Cells(img, cell, y, x + 1);
    SliceOfPrefix(a, cell(img.at(x, y)), Rows(img, cell, end, y) + Cells(img, cell, y, x + 1), Rows(img, cell, end, img.height));
  }

  /** The text of pixel (x, y) sits in the built text at Offset(img, x, y). */
  lemma CellPlacement(img: Image, x: nat, y: nat)
    requires x < img.width && y < img.height
    ensures Offset(img, x, y) + |CellText(img.at(x, y))| <= |Untrimmed(img)|
    ensures Untrimmed(img)[Offset(img, x, y)..Offset(img, x, y) + |CellText(img.at(x, y))|] == CellText(img.at(x, y))
  {
    PlacementIn(img, CellText, ROW_END, x, y, Untrimmed(img), Offset(img, x, y), CellText(img.at(x, y)));
  }

  lemma {:induction false} CellsLonger(img: Image, cell: Rgba64 -> seq<byte>, y: int, n: nat, m: nat)
    requires n <= m
    ensures |Cells(img, cell, y, n)| <= |Cells(img, cell, y, m)|
  {
    if n < m {
      CellsLonger(img, cell, y, n, m - 1);
      CellsStepLength(img, cell, y, m - 1);
    }
  }

  lemma {:induction false} RowsLonger(img: Image, cell: Rgba64 -> seq<byte>, end: seq<byte>, n: nat, m: nat)
    requires n <= m
    ensures |Rows(img, cell, end, n)| <= |Rows(img, cell, end, m)|
  {
    if n < m {
      RowsLonger(img, cell, end, n, m - 1);
      RowsStepLength(img, cell, end, m - 1);
    }
  }

  /** In a text of rows, a pixel earlier in a row, or in an earlier row,
      ends before a later one starts. */
  lemma RowMajorIn(img: Image, cell: Rgba64 -> seq<byte>, end: seq<byte>, x1: nat, y1: nat, x2: nat, y2: nat)
    requires x1 < img.width && y1 < img.height && x2 < img.width && y2 < img.height
    requires y1 < y2 || (y1 == y2 && x1 < x2)
    ensures |Rows(img, cell, end, y1)| + |Cells(img, cell, y1, x1)| + |cell(img.at(x1, y1))| <=
      |Rows(img, cell, end, y2)| + |Cells(img, cell, y2, x2)|
  {
    CellsStepLength(img, cell, y1, x1);
    if y1 == y2 {
      CellsLonger(img, cell, y1, x1 + 1, x2);
    } else {
      CellsLonger(img, cell, y1, x1 + 1, img.width);
      RowLonger(img, cell, end, y1, y2);
    }
  }

  /** The rows above a later row hold all of an earlier row. */
  lemma RowLonger(img: Image, cell: Rgba64 -> seq<byte>, end: seq<byte>, y1: nat, y2: nat)
    requires y1 < y2
    ensures |Rows(img, cell, end, y1)| + |Cells(img, cell, y1, img.width)| <= |Rows(img, cell, end, y2)|
  {
    RowsStepLength(img, cell, end, y1);
    RowsLonger(img, cell, end, y1 + 1, y2);
  }

  /** Pixels are written in row-major order: a pixel earlier in a row, or
      in an earlier row, ends before a later one starts. */
  lemma RowMajor(img: Image, x1: nat, y1: nat, x2: nat, y2: nat)
    requires x1 < img.width && y1 < img.height && x2 < img.width && y2 < img.height
    requires y1 < y2 || (y1 == y2 && x1 < x2)
    ensures Offset(img, x1, y1) + |CellText(img.at(x1, y1))| <= Offset(img, x2, y2)
  {
    RowMajorIn(img, CellText, ROW_END, x1, y1, x2, y2);
  }

  // ---------------------------------------------------------------------
  // Escapes of a frame

  lemma {:induction false} CellsColourEscapes(img: Image, cell: Rgba64 -> seq<byte>, y: int, n: nat)
    requires forall p :: ColourEscapes(cell(p))
    ensures ColourEscapes(Cells(img, cell, y, n))
  {
    if n > 0 {
      CellsColourEscapes(img, cell, y, n - 1);
      ColourEscapesAppend(Cells(img, cell, y, n - 1), cell(img.at(n - 1, y)));
    }
  }

  lemma {:induction false} RowsColourEscapes(img: Image, cell: Rgba64 -> seq<byte>, end: seq<byte>, m: nat)
    requires forall p :: ColourEscapes(cell(p))
    requires NoEsc(end)
    ensures ColourEscapes(Rows(img, cell, end, m))
  {
    if m > 0 {
      RowsColourEscapes(img, cell, end, m - 1);
      CellsColourEscapes(img, cell, m - 1, img.width);
      ColourEscapesAppend(Rows(img, cell, end, m - 1), Cells(img, cell, m - 1, img.width));
      ColourEscapesAppend(Rows(img, cell, end, m - 1) + Cells(img, cell, m - 1, img.width), end);
    }
  }

  /** Rows of no pixels are row ends only. */
  lemma {:induction false} EmptyRowsNoEsc(img: Image, cell: Rgba64 -> seq<byte>, end: seq<byte>, m: nat)
    requires img.width == 0 && NoEsc(end)
    ensures NoEsc(Rows(img, cell, end, m))
  {
    if m > 0 {
      EmptyRowsNoEsc(img, cell, end, m - 1);
      NoEscAppend(Rows(img, cell, end, m - 1) + Cells(img, cell, m - 1, img.width), end);
    }
  }

  /** Cutting 14 bytes off rows that end in a pixel keeps every colour
      selector whole: the cut reaches into the last glyph, not its escape. */
  lemma LastCellEscapes(before: seq<byte>, c: seq<byte>, e: seq<byte>, g: seq<byte>, end: seq<byte>)
    requires c == e + g && |g| >= 1 && |end| == 13
    requires ColourEscapes(before) && ColourEscapes(e) && NoEsc(g)
    ensures Trim(before + c + end).Some? && ColourEscapes(Trim(before + c + end).value)
  {
    CutLastCell(before, c, e, g, end);
    assert NoEsc(g[..|g| - 1]);
    ColourEscapesAppend(before, e);
    ColourEscapesAppend(before + e, g[..|g| - 1]);
  }

  /** The cut text of rows whose cells are an escape of colour selectors and
      then a glyph without ESC keeps only colour selectors. */
  lemma TrimEscapesIn(img: Image, cell: Rgba64 -> seq<byte>, esc: Rgba64 -> seq<byte>, glyph: Rgba64 -> seq<byte>, end: seq<byte>)
    requires forall p :: cell(p) == esc(p) + glyph(p) && |glyph(p)| >= 1
    requires forall p :: ColourEscapes(esc(p)) && NoEsc(glyph(p))
    requires NoEsc(end) && |end| == 13
    requires Trim(Rows(img, cell, end, img.height)).Some?
    ensures ColourEscapes(Trim(Rows(img, cell, end, img.height)).value)
  {
    if img.width >= 1 {
      assert img.height >= 1;
      var last := img.at(img.width - 1, img.height - 1);
      RowsEnd(img, cell, end);
      PiecesEscapes(cell, esc, glyph);
      BeforeLastEscapes(img, cell, end);
      LastCellEscapes(Rows(img, cell, end, img.height - 1) + Cells(img, cell, img.height - 1, img.width - 1),
        cell(last), esc(last), glyph(last), end);
    } else {
      EmptyRowsNoEsc(img, cell, end, img.height);
      var u := Rows(img, cell, end, img.height);
      assert Trim(u).value == u[..|u| - TRIM];
    }
  }

  lemma PiecesEscapes(cell: Rgba64 -> seq<byte>, esc: Rgba64 -> seq<byte>, glyph: Rgba64 -> seq<byte>)
    requires forall p :: cell(p) == esc(p) + glyph(p)
    requires forall p :: ColourEscapes(esc(p)) && NoEsc(glyph(p))
    ensures forall p :: ColourEscapes(cell(p))
  {
    forall p
      ensures ColourEscapes(cell(p))
    {
      ColourEscapesAppend(esc(p), glyph(p));
    }
  }

  /** Everything before the last pixel's cell keeps only colour selectors. */
  lemma BeforeLastEscapes(img: Image, cell: Rgba64 -> seq<byte>, end: seq<byte>)
    requires forall p :: ColourEscapes(cell(p))
    requires NoEsc(end) && img.width >= 1 && img.height >= 1
    ensures ColourEscapes(Rows(img, cell, end, img.height - 1) + Cells(img, cell, img.height - 1, img.width - 1))
  {
    RowsColourEscapes(img, cell, end, img.height - 1);
    CellsColourEscapes(img, cell, img.height - 1, img.width - 1);
    ColourEscapesAppend(Rows(img, cell, end, img.height - 1), Cells(img, cell, img.height - 1, img.width - 1));
  }

  /** A cell is its escape, made of colour selectors, and a glyph without ESC. */
  lemma CellPieces()
    ensures forall p :: CellText(p) == CellEscape(p) + CellGlyph(p) && |CellGlyph(p)| >= 1
    ensures forall p :: ColourEscapes(CellEscape(p)) && NoEsc(CellGlyph(p))
  {
    forall p
      ensures CellText(p) == CellEscape(p) + CellGlyph(p) && |CellGlyph(p)| >= 1
      ensures ColourEscapes(CellEscape(p)) && NoEsc(CellGlyph(p))
    {
      CellShape(p);
      EscapeColours(Uint8(p.r / 256), Uint8(p.g / 256), Uint8(p.b / 256));
      GlyphBytes(CellBrightness(p));
    }
  }

  /** Every ESC in the text of a frame begins a colour selector "[48;" or
      "[38;": the text contains no other control sequence, in particular no
      cursor or display control. */
  lemma FrameEscapes(img: Image)
    requires FrameText(img).Some?
    ensures ColourEscapes(FrameText(img).value)
  {
    CellPieces();
    assert NoEsc(ROW_END);
    RowEndParts();
    TrimEscapesIn(img, CellText, CellEscape, CellGlyph, ROW_END);
  }
}
