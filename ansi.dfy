/** The constants and the two per-cell helpers of ansi.go: the terminal
    escape sequences, the glyph alphabet CHARS with glyph selection by
    brightness, and the colour escape for an RGB triple. */
module Ansi {
  import opened Bytes
  import opened Fmt
  import Sgr

  // The constants of ansi.go, each the UTF-8 bytes of its Go literal.
  const CHARS: seq<byte> := Utf8("\U{E2}\U{20AC}\U{17D} ")
  const ESC: seq<byte> := Utf8("\U{1B}")
  const CSI: seq<byte> := Utf8("[")
  const SGR_END: seq<byte> := Utf8("")
  const CHA_END: seq<byte> := Utf8("G")
  const CUP_END: seq<byte> := Utf8("H")
  const ED_END: seq<byte> := Utf8("J")
  // The three composite constants, byte by byte; ControlLiterals shows that
  // each is the concatenation ansi.go defines it as.
  const RESET_CURSOR: seq<byte> := [0x1B, 0x5B, 0x31, 0x3B, 0x31, 0x48]
  const HIDE_CURSOR: seq<byte> := [0x1B, 0x5B, 0x3F, 0x32, 0x35, 0x6C]
  const RESET_DISPLAY: seq<byte> := [0x1B, 0x5B, 0x30, 0x1B, 0x5B, 0x32, 0x4A]

  /** The literal for CHARS is four characters of text but eight bytes: the
      glyph alphabet is indexed by byte, so it has eight entries, the last a space. */
  lemma CharsBytes()
    ensures CHARS == [0xC3, 0xA2, 0xE2, 0x82, 0xAC, 0xC5, 0xBD, 0x20]
    ensures |CHARS| == 8
  {
    var t := "\U{E2}\U{20AC}\U{17D} ";
    assert t == "\U{E2}" + "\U{20AC}" + "\U{17D}" + " ";
    Utf8Append("\U{E2}" + "\U{20AC}" + "\U{17D}", " ");
    Utf8Append("\U{E2}" + "\U{20AC}", "\U{17D}");
    Utf8Append("\U{E2}", "\U{20AC}");
  }

  /** The cursor and display sequences are the concatenations of ansi.go:
      RESET_CURSOR is ESC [ 1;1 H, HIDE_CURSOR is ESC [ ?25l, and
      RESET_DISPLAY, with the empty SGR_END where an 'm' would end the SGR
      reset, is ESC [ 0 ESC [ 2 J. */
  lemma ControlLiterals()
    ensures RESET_CURSOR == ESC + CSI + Utf8("1;1") + CUP_END
    ensures HIDE_CURSOR == ESC + CSI + Utf8("?25l")
    ensures RESET_DISPLAY == ESC + CSI + Utf8("0") + SGR_END + ESC + CSI + Utf8("2") + ED_END
    ensures SGR_END == []
    ensures ESC == [Sgr.ESC]
  {
    Utf8Ascii("\U{1B}");
    Utf8Ascii("[");
    Utf8Ascii("1;1");
    Utf8Ascii("H");
    Utf8Ascii("?25l");
    Utf8Ascii("0");
    Utf8Ascii("2");
    Utf8Ascii("J");
  }

  /** RESET_CURSOR and HIDE_CURSOR take 6 bytes each, RESET_DISPLAY 7. */
  lemma ControlLengths()
    ensures |RESET_CURSOR| == 6 && |HIDE_CURSOR| == 6 && |RESET_DISPLAY| == 7
  {
  }

  // ---------------------------------------------------------------------
  // getChar

  /** Go's conversion of a float64 to int: truncation toward zero. */
  function Trunc(x: real): (i: int)
    ensures 0.0 <= x ==> i as real <= x < i as real + 1.0
    ensures x < 0.0 ==> x <= i as real < x + 1.0 && i <= 0
  {
    if x >= 0.0 then x.Floor else -((-x).Floor)
  }

  /** The index `int(brightness * (float64(len(CHARS)) - 1))`. */
  function GlyphIndex(brightness: real): int {
    Trunc(brightness * (|CHARS| as real - 1.0))
  }

  /** What `CHARS[index]` in getChar needs in order not to panic. */
  predicate InAlphabet(brightness: real) {
    0 <= GlyphIndex(brightness) < |CHARS|
  }

  /** getChar: `string(CHARS[index])` converts the BYTE at the index to the
      one-rune string of that code point, so the glyph is one rune, encoded
      in one byte (below 0x80) or two. */
  function GetChar(brightness: real): (g: seq<byte>)
    requires InAlphabet(brightness)
    ensures DecodeRune(g) == Some((CHARS[GlyphIndex(brightness)], |g|))
    ensures |g| == if CHARS[GlyphIndex(brightness)] < 0x80 then 1 else 2
  {
    var c := CHARS[GlyphIndex(brightness)];
    DecodeEncodeRune(c, []);
    assert EncodeRune(c) + [] == EncodeRune(c);
    EncodeRune(c)
  }

  /** getChar indexes in range exactly for brightness in (-1/7, 8/7), which
      holds for every brightness in [0,1]; there the index is in [0, 7]. */
  lemma InAlphabetExactly(brightness: real)
    ensures InAlphabet(brightness) <==> -1.0 / 7.0 < brightness < 8.0 / 7.0
    ensures 0.0 <= brightness <= 1.0 ==> 0 <= GlyphIndex(brightness) <= 7
  {
    CharsBytes();
    var x := brightness * 7.0;
    assert GlyphIndex(brightness) == Trunc(x);
    if InAlphabet(brightness) {
      assert 0 <= Trunc(x) <= 7;
      assert -1.0 < x < 8.0;
    }
  }

  /** The darkest brightness selects the first byte of CHARS, the brightest the last. */
  lemma GlyphExtremes()
    ensures InAlphabet(0.0) && GlyphIndex(0.0) == 0 && GetChar(0.0) == [0xC3, 0x83]
    ensures InAlphabet(1.0) && GlyphIndex(1.0) == |CHARS| - 1 && GetChar(1.0) == [0x20]
  {
    CharsBytes();
    assert GlyphIndex(1.0) == Trunc(7.0) == 7;
  }

  /** A glyph has no C0 control byte, in particular no line feed and no
      ESC: each of its bytes is at least 0x20. */
  lemma GlyphBytes(brightness: real)
    requires InAlphabet(brightness)
    ensures forall i :: 0 <= i < |GetChar(brightness)| ==> GetChar(brightness)[i] >= 0x20
  {
    CharsBytes();
    var c := CHARS[GlyphIndex(brightness)];
    assert c == 0x20 || 0x80 <= c < 0x800;
  }

  /** CHARS[3] is 0x82, so brightness in [3/7, 4/7) gives the glyph c2 82,
      U+0082: a C1 control code, not a printable character. It is the only
      index whose code point is a C1 control. */
  lemma C1Glyph(brightness: real)
    requires InAlphabet(brightness)
    ensures 0x80 <= CHARS[GlyphIndex(brightness)] < 0xA0 <==> 3.0 / 7.0 <= brightness < 4.0 / 7.0
    ensures 3.0 / 7.0 <= brightness < 4.0 / 7.0 ==> GetChar(brightness) == [0xC2, 0x82]
  {
    CharsBytes();
    var x := brightness * 7.0;
    assert GlyphIndex(brightness) == Trunc(x);
    assert GlyphIndex(brightness) == 3 <==> 3.0 <= x < 4.0;
  }

  /** A brighter cell never selects an earlier glyph. */
  lemma GlyphIndexMonotone(b1: real, b2: real)
    requires 0.0 <= b1 <= b2
    ensures GlyphIndex(b1) <= GlyphIndex(b2)
  {
    CharsBytes();
    assert b1 * 7.0 <= b2 * 7.0;
  }

  // ---------------------------------------------------------------------
  // getRGBEscape

  /** The format string of getRGBEscape. */
  const RGB_FORMAT: string := "\U{1B}[48;2;%d;%d;%dm\U{1B}[38;2;%d;%d;%dm"

  /** getRGBEscape: two SGR sequences, background direct colour 48;2;r;g;b
      and then foreground direct colour 38;2;r;g;b, each value in minimal
      decimal. The body writes out the bytes `fmt.Sprintf(RGB_FORMAT, ...)`
      produces; GetRGBEscapeIsSprintf proves that they are those bytes. */
  function GetRGBEscape(r: byte, g: byte, b: byte): (e: seq<byte>)
    ensures e == Sgr.Sequences([[48, 2, r, g, b], [38, 2, r, g, b]])
    ensures |e| == 20 + 2 * (Digits(r) + Digits(g) + Digits(b))
    ensures 26 <= |e| <= 38
  {
    var e := RgbLayout(Triple(r, g, b));
    RgbEscapeFacts(r, g, b, e);
    e
  }

  /** getRGBEscape is `fmt.Sprintf(RGB_FORMAT, r, g, b, r, g, b)`. */
  lemma GetRGBEscapeIsSprintf(r: byte, g: byte, b: byte)
    ensures GetRGBEscape(r, g, b) == Format(RGB_FORMAT, [r, g, b, r, g, b])
  {
    FormatSide(r, g, b);
  }

  lemma RgbEscapeFacts(r: byte, g: byte, b: byte, e: seq<byte>)
    requires e == RgbLayout(Triple(r, g, b))
    ensures e == Sgr.Sequences([[48, 2, r, g, b], [38, 2, r, g, b]])
    ensures |e| == 20 + 2 * (Digits(r) + Digits(g) + Digits(b))
    ensures 26 <= |e| <= 38
  {
    SgrSide(r, g, b);
    RgbLayoutLength(r, g, b, e);
  }

  lemma RgbLayoutLength(r: byte, g: byte, b: byte, e: seq<byte>)
    requires e == RgbLayout(Triple(r, g, b))
    ensures |e| == 20 + 2 * (Digits(r) + Digits(g) + Digits(b))
    ensures 26 <= |e| <= 38
  {
    var t := Triple(r, g, b);
    assert |t| == Digits(r) + Digits(g) + Digits(b) + 2;
    LayoutLength(t);
    DigitsOfByte(r);
    DigitsOfByte(g);
    DigitsOfByte(b);
  }

  lemma LayoutLength(t: seq<byte>)
    ensures |RgbLayout(t)| == 16 + 2 * |t|
  {
  }

  /** ESC or a printable ASCII byte. */
  predicate Plain(s: seq<byte>) {
    forall i :: 0 <= i < |s| ==> s[i] == 0x1B || 0x20 <= s[i] < 0x7F
  }

  lemma PlainAppend(a: seq<byte>, b: seq<byte>)
    requires Plain(a) && Plain(b)
    ensures Plain(a + b)
  {
    forall i | 0 <= i < |a + b|
      ensures (a + b)[i] == 0x1B || 0x20 <= (a + b)[i] < 0x7F
    {
      if i >= |a| {
        assert (a + b)[i] == b[i - |a|];
      }
    }
  }

  /** The escape is ESC and printable ASCII only: no line feed or other
      control byte breaks the line it is written on. */
  lemma EscapeBytes(r: byte, g: byte, b: byte)
    ensures Plain(GetRGBEscape(r, g, b))
  {
    var sep: seq<byte> := [';' as int];
    var t := Triple(r, g, b);
    PlainAppend(Dec(r), sep);
    PlainAppend(Dec(r) + sep, Dec(g));
    PlainAppend(Dec(r) + sep + Dec(g), sep);
    PlainAppend(Dec(r) + sep + Dec(g) + sep, Dec(b));
    var bg: seq<byte> := [0x1B, '[' as int, '4' as int, '8' as int, ';' as int, '2' as int, ';' as int];
    var mid: seq<byte> := ['m' as int, 0x1B, '[' as int, '3' as int, '8' as int, ';' as int, '2' as int, ';' as int];
    var fin: seq<byte> := ['m' as int];
    assert Plain(bg) && Plain(mid) && Plain(fin);
    PlainAppend(bg, t);
    PlainAppend(bg + t, mid);
    PlainAppend(bg + t + mid, t);
    PlainAppend(bg + t + mid + t, fin);
    assert RgbLayout(t) == bg + t + mid + t + fin;
  }

  /** s holds no ESC byte. */
  predicate NoEsc(s: seq<byte>) {
    forall i :: 0 <= i < |s| ==> s[i] != 0x1B
  }

  /** The ESC at i begins a colour selector: "[48;" or "[38;" follows it. */
  predicate ColourEscapeAt(s: seq<byte>, i: nat) {
    i + 4 < |s| && s[i + 1] == 0x5B && (s[i + 2] == 0x34 || s[i + 2] == 0x33) && s[i + 3] == 0x38 && s[i + 4] == 0x3B
  }

  /** Every ESC in s begins a colour selector. */
  predicate ColourEscapes(s: seq<byte>) {
    forall i :: 0 <= i < |s| && s[i] == 0x1B ==> ColourEscapeAt(s, i)
  }

  lemma NoEscAppend(a: seq<byte>, b: seq<byte>)
    requires NoEsc(a) && NoEsc(b)
    ensures NoEsc(a + b)
  {
  }

  lemma ColourEscapesAppend(a: seq<byte>, b: seq<byte>)
    requires ColourEscapes(a) && ColourEscapes(b)
    ensures ColourEscapes(a + b)
  {
    var s := a + b;
    forall i | 0 <= i < |s| && s[i] == 0x1B
      ensures ColourEscapeAt(s, i)
    {
      if i < |a| {
        assert ColourEscapeAt(a, i);
        assert s[i + 1] == a[i + 1] && s[i + 2] == a[i + 2] && s[i + 3] == a[i + 3] && s[i + 4] == a[i + 4];
      } else {
        var k := i - |a|;
        assert b[k] == s[i] && ColourEscapeAt(b, k);
        assert s[i + 1] == b[k + 1] && s[i + 2] == b[k + 2] && s[i + 3] == b[k + 3] && s[i + 4] == b[k + 4];
      }
    }
  }

  /** The only ESC bytes of the escape are the two that begin its colour
      selectors: nothing in it can be read as another control sequence. */
  lemma EscapeColours(r: byte, g: byte, b: byte)
    ensures ColourEscapes(GetRGBEscape(r, g, b))
  {
    var sep: seq<byte> := [';' as int];
    var t := Triple(r, g, b);
    NoEscAppend(Dec(r), sep);
    NoEscAppend(Dec(r) + sep, Dec(g));
    NoEscAppend(Dec(r) + sep + Dec(g), sep);
    NoEscAppend(Dec(r) + sep + Dec(g) + sep, Dec(b));
    var bg: seq<byte> := [0x1B, '[' as int, '4' as int, '8' as int, ';' as int, '2' as int, ';' as int];
    var mid: seq<byte> := ['m' as int, 0x1B, '[' as int, '3' as int, '8' as int, ';' as int, '2' as int, ';' as int];
    var fin: seq<byte> := ['m' as int];
    assert ColourEscapes(bg) && ColourEscapes(mid) && ColourEscapes(fin) && ColourEscapes(t);
    ColourEscapesAppend(bg, t);
    ColourEscapesAppend(bg + t, mid);
    ColourEscapesAppend(bg + t + mid, t);
    ColourEscapesAppend(bg + t + mid + t, fin);
    assert RgbLayout(t) == bg + t + mid + t + fin;
  }

  /** The three colour fields "r;g;b". */
  function Triple(r: nat, g: nat, b: nat): seq<byte> {
    Dec(r) + [';' as int] + Dec(g) + [';' as int] + Dec(b)
  }

  /** The bytes of getRGBEscape around the colour fields t. */
  function RgbLayout(t: seq<byte>): seq<byte> {
    [0x1B, '[' as int, '4' as int, '8' as int, ';' as int, '2' as int, ';' as int] + t +
    ['m' as int, 0x1B, '[' as int, '3' as int, '8' as int, ';' as int, '2' as int, ';' as int] + t + ['m' as int]
  }

  lemma ParamsCons(a: nat, rest: seq<nat>)
    requires |rest| >= 1
    ensures Sgr.Params([a] + rest) == Dec(a) + ([Sgr.SEMICOLON] + Sgr.Params(rest))
  {
    assert ([a] + rest)[1..] == rest;
  }

  lemma ParamsOfTriple(r: nat, g: nat, b: nat)
    ensures Sgr.Params([r, g, b]) == Triple(r, g, b)
  {
    ParamsCons(g, [b]);
    assert [g] + [b] == [g, b];
    ParamsCons(r, [g, b]);
    assert [r] + [g, b] == [r, g, b];
  }

  /** One direct-colour sequence: selector, the 2 that selects RGB, and the fields. */
  lemma DirectColour(sel: nat, r: nat, g: nat, b: nat)
    requires sel == 48 || sel == 38
    ensures Sgr.Sequence([sel, 2, r, g, b]) ==
      [0x1B, '[' as int] + Dec(sel) + [';' as int, '2' as int, ';' as int] + Triple(r, g, b) + ['m' as int]
  {
    ParamsOfTriple(r, g, b);
    ParamsCons(2, [r, g, b]);
    assert [2] + [r, g, b] == [2, r, g, b];
    ParamsCons(sel, [2, r, g, b]);
    assert [sel] + [2, r, g, b] == [sel, 2, r, g, b];
    assert Dec(2) == ['2' as int];
    SelectorLayout(Sgr.Params([sel, 2, r, g, b]), Dec(sel), Sgr.Params([2, r, g, b]), Triple(r, g, b));
  }

  lemma SelectorLayout(p: seq<byte>, d: seq<byte>, p2: seq<byte>, t: seq<byte>)
    requires p == d + ([';' as int] + p2) && p2 == ['2' as int] + ([';' as int] + t)
    ensures [0x1B, '[' as int] + p + ['m' as int] == [0x1B, '[' as int] + d + [';' as int, '2' as int, ';' as int] + t + ['m' as int]
  {
  }

  lemma SgrSide(r: nat, g: nat, b: nat)
    ensures Sgr.Sequences([[48, 2, r, g, b], [38, 2, r, g, b]]) == RgbLayout(Triple(r, g, b))
  {
    var pss: seq<seq<nat>> := [[48, 2, r, g, b], [38, 2, r, g, b]];
    var bgSeq := Sgr.Sequence([48, 2, r, g, b]);
    var fgSeq := Sgr.Sequence([38, 2, r, g, b]);
    assert pss[1..] == [[38, 2, r, g, b]] && pss[1..][1..] == [];
    assert Sgr.Sequences(pss[1..]) == fgSeq + Sgr.Sequences([]);
    assert Sgr.Sequences(pss) == bgSeq + (fgSeq + []);
    DirectColour(48, r, g, b);
    DirectColour(38, r, g, b);
    assert Dec(48) == ['4' as int, '8' as int];
    assert Dec(38) == ['3' as int, '8' as int];
    SgrLayout(Triple(r, g, b), bgSeq, fgSeq);
  }

  lemma SgrLayout(t: seq<byte>, bgSeq: seq<byte>, fgSeq: seq<byte>)
    requires bgSeq == [0x1B, '[' as int] + ['4' as int, '8' as int] + [';' as int, '2' as int, ';' as int] + t + ['m' as int]
    requires fgSeq == [0x1B, '[' as int] + ['3' as int, '8' as int] + [';' as int, '2' as int, ';' as int] + t + ['m' as int]
    ensures bgSeq + (fgSeq + []) == RgbLayout(t)
  {
  }

  /** "%d;%d;%d" writes the colour fields and consumes three arguments. */
  lemma FormatTriple(x: nat, y: nat, z: nat, tail: string, args: seq<nat>)
    ensures Format("%d;%d;%d" + tail, [x, y, z] + args) == Triple(x, y, z) + Format(tail, args)
  {
    var u3 := "%d" + tail;
    var u2 := "%d" + (";" + u3);
    var u1 := "%d" + (";" + u2);
    assert "%d;%d;%d" + tail == u1;
    assert [x, y, z] + args == [x] + ([y, z] + args);
    assert [y, z] + args == [y] + ([z] + args);
    FormatVerb(";" + u2, x, [y, z] + args);
    FormatText(";", u2, [y, z] + args);
    FormatVerb(";" + u3, y, [z] + args);
    FormatText(";", u3, [z] + args);
    FormatVerb(tail, z, args);
    assert Utf8(";") == [';' as int];
    TripleLayout(Dec(x), Dec(y), Dec(z), Format(tail, args));
  }

  lemma TripleLayout(x: seq<byte>, y: seq<byte>, z: seq<byte>, rest: seq<byte>)
    ensures x + ([';' as int] + (y + ([';' as int] + (z + rest)))) == x + [';' as int] + y + [';' as int] + z + rest
  {
  }

  lemma FormatFirstTriple(mid: string, fin: string, r: nat, g: nat, b: nat)
    ensures Format("%d;%d;%d" + (mid + ("%d;%d;%d" + fin)), [r, g, b, r, g, b]) ==
      Triple(r, g, b) + Format(mid + ("%d;%d;%d" + fin), [r, g, b])
  {
    assert [r, g, b, r, g, b] == [r, g, b] + [r, g, b];
    FormatTriple(r, g, b, mid + ("%d;%d;%d" + fin), [r, g, b]);
  }

  lemma FormatLastTriple(fin: string, r: nat, g: nat, b: nat)
    requires NoVerb(fin)
    ensures Format("%d;%d;%d" + fin, [r, g, b]) == Triple(r, g, b) + Utf8(fin)
  {
    assert [r, g, b] == [r, g, b] + [];
    FormatTriple(r, g, b, fin, []);
    FormatTextOnly(fin, []);
  }

  lemma FormatTwoTriples(f: string, bg: string, mid: string, fin: string, r: nat, g: nat, b: nat)
    requires f == bg + ("%d;%d;%d" + (mid + ("%d;%d;%d" + fin)))
    requires NoVerb(bg) && NoVerb(mid) && NoVerb(fin)
    ensures Format(f, [r, g, b, r, g, b]) ==
      Utf8(bg) + (Triple(r, g, b) + (Utf8(mid) + (Triple(r, g, b) + Utf8(fin))))
  {
    var y := "%d;%d;%d" + fin;
    FormatText(bg, "%d;%d;%d" + (mid + y), [r, g, b, r, g, b]);
    FormatFirstTriple(mid, fin, r, g, b);
    FormatText(mid, y, [r, g, b]);
    FormatLastTriple(fin, r, g, b);
  }

  lemma FormatSide(r: byte, g: byte, b: byte)
    ensures Format(RGB_FORMAT, [r, g, b, r, g, b]) == RgbLayout(Triple(r, g, b))
  {
    FormatSideOf(r, g, b, Format(RGB_FORMAT, [r, g, b, r, g, b]));
  }

  lemma FormatSideOf(r: byte, g: byte, b: byte, f: seq<byte>)
    requires f == Format(RGB_FORMAT, [r, g, b, r, g, b])
    ensures f == RgbLayout(Triple(r, g, b))
  {
    RgbFormatPieces(r, g, b);
    RgbPiecesLayout(Triple(r, g, b), f);
  }

  lemma RgbFormatPieces(r: byte, g: byte, b: byte)
    ensures Format(RGB_FORMAT, [r, g, b, r, g, b]) ==
      Utf8("\U{1B}[48;2;") + (Triple(r, g, b) + (Utf8("m\U{1B}[38;2;") + (Triple(r, g, b) + Utf8("m"))))
  {
    RgbFormatCut();
    FormatTwoTriples(RGB_FORMAT, "\U{1B}[48;2;", "m\U{1B}[38;2;", "m", r, g, b);
  }

  lemma RgbPiecesLayout(t: seq<byte>, f: seq<byte>)
    requires f == Utf8("\U{1B}[48;2;") + (t + (Utf8("m\U{1B}[38;2;") + (t + Utf8("m"))))
    ensures f == RgbLayout(t)
  {
    BackgroundPrefixBytes();
    ForegroundPrefixBytes();
    assert Utf8("m") == ['m' as int];
    FormatLayout(t, Utf8("\U{1B}[48;2;"), Utf8("m\U{1B}[38;2;"), Utf8("m"), f);
  }

  /** RGB_FORMAT cut at its verbs. */
  lemma RgbFormatCut()
    ensures RGB_FORMAT == "\U{1B}[48;2;" + ("%d;%d;%d" + ("m\U{1B}[38;2;" + ("%d;%d;%d" + "m")))
    ensures NoVerb("\U{1B}[48;2;") && NoVerb("m\U{1B}[38;2;") && NoVerb("m")
  {
  }

  lemma BackgroundPrefixBytes()
    ensures Utf8("\U{1B}[48;2;") == [0x1B, '[' as int, '4' as int, '8' as int, ';' as int, '2' as int, ';' as int]
  {
    Utf8Ascii("\U{1B}[48;2;");
  }

  lemma ForegroundPrefixBytes()
    ensures Utf8("m\U{1B}[38;2;") == ['m' as int, 0x1B, '[' as int, '3' as int, '8' as int, ';' as int, '2' as int, ';' as int]
  {
    Utf8Ascii("m\U{1B}[38;2;");
  }

  lemma FormatLayout(t: seq<byte>, bg: seq<byte>, mid: seq<byte>, fin: seq<byte>, f: seq<byte>)
    requires bg == [0x1B, '[' as int, '4' as int, '8' as int, ';' as int, '2' as int, ';' as int]
    requires mid == ['m' as int, 0x1B, '[' as int, '3' as int, '8' as int, ';' as int, '2' as int, ';' as int]
    requires fin == ['m' as int]
    requires f == bg + (t + (mid + (t + fin)))
    ensures f == RgbLayout(t)
  {
  }

  /** Reading the colour escape back with the SGR parser gives the triple
      twice, in the order background, foreground. */
  lemma RgbEscapeRoundTrip(r: byte, g: byte, b: byte)
    ensures Sgr.ParseAll(GetRGBEscape(r, g, b)) == Some([[48, 2, r, g, b], [38, 2, r, g, b]])
  {
    Sgr.SequencesRoundTrip([[48, 2, r, g, b], [38, 2, r, g, b]]);
  }

  /** Whatever the terminal's pen was, after the colour escape both its
      foreground and its background are the triple (r, g, b). */
  lemma RgbEscapeSetsBothColours(pen: Sgr.Pen, r: byte, g: byte, b: byte)
    ensures Sgr.ParseAll(GetRGBEscape(r, g, b)).Some?
    ensures Sgr.ApplyAll(pen, Sgr.ParseAll(GetRGBEscape(r, g, b)).value) == Sgr.Pen(Some((r, g, b)), Some((r, g, b)))
  {
    RgbEscapeRoundTrip(r, g, b);
    var pss: seq<seq<nat>> := [[48, 2, r, g, b], [38, 2, r, g, b]];
    ApplyDirectColours(pen, r, g, b, pss);
  }

  lemma ApplyDirectColours(pen: Sgr.Pen, r: nat, g: nat, b: nat, pss: seq<seq<nat>>)
    requires pss == [[48, 2, r, g, b], [38, 2, r, g, b]]
    ensures Sgr.ApplyAll(pen, pss) == Sgr.Pen(Some((r, g, b)), Some((r, g, b)))
  {
    var bgSet := pen.(bg := Some((r, g, b)));
    assert Sgr.Apply(pen, pss[0]) == bgSet;
    assert Sgr.Apply(bgSet, pss[1]) == Sgr.Pen(Some((r, g, b)), Some((r, g, b)));
    assert pss[1..] == [pss[1]] && pss[1..][1..] == [];
    assert Sgr.ApplyAll(pen, pss) == Sgr.ApplyAll(bgSet, pss[1..]);
    assert Sgr.ApplyAll(bgSet, pss[1..]) == Sgr.ApplyAll(Sgr.Apply(bgSet, pss[1]), pss[1..][1..]);
  }
}
