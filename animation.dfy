/** The frame loop of ansi.go's main: every decoded frame is resized to the
    terminal size, each resized frame is rendered by imageToText, and the
    animation is HIDE_CURSOR, then for each frame in order RESET_CURSOR and
    its text, then RESET_DISPLAY. */
module Animation {
  import opened Bytes
  import opened Ansi
  import opened Render

  /** The size main asks resizeImage for. */
  const WIDTH: nat := 80
  const HEIGHT: nat := 24

  /** A placeholder for the entries of `make([]*image.RGBA, n)`, which Go
      leaves nil; the fill loop overwrites every entry before anything
      reads it. */
  const BLANK: Image := Image(0, 0, (x: int, y: int) => Rgba64(0, 0, 0, 0))

  /** resizedFrames: the i-th entry is the i-th frame resized, so the list has
      the frames' length and order. `resize` stands for resizeImage. */
  function Resized(frames: seq<Image>, resize: (Image, nat, nat) -> Image): (r: seq<Image>)
    ensures |r| == |frames|
    ensures forall i :: 0 <= i < |frames| ==> r[i] == resize(frames[i], WIDTH, HEIGHT)
  {
    if |frames| == 0 then []
    else Resized(frames[..|frames| - 1], resize) + [resize(frames[|frames| - 1], WIDTH, HEIGHT)]
  }

  /** The texts `render` gives the frames, in order; None as soon as it
      fails on one of them. */
  function Texts(fs: seq<Image>, render: Image -> Option<seq<byte>>): Option<seq<seq<byte>>>
  {
    if |fs| == 0 then Some([])
    else
      var init := Texts(fs[..|fs| - 1], render);
      var last := render(fs[|fs| - 1]);
      if init.None? || last.None? then None else Some(init.value + [last.value])
  }

  /** The texts imageToText gives the frames; None where it panics on one. */
  function FrameTexts(fs: seq<Image>): Option<seq<seq<byte>>> {
    Texts(fs, FrameText)
  }

  /** The frames' texts one after another, each after a cursor reset. */
  function Join(ts: seq<seq<byte>>): seq<byte> {
    if |ts| == 0 then [] else Join(ts[..|ts| - 1]) + RESET_CURSOR + ts[|ts| - 1]
  }

  /** The text main writes to the output file; None where imageToText panics
      on one of the frames. */
  function Animation(fs: seq<Image>): Option<seq<byte>> {
    match FrameTexts(fs)
    case None => None
    case Some(ts) => Some(HIDE_CURSOR + Join(ts) + RESET_DISPLAY)
  }

  /** Σ (6 + |t|) over the texts: what each frame adds to the output. */
  function Footprint(ts: seq<seq<byte>>): nat {
    if |ts| == 0 then 0 else Footprint(ts[..|ts| - 1]) + 6 + |ts[|ts| - 1]|
  }

  /** The texts are there exactly when every frame renders, and then the
      i-th text is the text of the i-th frame. */
  lemma {:induction false} TextsMeaning(fs: seq<Image>, render: Image -> Option<seq<byte>>)
    ensures Texts(fs, render).Some? <==> forall i :: 0 <= i < |fs| ==> render(fs[i]).Some?
    ensures Texts(fs, render).Some? ==>
      |Texts(fs, render).value| == |fs| && forall i :: 0 <= i < |fs| ==> Texts(fs, render).value[i] == render(fs[i]).value
  {
    if |fs| > 0 {
      var init := fs[..|fs| - 1];
      TextsMeaning(init, render);
      assert forall i :: 0 <= i < |init| ==> init[i] == fs[i];
      if Texts(fs, render).Some? {
        var ts := Texts(init, render).value;
        assert Texts(fs, render).value == ts + [render(fs[|fs| - 1]).value];
      }
    }
  }

  lemma FrameTextsMeaning(fs: seq<Image>)
    ensures FrameTexts(fs).Some? <==> forall i :: 0 <= i < |fs| ==> FrameText(fs[i]).Some?
    ensures FrameTexts(fs).Some? ==>
      |FrameTexts(fs).value| == |fs| && forall i :: 0 <= i < |fs| ==> FrameTexts(fs).value[i] == FrameText(fs[i]).value
  {
    TextsMeaning(fs, FrameText);
  }

  // ---------------------------------------------------------------------
  // The loops of main

  /** One step of the frame loop, for a frame that renders: its text
      extends the output. */
  lemma AppendFrameStep(fs: seq<Image>, k: nat, s: seq<byte>, t: seq<byte>)
    requires k < |fs| && FrameTexts(fs[..k]).Some? && FrameText(fs[k]) == Some(t)
    requires s == HIDE_CURSOR + Join(FrameTexts(fs[..k]).value)
    ensures FrameTexts(fs[..k + 1]).Some?
    ensures s + RESET_CURSOR + t == HIDE_CURSOR + Join(FrameTexts(fs[..k + 1]).value)
  {
    var next := fs[..k + 1];
    assert next[..k] == fs[..k] && next[k] == fs[k];
    var ts := FrameTexts(fs[..k]).value;
    assert FrameTexts(next) == Some(ts + [t]);
    JoinStep(ts, t);
    AppendJoined(HIDE_CURSOR, Join(ts), RESET_CURSOR, t);
  }

  lemma AppendJoined(h: seq<byte>, j: seq<byte>, c: seq<byte>, t: seq<byte>)
    ensures h + j + c + t == h + (j + c + t)
  {
  }

  /** One step of the frame loop, for a frame on which imageToText panics:
      the whole animation panics. */
  lemma PanicStep(fs: seq<Image>, k: nat)
    requires k < |fs| && FrameText(fs[k]).None?
    ensures Animation(fs).None?
  {
    FrameTextsMeaning(fs);
  }

  lemma JoinStep(ts: seq<seq<byte>>, t: seq<byte>)
    ensures Join(ts + [t]) == Join(ts) + RESET_CURSOR + t
  {
    var u := ts + [t];
    assert u[..|u| - 1] == ts && u[|u| - 1] == t;
  }

  lemma FinishAnimation(fs: seq<Image>, s: seq<byte>)
    requires FrameTexts(fs).Some? && s == HIDE_CURSOR + Join(FrameTexts(fs).value)
    ensures Some(s + RESET_DISPLAY) == Animation(fs)
  {
  }

  /** Lines 80-83 of main: resizedFrames, filled index by index with each
      frame resized to the terminal size. */
  method ResizeAll(frames: seq<Image>, resize: (Image, nat, nat) -> Image) returns (resized: array<Image>)
    ensures fresh(resized)
    ensures resized[..] == Resized(frames, resize)
  {
    resized := new Image[|frames|](_ => BLANK);
    var i := 0;
    while i < |frames|
      invariant 0 <= i <= |frames|
      invariant forall j :: 0 <= j < i ==> resized[j] == resize(frames[j], WIDTH, HEIGHT)
    {
      resized[i] := resize(frames[i], WIDTH, HEIGHT);
      i := i + 1;
    }
  }

  /** Lines 78-92 of main: fill resizedFrames, then append the text of each
      resized frame after HIDE_CURSOR, and RESET_DISPLAY at the end. None
      where imageToText panics on a frame. */
  method Animate(frames: seq<Image>, resize: (Image, nat, nat) -> Image) returns (text: Option<seq<byte>>)
    ensures text == Animation(Resized(frames, resize))
  {
    var resized := ResizeAll(frames, resize);
    ghost var fs := resized[..];
    var s := HIDE_CURSOR;
    var k := 0;
    assert fs[..0] == [];
    while k < resized.Length
      invariant 0 <= k <= resized.Length
      invariant resized[..] == fs
      invariant FrameTexts(fs[..k]).Some? && s == HIDE_CURSOR + Join(FrameTexts(fs[..k]).value)
    {
      var imageText := ImageToText(resized[k]);
      if imageText.None? {
        PanicStep(fs, k);
        return None;
      }
      AppendFrameStep(fs, k, s, imageText.value);
      s := s + RESET_CURSOR + imageText.value;
      k := k + 1;
    }
    assert fs[..k] == fs;
    FinishAnimation(fs, s);
    text := Some(s + RESET_DISPLAY);
  }

  // ---------------------------------------------------------------------
  // Properties of the animation

  lemma {:induction false} JoinLength(ts: seq<seq<byte>>)
    ensures |Join(ts)| == Footprint(ts)
  {
    if |ts| > 0 {
      JoinLength(ts[..|ts| - 1]);
      ControlLengths();
    }
  }

  /** The output is 6 bytes of HIDE_CURSOR, then 6 + |t| for each frame's
      text t, then 7 bytes of RESET_DISPLAY. */
  lemma AnimationLength(fs: seq<Image>)
    requires Animation(fs).Some?
    ensures |Animation(fs).value| == 6 + Footprint(FrameTexts(fs).value) + 7
  {
    JoinLength(FrameTexts(fs).value);
    ControlLengths();
  }

  /** The animation fails exactly when a frame has no rows, or is one row of
      no pixels. */
  lemma AnimationPanics(fs: seq<Image>)
    ensures Animation(fs).None? <==>
      exists i :: 0 <= i < |fs| && (fs[i].height == 0 || (fs[i].width == 0 && fs[i].height == 1))
  {
    FrameTextsMeaning(fs);
    forall i | 0 <= i < |fs|
      ensures FrameText(fs[i]).None? <==> fs[i].height == 0 || (fs[i].width == 0 && fs[i].height == 1)
    {
      FramePanics(fs[i]);
    }
  }

  /** Frames resized to 80 by 24, as resizeImage is asked for, all render. */
  lemma ScreenSizeRenders(frames: seq<Image>, resize: (Image, nat, nat) -> Image)
    requires forall i :: 0 <= i < |frames| ==>
      resize(frames[i], WIDTH, HEIGHT).width == WIDTH && resize(frames[i], WIDTH, HEIGHT).height == HEIGHT
    ensures Animation(Resized(frames, resize)).Some?
  {
    var fs := Resized(frames, resize);
    forall i | 0 <= i < |fs|
      ensures FrameText(fs[i]).Some?
    {
      FramePanics(fs[i]);
    }
    FrameTextsMeaning(fs);
  }

  lemma {:induction false} JoinPrefix(ts: seq<seq<byte>>, i: nat)
    requires i < |ts|
    ensures Join(ts[..i]) + RESET_CURSOR + ts[i] <= Join(ts)
  {
    if i < |ts| - 1 {
      var init := ts[..|ts| - 1];
      assert init[..i] == ts[..i] && init[i] == ts[i];
      JoinPrefix(init, i);
      PrefixExtend(Join(init[..i]) + RESET_CURSOR + ts[i], Join(init), RESET_CURSOR + ts[|ts| - 1]);
      Assoc3(Join(init), RESET_CURSOR, ts[|ts| - 1]);
    } else {
      assert ts[..i] == ts[..|ts| - 1];
    }
  }

  lemma PrefixExtend(a: seq<byte>, b: seq<byte>, c: seq<byte>)
    requires a <= b
    ensures a <= b + c
  {
    assert (b + c)[..|a|] == b[..|a|];
  }

  /** In the output v, the i-th frame's RESET_CURSOR and text t follow the
      6 bytes of HIDE_CURSOR and the 6 + |t'| bytes of each earlier text t'. */
  predicate FrameAt(v: seq<byte>, ts: seq<seq<byte>>, i: nat)
    requires i < |ts|
  {
    var o := 6 + Footprint(ts[..i]);
    o + 6 + |ts[i]| <= |v| && v[o..o + 6 + |ts[i]|] == RESET_CURSOR + ts[i]
  }

  /** The i-th frame's output, RESET_CURSOR and then the text of the i-th
      frame, starts after HIDE_CURSOR and the output of the frames before it. */
  lemma AnimationFrame(fs: seq<Image>, i: nat)
    requires Animation(fs).Some? && i < |fs|
    ensures |FrameTexts(fs).value| == |fs| && FrameText(fs[i]) == Some(FrameTexts(fs).value[i])
    ensures FrameAt(Animation(fs).value, FrameTexts(fs).value, i)
  {
    FrameTextsMeaning(fs);
    TextsFrame(FrameTexts(fs).value, i, Animation(fs).value);
  }

  /** The output opens with HIDE_CURSOR and closes with RESET_DISPLAY. */
  lemma AnimationEnds(fs: seq<Image>)
    requires Animation(fs).Some?
    ensures var v := Animation(fs).value;
      |v| >= 13 && v[..6] == HIDE_CURSOR && v[|v| - 7..] == RESET_DISPLAY
  {
    ControlLengths();
    var v, j := Animation(fs).value, Join(FrameTexts(fs).value);
    assert v == HIDE_CURSOR + j + RESET_DISPLAY;
    assert v[..6] == HIDE_CURSOR;
    assert v[|v| - 7..] == RESET_DISPLAY;
  }

  /** Where the i-th of any list of texts sits in the output. */
  lemma TextsFrame(ts: seq<seq<byte>>, i: nat, v: seq<byte>)
    requires i < |ts| && v == HIDE_CURSOR + Join(ts) + RESET_DISPLAY
    ensures FrameAt(v, ts, i)
  {
    JoinLength(ts[..i]);
    JoinPrefix(ts, i);
    PlaceFrame(ts, i, v, Join(ts[..i]), Join(ts));
  }

  lemma PlaceFrame(ts: seq<seq<byte>>, i: nat, v: seq<byte>, j: seq<byte>, all: seq<byte>)
    requires i < |ts| && |j| == Footprint(ts[..i])
    requires j + RESET_CURSOR + ts[i] <= all && v == HIDE_CURSOR + all + RESET_DISPLAY
    ensures FrameAt(v, ts, i)
  {
    ControlLengths();
    var o, c, t := 6 + |j|, RESET_CURSOR, ts[i];
    assert v[..o + 6 + |t|] == HIDE_CURSOR + (j + c + t);
    assert (j + c + t)[|j|..] == c + t;
    assert v[o..o + 6 + |t|] == c + t;
  }

  // ---------------------------------------------------------------------
  // Where the control sequences occur

  /** pat occurs in v at offset o. */
  predicate OccursAt(v: seq<byte>, pat: seq<byte>, o: int) {
    0 <= o && o + |pat| <= |v| && v[o..o + |pat|] == pat
  }

  /** Each frame's text ends before the next frame's output begins. */
  lemma {:induction false} FootprintPrefix(ts: seq<seq<byte>>, i: nat)
    requires i < |ts|
    ensures Footprint(ts[..i]) + 6 + |ts[i]| <= Footprint(ts)
  {
    var init := ts[..|ts| - 1];
    if i < |ts| - 1 {
      assert init[..i] == ts[..i] && init[i] == ts[i];
      FootprintPrefix(init, i);
    } else {
      assert ts[..i] == init;
    }
  }

  /** The frames' offsets strictly increase, so each frame has its own. */
  lemma FrameOffsetsIncrease(ts: seq<seq<byte>>, i: nat, j: nat)
    requires i < j < |ts|
    ensures Footprint(ts[..i]) < Footprint(ts[..j])
  {
    var u := ts[..j];
    assert u[..i] == ts[..i] && u[i] == ts[i];
    FootprintPrefix(u, i);
  }

  /** Offset q of the joined frames is where one of them begins. */
  predicate FrameOffset(ts: seq<seq<byte>>, q: int) {
    exists i :: 0 <= i < |ts| && q == Footprint(ts[..i])
  }

  /** No frame begins after the last one. */
  lemma OffsetsBelow(ts: seq<seq<byte>>, q: int)
    requires |ts| >= 1 && q > Footprint(ts[..|ts| - 1])
    ensures !FrameOffset(ts, q)
  {
    var init := ts[..|ts| - 1];
    forall i | 0 <= i < |ts|
      ensures Footprint(ts[..i]) <= Footprint(init)
    {
      if i < |init| {
        assert init[..i] == ts[..i] && init[i] == ts[i];
        FootprintPrefix(init, i);
      } else {
        assert ts[..i] == init;
      }
    }
  }

  /** Below the last frame's offset, the frames' offsets are those of the
      frames before it. */
  lemma OffsetsOfInit(ts: seq<seq<byte>>, init: seq<seq<byte>>, q: int)
    requires |ts| >= 1 && init == ts[..|ts| - 1] && q < Footprint(init)
    ensures FrameOffset(ts, q) <==> FrameOffset(init, q)
  {
    assert forall i :: 0 <= i < |init| ==> init[..i] == ts[..i];
    assert ts[..|init|] == init;
  }

  /** The byte two after each ESC of the joined frames tells what it begins:
      '1' for a cursor reset, which sits exactly at a frame's offset, and
      '4' or '3' for a colour selector of a cell. */
  lemma {:induction false} JoinEscapes(ts: seq<seq<byte>>, q: nat)
    requires forall i :: 0 <= i < |ts| ==> ColourEscapes(ts[i])
    requires q < |Join(ts)| && Join(ts)[q] == 0x1B
    ensures q + 2 < |Join(ts)|
    ensures Join(ts)[q + 2] == 0x31 || Join(ts)[q + 2] == 0x34 || Join(ts)[q + 2] == 0x33
    ensures Join(ts)[q + 2] == 0x31 <==> FrameOffset(ts, q)
  {
    assert |ts| >= 1;
    var init, last := ts[..|ts| - 1], ts[|ts| - 1];
    var j0 := Join(init);
    JoinLength(init);
    ControlLengths();
    assert Join(ts) == j0 + RESET_CURSOR + last;
    if q < |j0| {
      assert forall i :: 0 <= i < |init| ==> init[i] == ts[i];
      JoinEscapes(init, q);
      assert Join(ts)[q + 2] == j0[q + 2];
      OffsetsOfInit(ts, init, q);
    } else if q < |j0| + 6 {
      assert RESET_CURSOR[q - |j0|] == 0x1B;
      assert q == |j0|;
      assert Join(ts)[q + 2] == RESET_CURSOR[2];
      assert ts[..|ts| - 1] == init;
    } else {
      var d := q - |j0| - 6;
      assert last[d] == 0x1B;
      assert ColourEscapeAt(last, d);
      assert Join(ts)[q + 2] == last[d + 2];
      OffsetsBelow(ts, q);
    }
  }

  /** The byte two after each ESC of the output tells what it begins: '?'
      only for HIDE_CURSOR at the start, '0' only for RESET_DISPLAY at the
      end, and '1' only for a cursor reset at a frame's offset. */
  lemma OutputEscape(ts: seq<seq<byte>>, j: seq<byte>, v: seq<byte>, o: int)
    requires forall i :: 0 <= i < |ts| ==> ColourEscapes(ts[i])
    requires j == Join(ts) && v == HIDE_CURSOR + j + RESET_DISPLAY
    requires 0 <= o && o + 2 < |v| && v[o] == 0x1B
    ensures v[o + 2] == 0x3F <==> o == 0
    ensures v[o + 2] == 0x30 <==> o == |v| - 7
    ensures v[o + 2] == 0x31 <==> FrameOffset(ts, o - 6)
  {
    ControlLengths();
    JoinLength(ts);
    if o < 6 {
      HeadEscape(ts, j, v, o);
    } else if o < 6 + |j| {
      FrameEscape(ts, j, v, o);
    } else {
      TailEscape(ts, j, v, o);
    }
  }

  lemma HeadEscape(ts: seq<seq<byte>>, j: seq<byte>, v: seq<byte>, o: int)
    requires v == HIDE_CURSOR + j + RESET_DISPLAY && 0 <= o < 6 && v[o] == 0x1B
    ensures o == 0 && v[o + 2] == 0x3F && |v| - 7 > 0 && !FrameOffset(ts, o - 6)
  {
    ControlLengths();
    assert v[o] == HIDE_CURSOR[o] && v[2] == HIDE_CURSOR[2];
  }

  /** An ESC inside the joined frames is a cursor reset at a frame's offset
      or a colour selector of a cell. */
  lemma FrameEscape(ts: seq<seq<byte>>, j: seq<byte>, v: seq<byte>, o: int)
    requires forall i :: 0 <= i < |ts| ==> ColourEscapes(ts[i])
    requires j == Join(ts) && v == HIDE_CURSOR + j + RESET_DISPLAY
    requires 6 <= o < 6 + |j| && v[o] == 0x1B
    ensures o + 2 < |v| && o != 0 && o != |v| - 7
    ensures v[o + 2] == 0x31 || v[o + 2] == 0x34 || v[o + 2] == 0x33
    ensures v[o + 2] == 0x31 <==> FrameOffset(ts, o - 6)
  {
    MiddleEscape(j, v, o);
    JoinEscapes(ts, o - 6);
  }

  lemma MiddleEscape(j: seq<byte>, v: seq<byte>, o: int)
    requires v == HIDE_CURSOR + j + RESET_DISPLAY && 6 <= o < 6 + |j|
    ensures o < |v| - 7 && v[o] == j[o - 6]
    ensures o - 4 < |j| ==> v[o + 2] == j[o - 4]
  {
    ControlLengths();
  }

  lemma TailEscape(ts: seq<seq<byte>>, j: seq<byte>, v: seq<byte>, o: int)
    requires j == Join(ts) && v == HIDE_CURSOR + j + RESET_DISPLAY && 6 + |j| <= o < |v| && v[o] == 0x1B
    ensures o + 2 < |v| && o > 0 && !FrameOffset(ts, o - 6)
    ensures (o == |v| - 7 && v[o + 2] == 0x30) || (o == |v| - 4 && v[o + 2] == 0x32)
  {
    ControlLengths();
    JoinLength(ts);
    var d := o - 6 - |j|;
    assert v[o] == RESET_DISPLAY[d];
    assert d == 0 || d == 3;
    assert v[o + 2] == RESET_DISPLAY[d + 2];
    forall i | 0 <= i < |ts|
      ensures Footprint(ts[..i]) < o - 6
    {
      FootprintPrefix(ts, i);
    }
  }

  /** An occurrence of a sequence that starts ESC ? c is an ESC with c two
      bytes after it. */
  lemma OccursAtBytes(v: seq<byte>, pat: seq<byte>, o: int)
    requires |pat| >= 3 && OccursAt(v, pat, o)
    ensures o + 2 < |v| && v[o] == pat[0] && v[o + 2] == pat[2]
  {
    assert v[o..o + |pat|][0] == v[o] && v[o..o + |pat|][2] == v[o + 2];
  }

  /** The frames' texts keep only colour selectors. */
  lemma FrameTextsEscapes(fs: seq<Image>)
    requires FrameTexts(fs).Some?
    ensures forall i :: 0 <= i < |FrameTexts(fs).value| ==> ColourEscapes(FrameTexts(fs).value[i])
  {
    FrameTextsMeaning(fs);
    forall i | 0 <= i < |fs|
      ensures ColourEscapes(FrameText(fs[i]).value)
    {
      FrameEscapes(fs[i]);
    }
  }

  /** HIDE_CURSOR occurs once in the output, at its start. */
  lemma HideCursorOnce(fs: seq<Image>)
    requires Animation(fs).Some?
    ensures forall o :: OccursAt(Animation(fs).value, HIDE_CURSOR, o) <==> o == 0
  {
    var v, ts := Animation(fs).value, FrameTexts(fs).value;
    FrameTextsEscapes(fs);
    AnimationEnds(fs);
    forall o | OccursAt(v, HIDE_CURSOR, o)
      ensures o == 0
    {
      OccursAtBytes(v, HIDE_CURSOR, o);
      OutputEscape(ts, Join(ts), v, o);
    }
  }

  /** RESET_DISPLAY occurs once in the output, at its end. */
  lemma ResetDisplayOnce(fs: seq<Image>)
    requires Animation(fs).Some?
    ensures forall o :: OccursAt(Animation(fs).value, RESET_DISPLAY, o) <==> o == |Animation(fs).value| - 7
  {
    var v, ts := Animation(fs).value, FrameTexts(fs).value;
    FrameTextsEscapes(fs);
    AnimationEnds(fs);
    forall o | OccursAt(v, RESET_DISPLAY, o)
      ensures o == |v| - 7
    {
      OccursAtBytes(v, RESET_DISPLAY, o);
      OutputEscape(ts, Join(ts), v, o);
    }
  }

  /** RESET_CURSOR occurs in the output exactly at the frames' offsets: once
      before each frame's text and nowhere else (FrameOffsetsIncrease: the
      offsets are distinct). */
  lemma ResetCursorPerFrame(fs: seq<Image>)
    requires Animation(fs).Some?
    ensures |FrameTexts(fs).value| == |fs|
    ensures forall o :: OccursAt(Animation(fs).value, RESET_CURSOR, o) <==> FrameOffset(FrameTexts(fs).value, o - 6)
  {
    var v, ts := Animation(fs).value, FrameTexts(fs).value;
    FrameTextsMeaning(fs);
    CursorsAtFrames(fs, v, ts);
    FramesHaveCursors(fs, v, ts);
    forall o | FrameOffset(ts, o - 6)
      ensures OccursAt(v, RESET_CURSOR, o)
    {
      var i :| 0 <= i < |ts| && o - 6 == Footprint(ts[..i]);
      assert OccursAt(v, RESET_CURSOR, 6 + Footprint(ts[..i]));
    }
  }

  lemma CursorsAtFrames(fs: seq<Image>, v: seq<byte>, ts: seq<seq<byte>>)
    requires FrameTexts(fs) == Some(ts) && Animation(fs) == Some(v)
    ensures forall o :: OccursAt(v, RESET_CURSOR, o) ==> FrameOffset(ts, o - 6)
  {
    FrameTextsEscapes(fs);
    forall o | OccursAt(v, RESET_CURSOR, o)
      ensures FrameOffset(ts, o - 6)
    {
      OccursAtBytes(v, RESET_CURSOR, o);
      OutputEscape(ts, Join(ts), v, o);
    }
  }

  lemma FramesHaveCursors(fs: seq<Image>, v: seq<byte>, ts: seq<seq<byte>>)
    requires FrameTexts(fs) == Some(ts) && Animation(fs) == Some(v) && |ts| == |fs|
    ensures forall i :: 0 <= i < |ts| ==> OccursAt(v, RESET_CURSOR, 6 + Footprint(ts[..i]))
  {
    forall i | 0 <= i < |ts|
      ensures OccursAt(v, RESET_CURSOR, 6 + Footprint(ts[..i]))
    {
      AnimationFrame(fs, i);
      CursorOfFrame(v, ts, i);
    }
  }

  lemma CursorOfFrame(v: seq<byte>, ts: seq<seq<byte>>, i: nat)
    requires i < |ts| && FrameAt(v, ts, i)
    ensures OccursAt(v, RESET_CURSOR, 6 + Footprint(ts[..i]))
  {
    var o := 6 + Footprint(ts[..i]);
    ControlLengths();
    assert v[o..o + 6 + |ts[i]|][..6] == v[o..o + 6];
  }
}
