/** ECMA-48 control sequences of the form CSI p1;p2;...;pn final, as the
    renderer writes them, with a reference parser for them and the meaning of
    the Select Graphic Rendition (SGR, final byte 'm') parameters it uses:
    the direct colours 38;2;r;g;b (foreground) and 48;2;r;g;b (background),
    in the semicolon-separated form xterm and other terminals accept (ITU-T
    T.416 writes them with colons and a colour-space identifier). */
module Sgr {
  import opened Bytes
  import opened Fmt

  const ESC: byte := 0x1B
  const LEFT_BRACKET: byte := '[' as int
  const SEMICOLON: byte := ';' as int
  const SGR_FINAL: byte := 'm' as int

  /** Parameters in minimal decimal, separated by ';'. */
  function Params(ps: seq<nat>): seq<byte>
  {
    if |ps| == 0 then []
    else if |ps| == 1 then Dec(ps[0])
    else Dec(ps[0]) + [SEMICOLON] + Params(ps[1..])
  }

  /** The SGR control sequence ESC [ ps m. */
  function Sequence(ps: seq<nat>): seq<byte>
  {
    [ESC, LEFT_BRACKET] + Params(ps) + [SGR_FINAL]
  }

  /** Several SGR sequences, one after another. */
  function Sequences(pss: seq<seq<nat>>): seq<byte>
  {
    if |pss| == 0 then [] else Sequence(pss[0]) + Sequences(pss[1..])
  }

  // ---------------------------------------------------------------------
  // Reference parser

  /** Length of the run of digits at the start of s. */
  function DigitRun(s: seq<byte>): (k: nat)
    ensures k <= |s|
    ensures AllDigits(s[..k])
    ensures k < |s| ==> !IsDigit(s[k])
  {
    if |s| == 0 || !IsDigit(s[0]) then 0
    else
      var k := 1 + DigitRun(s[1..]);
      assert forall i :: 1 <= i < k ==> s[..k][i] == s[1..][..k - 1][i - 1];
      k
  }

  /** A decimal number at the start of s, and what follows it. */
  function Number(s: seq<byte>): (r: Option<(nat, seq<byte>)>)
    ensures r.Some? ==> |r.value.1| < |s|
  {
    var k := DigitRun(s);
    if k == 0 then None else Some((Value(s[..k]), s[k..]))
  }

  /** One or more numbers separated by ';', and what follows them. */
  function ParseParams(s: seq<byte>): (r: Option<(seq<nat>, seq<byte>)>)
    ensures r.Some? ==> |r.value.1| < |s|
    decreases |s|
  {
    match Number(s)
    case None => None
    case Some((n, rest)) =>
      if |rest| > 0 && rest[0] == SEMICOLON then
        match ParseParams(rest[1..])
        case None => None
        case Some((ns, rest')) => Some(([n] + ns, rest'))
      else Some(([n], rest))
  }

  /** One SGR sequence at the start of s: its parameters, and what follows. */
  function ParseSequence(s: seq<byte>): (r: Option<(seq<nat>, seq<byte>)>)
    ensures r.Some? ==> |r.value.1| < |s|
  {
    if |s| < 2 || s[0] != ESC || s[1] != LEFT_BRACKET then None
    else
      match ParseParams(s[2..])
      case None => None
      case Some((ps, rest)) =>
        if |rest| > 0 && rest[0] == SGR_FINAL then Some((ps, rest[1..])) else None
  }

  /** s read as a whole as a run of SGR sequences. */
  function ParseAll(s: seq<byte>): Option<seq<seq<nat>>>
    decreases |s|
  {
    if |s| == 0 then Some([])
    else
      match ParseSequence(s)
      case None => None
      case Some((ps, rest)) =>
        match ParseAll(rest)
        case None => None
        case Some(pss) => Some([ps] + pss)
  }

  predicate EndsNumber(rest: seq<byte>) {
    |rest| == 0 || !IsDigit(rest[0])
  }

  lemma {:induction false} DigitRunOfDigits(d: seq<byte>, rest: seq<byte>)
    requires AllDigits(d) && EndsNumber(rest)
    ensures DigitRun(d + rest) == |d|
  {
    if |d| > 0 {
      assert (d + rest)[1..] == d[1..] + rest;
      DigitRunOfDigits(d[1..], rest);
    } else {
      assert d + rest == rest;
    }
  }

  /** The parser reads back a number written by `%d`. */
  lemma NumberOfDec(n: nat, rest: seq<byte>)
    requires EndsNumber(rest)
    ensures Number(Dec(n) + rest) == Some((n, rest))
  {
    var d := Dec(n);
    DigitRunOfDigits(d, rest);
    assert (d + rest)[..|d|] == d && (d + rest)[|d|..] == rest;
    ValueOfDec(n);
  }

  /** The parser reads back a parameter list, whatever follows it that is not
      a digit or a separator. */
  lemma {:induction false} ParamsRoundTrip(ps: seq<nat>, rest: seq<byte>)
    requires |ps| >= 1
    requires EndsNumber(rest) && (|rest| > 0 ==> rest[0] != SEMICOLON)
    ensures ParseParams(Params(ps) + rest) == Some((ps, rest))
  {
    if |ps| == 1 {
      NumberOfDec(ps[0], rest);
      ParseParamsLast(Params(ps) + rest, ps, rest);
    } else {
      var tail := Params(ps[1..]) + rest;
      var after := [SEMICOLON] + tail;
      ParamsSplit(ps, rest, tail, after);
      NumberOfDec(ps[0], after);
      ParamsRoundTrip(ps[1..], rest);
      ParseParamsStep(Dec(ps[0]) + after, ps, tail, rest);
    }
  }

  lemma ParamsSplit(ps: seq<nat>, rest: seq<byte>, tail: seq<byte>, after: seq<byte>)
    requires |ps| >= 2 && tail == Params(ps[1..]) + rest && after == [SEMICOLON] + tail
    ensures Params(ps) + rest == Dec(ps[0]) + after
  {
    var d, p := Dec(ps[0]), Params(ps[1..]);
    assert Params(ps) == d + [SEMICOLON] + p;
    Assoc4(d, [SEMICOLON], p, rest);
  }

  /** A last number, followed by neither a digit nor ';', ends the list. */
  lemma ParseParamsLast(s: seq<byte>, ps: seq<nat>, rest: seq<byte>)
    requires |ps| == 1 && Number(s) == Some((ps[0], rest))
    requires |rest| > 0 ==> rest[0] != SEMICOLON
    ensures ParseParams(s) == Some((ps, rest))
  {
    assert [ps[0]] == ps;
  }

  /** A number followed by ';' and more parameters parses as one list. */
  lemma ParseParamsStep(s: seq<byte>, ps: seq<nat>, tail: seq<byte>, rest: seq<byte>)
    requires |ps| >= 2 && Number(s) == Some((ps[0], [SEMICOLON] + tail))
    requires ParseParams(tail) == Some((ps[1..], rest))
    ensures ParseParams(s) == Some((ps, rest))
  {
    assert ([SEMICOLON] + tail)[1..] == tail;
    assert [ps[0]] + ps[1..] == ps;
  }

  lemma SequenceRoundTrip(ps: seq<nat>, rest: seq<byte>)
    requires |ps| >= 1
    ensures ParseSequence(Sequence(ps) + rest) == Some((ps, rest))
  {
    var s := Sequence(ps) + rest;
    assert s[2..] == Params(ps) + ([SGR_FINAL] + rest);
    ParamsRoundTrip(ps, [SGR_FINAL] + rest);
    assert ([SGR_FINAL] + rest)[1..] == rest;
  }

  /** Reading a run of SGR sequences gives back their parameter lists, in order. */
  lemma {:induction false} SequencesRoundTrip(pss: seq<seq<nat>>)
    requires forall i :: 0 <= i < |pss| ==> |pss[i]| >= 1
    ensures ParseAll(Sequences(pss)) == Some(pss)
  {
    if |pss| > 0 {
      var rest := Sequences(pss[1..]);
      SequenceRoundTrip(pss[0], rest);
      SequencesRoundTrip(pss[1..]);
      assert [pss[0]] + pss[1..] == pss;
    }
  }

  // ---------------------------------------------------------------------
  // Meaning of the SGR parameters the renderer writes

  type Rgb = (nat, nat, nat)

  /** The graphic rendition state: direct foreground and background colours
      (None is the terminal's default). */
  datatype Pen = Pen(fg: Option<Rgb>, bg: Option<Rgb>)

  /** The effect of one SGR sequence. Parameter lists other than 38;2;r;g;b
      and 48;2;r;g;b are outside this model and leave the pen as is. */
  function Apply(pen: Pen, ps: seq<nat>): Pen
  {
    if |ps| == 5 && ps[0] == 38 && ps[1] == 2 then pen.(fg := Some((ps[2], ps[3], ps[4])))
    else if |ps| == 5 && ps[0] == 48 && ps[1] == 2 then pen.(bg := Some((ps[2], ps[3], ps[4])))
    else pen
  }

  function ApplyAll(pen: Pen, pss: seq<seq<nat>>): Pen
    decreases |pss|
  {
    if |pss| == 0 then pen else ApplyAll(Apply(pen, pss[0]), pss[1..])
  }
}
