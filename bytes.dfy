/** Go strings are byte strings. This module gives the byte type, the
    Option wrapper used for the program's runtime failures, and UTF-8: the
    encoding Go uses both for the bytes of a source-text string literal and
    for the conversion `string(r)` of an integer r to a one-rune string. */
module Bytes {

  /** A Go `byte` (`uint8`). */
  type byte = b: int | 0 <= b < 256

  datatype Option<+T> = None | Some(value: T)

  /** A Unicode scalar value: what a Go rune denotes when it is valid. */
  predicate IsScalar(c: int) {
    0 <= c < 0x11_0000 && !(0xD800 <= c < 0xE000)
  }

  predicate IsContinuation(b: byte) {
    0x80 <= b < 0xC0
  }

  /** The UTF-8 encoding of one scalar value, as `utf8.EncodeRune` writes it. */
  function EncodeRune(c: int): (s: seq<byte>)
    requires IsScalar(c)
    ensures 1 <= |s| <= 4
    ensures |s| == 1 <==> c < 0x80
    ensures |s| == 1 ==> s[0] == c
    ensures forall i :: 1 <= i < |s| ==> IsContinuation(s[i])
  {
    if c < 0x80 then [c]
    else if c < 0x800 then [0xC0 + c / 64, 0x80 + c % 64]
    else if c < 0x1_0000 then [0xE0 + c / 4096, 0x80 + c / 64 % 64, 0x80 + c % 64]
    else [0xF0 + c / 262144, 0x80 + c / 4096 % 64, 0x80 + c / 64 % 64, 0x80 + c % 64]
  }

  /** Decodes the code point at the start of `s` and says how many bytes it
      took; None for a malformed, overlong, surrogate or truncated sequence.
      This is the reference the encoder is checked against. */
  function DecodeRune(s: seq<byte>): Option<(int, nat)> {
    if |s| == 0 then None
    else if s[0] < 0x80 then Some((s[0], 1))
    else if s[0] < 0xC2 then None
    else if s[0] < 0xE0 then
      if |s| >= 2 && IsContinuation(s[1])
      then Some(((s[0] as int - 0xC0) * 64 + (s[1] as int - 0x80), 2))
      else None
    else if s[0] < 0xF0 then
      if |s| >= 3 && IsContinuation(s[1]) && IsContinuation(s[2]) then
        var c := (s[0] as int - 0xE0) * 4096 + (s[1] as int - 0x80) * 64 + (s[2] as int - 0x80);
        if c < 0x800 || 0xD800 <= c < 0xE000 then None else Some((c, 3))
      else None
    else if s[0] < 0xF5 then
      if |s| >= 4 && IsContinuation(s[1]) && IsContinuation(s[2]) && IsContinuation(s[3]) then
        var c := (s[0] as int - 0xF0) * 262144 + (s[1] as int - 0x80) * 4096 + (s[2] as int - 0x80) * 64 + (s[3] as int - 0x80);
        if c < 0x1_0000 || c >= 0x11_0000 then None else Some((c, 4))
      else None
    else None
  }

  /** Decoding the encoding of a scalar value gives it back, whatever follows. */
  lemma DecodeEncodeRune(c: int, rest: seq<byte>)
    requires IsScalar(c)
    ensures DecodeRune(EncodeRune(c) + rest) == Some((c, |EncodeRune(c)|))
  {
    var e := EncodeRune(c);
    var s := e + rest;
    if c < 0x80 {
    } else if c < 0x800 {
      assert s[0] == e[0] && s[1] == e[1];
      DecodeTwo(c, s);
    } else if c < 0x1_0000 {
      assert s[0] == e[0] && s[1] == e[1] && s[2] == e[2];
      DecodeThree(c, s);
    } else {
      assert s[0] == e[0] && s[1] == e[1] && s[2] == e[2] && s[3] == e[3];
      DecodeFour(c, s);
    }
  }

  lemma DecodeTwo(c: int, s: seq<byte>)
    requires 0x80 <= c < 0x800 && |s| >= 2
    requires s[0] == 0xC0 + c / 64 && s[1] == 0x80 + c % 64
    ensures DecodeRune(s) == Some((c, 2))
  {
  }

  lemma DecodeThree(c: int, s: seq<byte>)
    requires 0x800 <= c < 0x1_0000 && !(0xD800 <= c < 0xE000) && |s| >= 3
    requires s[0] == 0xE0 + c / 4096 && s[1] == 0x80 + c / 64 % 64 && s[2] == 0x80 + c % 64
    ensures DecodeRune(s) == Some((c, 3))
  {
    assert (c / 4096) * 4096 + (c / 64 % 64) * 64 + c % 64 == c;
  }

  lemma DecodeFour(c: int, s: seq<byte>)
    requires 0x1_0000 <= c < 0x11_0000 && |s| >= 4
    requires s[0] == 0xF0 + c / 262144 && s[1] == 0x80 + c / 4096 % 64
    requires s[2] == 0x80 + c / 64 % 64 && s[3] == 0x80 + c % 64
    ensures DecodeRune(s) == Some((c, 4))
  {
    Split(c);
    DecodeDigits(c, c / 262144, c / 4096 % 64, c / 64 % 64, c % 64, s);
  }

  /** c in base 64, in the four digits of a four-byte encoding. */
  lemma Split(c: nat)
    ensures c == (c / 262144) * 262144 + (c / 4096 % 64) * 4096 + (c / 64 % 64) * 64 + c % 64
  {
    var q := c / 64;
    assert c == q * 64 + c % 64;
    assert q / 64 == c / 4096 && q % 64 == c / 64 % 64;
    var q' := q / 64;
    assert q == q' * 64 + q % 64;
    assert q' / 64 == c / 262144 && q' % 64 == c / 4096 % 64;
    assert q' == (q' / 64) * 64 + q' % 64;
  }

  lemma DecodeDigits(c: int, a: int, b1: int, b2: int, b3: int, s: seq<byte>)
    requires 0x1_0000 <= c < 0x11_0000 && |s| >= 4
    requires 0 <= a < 5 && 0 <= b1 < 64 && 0 <= b2 < 64 && 0 <= b3 < 64
    requires c == a * 262144 + b1 * 4096 + b2 * 64 + b3
    requires s[0] == 0xF0 + a && s[1] == 0x80 + b1 && s[2] == 0x80 + b2 && s[3] == 0x80 + b3
    ensures DecodeRune(s) == Some((c, 4))
  {
  }

  lemma Assoc3(a: seq<byte>, b: seq<byte>, c: seq<byte>)
    ensures a + b + c == a + (b + c)
  {
  }

  lemma Assoc4(a: seq<byte>, b: seq<byte>, c: seq<byte>, d: seq<byte>)
    ensures a + b + c + d == a + (b + (c + d))
  {
  }

  /** The bytes of a Go string literal: the UTF-8 encoding of its text. */
  function Utf8(s: string): (r: seq<byte>)
    ensures |r| >= |s|
  {
    if |s| == 0 then [] else EncodeRune(s[0] as int) + Utf8(s[1..])
  }

  predicate IsAscii(s: string) {
    forall i :: 0 <= i < |s| ==> s[i] as int < 0x80
  }

  /** An ASCII literal is its own byte string: one byte per character, each the character's code. */
  lemma {:induction false} Utf8Ascii(s: string)
    requires IsAscii(s)
    ensures |Utf8(s)| == |s|
    ensures forall i :: 0 <= i < |s| ==> Utf8(s)[i] == s[i] as int
  {
    if |s| > 0 {
      assert IsAscii(s[1..]) by {
        forall i | 0 <= i < |s[1..]| ensures s[1..][i] as int < 0x80 {
          assert s[1..][i] == s[i + 1];
        }
      }
      Utf8Ascii(s[1..]);
    }
  }

  /** Encoding distributes over concatenation of the text. */
  lemma {:induction false} Utf8Append(a: string, b: string)
    ensures Utf8(a + b) == Utf8(a) + Utf8(b)
  {
    if |a| == 0 {
      assert a + b == b;
    } else {
      assert (a + b)[0] == a[0] && (a + b)[1..] == a[1..] + b;
      Utf8Append(a[1..], b);
      var e := EncodeRune(a[0] as int);
      calc {
        Utf8(a + b);
        e + Utf8(a[1..] + b);
        e + (Utf8(a[1..]) + Utf8(b));
        e + Utf8(a[1..]) + Utf8(b);
        Utf8(a) + Utf8(b);
      }
    }
  }
}
