/** The part of Go's `fmt` package the renderer uses: the `%d` verb, which
    writes an unsigned integer in minimal decimal, and `Sprintf` over a format
    whose only verb is `%d`. */
module Fmt {
  import opened Bytes

  const ZERO: byte := '0' as int

  predicate IsDigit(b: byte) {
    '0' as int <= b <= '9' as int
  }

  predicate AllDigits(s: seq<byte>) {
    forall i :: 0 <= i < |s| ==> IsDigit(s[i])
  }

  /** A decimal numeral as `%d` writes it: at least one digit, and no leading zero unless it is "0". */
  predicate IsCanonical(s: seq<byte>) {
    |s| >= 1 && AllDigits(s) && (s[0] == ZERO ==> |s| == 1)
  }

  /** Number of decimal digits of n. */
  function Digits(n: nat): (k: nat)
    ensures k >= 1
  {
    if n < 10 then 1 else 1 + Digits(n / 10)
  }

  /** The value of a string of decimal digits, the reference reading of a numeral. */
  function Value(s: seq<byte>): nat
    requires AllDigits(s)
  {
    if |s| == 0 then 0 else Value(s[..|s| - 1]) * 10 + (s[|s| - 1] - ZERO)
  }

  /** What `%d` writes for n. */
  function Dec(n: nat): (s: seq<byte>)
    ensures IsCanonical(s)
    ensures |s| == Digits(n)
  {
    if n < 10 then [ZERO + n] else Dec(n / 10) + [ZERO + n % 10]
  }

  /** A byte value has one, two or three digits, split at 10 and 100. */
  lemma DigitsOfByte(n: nat)
    requires n < 256
    ensures Digits(n) == if n < 10 then 1 else if n < 100 then 2 else 3
  {
  }

  /** Reading back what `%d` wrote gives the number. */
  lemma {:induction false} ValueOfDec(n: nat)
    ensures Value(Dec(n)) == n
  {
    if n >= 10 {
      var s := Dec(n);
      assert s[..|s| - 1] == Dec(n / 10);
      ValueOfDec(n / 10);
    }
  }

  lemma {:induction false} ValueOfLeadingNonZero(s: seq<byte>)
    requires AllDigits(s) && |s| >= 1 && s[0] != ZERO
    ensures Value(s) >= 1
  {
    if |s| > 1 {
      ValueOfLeadingNonZero(s[..|s| - 1]);
    }
  }

  /** Every canonical numeral is what `%d` writes for its value: Dec is a
      bijection between numbers and canonical numerals. */
  lemma {:induction false} DecOfValue(s: seq<byte>)
    requires IsCanonical(s)
    ensures Dec(Value(s)) == s
  {
    if |s| > 1 {
      var init := s[..|s| - 1];
      assert init[0] == s[0];
      ValueOfLeadingNonZero(init);
      DecOfValue(init);
      assert Value(s) / 10 == Value(init);
      assert s == init + [s[|s| - 1]];
    }
  }

  /** `fmt.Sprintf(f, args...)` for a format whose verbs are all `%d` and
      whose arguments are unsigned integers. Text outside the verbs is copied
      as UTF-8; a `%d` with no argument left writes Go's "%!d(MISSING)". */
  function Format(f: string, args: seq<nat>): seq<byte>
    decreases |f|
  {
    if |f| == 0 then []
    else if |f| >= 2 && f[0] == '%' && f[1] == 'd' then
      if |args| > 0 then Dec(args[0]) + Format(f[2..], args[1..])
      else Utf8("%!d(MISSING)") + Format(f[2..], args)
    else EncodeRune(f[0] as int) + Format(f[1..], args)
  }

  predicate NoVerb(t: string) {
    forall i :: 0 <= i < |t| ==> t[i] != '%'
  }

  /** Text without a verb is copied through unchanged (as its UTF-8 bytes). */
  lemma {:induction false} FormatText(t: string, rest: string, args: seq<nat>)
    requires NoVerb(t)
    ensures Format(t + rest, args) == Utf8(t) + Format(rest, args)
  {
    if |t| > 0 {
      var s := t + rest;
      assert s[0] == t[0] && s[1..] == t[1..] + rest;
      assert NoVerb(t[1..]) by {
        forall i | 0 <= i < |t[1..]| ensures t[1..][i] != '%' {
          assert t[1..][i] == t[i + 1];
        }
      }
      FormatText(t[1..], rest, args);
      assert Format(s, args) == EncodeRune(t[0] as int) + Format(t[1..] + rest, args);
      Assoc3(EncodeRune(t[0] as int), Utf8(t[1..]), Format(rest, args));
    } else {
      assert t + rest == rest;
    }
  }

  /** A format without verbs writes its own text. */
  lemma FormatTextOnly(t: string, args: seq<nat>)
    requires NoVerb(t)
    ensures Format(t, args) == Utf8(t)
  {
    FormatText(t, "", args);
    assert t + "" == t;
  }

  /** A `%d` verb consumes the next argument and writes it in decimal. */
  lemma FormatVerb(rest: string, a: nat, args: seq<nat>)
    ensures Format("%d" + rest, [a] + args) == Dec(a) + Format(rest, args)
  {
    var s := "%d" + rest;
    assert s[0] == '%' && s[1] == 'd' && s[2..] == rest;
    assert ([a] + args)[0] == a && ([a] + args)[1..] == args;
  }
}
