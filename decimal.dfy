/**
  The decimal rendering that `printf`'s `%d` conversion produces, as ASCII
  bytes, together with the reading back of such a rendering.
*/
module Decimal {

  import opened Machine

  const ZERO: Byte := 48
  const MINUS: Byte := 45

  predicate IsDigit(b: Byte)
  {
    ZERO <= b < ZERO + 10
  }

  /** Text as ASCII bytes. */
  function Ascii(s: string): (r: seq<Byte>)
    requires forall i :: 0 <= i < |s| ==> s[i] as int < 0x80
    ensures |r| == |s| && forall i :: 0 <= i < |s| ==> r[i] == s[i] as int
  {
    seq(|s|, i requires 0 <= i < |s| => s[i] as int)
  }

  /** The digits of `n`, most significant first, with no leading zero. */
  function Digits(n: nat): (r: seq<Byte>)
    decreases n
  {
    if n < 10 then [ZERO + n] else Digits(n / 10) + [ZERO + n % 10]
  }

  /** What a sequence of decimal digits denotes. */
  function DigitsValue(ds: seq<Byte>): nat
    decreases |ds|
  {
    if ds == [] then 0
    else
      var d := ds[|ds| - 1] - ZERO;
      DigitsValue(ds[..|ds| - 1]) * 10 + (if 0 <= d < 10 then d else 0)
  }

  /** `%d`: an optional minus sign followed by the digits of the magnitude. */
  function FormatInt(n: int): seq<Byte>
  {
    if n < 0 then [MINUS] + Digits(-n) else Digits(n)
  }

  /** Reads back a rendering produced by FormatInt. */
  function ParseInt(s: seq<Byte>): int
  {
    if |s| > 0 && s[0] == MINUS then -(DigitsValue(s[1..]) as int) else DigitsValue(s)
  }

  /** The digits of `n` are digits, start with a non-zero digit unless `n` is 0, and denote `n`. */
  lemma {:induction false} DigitsRoundTrip(n: nat)
    ensures |Digits(n)| > 0
    ensures forall i :: 0 <= i < |Digits(n)| ==> IsDigit(Digits(n)[i])
    ensures n > 0 ==> Digits(n)[0] != ZERO
    ensures DigitsValue(Digits(n)) == n
    decreases n
  {
    if n >= 10 {
      DigitsRoundTrip(n / 10);
      var ds := Digits(n);
      assert ds[..|ds| - 1] == Digits(n / 10);
      assert ds[0] == Digits(n / 10)[0];
    }
  }

  /** Rendering an `int` with `%d` loses nothing: the text reads back as the same number. */
  lemma FormatIntRoundTrip(n: int)
    ensures ParseInt(FormatInt(n)) == n
    ensures |FormatInt(n)| > 0
    ensures forall i :: 0 < i < |FormatInt(n)| ==> IsDigit(FormatInt(n)[i])
  {
    if n < 0 {
      DigitsRoundTrip(-n);
      assert FormatInt(n)[1..] == Digits(-n);
    } else {
      DigitsRoundTrip(n);
      assert Digits(n)[0] != MINUS;
    }
  }
}
