/** Decimal rendering of integers, as JavaScript's `String(n)` does for integral numbers,
    and `String.prototype.padStart`. */
module Decimal {
  import opened Ascii

  function DigitChar(d: int): (c: char)
    requires 0 <= d < 10
    ensures IsDigit(c)
  {
    ('0' as int + d) as char
  }

  function DigitValue(c: char): (d: nat)
    requires IsDigit(c)
    ensures d < 10 && DigitChar(d) == c
  {
    c as int - '0' as int
  }

  predicate AllDigits(s: string)
  {
    forall i :: 0 <= i < |s| ==> IsDigit(s[i])
  }

  /** The decimal digits of `n`, most significant first, without leading zeros. */
  function NatToString(n: nat): (r: string)
    ensures |r| >= 1 && AllDigits(r)
    ensures r[0] == '0' ==> n == 0
    ensures n < 10 ==> |r| == 1
    ensures 10 <= n < 100 ==> |r| == 2
    ensures 1000 <= n < 10000 ==> |r| == 4
    decreases n
  {
    if n < 10 then [DigitChar(n)] else NatToString(n / 10) + [DigitChar(n % 10)]
  }

  /** The value of a string of decimal digits (leading zeros allowed). */
  function ParseNat(s: string): nat
    requires AllDigits(s)
    decreases |s|
  {
    if |s| == 0 then 0 else ParseNat(s[..|s| - 1]) * 10 + DigitValue(s[|s| - 1])
  }

  /** Rendering then parsing gives the number back. */
  lemma {:induction false} ParseNatToString(n: nat)
    ensures ParseNat(NatToString(n)) == n
    decreases n
  {
    if n >= 10 {
      ParseNatToString(n / 10);
      var r := NatToString(n);
      assert r[..|r| - 1] == NatToString(n / 10);
    }
  }

  /** `String(n)` for an integer: a minus sign before the digits of a negative number. */
  function IntToString(n: int): (r: string)
    ensures n >= 0 ==> r == NatToString(n)
    ensures n < 0 ==> r == "-" + NatToString(-n)
  {
    if n < 0 then "-" + NatToString(-n) else NatToString(n)
  }

  /** The inverse of `IntToString`: the value of an optionally negated digit string. */
  function ParseInt(s: string): int
    requires |s| > 0
    requires s[0] == '-' ==> AllDigits(s[1..])
    requires s[0] != '-' ==> AllDigits(s)
  {
    if s[0] == '-' then -(ParseNat(s[1..]) as int) else ParseNat(s)
  }

  /** `String` on integers is injective: parsing recovers the number. */
  lemma ParseIntToString(n: int)
    ensures var r := IntToString(n); |r| > 0 && (r[0] == '-' ==> AllDigits(r[1..])) &&
                                     (r[0] != '-' ==> AllDigits(r)) && ParseInt(r) == n
  {
    var r := IntToString(n);
    if n < 0 {
      assert r[1..] == NatToString(-n);
      ParseNatToString(-n);
    } else {
      ParseNatToString(n);
    }
  }

  /** `s.padStart(width, fill)` for a one-character fill: `fill` repeated in front of
      `s` until it is `width` long; strings already that long are unchanged. */
  function PadStart(s: string, width: int, fill: char): (r: string)
    ensures |r| == if |s| >= width then |s| else width
    ensures r[|r| - |s|..] == s
    ensures forall i :: 0 <= i < |r| - |s| ==> r[i] == fill
    decreases width - |s|
  {
    if |s| >= width then s else PadStart([fill] + s, width, fill)
  }

  /** `String(v).padStart(2, '0')`. */
  function TwoDigits(v: int): string
  {
    PadStart(IntToString(v), 2, '0')
  }

  /** A value in `[0, 100)` renders as exactly two digits whose value is `v`. */
  lemma TwoDigitsRoundTrip(v: int)
    requires 0 <= v < 100
    ensures |TwoDigits(v)| == 2 && AllDigits(TwoDigits(v))
    ensures ParseNat(TwoDigits(v)) == v
  {
    var d := NatToString(v);
    ParseNatToString(v);
    if v < 10 {
      assert TwoDigits(v) == ['0'] + d;
      assert TwoDigits(v)[..1] == ['0'];
    }
  }
}
