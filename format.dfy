/**
 Decimal formatting of integers as Python's format mini-language does it for
 the `0<width>` specifier (`f'{n:04}'`): the decimal digits, padded on the
 left with zeros, after the sign, to at least `width` characters. A parser
 for the same text is given alongside and proved to undo the formatting.
 */
module Format {
  import opened Config

  predicate IsDigit(c: char) {
    '0' <= c <= '9'
  }

  predicate AllDigits(s: string) {
    forall i :: 0 <= i < |s| ==> IsDigit(s[i])
  }

  function DigitChar(d: nat): (c: char)
    requires d < 10
    ensures IsDigit(c)
  {
    ('0' as int + d) as char
  }

  function DigitValue(c: char): (d: nat)
    requires IsDigit(c)
    ensures d < 10
  {
    c as int - '0' as int
  }

  /** `str(n)` for a non-negative `n`: its decimal digits, most significant first. */
  function Decimal(n: nat): (s: string)
    ensures |s| >= 1 && AllDigits(s)
    ensures s[0] == '0' ==> n == 0
  {
    if n < 10 then [DigitChar(n)] else Decimal(n / 10) + [DigitChar(n % 10)]
  }

  function Zeros(k: int): (s: string)
    ensures |s| == if k <= 0 then 0 else k
    ensures forall i :: 0 <= i < |s| ==> s[i] == '0'
  {
    if k <= 0 then [] else ['0'] + Zeros(k - 1)
  }

  /** The value of a string of decimal digits, most significant first; the empty string reads as 0. */
  function ParseDigits(s: string): nat
    requires AllDigits(s)
  {
    if s == [] then 0 else ParseDigits(s[..|s| - 1]) * 10 + DigitValue(s[|s| - 1])
  }

  /** `format(n, '0' + str(width))`. */
  function ZeroPadded(n: int, width: nat): (s: string)
    ensures |s| >= width
    ensures |s| >= 1 && (s[0] == '-' <==> n < 0)
  {
    if n >= 0 then Zeros(width - |Decimal(n)|) + Decimal(n)
    else "-" + (Zeros(width - 1 - |Decimal(-n)|) + Decimal(-n))
  }

  /** Reads back an optionally signed run of decimal digits. */
  function ParseSigned(s: string): Option<int>
  {
    if |s| >= 2 && s[0] == '-' && AllDigits(s[1..]) then
      var magnitude: int := ParseDigits(s[1..]);
      Some(-magnitude)
    else if |s| >= 1 && AllDigits(s) then Some(ParseDigits(s))
    else None
  }

  lemma {:induction false} ParseDecimal(n: nat)
    ensures ParseDigits(Decimal(n)) == n
    decreases n
  {
    if n >= 10 {
      var s := Decimal(n);
      assert s[..|s| - 1] == Decimal(n / 10);
      ParseDecimal(n / 10);
    }
  }

  lemma {:induction false} ParseLeadingZeros(k: int, s: string)
    requires AllDigits(s)
    ensures AllDigits(Zeros(k) + s) && ParseDigits(Zeros(k) + s) == ParseDigits(s)
    decreases |s|
  {
    var z := Zeros(k);
    if s == [] {
      assert z + s == z;
      ParseZeros(k);
    } else {
      assert (z + s)[..|z + s| - 1] == z + s[..|s| - 1];
      ParseLeadingZeros(k, s[..|s| - 1]);
    }
  }

  lemma {:induction false} ParseZeros(k: int)
    ensures AllDigits(Zeros(k)) && ParseDigits(Zeros(k)) == 0
    decreases if k <= 0 then 0 else k
  {
    if k > 0 {
      var z := Zeros(k);
      assert z[..|z| - 1] == Zeros(k - 1) by {
        assert z == Zeros(k - 1) + ['0'];
      }
      ParseZeros(k - 1);
    }
  }

  /** Reading a zero-padded number gives the number back, whatever the width. */
  lemma ZeroPaddedRoundTrip(n: int, width: nat)
    ensures ParseSigned(ZeroPadded(n, width)) == Some(n)
  {
    if n >= 0 {
      NonNegativeRoundTrip(n, width);
    } else {
      NegativeRoundTrip(n, width);
    }
  }

  lemma NonNegativeRoundTrip(n: nat, width: nat)
    ensures ParseSigned(ZeroPadded(n, width)) == Some(n)
  {
    var digits := Decimal(n);
    var pad := width - |digits|;
    ParseLeadingZeros(pad, digits);
    ParseDecimal(n);
    var s := ZeroPadded(n, width);
    assert s == Zeros(pad) + digits;
    assert IsDigit(s[0]);
  }

  lemma NegativeRoundTrip(n: int, width: nat)
    requires n < 0
    ensures ParseSigned(ZeroPadded(n, width)) == Some(n)
  {
    var digits := Decimal(-n);
    var pad := width - 1 - |digits|;
    ParseLeadingZeros(pad, digits);
    ParseDecimal(-n);
    var rest := Zeros(pad) + digits;
    assert ZeroPadded(n, width) == "-" + rest;
    ParseMinus(rest, n);
  }

  /** A minus sign followed by the digits of `-v` reads as `v`. */
  lemma ParseMinus(rest: string, v: int)
    requires |rest| >= 1 && AllDigits(rest) && ParseDigits(rest) == -v
    ensures ParseSigned("-" + rest) == Some(v)
  {
    var s := "-" + rest;
    assert s[1..] == rest;
  }

  /** The padded text has at least `width` characters and never more than the sign and the digits need. */
  lemma ZeroPaddedLength(n: int, width: nat)
    ensures var digits := |Decimal(if n >= 0 then n else -n)| + (if n >= 0 then 0 else 1);
            |ZeroPadded(n, width)| == if width > digits then width else digits
  {
  }
}
