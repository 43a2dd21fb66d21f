/**
 * The decimal conversions of java.lang that the handlers rely on:
 * Long.parseLong and Integer.parseInt for Content-Length values, and
 * Integer.toString for the Content-Length a closing stream writes.
 */
module JavaNumbers {
  import opened Octets

  const MinLong: int := -0x8000_0000_0000_0000
  const MaxLong: int := 0x7FFF_FFFF_FFFF_FFFF
  const MinInt: int := -0x8000_0000
  const MaxInt: int := 0x7FFF_FFFF

  predicate IsDigit(c: char) {
    '0' <= c <= '9'
  }

  predicate AllDigits(s: string) {
    forall i :: 0 <= i < |s| ==> IsDigit(s[i])
  }

  /** The value of a string of decimal digits, most significant first. */
  function DigitsValue(s: string): nat
    requires AllDigits(s)
    decreases |s|
  {
    if s == [] then 0 else DigitsValue(s[..|s| - 1]) * 10 + (s[|s| - 1] as int - '0' as int)
  }

  /**
   * parseLong / parseInt in radix 10 with the range [lo, hi]: an optional
   * sign, at least one digit, and a value in range; None is the
   * NumberFormatException.
   */
  function ParseBounded(s: string, lo: int, hi: int): (r: Option<int>)
    ensures r.Some? ==> lo <= r.value <= hi
    ensures r.Some? ==> |s| > 0 && (IsDigit(s[0]) || ((s[0] == '-' || s[0] == '+') && |s| > 1))
    ensures r.Some? && r.value < 0 ==> s[0] == '-'
  {
    var signed := |s| > 0 && (s[0] == '-' || s[0] == '+');
    var digits := if signed then s[1..] else s;
    if |digits| == 0 || !AllDigits(digits) then None
    else
      var m: int := if |s| > 0 && s[0] == '-' then -(DigitsValue(digits) as int) else DigitsValue(digits);
      if lo <= m <= hi then Some(m) else None
  }

  /** Long.parseLong(s). */
  function ParseLong(s: string): Option<int> {
    ParseBounded(s, MinLong, MaxLong)
  }

  /** Integer.parseInt(s). */
  function ParseInt(s: string): Option<int> {
    ParseBounded(s, MinInt, MaxInt)
  }

  function DigitChar(d: nat): (c: char)
    requires d < 10
    ensures IsDigit(c) && c as int - '0' as int == d
  {
    ('0' as int + d) as char
  }

  /** Integer.toString / Long.toString of a non-negative value: its decimal digits without leading zeros. */
  function Decimal(n: nat): (s: string)
    decreases n
  {
    if n < 10 then [DigitChar(n)] else Decimal(n / 10) + [DigitChar(n % 10)]
  }

  lemma {:induction false} DecimalDigits(n: nat)
    ensures |Decimal(n)| > 0 && AllDigits(Decimal(n)) && DigitsValue(Decimal(n)) == n
    decreases n
  {
    if n >= 10 {
      DecimalDigits(n / 10);
      var s := Decimal(n);
      assert s[..|s| - 1] == Decimal(n / 10);
    }
  }

  /** Parsing inverts printing: a value in range printed in decimal, with a minus sign when negative, parses back to itself. */
  lemma ParseOfDecimal(n: int, lo: int, hi: int)
    requires lo <= n <= hi
    ensures ParseBounded(if n < 0 then "-" + Decimal(-n) else Decimal(n), lo, hi) == Some(n)
  {
    if n < 0 {
      DecimalDigits(-n);
      assert ("-" + Decimal(-n))[1..] == Decimal(-n);
    } else {
      DecimalDigits(n);
    }
  }

  /** A value one past either end of the range is a NumberFormatException, and so are the empty string and a lone sign. */
  lemma ParseRejects(lo: int, hi: int)
    requires lo <= 0 <= hi
    ensures ParseBounded(Decimal(hi + 1), lo, hi) == None
    ensures ParseBounded("-" + Decimal(-lo + 1), lo, hi) == None
    ensures ParseBounded("", lo, hi) == None && ParseBounded("-", lo, hi) == None && ParseBounded("+", lo, hi) == None
  {
    DecimalDigits(hi + 1);
    DecimalDigits(-lo + 1);
    assert ("-" + Decimal(-lo + 1))[1..] == Decimal(-lo + 1);
  }

  /** A leading plus sign changes nothing. */
  lemma PlusSignIsIgnored(s: string, lo: int, hi: int)
    requires |s| > 0 && IsDigit(s[0])
    ensures ParseBounded("+" + s, lo, hi) == ParseBounded(s, lo, hi)
  {
    assert ("+" + s)[1..] == s;
  }
}
