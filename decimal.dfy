/**
 * The decimal text the dashboard writes: JavaScript's Number-to-String
 * conversion of a byte-sized integer, and `(v / 100).toFixed(2)` for a
 * byte v read as hundredths.
 */
module Decimal {

  predicate IsDigit(c: char) {
    '0' <= c <= '9'
  }

  predicate IsDigits(s: string) {
    forall i :: 0 <= i < |s| ==> IsDigit(s[i])
  }

  function DigitValue(c: char): (d: nat)
    requires IsDigit(c)
    ensures d < 10
  {
    c as int - '0' as int
  }

  function DigitChar(d: nat): (c: char)
    requires d < 10
    ensures IsDigit(c) && DigitValue(c) == d
  {
    ('0' as int + d) as char
  }

  /** The number a string of digits denotes, most significant digit first. */
  function ValueOf(s: string): nat
    requires IsDigits(s)
  {
    if s == [] then 0 else ValueOf(s[..|s| - 1]) * 10 + DigitValue(s[|s| - 1])
  }

  /**
   * The shortest decimal numeral of n, as `String(n)` writes it for the
   * byte values the page shows (from 10^21 on `String` uses exponent form):
   * only digits, at least one, and no leading zero unless n is 0 itself.
   */
  function NatToString(n: nat): (s: string)
    ensures 1 <= |s| && IsDigits(s)
    ensures 1 < |s| ==> s[0] != '0'
    ensures n < 10 <==> |s| == 1
    decreases n
  {
    if n < 10 then [DigitChar(n)]
    else
      var front := NatToString(n / 10);
      assert |front| == 1 ==> DigitValue(front[0]) == n / 10;
      front + [DigitChar(n % 10)]
  }

  /** Reading the numeral back gives the number. */
  lemma {:induction false} NatToStringRoundTrip(n: nat)
    ensures ValueOf(NatToString(n)) == n
    decreases n
  {
    var s := NatToString(n);
    if n < 10 {
      assert s[..|s| - 1] == [];
    } else {
      assert s[..|s| - 1] == NatToString(n / 10);
      NatToStringRoundTrip(n / 10);
    }
  }

  /**
   * `(v / 100).toFixed(2)` for a byte v: the whole part of v / 100, a
   * point, then the two digits of v % 100 padded with a zero.
   * The double nearest v / 100 is never half-way between two hundredths,
   * so the decimal digits are exactly those of v.
   */
  function FixedTwo(v: nat): string
  {
    NatToString(v / 100) + "." + Digits(v, 2)
  }

  /** The last `count` decimal digits of n, padded with zeros on the left. */
  function Digits(n: nat, count: nat): (s: string)
    ensures |s| == count && IsDigits(s)
  {
    if count == 0 then [] else Digits(n / 10, count - 1) + [DigitChar(n % 10)]
  }

  /**
   * The text `FixedTwo(v)` is a numeral, a point and two digits, and the
   * numeral times 100 plus the two digits is v again.
   */
  lemma FixedTwoRoundTrip(v: nat)
    ensures var s := FixedTwo(v);
      4 <= |s| && s[|s| - 3] == '.' && (|s| > 4 ==> s[0] != '0') &&
      IsDigits(s[..|s| - 3]) && IsDigits(s[|s| - 2..]) &&
      ValueOf(s[..|s| - 3]) * 100 + ValueOf(s[|s| - 2..]) == v
  {
    var s := FixedTwo(v);
    var whole := NatToString(v / 100);
    assert s[..|s| - 3] == whole;
    NatToStringRoundTrip(v / 100);
    var frac := s[|s| - 2..];
    assert Digits(v / 10, 1) == [DigitChar(v / 10 % 10)];
    assert frac == Digits(v, 2) == [DigitChar(v / 10 % 10), DigitChar(v % 10)];
    assert frac[..1] == [DigitChar(v / 10 % 10)];
    assert frac[..1][..0] == [];
    assert ValueOf(frac[..1]) == v / 10 % 10;
    assert frac[..|frac| - 1] == frac[..1];
    assert ValueOf(frac) == (v / 10 % 10) * 10 + v % 10;
    assert v == (v / 100) * 100 + (v / 10 % 10) * 10 + v % 10;
  }
}
