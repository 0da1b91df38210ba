/**
 * Digit strings: decimal digits, the value of a digit string, and the digits
 * written for a whole number.
 */
module Numerals {
  import opened Wrappers

  predicate IsDigit(c: char) {
    '0' <= c <= '9'
  }

  predicate AllDigits(s: string) {
    forall i :: 0 <= i < |s| ==> IsDigit(s[i])
  }

  function DigitValue(c: char): (d: nat)
    requires IsDigit(c)
    ensures d < 10
  {
    (c as int) - ('0' as int)
  }

  /** The character of a decimal digit. */
  function Digit(d: nat): (c: char)
    requires d < 10
    ensures IsDigit(c) && DigitValue(c) == d
  {
    (('0' as int) + d) as char
  }

  function Pow10(n: nat): (p: nat)
    ensures p >= 1
  {
    if n == 0 then 1 else 10 * Pow10(n - 1)
  }

  /** The value of a string of decimal digits (0 for the empty string). */
  function DigitsValue(s: string): (n: nat)
    requires AllDigits(s)
    ensures n < Pow10(|s|)
  {
    if s == [] then 0 else DigitsValue(s[..|s| - 1]) * 10 + DigitValue(s[|s| - 1])
  }

  /** A digit string without superfluous leading zeros. */
  predicate CanonicalNat(s: string) {
    |s| > 0 && AllDigits(s) && (s[0] == '0' ==> |s| == 1)
  }

  /** The decimal digits of a natural number. */
  function NatToString(n: nat): (s: string)
    ensures CanonicalNat(s) && DigitsValue(s) == n
  {
    if n < 10 then [Digit(n)]
    else
      var p := NatToString(n / 10);
      DigitsAppend(p, Digit(n % 10));
      p + [Digit(n % 10)]
  }

  lemma DigitsAppend(s: string, c: char)
    requires AllDigits(s) && IsDigit(c)
    ensures AllDigits(s + [c])
    ensures DigitsValue(s + [c]) == DigitsValue(s) * 10 + DigitValue(c)
  {
    assert (s + [c])[..|s|] == s;
  }

  /** A canonical digit string is the rendering of its own value. */
  lemma {:induction false} NatToStringOfValue(s: string)
    requires CanonicalNat(s)
    ensures NatToString(DigitsValue(s)) == s
  {
    if |s| == 1 {
      assert s[..0] == [] && s == [s[0]];
      assert DigitsValue(s) == DigitValue(s[0]);
      assert Digit(DigitValue(s[0])) == s[0];
    } else {
      var p, c := s[..|s| - 1], s[|s| - 1];
      assert s == p + [c];
      assert p[0] == s[0] && s[0] != '0';
      assert CanonicalNat(p);
      NatToStringOfValue(p);
      var q := DigitsValue(p);
      if q < 10 {
        assert p == [Digit(q)];
      }
      assert q >= 1;
      var n := DigitsValue(s);
      assert n == q * 10 + DigitValue(c);
      assert n / 10 == q && n % 10 == DigitValue(c);
      assert Digit(DigitValue(c)) == c;
      assert NatToString(n) == NatToString(q) + [Digit(n % 10)];
    }
  }

  /** Canonical digit strings of equal value are equal. */
  lemma CanonicalNatUnique(s: string, t: string)
    requires CanonicalNat(s) && CanonicalNat(t) && DigitsValue(s) == DigitsValue(t)
    ensures s == t
  {
    NatToStringOfValue(s);
    NatToStringOfValue(t);
  }

  /** Digit strings of the same length and value are equal. */
  lemma {:induction false} DigitsInjective(s: string, t: string)
    requires AllDigits(s) && AllDigits(t) && |s| == |t|
    requires DigitsValue(s) == DigitsValue(t)
    ensures s == t
  {
    if s != [] {
      var ps, pt := s[..|s| - 1], t[..|t| - 1];
      DigitsInjective(ps, pt);
      assert DigitValue(s[|s| - 1]) == DigitValue(t[|t| - 1]);
      assert s == ps + [s[|s| - 1]] && t == pt + [t[|t| - 1]];
    }
  }
}
