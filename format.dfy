/**
 * The display formatter `formatResult`: `toFixed(3)` rounds the number to
 * thousandths and writes exactly three fraction digits; reading that text back
 * with `parseFloat` and writing it with `toString` gives the shortest numeral
 * for the same value, so trailing zeros and a bare trailing point disappear.
 */
module Format {
  import opened Wrappers
  import opened Numerals
  import opened Decimals

  function Abs(x: real): (a: real)
    ensures a >= 0.0 && (a == x || a == -x)
  {
    if x < 0.0 then -x else x
  }

  /**
   * The whole number of thousandths `toFixed(3)` writes for the magnitude of
   * `x`: the integer nearest to `1000 * |x|`, the larger one on a tie.
   */
  function MagnitudeThousandths(x: real): (n: nat)
    ensures (n as real) - 0.5 <= 1000.0 * Abs(x) < (n as real) + 0.5
  {
    (1000.0 * Abs(x) + 0.5).Floor
  }

  /**
   * `x` rounded to a whole number of thousandths, half away from zero:
   * `toFixed` rounds the magnitude and puts the sign back.
   */
  function RoundThousandths(x: real): (k: int)
    ensures x >= 0.0 ==> (k as real) - 0.5 <= 1000.0 * x < (k as real) + 0.5
    ensures x < 0.0 ==> (k as real) - 0.5 < 1000.0 * x <= (k as real) + 0.5
  {
    if x < 0.0 then -(MagnitudeThousandths(x) as int) else MagnitudeThousandths(x)
  }

  /** The three digits of a number of thousandths below 1000, with leading zeros. */
  function ThreeDigits(f: nat): (s: string)
    requires f < 1000
    ensures |s| == 3 && AllDigits(s) && DigitsValue(s) == f
  {
    var one := [Digit(f / 100)];
    assert one == [] + [Digit(f / 100)];
    DigitsAppend([], Digit(f / 100));
    DigitsAppend(one, Digit(f / 10 % 10));
    DigitsAppend(one + [Digit(f / 10 % 10)], Digit(f % 10));
    one + [Digit(f / 10 % 10)] + [Digit(f % 10)]
  }

  /**
   * The numeral `toFixed(3)` writes: a minus sign for a negative `x` (even when
   * it rounds to zero), the whole part of the rounded magnitude, and exactly
   * three fraction digits (the zero padding of the standard's step that splits
   * the digit string three places from its end).
   */
  function ToFixedNumeral(x: real): (n: Numeral)
    ensures WellFormed(n) && |n.fraction| == 3
    ensures n.negative == (x < 0.0) && CanonicalNat(n.whole)
    ensures Value(n) == RoundThousandths(x) as real / 1000.0
  {
    var m := MagnitudeThousandths(x);
    var n := Numeral(x < 0.0, NatToString(m / 1000), ThreeDigits(m % 1000));
    WholeAndThousandths(m);
    n
  }

  lemma WholeAndThousandths(m: nat)
    ensures (m / 1000) as real + (m % 1000) as real / Pow10(3) as real == m as real / 1000.0
  {
    assert Pow10(3) == 1000;
    assert m == (m / 1000) * 1000 + m % 1000;
  }

  /** `x.toFixed(3)` for magnitudes below 10^21. */
  function ToFixed3(x: real): (s: string)
    ensures Parse(s) == Some(ToFixedNumeral(x))
    ensures |s| >= 5 && s[|s| - 4] == '.'
  {
    ParseText(ToFixedNumeral(x));
    Text(ToFixedNumeral(x))
  }

  /** Removes the trailing zeros of a digit string. */
  function TrimZeros(s: string): (t: string)
    ensures |t| <= |s| && t == s[..|t|]
    ensures t != [] ==> t[|t| - 1] != '0'
    ensures forall i :: |t| <= i < |s| ==> s[i] == '0'
  {
    if s != [] && s[|s| - 1] == '0' then TrimZeros(s[..|s| - 1]) else s
  }

  /** Trailing zeros of a fraction do not change its value. */
  lemma {:induction false} TrimZerosValue(s: string)
    requires AllDigits(s)
    ensures AllDigits(TrimZeros(s))
    ensures DigitsValue(TrimZeros(s)) as real / Pow10(|TrimZeros(s)|) as real
         == DigitsValue(s) as real / Pow10(|s|) as real
  {
    if s != [] && s[|s| - 1] == '0' {
      var p := s[..|s| - 1];
      TrimZerosValue(p);
      assert DigitsValue(s) == DigitsValue(p) * 10;
      assert Pow10(|s|) == Pow10(|p|) * 10;
      TenthsCancel(DigitsValue(p), Pow10(|p|));
    }
  }

  lemma TenthsCancel(a: nat, p: nat)
    requires p > 0
    ensures (a * 10) as real / (p * 10) as real == a as real / p as real
  {
  }

  /**
   * The shortest numeral for `k` thousandths, the text Number::toString gives
   * for that value.
   */
  function Thousandths(k: int): (n: Numeral)
    ensures Shortest(n) && |n.fraction| <= 3
    ensures Value(n) == k as real / 1000.0
  {
    var m: nat := if k < 0 then -k else k;
    var three := ThreeDigits(m % 1000);
    TrimZerosValue(three);
    WholeAndThousandths(m);
    Numeral(k < 0, NatToString(m / 1000), TrimZeros(three))
  }

  /** `formatResult`: the number rounded to three decimals, written without trailing zeros. */
  function FormatResult(x: real): (s: string)
    ensures Parse(s).Some? && Shortest(Parse(s).value) && |Parse(s).value.fraction| <= 3
    ensures Value(Parse(s).value) == RoundThousandths(x) as real / 1000.0
  {
    ParseText(Thousandths(RoundThousandths(x)));
    Text(Thousandths(RoundThousandths(x)))
  }

  /**
   * The formatted text is a shortest numeral whose value is `x` rounded to
   * thousandths, which is the value of the text `toFixed(3)` writes.
   */
  lemma FormatDenotesRounded(x: real)
    ensures Parse(FormatResult(x)).Some?
    ensures var n := Parse(FormatResult(x)).value;
      Shortest(n) && |n.fraction| <= 3
      && Value(n) == RoundThousandths(x) as real / 1000.0
      && Parse(ToFixed3(x)) == Some(ToFixedNumeral(x))
      && Value(n) == Value(ToFixedNumeral(x))
  {
    ParseText(Thousandths(RoundThousandths(x)));
    ParseText(ToFixedNumeral(x));
  }

  /**
   * `formatResult` is `toString(parseFloat(toFixed(3)))`: any shortest numeral
   * for the value `toFixed(3)` writes is exactly the formatted text.
   */
  lemma FormatIsShortestOfToFixed(x: real, s: string)
    requires Parse(s).Some? && Shortest(Parse(s).value)
    requires Value(Parse(s).value) == Value(ToFixedNumeral(x))
    ensures s == FormatResult(x)
  {
    FormatOfShortest(x, Parse(s).value);
  }

  /** The formatted text never ends in '.', and never in '0' after a point. */
  lemma FormatEnding(x: real)
    ensures var s := FormatResult(x); |s| > 0 && s[|s| - 1] != '.'
    ensures var s := FormatResult(x); '.' in s ==> s[|s| - 1] != '0'
  {
    ShortestTextEnding(Thousandths(RoundThousandths(x)));
  }

  /** The formatted text is within half a thousandth of the number. */
  lemma FormatError(x: real)
    ensures Parse(FormatResult(x)).Some?
    ensures var v := Value(Parse(FormatResult(x)).value); -0.0005 <= v - x <= 0.0005
  {
    FormatDenotesRounded(x);
  }

  /** The formatted text of `x` is the one shortest numeral for `x` rounded to thousandths. */
  lemma FormatOfShortest(x: real, n: Numeral)
    requires Shortest(n) && Value(n) == RoundThousandths(x) as real / 1000.0
    ensures FormatResult(x) == Text(n)
  {
    ShortestUnique(n, Thousandths(RoundThousandths(x)));
  }

  /** 5.000 is written "5". */
  lemma FormatWhole()
    ensures FormatResult(5.0) == "5"
  {
    FiveNumeral();
    FormatOfShortest(5.0, Numeral(false, "5", ""));
  }

  lemma FiveNumeral()
    ensures Shortest(Numeral(false, "5", "")) && Value(Numeral(false, "5", "")) == 5.0
    ensures Text(Numeral(false, "5", "")) == "5"
  {
    assert "5"[..0] == "";
    assert DigitsValue("5") == 5;
  }

  /** 5.25 is written "5.25". */
  lemma FormatFraction()
    ensures FormatResult(5.25) == "5.25"
  {
    FiveAndAQuarterNumeral();
    FormatOfShortest(5.25, Numeral(false, "5", "25"));
  }

  lemma FiveAndAQuarterNumeral()
    ensures Shortest(Numeral(false, "5", "25")) && Value(Numeral(false, "5", "25")) == 5.25
    ensures Text(Numeral(false, "5", "25")) == "5.25"
  {
    assert "5"[..0] == "" && "25"[..1] == "2" && "2"[..0] == "";
    assert DigitsValue("25") == 25;
    assert Pow10(2) == 100;
  }

  /** A small negative number that rounds to zero is written "0", without a sign. */
  lemma FormatNegativeZero()
    ensures ToFixed3(-0.0001) == "-0.000"
    ensures FormatResult(-0.0001) == "0"
  {
    ZeroNumerals();
    FormatOfShortest(-0.0001, Numeral(false, "0", ""));
    NegativeZeroToFixed();
  }

  lemma NegativeZeroToFixed()
    ensures ToFixedNumeral(-0.0001) == Numeral(true, "0", "000")
  {
    assert MagnitudeThousandths(-0.0001) == 0;
  }

  lemma ZeroNumerals()
    ensures Shortest(Numeral(false, "0", "")) && Value(Numeral(false, "0", "")) == 0.0
    ensures Text(Numeral(false, "0", "")) == "0"
    ensures Text(Numeral(true, "0", "000")) == "-0.000"
  {
    assert "0"[..0] == "";
    assert DigitsValue("0") == 0;
  }
}
