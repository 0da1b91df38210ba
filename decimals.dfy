/**
 * Signed decimal numbers written `-?digits(.digits)?`: their text, their value,
 * a parser that reads such text back, and the shortest way of writing a value.
 */
module Decimals {
  import opened Wrappers
  import opened Numerals

  /**
   * A decimal numeral: a sign, the digits before the point and the digits
   * after it (empty when the text has no point).
   */
  datatype Numeral = Numeral(negative: bool, whole: string, fraction: string)

  predicate WellFormed(n: Numeral) {
    |n.whole| > 0 && AllDigits(n.whole) && AllDigits(n.fraction)
  }

  /** The text of a numeral. */
  function Text(n: Numeral): string {
    (if n.negative then "-" else "") + Body(n)
  }

  /** The magnitude a well-formed numeral denotes. */
  function Magnitude(n: Numeral): (m: real)
    requires WellFormed(n)
    ensures DigitsValue(n.whole) as real <= m < DigitsValue(n.whole) as real + 1.0
  {
    FractionBelowOne(n.fraction);
    DigitsValue(n.whole) as real + DigitsValue(n.fraction) as real / Pow10(|n.fraction|) as real
  }

  /** The number a well-formed numeral denotes; the sign matters only for a non-zero magnitude. */
  function Value(n: Numeral): (v: real)
    requires WellFormed(n)
    ensures v == 0.0 <==> Magnitude(n) == 0.0
    ensures Magnitude(n) > 0.0 ==> (v < 0.0 <==> n.negative)
    ensures v == Magnitude(n) || v == -Magnitude(n)
  {
    if n.negative then -Magnitude(n) else Magnitude(n)
  }

  lemma FractionBelowOne(f: string)
    requires AllDigits(f)
    ensures 0.0 <= DigitsValue(f) as real / Pow10(|f|) as real < 1.0
  {
    RatioBelowOne(DigitsValue(f) as real, Pow10(|f|) as real);
  }

  lemma RatioBelowOne(a: real, b: real)
    requires 0.0 <= a < b
    ensures 0.0 <= a / b < 1.0
  {
  }

  lemma {:induction false} PointIndexAfterDigits(w: string, r: string)
    requires AllDigits(w)
    ensures PointIndex(w + r) == |w| + PointIndex(r)
  {
    if w != [] {
      assert (w + r)[0] == w[0] && IsDigit(w[0]);
      assert (w + r)[1..] == w[1..] + r;
      assert AllDigits(w[1..]) by {
        forall j | 0 <= j < |w| - 1 ensures IsDigit(w[1..][j]) {
          assert w[1..][j] == w[j + 1];
        }
      }
      PointIndexAfterDigits(w[1..], r);
    } else {
      assert w + r == r;
    }
  }

  /** The position of the first '.' in `s`, or `|s|` when there is none. */
  function PointIndex(s: string): (i: nat)
    ensures i <= |s|
    ensures forall j :: 0 <= j < i ==> s[j] != '.'
    ensures i < |s| ==> s[i] == '.'
  {
    if s == [] || s[0] == '.' then 0 else 1 + PointIndex(s[1..])
  }

  /** Reads a decimal numeral; only text of the form `-?digits(.digits)?` is accepted. */
  function Parse(s: string): (r: Option<Numeral>)
    ensures r.Some? ==> WellFormed(r.value) && Text(r.value) == s
  {
    if |s| > 0 && s[0] == '-' then
      match ParseUnsigned(s[1..])
      case Some(n) =>
        assert s == "-" + s[1..];
        Some(n.(negative := true))
      case None => None
    else
      ParseUnsigned(s)
  }

  /** Reads `digits(.digits)?` as a non-negative numeral. */
  function ParseUnsigned(s: string): (r: Option<Numeral>)
    ensures r.Some? ==> WellFormed(r.value) && !r.value.negative && Text(r.value) == s
  {
    var i := PointIndex(s);
    var whole := s[..i];
    var fraction := if i < |s| then s[i + 1..] else [];
    if |whole| > 0 && AllDigits(whole) && AllDigits(fraction) && (i < |s| ==> |fraction| > 0) then
      var n := Numeral(false, whole, fraction);
      assert Text(n) == s by {
        if i < |s| {
          assert s == whole + "." + fraction;
        } else {
          assert s == whole;
        }
      }
      Some(n)
    else
      None
  }

  /** The unsigned part of a numeral's text. */
  function Body(n: Numeral): string {
    n.whole + (if n.fraction == [] then "" else "." + n.fraction)
  }

  lemma ParseUnsignedBody(n: Numeral)
    requires WellFormed(n)
    ensures ParseUnsigned(Body(n)) == Some(n.(negative := false))
  {
    var body := Body(n);
    var rest := if n.fraction == [] then "" else "." + n.fraction;
    assert body == n.whole + rest;
    PointIndexAfterDigits(n.whole, rest);
    var i := PointIndex(body);
    assert i == |n.whole|;
    assert body[..i] == n.whole;
    if n.fraction != [] {
      assert body[i + 1..] == n.fraction;
    } else {
      assert i == |body|;
    }
  }

  /** Parsing the text of a well-formed numeral gives the numeral back. */
  lemma ParseText(n: Numeral)
    requires WellFormed(n)
    ensures Parse(Text(n)) == Some(n)
  {
    var s, body := Text(n), Body(n);
    ParseUnsignedBody(n);
    assert body[0] == n.whole[0];
    if n.negative {
      assert s == "-" + body;
      assert s[1..] == body;
    } else {
      assert s == body;
      assert IsDigit(s[0]);
    }
  }

  /**
   * The shortest numeral for its value: no superfluous leading zero in the
   * whole part, no trailing zero in the fraction, and no minus sign on zero.
   */
  predicate Shortest(n: Numeral) {
    WellFormed(n)
    && CanonicalNat(n.whole)
    && (n.fraction != [] ==> n.fraction[|n.fraction| - 1] != '0')
    && (n.negative ==> Value(n) != 0.0)
  }

  /** The text of a shortest numeral never ends in '.', nor in '0' after a point. */
  lemma ShortestTextEnding(n: Numeral)
    requires Shortest(n)
    ensures var s := Text(n); |s| > 0 && s[|s| - 1] != '.'
    ensures var s := Text(n); '.' in s ==> s[|s| - 1] != '0'
  {
    var s := Text(n);
    if n.fraction == [] {
      assert s[|s| - 1] == n.whole[|n.whole| - 1];
    } else {
      assert s[|s| - 1] == n.fraction[|n.fraction| - 1];
    }
  }

  /** A fraction ending in a non-zero digit has a value that is not a multiple of 10. */
  lemma TrimmedFractionDigit(f: string)
    requires AllDigits(f) && f != [] && f[|f| - 1] != '0'
    ensures DigitsValue(f) % 10 != 0
  {
    var p := f[..|f| - 1];
    assert DigitsValue(f) == DigitsValue(p) * 10 + DigitValue(f[|f| - 1]);
  }

  lemma {:induction false} Pow10Add(a: nat, b: nat)
    ensures Pow10(a + b) == Pow10(a) * Pow10(b)
  {
    if a > 0 {
      Pow10Add(a - 1, b);
    }
  }

  lemma CrossMultiply(a: int, p: int, b: int, q: int)
    requires p > 0 && q > 0 && a as real / p as real == b as real / q as real
    ensures a * q == b * p
  {
    var x, y, u, v := a as real, p as real, b as real, q as real;
    assert x == (x / y) * y;
    assert u == (u / v) * v;
    assert x * v == u * y;
    assert (a * q) as real == x * v;
    assert (b * p) as real == u * y;
  }

  lemma MulCancel(x: int, y: int, p: int)
    requires p > 0 && x * p == y * p
    ensures x == y
  {
  }

  /** If `b * p == a * p * 10r` then `b` is a multiple of 10. */
  lemma ScaledByTen(a: int, b: int, p: int, r: int)
    requires p > 0 && a * (p * (10 * r)) == b * p
    ensures b % 10 == 0
  {
    assert a * (p * (10 * r)) == (a * r * 10) * p;
    MulCancel(a * r * 10, b, p);
    assert b == (a * r) * 10;
  }

  /**
   * A fraction `f` and a longer fraction `g` that does not end in zero denote
   * different values: were they equal, `g` would be `f` followed by zeros.
   */
  lemma ShorterFractionDiffers(f: string, g: string)
    requires AllDigits(f) && AllDigits(g) && |f| < |g|
    requires g[|g| - 1] != '0'
    ensures DigitsValue(f) * Pow10(|g|) != DigitsValue(g) * Pow10(|f|)
  {
    if DigitsValue(f) * Pow10(|g|) == DigitsValue(g) * Pow10(|f|) {
      var d := |g| - |f|;
      Pow10Add(|f|, d);
      assert Pow10(d) == 10 * Pow10(d - 1);
      ScaledByTen(DigitsValue(f), DigitsValue(g), Pow10(|f|), Pow10(d - 1));
      TrimmedFractionDigit(g);
      assert false;
    }
  }

  /** Two fractions without trailing zeros that denote the same value are equal. */
  lemma FractionsEqual(f: string, g: string)
    requires AllDigits(f) && AllDigits(g)
    requires f != [] ==> f[|f| - 1] != '0'
    requires g != [] ==> g[|g| - 1] != '0'
    requires DigitsValue(f) as real / Pow10(|f|) as real == DigitsValue(g) as real / Pow10(|g|) as real
    ensures f == g
  {
    var a, b, p, q := DigitsValue(f), DigitsValue(g), Pow10(|f|), Pow10(|g|);
    CrossMultiply(a, p, b, q);
    if |f| < |g| {
      ShorterFractionDiffers(f, g);
    } else if |g| < |f| {
      ShorterFractionDiffers(g, f);
    } else {
      MulCancel(a, b, p);
      DigitsInjective(f, g);
    }
  }

  /** A value has exactly one shortest numeral. */
  lemma ShortestUnique(n: Numeral, m: Numeral)
    requires Shortest(n) && Shortest(m) && Value(n) == Value(m)
    ensures n == m
  {
    assert n.negative == m.negative;
    assert Magnitude(n) == Magnitude(m);
    var wn, wm := DigitsValue(n.whole), DigitsValue(m.whole);
    assert wn == wm;
    CanonicalNatUnique(n.whole, m.whole);
    FractionsEqual(n.fraction, m.fraction);
  }
}
