/**
 * The conversion arithmetic of the handler: the input is normalised to metres
 * by dividing by the source factor and then multiplied by the target factor.
 * Values are exact rationals.
 */
module Conversion {
  import opened Models
  import opened UnitTable

  /** A length in unit `u` expressed in metres. */
  function ToMetres(v: real, u: Unit): (m: real)
    ensures m * Factor(u) == v
  {
    v / Factor(u)
  }

  /** A length in metres expressed in unit `u`. */
  function FromMetres(m: real, u: Unit): (v: real)
    ensures ToMetres(v, u) == m
  {
    m * Factor(u)
  }

  /** `v` in unit `from`, expressed in unit `to`. */
  function Convert(v: real, from: Unit, to: Unit): (r: real)
    ensures r * Factor(from) == v * Factor(to)
  {
    FromMetres(ToMetres(v, from), to)
  }

  /** Converting a unit to itself gives the value back. */
  lemma ConvertIdentity(v: real, u: Unit)
    ensures Convert(v, u, u) == v
  {
  }

  /** Converting from A to B and back from B to A gives the value back. */
  lemma ConvertRoundTrip(v: real, a: Unit, b: Unit)
    ensures Convert(Convert(v, a, b), b, a) == v
  {
  }

  /** Converting through an intermediate unit is the same as converting directly. */
  lemma ConvertCompose(v: real, a: Unit, b: Unit, c: Unit)
    ensures Convert(Convert(v, a, b), b, c) == Convert(v, a, c)
  {
  }

  /** Conversion is linear in the value. */
  lemma ConvertLinear(c: real, v: real, w: real, from: Unit, to: Unit)
    ensures Convert(c * v + w, from, to) == c * Convert(v, from, to) + Convert(w, from, to)
  {
  }

  /** Conversion preserves the sign of the value. */
  lemma ConvertSign(v: real, from: Unit, to: Unit)
    ensures Convert(v, from, to) > 0.0 <==> v > 0.0
    ensures Convert(v, from, to) < 0.0 <==> v < 0.0
    ensures Convert(v, from, to) == 0.0 <==> v == 0.0
  {
  }

  /** One metre is exactly a thousand millimetres. */
  lemma MetreInMillimetres()
    ensures Convert(1.0, Metre, Millimetre) == 1000.0
  {
  }
}
