/** The two per-unit tables of the converter: display information and conversion factors. */
module UnitTable {
  import opened Wrappers
  import opened Models

  /** Short symbol and full name of a unit. */
  datatype UnitInfo = UnitInfo(symbol: string, name: string)

  /** The display table; total because `Unit` is closed. */
  function Info(u: Unit): (i: UnitInfo)
    ensures |i.symbol| > 0 && |i.name| > 0
  {
    match u
    case Metre => UnitInfo("m", "Metre")
    case Millimetre => UnitInfo("mm", "Millimetre")
    case Mile => UnitInfo("mi", "Mile")
    case Foot => UnitInfo("ft", "Foot")
  }

  /** The "symbol (name)" label shown in the result line and stored in history records. */
  function Label(u: Unit): (s: string)
    ensures |s| == |Info(u).symbol| + |Info(u).name| + 3
    ensures s[..|Info(u).symbol| + 2] == Info(u).symbol + " (" && s[|s| - 1] == ')'
  {
    Info(u).symbol + " (" + Info(u).name + ")"
  }

  /** Reads a display label back to the unit it names, if it names one. */
  function UnitOfLabel(s: string): (r: Option<Unit>)
    ensures r.Some? ==> Label(r.value) == s
  {
    if s == Label(Metre) then Some(Metre)
    else if s == Label(Millimetre) then Some(Millimetre)
    else if s == Label(Mile) then Some(Mile)
    else if s == Label(Foot) then Some(Foot)
    else None
  }

  /**
   * The conversion table: how many of the unit make one metre. Every factor is
   * positive, and the metre is the base unit with factor 1.
   */
  function Factor(u: Unit): (f: real)
    ensures f > 0.0
    ensures f == 1.0 <==> u == Metre
  {
    match u
    case Metre => 1.0
    case Millimetre => 1000.0
    case Mile => 0.000621371
    case Foot => 3.28084
  }

  /** The four symbols are pairwise distinct. */
  lemma SymbolsDistinct(a: Unit, b: Unit)
    ensures Info(a).symbol == Info(b).symbol <==> a == b
  {
  }

  /** A label names exactly one unit: reading it back gives that unit. */
  lemma LabelRoundTrip(u: Unit)
    ensures UnitOfLabel(Label(u)) == Some(u)
  {
    // the second character already tells the four labels apart
    assert Label(Metre)[1] == ' ';
    assert Label(Millimetre)[1] == 'm';
    assert Label(Mile)[1] == 'i';
    assert Label(Foot)[1] == 't';
  }

  /** Distinct units have distinct labels. */
  lemma LabelInjective(a: Unit, b: Unit)
    ensures Label(a) == Label(b) <==> a == b
  {
    LabelRoundTrip(a);
    LabelRoundTrip(b);
  }
}
