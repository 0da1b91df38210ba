/**
 * The convert handler of the length converter screen: it owns the result line
 * and the conversion history and turns one convert request into one state
 * change.
 */
module LengthConverter {
  import opened Wrappers
  import opened Models
  import opened UnitTable
  import opened Conversion
  import opened Numerals
  import opened Decimals
  import opened Format

  /** The text of the input value as written by `formatResult` after converting. */
  function Converted(v: real, fromUnit: Unit, toUnit: Unit): (s: string)
    ensures Parse(s).Some? && Shortest(Parse(s).value)
    ensures Value(Parse(s).value) * 1000.0 == RoundThousandths(Convert(v, fromUnit, toUnit)) as real
    ensures fromUnit == toUnit ==> s == FormatResult(v)
  {
    ConvertIdentity(v, fromUnit);
    FormatResult(Convert(v, fromUnit, toUnit))
  }

  /** The result line: "<value> <from label> = <formatted> <to label>". */
  function ResultLine(value: string, fromUnit: Unit, toUnit: Unit, formatted: string): (s: string)
    ensures s == value + " " + Label(fromUnit) + " = " + formatted + " " + Label(toUnit)
  {
    var a, b := Info(fromUnit), Info(toUnit);
    Regroup(value, a.symbol, a.name, formatted, b.symbol, b.name);
    value + " " + a.symbol + " (" + a.name + ") = "
      + formatted + " " + b.symbol + " (" + b.name + ")"
  }

  /** The history record of one successful conversion. */
  function Record(value: string, fromUnit: Unit, toUnit: Unit, formatted: string): (r: ConversionHistory)
    ensures r.value == value && r.result == formatted
    ensures UnitOfLabel(r.fromUnit) == Some(fromUnit) && UnitOfLabel(r.toUnit) == Some(toUnit)
  {
    LabelRoundTrip(fromUnit);
    LabelRoundTrip(toUnit);
    ConversionHistory(value, Label(fromUnit), Label(toUnit), formatted)
  }

  /** The result line shows the record's fields, in the order value, from, result, to. */
  lemma LineShowsRecord(value: string, fromUnit: Unit, toUnit: Unit, formatted: string)
    ensures var r := Record(value, fromUnit, toUnit, formatted);
      ResultLine(value, fromUnit, toUnit, formatted) == r.value + " " + r.fromUnit + " = " + r.result + " " + r.toUnit
  {
  }

  lemma Regroup(v: string, s: string, n: string, f: string, s2: string, n2: string)
    ensures v + " " + s + " (" + n + ") = " + f + " " + s2 + " (" + n2 + ")"
         == v + " " + (s + " (" + n + ")") + " = " + f + " " + (s2 + " (" + n2 + ")")
  {
    assert ") = " == ")" + " = ";
  }

  /** A text the formatter can produce: a shortest numeral with at most three fraction digits. */
  predicate IsFormatted(s: string) {
    Parse(s).Some? && Shortest(Parse(s).value) && |Parse(s).value.fraction| <= 3
  }

  /** What every record in the history satisfies: unit labels and a formatted result. */
  predicate WellFormedRecord(r: ConversionHistory) {
    UnitOfLabel(r.fromUnit).Some? && UnitOfLabel(r.toUnit).Some? && IsFormatted(r.result)
  }

  class Converter {
    var result: string
    var history: seq<ConversionHistory>

    ghost predicate Valid()
      reads this
    {
      forall i :: 0 <= i < |history| ==> WellFormedRecord(history[i])
    }

    /** The screen starts with an empty result line and an empty history. */
    constructor ()
      ensures Valid()
      ensures result == "" && history == []
    {
      result := "";
      history := [];
    }

    /**
     * `handleConvert`. `value` is the typed text and `parsed` what `parseFloat`
     * made of it (`None` for NaN). On NaN the handler only warns; otherwise it
     * sets the result line and appends exactly one record to the history.
     */
    method HandleConvert(value: string, parsed: Option<real>, fromUnit: Unit, toUnit: Unit) returns (warned: bool)
      requires Valid()
      modifies this
      ensures Valid()
      ensures warned <==> parsed.None?
      ensures warned ==> result == old(result) && history == old(history)
      ensures !warned ==>
        var formatted := Converted(parsed.value, fromUnit, toUnit);
        result == ResultLine(value, fromUnit, toUnit, formatted)
        && history == old(history) + [Record(value, fromUnit, toUnit, formatted)]
    {
      if parsed.None? {
        warned := true;
        return;
      }
      warned := false;
      var valueInMetres := ToMetres(parsed.value, fromUnit);
      var convertedValue := FromMetres(valueInMetres, toUnit);
      var formatted := FormatResult(convertedValue);
      result := ResultLine(value, fromUnit, toUnit, formatted);
      history := history + [Record(value, fromUnit, toUnit, formatted)];
    }
  }

  /** Converting 1 metre to millimetres gives "1000". */
  lemma MetreToMillimetre()
    ensures Converted(1.0, Metre, Millimetre) == "1000"
  {
    MetreInMillimetres();
    var n := Numeral(false, "1000", "");
    assert "1000"[..3] == "100" && "100"[..2] == "10" && "10"[..1] == "1" && "1"[..0] == "";
    assert DigitsValue("1000") == 1000;
    FormatOfShortest(1000.0, n);
  }

  /** Converting "1" from metre to millimetre shows "1 m (Metre) = 1000 mm (Millimetre)". */
  lemma MetreToMillimetreLine()
    ensures ResultLine("1", Metre, Millimetre, Converted(1.0, Metre, Millimetre))
         == "1 m (Metre) = 1000 mm (Millimetre)"
  {
    MetreToMillimetre();
    MetreToMillimetreText();
  }

  lemma MetreToMillimetreText()
    ensures ResultLine("1", Metre, Millimetre, "1000") == "1 m (Metre) = 1000 mm (Millimetre)"
  {
  }

  /** One mile is 5280.002 feet at three decimals. */
  lemma MileToFoot()
    ensures Converted(1.0, Mile, Foot) == "5280.002"
  {
    MileFormatted();
    MileInFeetText();
  }

  lemma MileInFeetText()
    ensures Text(Numeral(false, "5280", "002")) == "5280.002"
  {
  }

  lemma MileFormatted()
    ensures Converted(1.0, Mile, Foot) == Text(Numeral(false, "5280", "002"))
  {
    MileInThousandthsOfFeet();
    MileInFeetNumeral();
    FormatOfShortest(Convert(1.0, Mile, Foot), Numeral(false, "5280", "002"));
  }

  lemma MileInThousandthsOfFeet()
    ensures RoundThousandths(Convert(1.0, Mile, Foot)) == 5280002
  {
    var x := Convert(1.0, Mile, Foot);
    assert x * 0.000621371 == 3.28084;
    assert 5280001.5 <= 1000.0 * x < 5280002.5;
  }

  lemma MileInFeetNumeral()
    ensures Shortest(Numeral(false, "5280", "002"))
    ensures Value(Numeral(false, "5280", "002")) == 5280002 as real / 1000.0
  {
    assert "5280"[..3] == "528" && "528"[..2] == "52" && "52"[..1] == "5" && "5"[..0] == "";
    assert DigitsValue("5280") == 5280;
    assert "002"[..2] == "00" && "00"[..1] == "0" && "0"[..0] == "";
    assert DigitsValue("002") == 2;
    assert Pow10(3) == 1000;
  }
}
