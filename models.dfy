/**
 * The data model of the length converter: the closed set of units and the
 * record kept for every completed conversion.
 */
module Models {

  /** The four length units; the set is closed, so every map over it can be total. */
  datatype Unit = Metre | Millimetre | Mile | Foot

  /** The units in the order the screen offers them. */
  const AllUnits: seq<Unit> := [Metre, Millimetre, Mile, Foot]

  /**
   * One completed conversion. Every field is text: `value` is the input exactly
   * as typed, `fromUnit` and `toUnit` are display labels (not unit tags) and
   * `result` is the formatted converted value.
   */
  datatype ConversionHistory = ConversionHistory(value: string, fromUnit: string, toUnit: string, result: string)

  /** Exactly four units, each listed once. */
  lemma UnitsClosed(u: Unit)
    ensures u in AllUnits
    ensures |AllUnits| == 4
    ensures forall i, j :: 0 <= i < j < |AllUnits| ==> AllUnits[i] != AllUnits[j]
  {
  }
}
