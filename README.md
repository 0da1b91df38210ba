# Length unit converter — Dafny model

This project models the functional core of a mobile screen that converts a
length between four units (metre, millimetre, mile, foot) and keeps an
in-memory history of the conversions made on the screen:

- `models.dfy` (module `Models`): the closed `Unit` union and the
  `ConversionHistory` record, whose four fields are all strings (the typed
  value verbatim, the two unit display labels, the formatted result).
- `units.dfy` (module `UnitTable`): the `unitInfo` display table and the
  `conversionTable` factors, as total functions over `Unit`. Factors are exact
  rationals (`real`): metre 1, millimetre 1000, mile 0.000621371, foot 3.28084.
- `conversion.dfy` (module `Conversion`): the conversion arithmetic, divide by
  the source factor to get metres, then multiply by the target factor.
- `numerals.dfy`, `decimals.dfy` (modules `Numerals`, `Decimals`): digit
  strings and signed decimal numerals `-?digits(.digits)?` with their values,
  a reader for such text (the part of `parseFloat` the formatter exercises),
  and the shortest numeral for a value, proved unique. With exact values this
  stands for `Number.prototype.toString`; the two agree while the rounded
  value has at most 15 significant digits (magnitudes below 10^12).
- `format.dfy` (module `Format`): `formatResult`, that is
  `parseFloat(num.toFixed(3)).toString()`. `toFixed(3)` is modelled after
  ECMA-262 section 21.1.3.3 over whole thousandths: the magnitude is rounded to
  the nearest thousandth, the larger one on a tie (so half away from zero once
  the sign is put back), and written with exactly three fraction digits. The
  formatted result is the shortest numeral for the same value.
- `length_converter.dfy` (module `LengthConverter`): the `handleConvert`
  handler as a class `Converter` with the screen's `result` and `history`
  state. The outcome of `parseFloat`/`isNaN` is an `Option<real>` parameter
  (`None` for NaN); the warning dialog is the returned `warned` flag.

## Model

| member | source | states |
|---|---|---|
| Models.UnitsClosed | src/features/LengthUnitConverter/models/index.ts:1 | every unit is one of the four listed units, and the list has four distinct entries |
| UnitTable.Info | src/features/LengthUnitConverter/screens/LengthConverter.tsx:36-41 | every unit has a non-empty symbol and a non-empty name |
| UnitTable.SymbolsDistinct | src/features/LengthUnitConverter/screens/LengthConverter.tsx:36-41 | two units have the same symbol exactly when they are the same unit |
| UnitTable.Factor | src/features/LengthUnitConverter/screens/LengthConverter.tsx:56-61 | every conversion factor is positive, and the factor is 1 exactly for the metre, the base unit |
| UnitTable.Label | src/features/LengthUnitConverter/screens/LengthConverter.tsx:77-78 | the "symbol (name)" label: it starts with the symbol and " (" and ends in ")"; that it names one unit is carried by LabelRoundTrip and LabelInjective |
| UnitTable.LabelRoundTrip | src/features/LengthUnitConverter/screens/LengthConverter.tsx:77-78 | the "symbol (name)" label of a unit is read back as that unit and no other |
| UnitTable.LabelInjective | src/features/LengthUnitConverter/screens/LengthConverter.tsx:77-78 | two units have the same label exactly when they are the same unit |
| Conversion.ToMetres | src/features/LengthUnitConverter/screens/LengthConverter.tsx:63 | the metre value times the source factor gives back the input value |
| Conversion.FromMetres | src/features/LengthUnitConverter/screens/LengthConverter.tsx:64 | expressing a metre value in a unit is undone by normalising it back to metres |
| Conversion.Convert | src/features/LengthUnitConverter/screens/LengthConverter.tsx:63-64 | the result r satisfies r * factor(from) = v * factor(to), which determines it |
| Conversion.ConvertIdentity | src/features/LengthUnitConverter/screens/LengthConverter.tsx:63-64 | converting a unit to itself returns the value unchanged |
| Conversion.ConvertRoundTrip | src/features/LengthUnitConverter/screens/LengthConverter.tsx:63-64 | converting A to B and then B to A returns the value unchanged |
| Conversion.ConvertCompose | src/features/LengthUnitConverter/screens/LengthConverter.tsx:63-64 | converting A to B and then B to C equals converting A to C directly |
| Conversion.ConvertLinear | src/features/LengthUnitConverter/screens/LengthConverter.tsx:63-64 | conversion is linear in the value |
| Conversion.ConvertSign | src/features/LengthUnitConverter/screens/LengthConverter.tsx:56-64 | the converted value is positive, negative or zero exactly when the input is |
| Conversion.MetreInMillimetres | src/features/LengthUnitConverter/screens/LengthConverter.tsx:56-64 | 1 metre converts to exactly 1000 millimetres |
| Numerals.NatToString | src/features/LengthUnitConverter/screens/LengthConverter.tsx:22 | the digits written for a whole number have no superfluous leading zero and denote that number |
| Numerals.NatToStringOfValue | src/features/LengthUnitConverter/screens/LengthConverter.tsx:22 | a digit string without superfluous leading zeros is the one written for its value |
| Decimals.Parse | src/features/LengthUnitConverter/screens/LengthConverter.tsx:22 | whatever decimal text is accepted is exactly the text of the numeral read from it |
| Decimals.ParseText | src/features/LengthUnitConverter/screens/LengthConverter.tsx:22 | reading the text of a numeral gives back that numeral |
| Decimals.ShortestTextEnding | src/features/LengthUnitConverter/screens/LengthConverter.tsx:20-22 | the shortest text of a value never ends in '.' and never ends in '0' after a point |
| Decimals.ShortestUnique | src/features/LengthUnitConverter/screens/LengthConverter.tsx:22 | two shortest numerals with the same value are the same numeral |
| Format.MagnitudeThousandths | src/features/LengthUnitConverter/screens/LengthConverter.tsx:22 | the thousandths of the magnitude are the nearest whole number to 1000 times the magnitude, the larger one on a tie |
| Format.RoundThousandths | src/features/LengthUnitConverter/screens/LengthConverter.tsx:22 | the value is rounded to the nearest thousandth, ties away from zero |
| Format.ThreeDigits | src/features/LengthUnitConverter/screens/LengthConverter.tsx:22 | three zero-padded digits that denote a number below 1000 |
| Format.ToFixedNumeral | src/features/LengthUnitConverter/screens/LengthConverter.tsx:22 | the numeral of toFixed(3) has a minus sign exactly for negative input, a whole part without superfluous leading zeros, exactly three fraction digits, and denotes the value rounded to thousandths |
| Format.ToFixed3 | src/features/LengthUnitConverter/screens/LengthConverter.tsx:22 | `toFixed(3)`: its text reads back as ToFixedNumeral(x) and has a point four places from its end (exactly three fraction digits) |
| Format.TrimZeros | src/features/LengthUnitConverter/screens/LengthConverter.tsx:20-22 | the result is the input with all its trailing zeros and only those removed |
| Format.TrimZerosValue | src/features/LengthUnitConverter/screens/LengthConverter.tsx:20-22 | removing trailing zeros of a fraction keeps its value |
| Format.Thousandths | src/features/LengthUnitConverter/screens/LengthConverter.tsx:20-22 | the numeral written for k thousandths is the shortest one, with at most three fraction digits, and denotes k/1000 |
| Format.FormatResult | src/features/LengthUnitConverter/screens/LengthConverter.tsx:20-23 | `formatResult`: its text reads back as a shortest numeral with at most three fraction digits whose value is the input rounded to thousandths; FormatOfShortest, FormatEnding and FormatError carry the rest of its contract |
| Format.FormatDenotesRounded | src/features/LengthUnitConverter/screens/LengthConverter.tsx:20-23 | formatResult writes a shortest numeral for the input rounded to three decimals, the same value that toFixed(3) writes and parseFloat reads back |
| Format.FormatOfShortest | src/features/LengthUnitConverter/screens/LengthConverter.tsx:20-23 | any shortest numeral for the rounded value is exactly the text formatResult writes |
| Format.FormatIsShortestOfToFixed | src/features/LengthUnitConverter/screens/LengthConverter.tsx:22 | formatResult is the shortest writing of the number parseFloat reads from the toFixed(3) text |
| Format.FormatEnding | src/features/LengthUnitConverter/screens/LengthConverter.tsx:20-23 | the formatted text never ends in '.' and never ends in '0' after a point |
| Format.FormatError | src/features/LengthUnitConverter/screens/LengthConverter.tsx:20-23 | the formatted value is within half a thousandth of the input |
| Format.FormatWhole | src/features/LengthUnitConverter/screens/LengthConverter.tsx:20-23 | 5.000 is written "5" |
| Format.FormatFraction | src/features/LengthUnitConverter/screens/LengthConverter.tsx:20-23 | 5.25 is written "5.25" |
| Format.FormatNegativeZero | src/features/LengthUnitConverter/screens/LengthConverter.tsx:20-23 | -0.0001 gives the toFixed text "-0.000" and is formatted as "0" |
| LengthConverter.Record | src/features/LengthUnitConverter/screens/LengthConverter.tsx:75-80 | the record keeps the typed text verbatim and the formatted result, and its unit fields are the labels of the chosen units |
| LengthConverter.Converted | src/features/LengthUnitConverter/screens/LengthConverter.tsx:63-66 | the formatted converted value reads back as a shortest numeral whose value is the conversion rounded to thousandths, and is the formatted input when both units are the same |
| LengthConverter.ResultLine | src/features/LengthUnitConverter/screens/LengthConverter.tsx:68 | the line's template equals `value + " " + Label(from) + " = " + formatted + " " + Label(to)`; MetreToMillimetreLine gives an instance |
| LengthConverter.LineShowsRecord | src/features/LengthUnitConverter/screens/LengthConverter.tsx:66-79 | the result line is the record's value, from label, result and to label joined by " ", " = " and " " |
| LengthConverter.Converter.constructor | src/features/LengthUnitConverter/screens/LengthConverter.tsx:29-30 | the screen starts with an empty result line and an empty history |
| LengthConverter.Converter.HandleConvert | src/features/LengthUnitConverter/screens/LengthConverter.tsx:43-82 | on NaN it warns and leaves result and history unchanged; otherwise it sets the result line and appends exactly one record, keeping every earlier record in order; every record carries two unit labels and a formatted result |
| LengthConverter.MetreToMillimetre | src/features/LengthUnitConverter/screens/LengthConverter.tsx:56-66 | 1 metre is formatted as "1000" millimetres |
| LengthConverter.MetreToMillimetreLine | src/features/LengthUnitConverter/screens/LengthConverter.tsx:66-68 | the line for "1" metre to millimetre is "1 m (Metre) = 1000 mm (Millimetre)" |
| LengthConverter.MileToFoot | src/features/LengthUnitConverter/screens/LengthConverter.tsx:56-66 | 1 mile is formatted as "5280.002" feet |

## Left out

- The render tree, native-base components, icons and the history list
  rendering (LengthConverter.tsx:84-203): presentation only.
- The warning dialog dispatch (LengthConverter.tsx:46-52): modelled only as
  the `warned` result of `HandleConvert`.
- React state hooks and the `useCallback` dependency list: each convert is one
  atomic state change of `Converter`; the typed text and the two selected units
  are parameters of `HandleConvert` rather than fields.
- `parseFloat` and `isNaN` on the typed text: the parse outcome is an
  `Option<real>` parameter. The model therefore neither rejects nor accepts any
  particular text; the JavaScript quirks (a numeric prefix such as "12abc"
  parses as 12, "Infinity" is not NaN) are not modelled.
- IEEE-754 doubles: the binary values of 0.000621371 and 3.28084, inexact
  round trips, and `toFixed` switching to exponent notation at magnitudes of
  10^21 and above. Values are exact rationals; `ToFixed3` is the standard's
  algorithm for magnitudes below 10^21.
- Format.FormatResult: writes the shortest decimal for the exact number of
  thousandths, whereas `Number.prototype.toString` writes the shortest text
  that reads back as the same double. They agree only while the rounded value
  has at most 15 significant digits (magnitudes below 10^12); above that the
  source can print fewer fraction digits (2^50 + 0.25 gives
  "1125899906842624.2" in the source and "1125899906842624.25" here).
- src/navigations/hooks/useRoutes.ts: navigation wiring only.
- Non-finite input: the code tests only `isNaN`, so an infinite parsed value
  is converted and gives a line such as "Infinity m (Metre) = Infinity mm
  (Millimetre)". An `Option<real>` cannot hold Infinity, so that path is not
  modelled at all; `None` (NaN) is the only warning path, as in the code.
