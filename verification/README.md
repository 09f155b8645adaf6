# Monthly key numbers: a Dafny model

This project models the monthly key-numbers page of the fund monitoring
dashboard and the amount formatter that page uses.

- **`formatBigNumber(n, decimals, digits)`** divides an integer amount by
  10^decimals and writes it with a fixed number of fraction digits.
  - Its defaults are `decimals || 18` and `digits || 6`.
  - It follows bignumber.js's default configuration. `div` keeps 20 decimal
    places. Both `div` and `toFixed` round half-up, with ties away from zero.
  - Input that is not a number gives the text `NaN`.
  - Modules: `BigNumberFormat`, with `Rounding` and `DecimalText` beneath it.
- **Query boundaries.** The page computes thirteen boundaries `d0..d12`: the
  start of each month of the selected year, then the start of the next
  January. Module `Boundaries`.
- **Monthly series.** Three series are built from the rows returned for those
  boundaries: active investors, active investments, and assets under
  management (AUM, the `gav` amount). Each is twelve `{ value, change }`
  entries collected into a record `m1..m12`. Modules `MonthlySeries` and
  `KeyedRecord`.
- **Cells.** `renderCell` decides what each table cell shows. Module `Cells`.
- **Year navigation.** The selected year starts at the current one. It is
  moved by the Previous/Next buttons, which are disabled at 2019 and at the
  current year. Module `YearNavigation`.

## Representation

- Amounts are unbounded integers.
- A value that is missing or does not parse is `None`. The rows of one query
  are a `map<nat, int>` from boundary index to the row's `active` or `gav`
  field, and a missing key stands for every way of being `undefined`.
- `startOfMonth` is an abstract clock from a month ordinal, `year * 12 + month`,
  to a timestamp. That is how `new Date(year, 12, 1)` reaches January of the
  next year.
- Texts are `seq<char>`.
- The table record is a `map<string, _>`.

## Model

| member | source | states |
|---|---|---|
| BigNumberFormat.FormatBigNumber | utils/formatBigNumber.ts:3-8 | The text is "NaN" exactly when the input is not a number. Otherwise it is a numeral with an optional minus sign, integer digits, a point and exactly the effective number of fraction digits, and it reads back as a sign and a magnitude |
| BigNumberFormat.FormatIsRoundedRatio | utils/formatBigNumber.ts:4-7 | When the effective scale is at most 20, the output is n / 10^dec rounded half-up to dig places, with ties away from zero. A negative n keeps its minus sign even when the magnitude rounds to zero |
| BigNumberFormat.FormatWholeUnits | utils/formatBigNumber.ts:7 | k * 10^dec is written exactly as k, a point and dig zeros, at any scale |
| BigNumberFormat.ParseFixedText | utils/formatBigNumber.ts:7 | The fixed-point text `toFixed` writes determines its sign and its number of 10^-dig units: reading the text back gives both |
| BigNumberFormat.SameEffectiveSettings | utils/formatBigNumber.ts:5-7 | The output depends on `decimals` and `digits` only through the values they default to |
| BigNumberFormat.FalsyDecimalsDefault | utils/formatBigNumber.ts:5 | An omitted scale and the number 0 both mean a scale of 18 |
| BigNumberFormat.ZeroDigitsDefault | utils/formatBigNumber.ts:6 | An omitted digit count and the count 0 both mean six fraction digits, so the output never lacks a fraction |
| BigNumberFormat.ZeroNumeralIsTruthy | utils/formatBigNumber.ts:5 | The text "0" is truthy and keeps its meaning: the amount is divided by 1, not by 10^18 |
| BigNumberFormat.ZeroNumberIsFalsy | utils/formatBigNumber.ts:5 | The number 0 is replaced by 18, so an amount of 1 with scale 0 shows as zero |
| BigNumberFormat.DoubleRoundingAboveTwentyPlaces | utils/formatBigNumber.ts:7 | Above 20 decimals the value is rounded twice, first by `div` and then by `toFixed`. For one concrete amount this gives "0.05" where a single rounding gives "0.04" |
| Rounding.RoundHalfUp | utils/formatBigNumber.ts:7 | The result is within half a unit of a / b, and ties go away from zero |
| KeyedRecord.Naming | pages/kpi.tsx:60 | `prefix + index` gives distinct keys to distinct indices |
| KeyedRecord.KeyedSpec | pages/kpi.tsx:60 | Collecting items into a record under an injective naming gives exactly one key per item, and each key holds its own item: no item overwrites another |
| Boundaries.Timestamps | pages/kpi.tsx:59 | Thirteen timestamps: boundary i is the start of month i of the year, and month 12 is the next January |
| Boundaries.QueryVariables | pages/kpi.tsx:59-60 | Exactly the keys d0..d12, and d<i> holds the start of month i of the selected year |
| Boundaries.BoundariesOrdered | pages/kpi.tsx:42 | The boundaries increase with the key index, and d12 of one year equals d0 of the next |
| MonthlySeries.CountSeries | pages/kpi.tsx:68-74 | Twelve entries, entry i being month i+1. The value is absent exactly when row i+1 is, and is otherwise that row's count. The change is present exactly when row i+1 is, and equals row i+1 minus row i, an absent row i counting as zero |
| MonthlySeries.CountChangesTelescope | pages/kpi.tsx:71-73 | While every month up to k has data, the changes sum to the count at month k minus the count at the boundary before January |
| MonthlySeries.AumValue | pages/kpi.tsx:100 | `formatBigNumber(gav, 18, 0)` is the all-defaults call, because the digit count 0 falls back to 6 |
| MonthlySeries.AumValueSixDigits | pages/kpi.tsx:100 | The AUM value has six fraction digits and shows gav / 10^18 rounded half-up |
| MonthlySeries.AumChange | pages/kpi.tsx:101-104 | The change is NaN exactly when gav is. Otherwise it is (gav - previous) / 10^18 rounded once, half-up, to an integer, with a missing previous amount counting as 0 |
| MonthlySeries.AumChangeIsWholeUnits | pages/kpi.tsx:103-104 | Dividing by 1e18 at 20 places is exact, so `integerValue` rounds the true quotient only once |
| MonthlySeries.AumChangeNearest | pages/kpi.tsx:101-104 | The change is the whole number of units nearest to the exact difference of the raw amounts |
| MonthlySeries.AumEntryValue | pages/kpi.tsx:100 | Every AUM value is a formatted text, or "NaN" when the month has no data |
| MonthlySeries.AumEntryChange | pages/kpi.tsx:101-104 | An AUM change is present exactly when the month has data. It is the difference from the boundary before, rounded to whole units, with an absent boundary counting as zero |
| MonthlySeries.CountExample | pages/kpi.tsx:68-74 | From rows {0: 10, 1: 15}, January is (15, change 5) and February has neither a value nor a change |
| MonthlySeries.AumExample | pages/kpi.tsx:98-105 | A single row of 2 * 10^18 at boundary 1 gives January the value "2.000000" and the change 2 |
| MonthlySeries.MonthRecord | pages/kpi.tsx:75 | The record has exactly the keys m1..m12, and m<i+1> holds entry i |
| MonthlySeries.AumSeries | pages/kpi.tsx:98-105 | Twelve entries, entry i being month i+1. The value is the formatted amount at boundary i+1, or "NaN" when that row is absent. The change is present exactly when row i+1 is, and is row i+1 minus row i in whole units, rounded half-up, with an absent row i counting as zero |
| MonthlySeries.AnnualList | pages/kpi.tsx:107-115 | The three rows are Investors, Investments and AUM, in that order. Each holds exactly the cells m1..m12, and cell m<r> is month r of its own series |
| Cells.RenderCell | pages/kpi.tsx:44-54 | A cell is empty exactly when its value is falsy or NaN. A non-empty cell starts with the value and a space. It continues with "(change)" when the change is a number and ends there otherwise, so it ends in ")" exactly when the change is a number |
| Cells.CountCellBlank | pages/kpi.tsx:45-47 | A count cell is empty exactly when the month has no data or its count is zero |
| Cells.CountCellShown | pages/kpi.tsx:49-53 | A non-empty count cell reads "<count> (<change>)" |
| Cells.AumCellShown | pages/kpi.tsx:49-53 | A non-empty AUM cell reads "<formatted amount> (<whole-unit change>)" |
| Cells.AumCellBlank | pages/kpi.tsx:45-47 | An AUM cell is empty exactly when the month has no data. A formatted zero is a non-empty text and shows |
| YearNavigation.Init | pages/kpi.tsx:56-57 | The selected year starts at the current year |
| YearNavigation.Click | pages/kpi.tsx:194-199 | Previous moves one year back unless the year is 2019. Next moves one year forward unless the year is the current one. A disabled button changes nothing |
| YearNavigation.GuardsAreBounds | pages/kpi.tsx:194-197 | Inside [2019, current year] the equality guards are exactly the range bounds, and one click stays in range |
| YearNavigation.Step | pages/kpi.tsx:56-57 | A render re-reads the clock into the current year and keeps the selected year. A click keeps the current year |
| YearNavigation.RunStaysInRange | pages/kpi.tsx:194-199 | As long as the clock never goes back, no sequence of clicks and renders leaves [2019, current year], and the current year never drops |
| YearNavigation.ClockFallingBackLeavesRange | pages/kpi.tsx:56-57 | A render whose clock reads a year earlier than the selected one leaves Next enabled, and one click then puts the selected year above the current year |
| YearNavigation.EveryYearReachable | pages/kpi.tsx:194-196 | Every year from 2019 to the current year can be selected by clicking Previous |

## Left out

- **Rendering and I/O.** React rendering, Material-UI layout and styles, the `MaterialTable` options and its loading flag are not modelled. The `useQuery` network calls and their GraphQL documents are not modelled either; the rows they return are parameters. The `onRowClick` navigation (`window.open`) is also out: it opens a URL and computes nothing.
- **Other files.** `pages/_app.tsx` and `utils/ens.ts` are not part of this model.
- Boundaries.Timestamps: the clock is abstract. `startOfMonth`, through `new Date(...).getTime() / 1000`, depends on the host's time zone and on floating-point division by 1000. It is an abstract clock over month ordinals; only its monotonicity is assumed, in `BoundariesOrdered`.
- YearNavigation.Init: no real clock. `new Date().getUTCFullYear()` is a parameter of `Init` and of each `Render` event. The page reads the clock on every render, and `useState` keeps `year`. A clock reading before 2019 is allowed, but `RunStaysInRange` assumes the range is non-empty.
- YearNavigation.RunStaysInRange: assumes a clock that never goes back. With a clock that falls below the selected year, the range is not kept; `ClockFallingBackLeavesRange` shows how.
- **String parsing.** bignumber.js parses its string input; here `None` stands for input that does not parse or is missing. Exponential notation, hexadecimal, fractional inputs and `Infinity` are not modelled.
- **Number-to-text conversion.** JavaScript switches to exponential notation for numbers at or above 1e21 when it writes a count, a change or an AUM change. `IntText` always writes plain digits.
- BigNumberFormat.FormatBigNumber: no negative or fractional scale. Those scales are not modelled: `decimals` is a natural number.
- BigNumberFormat.FormatBigNumber: no RangeError for large digit counts. bignumber.js throws for a digit count above 10^9. This is kept as a precondition instead of an error result.
- BigNumberFormat.FormatIsRoundedRatio: scale at most 20. The statement covers scales of 20 or less. Above 20 the double rounding shown by `DoubleRoundingAboveTwentyPlaces` applies.
- Cells.IsNaN: plain numerals only. A text counts as a number only when it is a plain decimal numeral. JavaScript's `isNaN` also accepts exponents, surrounding whitespace, hexadecimal and `Infinity`, but this page only ever produces plain numerals and "NaN".
- MonthlySeries.AumChange: non-numeric previous amount. A previous `gav` that is truthy but not numeric would make the change NaN. Here it counts as absent, that is, 0.
- MonthlySeries.CountSeries: counts are numbers. The `active` field is taken to be a number. If the transport delivered it as a text, a zero count would be truthy and would show.
- **Display type of the AUM change.** The AUM change is the integer-valued BigNumber that `integerValue()` returns, not a formatted amount. The cell shows it with its `toString`, which here is modelled by `IntText`.
