# Global temperature chart: multi-source average and series builder

A Dafny model of the computational part of `temperature-chart.js`. This is the
script that draws the "global mean temperature change 1850-2024" line chart.

- **Dataset** (`TemperatureData`). The script bundles a year axis of 27 years. It
  also bundles six arrays of deviations from the 1850-1900 baseline, one each from
  Berkeley Earth, ERA5, GISTEMP, HadCRUT5, JRA-3Q and NOAAGlobalTemp, with `null`
  where a source has no value. Two records map each source key to a display name
  and a line colour. Every literal in the dataset has two decimals, so the model
  holds the readings as whole hundredths (`Option<int>`). JavaScript objects become
  `Record`s: lists of key/value pairs in insertion order, which is the order
  `Object.keys` and `Object.values` report for these keys.
- **Average series** (`Average`). For each year, the script collects the six
  sources' values and drops the `null`s with `v !== null`, so a reading of exactly
  `0.00` is kept. It sums the rest with `reduce`. It returns
  `(sum / count).toFixed(2)`, a *string*, or `null` when nothing is left.
  `Decimal` models `toFixed` on the exact rational mean: the sign, then the
  magnitude rounded to the nearest hundredth, with ties going to the larger
  magnitude. `Decimal` also has a parser, which shows that the text reads back as
  exactly that value.
- **Series list and legend** (`Chart`). The script builds one line series per key
  of the names record, in declaration order. Each series holds the source's array
  unchanged, together with its display name and colour. The average series is
  pushed last. The legend lists the display names followed by `多源平均`.
- **Formatters** (`Tooltip`). The axis tooltip appends one HTML row per series
  whose point is neither `null` nor `undefined`. A row's sign is `+` when
  `p.value >= 0`. For the string points of the average series this uses
  JavaScript's string-to-number conversion. So `"-0.00"` counts as `>= 0` and
  is shown as `+-0.00°C`; the readings (-0.01, 0.00, 0.00) give such a mean
  (`NegativeZeroGetsPlus`). The value-axis label is `'+' + v.toFixed(1)` for
  `v >= 0` and `v.toFixed(1)` otherwise.

What the code does not do, and the model does not add:

- The code averages the six arrays it names at lines 79-84, whatever the names
  record holds.
- It does not check array lengths, and it does not treat NaN as missing.
- A key missing from the colours record leaves that series' colour `undefined`.

The tooltip's row template is a template literal spanning source lines 130-134.
The file has CRLF line ends, and JavaScript normalises them to LF inside a
template literal, so the modelled row has LF line breaks. The row keeps the
literal's indentation: 28 spaces before each `<span>` and 24 before the closing
`</div>`.

## Model

| member | source | states |
|---|---|---|
| `TemperatureData.Lookup` | temperature-chart.js:58 | `temperatureData[key]` is defined exactly for the six source keys and `years`. It gives the named source's array, or the year axis for `years`. |
| `TemperatureData.Get` | temperature-chart.js:56 | Reading a record key gives `undefined` exactly when the key is absent. Otherwise it gives a value stored under that key. |
| `TemperatureData.GetEntry` | temperature-chart.js:64 | In a record with distinct keys, looking up the i-th key gives the i-th value. |
| `TemperatureData.BundledDataConsistent` | temperature-chart.js:8-42 | The bundled data has 27 years and every source array is as long as the year axis. The names and colours records are keyed by exactly the six source arrays, in the order the average reads them. |
| `TemperatureData.BundledYearsIncreasing` | temperature-chart.js:9 | The year axis is strictly increasing. |
| `Decimal.ToFixedIsNearest` | temperature-chart.js:86 | `toFixed(f)` of num/den reads back with the sign of num, at scale f. No integer is nearer to \|num/den\|·10^f than its magnitude, and on a tie the larger one is chosen. |
| `Decimal.ToFixedParses` | temperature-chart.js:86 | The text `toFixed` produces parses back as exactly the sign and the rounded magnitude. |
| `Decimal.ToFixedCanonical` | temperature-chart.js:86 | After the optional `-`, the integer part of `toFixed`'s text is non-empty digits, and starts with `0` only when it is that single digit. |
| `Decimal.CentiToStringCanonical` | temperature-chart.js:133 | The text `${p.value}` gives a source number has the same canonical integer part. |
| `Decimal.CentiToStringParses` | temperature-chart.js:133 | A source number interpolated with `${p.value}` reads back as exactly its value. The text has no fraction for a whole number and one digit for whole tenths. |
| `Average.PresentMembers` | temperature-chart.js:85 | The `!== null` filter keeps a value exactly when it is present among the readings. A present 0 is kept. |
| `Average.PresentEmpty` | temperature-chart.js:85 | The filter leaves nothing exactly when every reading is `null`. |
| `Average.PresentAppend` | temperature-chart.js:85 | The filter distributes over concatenation, so it keeps order and multiplicity. |
| `Average.SumBounds` | temperature-chart.js:86 | If every summand lies in [lo, hi], the `reduce` sum lies in [count·lo, count·hi]. |
| `Average.FoldShift` | temperature-chart.js:86 | A `reduce` from start value acc equals acc plus the `reduce` from 0. |
| `Average.MeanBetweenExtremes` | temperature-chart.js:86 | The unrounded mean lies between the least and the greatest present reading. |
| `Average.AveragePointText` | temperature-chart.js:86 | A defined point is the two-decimal text of the sum's sign and round(\|sum\| / count) hundredths. |
| `Average.AveragePointIsRoundedMean` | temperature-chart.js:86 | A defined point reads back at scale 2 with the sign of the sum. Its magnitude is within half a hundredth of \|sum\| / count, and ties round up. |
| `Average.AveragePointBetweenExtremes` | temperature-chart.js:86 | The rounded point also lies between the least and the greatest present reading. |
| `Average.AveragePointNullIff` | temperature-chart.js:78-86 | A point is `null` if and only if every reading of that year is `null`. |
| `Average.ZeroIsCounted` | temperature-chart.js:85 | A reading of exactly 0 is kept by the filter and makes the point defined. |
| `Average.Column` | temperature-chart.js:78-84 | The array literal of year i holds the six sources' values at i, in the average's order. |
| `Average.AverageData` | temperature-chart.js:77-87 | The average series has exactly one point per year. |
| `Average.AverageDataNullIff` | temperature-chart.js:77-87 | Year i of the average is `null` if and only if all six sources are `null` at i. |
| `Average.PresentOfSix` | temperature-chart.js:78-85 | Filtering the six-element literal keeps each present reading, in source order. |
| `Average.ZeroCountedIn1920` | temperature-chart.js:15 | GISTEMP's 0.00 in 1920 is one of four averaged readings, giving "0.01". A truthiness filter would have given "0.02". |
| `Average.HalfwayMeansRoundUp` | temperature-chart.js:86 | The exact means of 1960 (0.245) and 2022 (1.155) fall on a half, and round up to "0.25" and "1.16". |
| `Average.TwoSourceScenario` | temperature-chart.js:78-86 | A year where only the first and third of the six sources report, with 1.00 and 2.00, averages to "1.50". A year where only the third reports 4.00 gives "4.00". |
| `Average.NoSourceScenario` | temperature-chart.js:78-86 | A year where none of the six sources reports has a `null` point. |
| `Chart.Legend` | temperature-chart.js:154 | The legend is the display names in declaration order, followed by `多源平均`. |
| `Chart.InitGlobalTemperatureChart` | temperature-chart.js:55-109 | The method builds one series per names key plus the average. Source series i has display name i, the colour under its key, and its source's array point for point. The last series is `多源平均`, whose points are `null` exactly where the average is and the average's strings elsewhere. Source series use the circle symbol of size 6, line width 2 (3 on emphasis), connect across `null`s and keep the default `z`. The average uses the diamond of size 8, line width 4 (5 on emphasis), does not connect across `null`s and has `z` 10. Legend entry i names series i. The x axis is the year axis. The value axis runs from -0.5 to 2.0 in steps of 0.5 (lines 190-192), and the reference line carries the Paris-agreement label (line 235). |
| `Chart.BundledLegend` | temperature-chart.js:25-32 | The bundled legend is the six source names and `多源平均`, which makes 7 series. |
| `Chart.BundledSeriesComplete` | temperature-chart.js:35-42 | Every bundled source key finds its data array and the colour declared for it. |
| `Tooltip.FormatTooltip` | temperature-chart.js:123-138 | The formatter fails on empty `params`. Otherwise it returns the header for the first entry's category followed by the rows of the entries, in order. |
| `Tooltip.VisibleMembers` | temperature-chart.js:127 | An entry gets a row exactly when its value is neither `null` nor `undefined`. |
| `Tooltip.RowsOfVisible` | temperature-chart.js:126-127 | The rows are those of the visible entries alone. Hidden entries contribute nothing. |
| `Tooltip.RowsEmptyIff` | temperature-chart.js:126-136 | There are no rows exactly when no entry has a value. |
| `Tooltip.RowsAppend` | temperature-chart.js:126 | Rows come out in the order of the entries. |
| `Tooltip.NumberSign` | temperature-chart.js:129 | A source number shows with a leading `+` exactly when it is ≥ 0, and with `-` exactly when it is negative. Its text reads back as the number. |
| `Tooltip.AverageSign` | temperature-chart.js:129 | An average point gets `+` exactly when its rounded value is ≥ 0. |
| `Tooltip.NegativeZeroGetsPlus` | temperature-chart.js:129-133 | A mean just below zero is written `-0.00`, which compares as ≥ 0 and is shown as `+-0.00°C`. |
| `Tooltip.AxisLabelSign` | temperature-chart.js:204-206 | A tick label starts with `+` exactly when the tick is ≥ 0, and with `-` exactly when it is negative. After the `+` it reads back as the tick rounded to one decimal. |
| `Tooltip.YAxisLabels` | temperature-chart.js:190-192 | The ticks from -0.5 to 2.0 in steps of 0.5 are labelled `-0.5`, `+0.0`, `+0.5`, `+1.0`, `+1.5`, `+2.0`. |

## Left out

- Floating point: the mean is exact and `toFixed` rounds the exact rational. In
  the browser the `reduce` sums binary doubles. That rounds the other way in two
  bundled years: 1960 shows "0.24" and 2022 shows "1.15", where the model gives
  "0.25" and "1.16" (`HalfwayMeansRoundUp`).
- `toFixed` switches to exponent notation for magnitudes of 10^21 and more. The
  model always writes plain digits.
- Values are held as hundredths of a degree, because every literal in the source
  has two decimals. `AxisLabel` takes any rational tick.
- `Average.AverageData`: requires every source array to be as long as the year
  axis. With a shorter array the code would read `undefined` past its end, which
  the `!== null` filter keeps, and the sum would become NaN.
- `Chart.InitGlobalTemperatureChart`: requires the names record to have distinct
  keys. JavaScript objects always do.
- `Tooltip.AtLeastZero`: converts a string to a number only for the empty string,
  plain decimals and negative decimals. Other strings count as NaN, including
  strings with surrounding white space, a leading `+`, exponents and hexadecimal.
  Those forms are valid numbers in JavaScript, but only `toFixed` output reaches
  the tooltip here.
- `TemperatureData.Lookup`: keys inherited from `Object.prototype` are treated as
  `undefined`. Such a key would not come from `Object.keys` of the names record.
- Object key order is modelled as insertion order. JavaScript lists integer-like
  keys first, but none of the keys here is integer-like.
- The DOM and the chart library: the container lookup and the early return when
  it is missing (line 50), `echarts.init`, `setOption` and the resize listener
  (lines 52, 247-252) are left out. Also left out is how the library turns
  `data` arrays into tooltip `params` and picks the axis ticks. The tooltip takes
  `params` as its input.
- Styling settings are left out: the grid, axis and legend layout, the
  background, and the pixel geometry and animation settings of the reference line
  (lines 111-245). Only the value-axis range, the reference-line text and the
  series' symbol, width, `connectNulls` and `z` are kept.
- `createShareButtons` (lines 261-305) builds HTML for the page and installs
  global click handlers. It has no computation to model.
- `main.js` is not part of this model. It holds the page's menu, scroll, form and
  animation wiring. `temperature-chart.d.ts` declares types only.
