# NBA dashboard data core in Dafny

This project models the data core of the NBA player dashboard (`js/app.js`).
That core turns the roster CSV into player records and scores a player:

- `Csv` holds the quote-aware line splitter `parseCSVLine` and the decoder
  `parseCSV`. The decoder makes one record per non-blank data line, keyed by
  the trimmed header names.
- `LocaleNumbers` holds the French-locale number readers `toNumberFR`,
  `toPercent`, `parseSalary` and `parseAstTov`, and the `parseInt` of the age.
  They are built on the decimal-prefix part of JavaScript's `parseFloat` and
  `parseInt` (sections 19.2.4 and 19.2.5 of ECMA-262).
- `Normalize` holds `normalizePlayer`. It reads the decimal columns, then the
  percentage columns, keeps the salary as written and as a number, truncates
  the age and adds the defensive impact `DEF_impact`.
- `Scoring` holds the following:
  - `normalizeToScale`;
  - the impact label table and scan of `getImpactLabel`;
  - the value-for-money verdict of `calculateVerdict`;
  - the offensive/defensive split of the doughnut chart.
- `Text` holds the string operations the core relies on, such as `trim`,
  `split` and `replace`. `JsValues` holds the JavaScript values a record holds:
  a string, a number where NaN is `None`, or `undefined`.

Most of the source changes variables step by step. Those parts are methods,
each proved against a specification function. The loops carry invariants:

- `ParseCsvLine` is proved against the state machine `Run`;
- `ParseCsv` and `BuildRecord` against `Decode` and `Record`;
- `NormalizePlayer` against `Normalized`;
- `GetImpactLabel` against `ImpactLabel`.

`CalculateVerdict` has no loop: it assigns the index, then the band's
pastille and sentence, and is proved against `ValueIndex` and `BandOf`.

The lemmas next to each function state what the source promises about it.

Some consequences of the code are worth stating:

- `parseAstTov("6,0 pour 0")` is 6, not 0. A zero divisor falls back to
  `toNumberFR` of the whole text (`ZeroTurnoverReadsAssists`).
- A numeric cell that does not parse becomes NaN, not 0. An empty cell stays
  the empty string, because only truthy cells are converted (`EmptyStaysEmpty`).
- `toPercent` does not turn a decimal comma into a point: "53,5%" reads as 53
  (`PercentCommaStops`).
- The age is read by `toNumberFR` as a decimal column first. It is then
  truncated toward zero by `parseInt` (`AgeWithUnit`, `ParseAge`). So by the
  time the age step runs, a truthy age is already a number: the string branch
  of `ParseAge`, with its `replace(' ans', '')` (`ReplaceFirstWord`) and its
  `parseInt` of a text (`ParseIntWhole`), is never reached from
  `normalizePlayer`. It is modelled because the source writes it.

## Model

| member | source | states |
|---|---|---|
| JsValues.OrZero | js/app.js:138-139 | `v \|\| 0` is the number itself for a truthy value and 0 for every falsy one |
| Text.Trim | js/app.js:36 | the trimmed text is no longer than the input and starts and ends with a non-whitespace character |
| Text.TrimSlice | js/app.js:36 | the trimmed text is a slice of the input with only whitespace removed before and after it |
| Text.TrimIdempotent | js/app.js:36 | trimming twice is trimming once |
| Text.TrimEmptyIffSpaces | js/app.js:61 | a line trims to '' exactly when it is all whitespace, which is when the decoder skips it |
| Text.ReplaceFirst | js/app.js:38 | a string-pattern replace changes only the first occurrence of the character and keeps every other character |
| Text.Without | js/app.js:49 | a global replace with '' leaves none of the removed characters, keeps only characters of the input, and changes nothing when there is none to remove |
| Text.WithoutAppend | js/app.js:49 | removing characters from a concatenation is removing them from each part, so the kept characters stay in order |
| Text.WithoutAllDropped | js/app.js:49 | a text made only of removed characters becomes '' |
| Text.WithoutSpacesIgnoresTrim | js/app.js:153-156 | removing all whitespace makes a preceding trim irrelevant |
| Text.Split | js/app.js:56-57 | `split` on a character gives at least one piece, and no piece holds the separator |
| Text.JoinSplit | js/app.js:56-57 | joining the pieces of a split with the separator gives back the text |
| Text.SplitJoin | js/app.js:56-57 | splitting separator-free pieces joined by the separator gives back the pieces |
| Text.IndexOf | js/app.js:193-194 | the position is that of the first occurrence of the word, or the length when there is none |
| Text.IndexOfFinds | js/app.js:193 | `includes` holds exactly when the first-occurrence search finds a position |
| Text.SplitOnPiecesFree | js/app.js:194 | no piece of `split('pour')` contains "pour" |
| Text.JoinSplitOn | js/app.js:194 | joining the pieces of `split('pour')` with "pour" gives back the text |
| Text.ReplaceFirstWord | js/app.js:134 | `replace(' ans', '')` removes only the first occurrence, and changes nothing when there is none |
| Text.WithoutSpacesLower | js/app.js:153-156 | lower-casing before removing whitespace is lower-casing after it |
| Text.ReplaceCommaLower | js/app.js:153-156 | lower-casing before turning the first comma into a point is lower-casing after it |
| Csv.ParseCsvLine | js/app.js:79-98 | the loop over the line keeps `result`, `current` and `inQuotes` equal to the splitter state after the prefix read, and returns its fields |
| Csv.RunAppend | js/app.js:84-95 | reading `a + b` is reading `b` from the state left after `a` |
| Csv.RunCounts | js/app.js:84-95 | after any prefix a quote is open exactly when the prefix holds an odd number of `"`, and one field was pushed per comma outside quotes |
| Csv.RunKept | js/app.js:84-95 | the fields pushed, followed by the field being read, concatenate to the prefix with its quotes and its commas outside quotes removed |
| Csv.RunQuoteFree | js/app.js:87-94 | no field holds a `"` |
| Csv.SplitLineShape | js/app.js:79-98 | the field count is one more than the number of commas outside quotes, no field holds `"`, and the fields concatenate to the line with its quotes and its commas outside quotes removed |
| Csv.SplitJoinCells | js/app.js:79-98 | cells written bare (no quote, no comma) or quoted (no quote) and joined by commas split back into exactly their texts |
| Csv.QuotedCommaExample | js/app.js:87-91 | `a,"b,c",d` splits into `a`, `b,c` and `d` |
| Csv.DoubledQuoteExample | js/app.js:87-88 | `a""b` is the single field `ab`: a doubled quote is not an escaped quote |
| Csv.RecordValues | js/app.js:66-68 | the last column of a header name holds the trimmed value at its position, or '' when the line has no such value |
| Csv.RecordKeys | js/app.js:66-68 | a record's keys are exactly the header names |
| Csv.RecordIgnoresExtra | js/app.js:66-68 | values past the last header are dropped |
| Csv.RecordTrimmed | js/app.js:67 | every value of a record is trimmed |
| Csv.BuildRecord | js/app.js:63-68 | the `forEach` over the headers builds exactly the record of the header names and values |
| Csv.Lines | js/app.js:56 | the trimmed text splits into at least one line |
| Csv.Headers | js/app.js:57 | there is one header name per comma-separated token of the first line |
| Csv.HeadersTrimmed | js/app.js:57 | every header name is trimmed |
| Csv.ParseCsv | js/app.js:55-74 | the loop over the data lines returns exactly the decoded records |
| Csv.NonBlankLines | js/app.js:61 | every line kept comes from the input and is not blank |
| Csv.DataRecordsPerLine | js/app.js:60-71 | there is one record per non-blank data line, in order, each the record of that line's fields |
| Csv.DecodeRecords | js/app.js:55-74 | the decoded text has one record per non-blank line after the header, in order, each keyed by exactly the header names |
| LocaleNumbers.LeadingDigits | js/app.js:38 | the digit run that `parseFloat` reads is the longest prefix of digits |
| LocaleNumbers.FractionValue | js/app.js:38 | the digits after the point add a value in [0, 1) |
| LocaleNumbers.ParseFloatDecimal | js/app.js:38 | `parseFloat` of a sign, digits, '.', digits and a non-digit rest is that numeral's value |
| LocaleNumbers.ParseFloatWhole | js/app.js:38 | `parseFloat` of a sign, digits and a rest that starts with neither a digit nor '.' is that whole number |
| LocaleNumbers.ParseFloatNoDigits | js/app.js:38 | `parseFloat` of a text with no digit is NaN |
| LocaleNumbers.ParseIntWhole | js/app.js:134 | `parseInt` of a sign, digits and a non-digit rest is that integer |
| LocaleNumbers.Trunc | js/app.js:134 | `parseInt` of a number's text truncates toward zero |
| LocaleNumbers.ToNumberFR | js/app.js:34-39 | a falsy value reads as 0 and a truthy number as itself |
| LocaleNumbers.ReplaceFirstAt | js/app.js:38 | only the first comma becomes a point; later commas stay |
| LocaleNumbers.ToNumberFRDecimalComma | js/app.js:34-39 | a sign, digits, ',', digits and a non-digit rest read as that decimal number ("6,8" is 6.8) |
| LocaleNumbers.ToNumberFRWhole | js/app.js:34-39 | a sign, digits and a rest without a leading digit, point or comma read as that whole number |
| LocaleNumbers.ToPercent | js/app.js:45-50 | a falsy value reads as 0 and a truthy number as itself |
| LocaleNumbers.ToPercentStrips | js/app.js:47-49 | a text is `parseFloat` of the text with every whitespace and '%' removed, with no comma substitution |
| LocaleNumbers.ToPercentOfDigits | js/app.js:45-50 | digits followed by any whitespace and '%' read as that whole number |
| LocaleNumbers.PercentExamples | js/app.js:42-50 | "53 %" and "53%" both read as 53 |
| LocaleNumbers.ParseSalary | js/app.js:150-162 | a falsy value reads as 0 and a truthy number as itself |
| LocaleNumbers.ParseFloatIgnoresCase | js/app.js:153-156 | `parseFloat` reads a text and its lower-case form alike |
| LocaleNumbers.ParseSalaryIgnoresSpaces | js/app.js:150-162 | any salary text is `parseFloat` of the text without whitespace and with its first comma made a point, with no scaling: lower-casing and trimming change nothing |
| LocaleNumbers.ParseAstTov | js/app.js:188-202 | a falsy value reads as 0 and a truthy number as itself |
| LocaleNumbers.ParseAstTovRatio | js/app.js:190-201 | "A pour B" reads as A / B of the trimmed pieces when B is not 0, and as `toNumberFR` of the whole text when B is 0 |
| LocaleNumbers.ZeroTurnoverReadsAssists | js/app.js:193-201 | "A pour 0" reads as A, the leading number of the text |
| LocaleNumbers.ParseAstTovFallback | js/app.js:188-201 | a text without "pour", or that splits on it into other than two pieces, is `toNumberFR` of the trimmed text |
| LocaleNumbers.RatioOfDecimals | js/app.js:188-198 | "w,f pour w',f'" with a non-zero divisor is the quotient of the two decimals |
| LocaleNumbers.RatioExample | js/app.js:184-198 | "6,0 pour 2,9" is 6.0 / 2.9 |
| LocaleNumbers.ParseAge | js/app.js:133-135 | a numeric age is truncated toward zero |
| Normalize.NormalizePlayer | js/app.js:103-143 | the copy-and-rewrite of the record builds exactly `Normalized(raw)`; the raw record is a value and is not changed |
| Normalize.ReadDecimals | js/app.js:114-118 | after the loop over the decimal columns, every column holds its value after the columns read so far, and the keys are the raw keys |
| Normalize.ReadPercents | js/app.js:122-126 | after the loop over the percentage columns, every column holds its value after both passes, and the keys are the raw keys |
| Normalize.KeepSalary | js/app.js:129-130 | `SalaryDisplay` is the salary as written and `SalaryNumeric` its `parseSalary` |
| Normalize.ReadAge | js/app.js:133-135 | a truthy age is replaced by its `parseInt`, and nothing else changes |
| Normalize.AddImpact | js/app.js:138-140 | `DEF_impact` is steals plus blocks, each 0 when falsy |
| Normalize.AddDerived | js/app.js:129-140 | the salary, age and impact steps together give the derived record |
| Normalize.ConvertedColumns | js/app.js:104-135 | the converted record has exactly the raw record's keys |
| Normalize.NormalizedKeys | js/app.js:103-143 | a normalized record has the raw keys plus `SalaryDisplay`, `SalaryNumeric` and `DEF_impact` |
| Normalize.NormalizedColumn | js/app.js:104-135 | every raw column holds the conversion of its own cell |
| Normalize.NormalizedAdded | js/app.js:129-140 | `SalaryDisplay` is the raw salary, `SalaryNumeric` its `parseSalary`, and `DEF_impact` steals plus blocks as read |
| Normalize.UnlistedUnchanged | js/app.js:104 | a column on neither list, such as the name or the team, keeps its raw string |
| Normalize.EmptyStaysEmpty | js/app.js:114-135 | an empty cell stays the empty string, whatever its column |
| Normalize.DecimalColumnRead | js/app.js:114-118 | a non-empty cell of a decimal column other than the age is `toNumberFR` of it |
| Normalize.PercentColumnRead | js/app.js:121-126 | a non-empty cell of a percentage-only column is `toPercent` of it |
| Normalize.DecimalCommaRead | js/app.js:107-118 | "12,5%" in a decimal column other than the age reads as 12.5 |
| Normalize.PercentCommaStops | js/app.js:121-126 | "53,5" in a percentage-only column reads as 53 |
| Normalize.AgeWithUnit | js/app.js:107-135 | an age cell "N ans" for a whole number N reads as N |
| Normalize.FieldConverted | js/app.js:107-135 | each column's value after both passes and the age step is the conversion of its raw cell |
| Normalize.StatsRead | js/app.js:138-139 | after both passes steals and blocks are numbers, '' or undefined, so `\|\| 0` reads them without string coercion |
| Scoring.ScaleClamped | js/app.js:213-214 | the clamped scale is in [0, 100] or NaN, and NaN only when min, max and the value are equal |
| Scoring.NormalizeToScale | js/app.js:211-215 | undefined is 0, NaN stays NaN, and any number result is in [0, 100] |
| Scoring.ScaleInRange | js/app.js:211-215 | for min < max the result is the linear scale inside the range, 0 at or below min, and 100 at or above max |
| Scoring.ScaleMonotone | js/app.js:213-214 | for min < max the scale never decreases as the value grows |
| Scoring.GetImpactLabel | js/app.js:220-272 | the scan with early return yields the label of the first tier reached, or '-' |
| Scoring.TierIndexFirst | js/app.js:266-270 | no tier before the one chosen is reached, and the chosen one is |
| Scoring.TierIndexMonotone | js/app.js:266-270 | a larger value never picks a later tier |
| Scoring.ImpactLabelMeaning | js/app.js:265-271 | the label is '-' exactly when no tier is reached; otherwise it is the name of the first tier reached |
| Scoring.LabelsAreWords | js/app.js:221-264 | no tier is named '-' |
| Scoring.TiersDescending | js/app.js:221-264 | every table lists its thresholds strictly decreasing |
| Scoring.ImpactLabelMonotone | js/app.js:221-271 | for every metric a larger value never earns a lower tier |
| Scoring.PerExamples | js/app.js:228-234 | a PER of 25 is "MVP" and one of 24.9 is "Excellent" |
| Scoring.BpmExamples | js/app.js:235-241 | a BPM of -100 is "Négatif"; -100.5 and NaN are '-' |
| Scoring.UnknownMetric | js/app.js:265 | a metric without a table is always '-' |
| Scoring.PaidSalary | js/app.js:632 | the salary counted is never negative, and positive exactly when `SalaryNumeric` is a positive number |
| Scoring.ValueIndex | js/app.js:632-635 | the index is 0 without a positive salary; otherwise index × salary = score × 1 000 000 |
| Scoring.CalculateVerdict | js/app.js:620-663 | the verdict carries the value index, the pastille of its band, and the player's name followed by the band's sentence |
| Scoring.Classify | js/app.js:638-656 | the chain of strict comparisons picks the pastille and the sentence of the index's band |
| Scoring.BandBounds | js/app.js:641-656 | each band holds exactly the indexes between its strict bounds: over 3.5, over 2.2, over 1.5, over 1.0, and the rest; green exactly over 2.2, yellow exactly over 1.0 up to 2.2, and red exactly at 1.0 or below |
| Scoring.BandMonotone | js/app.js:641-656 | a larger index never earns a worse band |
| Scoring.UnpaidIsRed | js/app.js:632-656 | without a positive salary the index is 0 and the pastille red |
| Scoring.NormalizedScorable | js/app.js:107-140 | in every normalized record the six scored statistics are numbers, '' or undefined, `SalaryNumeric` is a number, and the name is not a number |
| Scoring.OffDefSplit | js/app.js:859-865 | both shares of the doughnut are in [0, 100] |
| Scoring.OffDefShares | js/app.js:859-865 | the shares add up to 100 when either score is positive, and are both 0 when neither is |

## Left out

- Loading: the `fetch` of the CSV and all I/O are not modelled. Neither is
  anything that touches the page: the DOM, Chart.js charts, the sidebar and
  modal, the animation, `formatNumber` and `formatSalary`.
- `parseFloat` and `parseInt`: only the decimal-prefix grammar is modelled.
  That is leading whitespace, a sign, digits, a point and digits. Exponents,
  "Infinity", hexadecimal `parseInt` and IEEE rounding are not.
- Numbers are unbounded reals. Floating-point rounding is not modelled, nor
  the text of a number (`toString`). The `parseInt(number.toString())` of the
  age becomes truncation, which differs only where `toString` would use an
  exponent.
- Strings are sequences of characters. There is no UTF-16 and no Unicode case
  mapping. `toLowerCase` lowers ASCII letters only, and `trim` and `\s` use the
  JavaScript whitespace set.
- `null` and `undefined` are one value, `Undef`.
- Objects are maps, so prototype keys are not modelled. For the metric names
  "constructor", "toString" or "__proto__", `labels[metricName]` is a
  function or an object that is not iterable. So the `for...of` at
  js/app.js:266 throws a `TypeError`. Here such a name is a metric without a
  table, and its label is '-'.
- Scoring.NormalizeToScale: a string argument, coerced by JavaScript
  subtraction, is excluded. The function is never called by the dashboard.
- Scoring.CalculateVerdict: a record whose statistics or salary are non-empty
  strings is excluded, since JavaScript would coerce them.
  `NormalizedScorable` proves that every normalized record qualifies.
- Scoring.GetImpactLabel: the value is a number or NaN. Comparing a string
  value with `>=`, which coerces it, is not modelled.
- Scoring.OffDefSplit: `obpm`, `dbpm` and `per` are numbers, '' or undefined.
  A non-empty string is excluded.
- Scoring.Classify: the verdict's text is built from a sentence datatype and
  rendered once. The pastille is a datatype, and `PastilleFile` gives its
  image file name.
