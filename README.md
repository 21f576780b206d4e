# growth-calc, modelled in Dafny

growth-calc is a small single-page calculator. The user gives three things:

- a starting amount;
- a comma-separated list of daily growth specs, such as `1, 2.5, -1-3`;
- a number of days.

The page then shows a table and a chart of how the amount would grow. Each spec is either a fixed percentage per day or a `min-max` range. For a range, the day's percentage is drawn uniformly at random. Saturdays and Sundays are skipped: their table row shows `--` and they add no chart point.

The table gives a dollar cell the class `positive` or `negative`, from comparing it with the cell in the same column of the row above. The first row is compared with itself. A dollar cell gets no class when the cell it is compared with is not a dollar amount, such as `--` or a negative amount like `-$1,250`. A `--` cell gets the class `neutral`.

This project models the calculator's core, file by file:

- `js_string.dfy` (module `JsString`) covers the JavaScript string primitives the core relies on: `trim` and `split`. It also defines `join`, which the source does not call, only to state that `split` loses no character.
- `js_number.dfy` (module `JsNumber`) covers numbers as JavaScript sees them:
  - a value is an exact real or `NaN`;
  - the decimal literals the range pattern accepts;
  - `parseFloat`.
- `growths.dfy` (module `Growths`) covers the growth specs:
  - `parseGrowths` splits, trims and filters the input, then matches each segment against the range pattern `^(-?\d+(?:\.\d+)?)\s*-\s*(-?\d+(?:\.\d+)?)$` or falls back to `parseFloat`;
  - `formatPercent` and `formatGrowth`.
- `simulation.dfy` (module `Simulation`) covers `generateData`.
  - As in the source, it is an imperative loop over a mutable array of running totals. The in-place `forEach` becomes its own method.
  - `GenerateData` is proved equal to the recursive specification functions `Table` and `Chart`, which are built on `Run`. `MultiplyTotals` is proved equal to `Step`.
  - The properties of the calculator are lemmas about those functions.
- `results_table.dfy` (module `ResultsTable`) covers the table component:
  - the split of the data into a header and body rows;
  - the choice of the previous row for each cell;
  - `getClassName`, which compares the two amounts as strings after removing `$` and `,`.

What the code does outside JavaScript's own semantics is a parameter of the model, gathered in `Simulation.Env`:

- the `Intl` date and currency formatters and `toFixed(0)`;
- the weekday of the first day;
- the sequence of values `Math.random()` returns.

## Model

| member | source | states |
|---|---|---|
| JsString.Trim | src/App.tsx:65 | `trim`. Its result is never longer than its input. Its behaviour is stated by `TrimSound`, `TrimBlank`, `TrimSurrounded` and `TrimIdempotent`. |
| JsString.TrimSound | src/App.tsx:65 | `trim` removes only white space, and only from the two ends: the input is some white space, the result, then some white space. Neither end of the result is white space. |
| JsString.TrimBlank | src/App.tsx:65-66 | A part trims to the empty string (and is dropped by `filter(Boolean)`) exactly when it is all white space. |
| JsString.TrimSurrounded | src/App.tsx:65 | Trimming text that neither starts nor ends with white space, surrounded by white space, gives back exactly that text. |
| JsString.TrimIdempotent | src/App.tsx:65 | Trimming twice is the same as trimming once. |
| JsString.Split | src/App.tsx:64 | `split(",")`. There is one piece more than there are commas. Its behaviour is stated by `SplitPieces`, `JoinSplit`, `SplitAppend` and `SplitNoSeparator`. |
| JsString.SplitPieces | src/App.tsx:64 | No piece of `split(",")` contains a comma. |
| JsString.JoinSplit | src/App.tsx:64 | Joining the pieces of `split(",")` with commas gives back the input, so splitting loses no character. |
| JsString.SplitAppend | src/App.tsx:64 | Splitting `a + "," + b` gives the pieces of `a` followed by the pieces of `b`. |
| JsString.SplitNoSeparator | src/App.tsx:64 | Text with no comma splits into one piece, itself. |
| JsNumber.Mul | src/App.tsx:40-42 | `totals[t] *= ...`: the exact product of two finite numbers, and `NaN` when either is `NaN`. Stated by `Simulation.FixedClosedForm`, `Simulation.NaNSticks` and `Simulation.NaNRateColumn`. |
| JsNumber.ScanDecimal | src/App.tsx:68 | One capture group `-?\d+(?:\.\d+)?` of the range pattern. What it scans is a well-formed decimal. Stated by `ScanDecimalSound` and `ScanDecimalText`. |
| JsNumber.ScanDecimalSound | src/App.tsx:68 | A number scanned by the range pattern's `-?\d+(?:\.\d+)?` is a well-formed decimal whose text is exactly the characters consumed. |
| JsNumber.ScanDecimalText | src/App.tsx:68 | Conversely, the pattern reads back the whole text of any well-formed decimal, when something that cannot continue the number follows it. |
| JsNumber.ParseFloat | src/App.tsx:70-75 | `parseFloat`: skip leading white space, read an optional sign and the longest unsigned literal, and give `NaN` when there is none. Stated by `ParseFloatPrefix`, `ParseUnsignedParts` and `ParseFloatNotANumber`. |
| JsNumber.ParseFloatPrefix | src/App.tsx:70-71 | `parseFloat` of a decimal's text, followed by anything that cannot continue a number, is that decimal's exact value. |
| JsNumber.ParseUnsignedParts | src/App.tsx:75 | `parseFloat` of digits, an optional fraction and whatever follows reads the exact decimal value, scaled by the exponent `[eE][+-]?digits` when one follows. |
| JsNumber.ParseFloatNotANumber | src/App.tsx:75 | `parseFloat` of text that, after leading white space, does not begin with a digit, a sign or a point is `NaN`. |
| Growths.RateInverse | src/App.tsx:14-15 | `formatPercent` of the multiplier `x / 100 + 1` is `toFixed(0)` of `x` followed by `%`: the label shows the percentage that was typed. |
| Growths.Rate | src/App.tsx:70-75 | The conversion `x / 100 + 1` from a percentage to a daily multiplier. Stated by `RateInverse`, `ParseSegmentRange` and `ParseSegmentDecimal`. |
| Growths.NumRate | src/App.tsx:75 | `parseFloat(part) / 100 + 1`, which keeps `NaN` as `NaN`. Stated by `ParseSegmentDecimal` and `ParseSegmentNotANumber`. |
| Growths.MatchRange | src/App.tsx:68 | The two numbers the range pattern captures are well-formed decimals. |
| Growths.MatchRangeSound | src/App.tsx:68 | A segment matches the range pattern only when it is exactly: a decimal, white space, `-`, white space, a decimal. |
| Growths.MatchRangeComplete | src/App.tsx:68 | Every segment of that form matches, and it yields the two decimals it was built from. |
| Growths.ParseSegment | src/App.tsx:67-76 | The per-segment callback: a range when the segment matches the pattern, otherwise `parseFloat(part) / 100 + 1`. Stated by `ParseSegmentRange`, `ParseSegmentDecimal` and `ParseSegmentNotANumber`. |
| Growths.ParseSegmentRange | src/App.tsx:68-72 | A range segment parses to the pair `(a / 100 + 1, b / 100 + 1)` of its two numbers' exact values. |
| Growths.ParseSegmentDecimal | src/App.tsx:75 | A segment that is a single decimal parses to the fixed multiplier `x / 100 + 1`. |
| Growths.ParseSegmentNotANumber | src/App.tsx:75 | A segment that does not begin with a digit, a sign, a point or white space parses to a fixed `NaN` multiplier. |
| Growths.MapIndex | src/App.tsx:67 | The `map` over the segments applies the parser to each segment at the same position. |
| Growths.MapAppend | src/App.tsx:67 | `map` distributes over concatenation. |
| Growths.NonBlank | src/App.tsx:65-66 | `map(trim).filter(Boolean)`: the trimmed parts that are not empty, in order, never more than there are parts. Stated by `SegmentsTrimmed`, `ParseGrowthsBlankPart` and `ParseGrowthsBlank`. |
| Growths.Segments | src/App.tsx:63-66 | `split(",").map(trim).filter(Boolean)`: the segments that reach the parser. Stated by `SegmentsTrimmed`, `ParseGrowthsComma`, `ParseGrowthsBlankPart` and `ParseGrowthsOnePart`. |
| Growths.SegmentsTrimmed | src/App.tsx:63-66 | Every segment that reaches the parser is non-empty, has no white space at either end and has no comma. |
| Growths.ParseGrowths | src/App.tsx:62-77 | `parseGrowths`: the parse of each segment, in input order. `ParseGrowthsComma`, `ParseGrowthsBlankPart` and `ParseGrowthsOnePart` together fix its result on every input. |
| Growths.ParseGrowthsComma | src/App.tsx:63-76 | The specs parsed from `a + "," + b` are those of `a` followed by those of `b`. |
| Growths.ParseGrowthsBlankPart | src/App.tsx:63-66 | A part made only of white space contributes no spec. |
| Growths.ParseGrowthsOnePart | src/App.tsx:63-76 | A part with no comma and some non-space character contributes exactly one spec, the parse of its trimmed text. |
| Growths.ParseGrowthsCount | src/App.tsx:63-76 | There are at most as many specs as commas plus one. |
| Growths.ParseGrowthsDecimal | src/App.tsx:63-76 | A decimal with white space around it parses to the single fixed multiplier `x / 100 + 1`. So `"5"` gives 1.05. |
| Growths.ParseGrowthsRange | src/App.tsx:63-76 | A range with any white space around it and around its `-` parses to the single range `[a / 100 + 1, b / 100 + 1]`. This covers `"1--2"` (1% to -2%) and `"-2-5"` (-2% to 5%). |
| Growths.ParseGrowthsBlank | src/App.tsx:63-66 | An empty or all-blank part between two commas is skipped. |
| Growths.FormatPercent | src/App.tsx:14-15 | `formatPercent`: `toFixed(0)` of `(n - 1) * 100`, followed by `%`. Stated by `RateInverse`. |
| Growths.FormatGrowth | src/App.tsx:17-20 | `formatGrowth`: the label of a fixed spec, or the labels of a range's two bounds joined by ` to `. Stated by `FormatParsed`. |
| Growths.FormatParsed | src/App.tsx:14-20 | The column label of a parsed spec shows the percentage that was typed: `x%` for a fixed spec, `lo% to hi%` for a range. |
| Simulation.GenerateData | src/App.tsx:23-60 | The loop produces exactly the table and the chart of the first `Days(duration)` days, where `Days(duration)` counts the `i` with `i < duration`. |
| Simulation.MultiplyTotals | src/App.tsx:39-43 | The in-place `forEach` leaves in the array exactly one weekday's update of the totals. It returns the draw count advanced by one per range spec. |
| Simulation.Factor | src/App.tsx:40-42 | The multiplier of one spec for one day: the fixed rate, or `min + r * (max - min)` for the draw `r`. Stated by `StepTotal`, `FixedStep` and `RangeFactorBetween`. |
| Simulation.WeekendNumber | src/App.tsx:34 | `[0, 6].includes(...)`: weekday number 0 (Sunday) or 6 (Saturday). Stated through `IsWeekend` by `WeekendDay` and `WeekdaysWeek`. |
| Simulation.IsWeekend | src/App.tsx:33-34 | Day `i` falls on a Sunday or a Saturday, counted from the weekday of the first day. Stated by `WeekendDay`, `WeekdayRow` and `WeekdaysWeek`. |
| Simulation.StepPrefix | src/App.tsx:39-43 | The first `t` totals after the `forEach`, which it updates left to right. Stated by `StepPrefixIndex` and `StepPrefixDraws`. |
| Simulation.Step | src/App.tsx:39-43 | One weekday's update of every total. It keeps the number of totals. Stated by `StepTotal` and `FixedStep`. |
| Simulation.Run | src/App.tsx:24-43 | The totals and the draw count after `k` days, starting with every total at `start`. It keeps one total per spec. Stated by `FixedClosedForm`, `FixedNoDraws`, `DrawCount`, `NaNSticks` and `RangeDayBetween`. |
| Simulation.Labels | src/App.tsx:29 | `growths.map(formatGrowth)`: one label per spec, in order. Stated by `HeaderCells`. |
| Simulation.Header | src/App.tsx:29 | The header row `["Date", ...labels]`. Stated by `HeaderCells` and `TableRows`. |
| Simulation.Row | src/App.tsx:33-45 | Day `i`'s table row, pushed at line 35 on a weekend and at line 45 on a weekday. Stated by `TableRows`, `WeekendDay` and `WeekdayRow`. |
| Simulation.Table | src/App.tsx:29-45 | `tableData` after `k` days. Stated by `TableShape`, `TableRows`, `HeaderCells`, `WeekendDay` and `WeekdayRow`. |
| Simulation.Chart | src/App.tsx:30-56 | `chartData` after `k` days. Stated by `ChartLength`, `WeekendDay` and `WeekdayRow`, which give each weekday's point as `Point` of that day's date and updated totals, and by `PointKeys` and `PointValues`, which give that point's keys and values. |
| Simulation.Point | src/App.tsx:47-55 | The chart point the `reduce` builds. Stated by `PointKeys` and `PointValues`. |
| Simulation.DaysCount | src/App.tsx:32 | The loop body runs for day `i` exactly when `i < duration`, also for a fractional or non-positive duration. |
| Simulation.TableShape | src/App.tsx:29-45 | After `k` days the table has `k + 1` rows, each one cell longer than the number of specs. |
| Simulation.TableRows | src/App.tsx:29-45 | The first row is the header. Row `i + 1` is day `i`'s row. |
| Simulation.HeaderCells | src/App.tsx:29 | The header is `Date` followed by `formatGrowth` of each spec, in order. |
| Simulation.WeekendDay | src/App.tsx:34-37 | On a Saturday or Sunday the row is the date followed by `--` in every column. The totals, the draw count and the chart do not change. |
| Simulation.WeekdayRow | src/App.tsx:39-56 | On a weekday the row is the date followed by `formatUSD` of each updated total. The chart gains exactly one point: the `reduce` over that day's date and its updated totals. |
| Simulation.ChartLength | src/App.tsx:32-57 | The chart has one point per weekday among the simulated days, so never more points than days. |
| Simulation.WeekdaysWeek | src/App.tsx:34 | Any seven consecutive days hold exactly five weekdays. |
| Simulation.StepTotal | src/App.tsx:39-43 | In one weekday's update, total `t` is multiplied by its spec's factor. For a range, the factor uses the random draw whose index is the earlier draws plus the number of ranges before `t`. |
| Simulation.RangeDayBetween | src/App.tsx:39-43 | On a weekday, when `Math.random()` returns values in `[0, 1)`, a range column's total is multiplied by a factor between the range's bounds. |
| Simulation.FixedStep | src/App.tsx:40-42 | A fixed spec multiplies its total by its rate, whatever the random draws. |
| Simulation.RangeFactorBetween | src/App.tsx:41 | With a draw in `[0, 1)`, a range's factor lies between its two bounds. It may equal the first bound but, unless the two bounds are equal, never the second, in either order of the bounds. |
| Simulation.FixedClosedForm | src/App.tsx:24-43 | A column whose spec is a fixed, finite rate is `start * rate^w` after `k` days, where `w` is the number of weekdays among the `k` days. This holds whatever the other columns are, ranges included, so a fixed column never depends on `Math.random()`. |
| Simulation.FixedNoDraws | src/App.tsx:39-43 | With only fixed specs, `Math.random()` is never called. |
| Simulation.FixedIgnoresRandom | src/App.tsx:39-43 | With only fixed specs, the totals do not depend on `Math.random()`. |
| Simulation.FixedTableIgnoresRandom | src/App.tsx:23-60 | With only fixed specs, the table does not depend on `Math.random()`. |
| Simulation.FixedChartIgnoresRandom | src/App.tsx:23-60 | With only fixed specs, the chart does not depend on `Math.random()`. |
| Simulation.DrawCount | src/App.tsx:39-43 | `Math.random()` is called once per range spec per weekday, and never otherwise. |
| Simulation.NaNSticks | src/App.tsx:40 | Once a total is `NaN` it stays `NaN`. |
| Simulation.NaNRateColumn | src/App.tsx:39-43 | A spec that parsed to `NaN` turns its column to `NaN` exactly from the first weekday on. |
| Simulation.LabelNotDate | src/App.tsx:49-53 | A column label never collides with the chart's `date` key. |
| Simulation.PointKeys | src/App.tsx:47-55 | The keys of a chart point are exactly `date` and the labels of the specs. With no specs the point is `{}`, with no `date` key. |
| Simulation.PointValues | src/App.tsx:47-55 | A chart point maps `date` to the day's date and each label to `toFixed(0)` of the last total carrying that label. |
| ResultsTable.Strip | src/ResultsTable.tsx:41-43 | `replace(/[\$,]/g, "")`. Stated by `StripRemoves`, `StripKeeps`, `StripAppend`, `StripUnchanged` and `StripIdempotent`. |
| ResultsTable.StripRemoves | src/ResultsTable.tsx:41-43 | Removing `/[\$,]/g` leaves no `$` or `,`. |
| ResultsTable.StripKeeps | src/ResultsTable.tsx:41-43 | Removing `/[\$,]/g` keeps every other character, as many times as it occurred. |
| ResultsTable.StripAppend | src/ResultsTable.tsx:41-43 | The replacement distributes over concatenation. |
| ResultsTable.StripUnchanged | src/ResultsTable.tsx:41-43 | Text without `$` or `,` is left unchanged. |
| ResultsTable.StripIdempotent | src/ResultsTable.tsx:41-43 | Removing the characters twice is the same as once. |
| ResultsTable.IsDollar | src/ResultsTable.tsx:40 | `startsWith("$")`, which an empty text fails, as the `prevCell &&` test also rejects it. Stated by `ClassOfCompared`. |
| ResultsTable.LexLess | src/ResultsTable.tsx:44 | JavaScript's `<` on strings: a proper prefix, or a smaller character at the first difference. Stated by the five `LexLess` lemmas below. |
| ResultsTable.LexLessIrreflexive | src/ResultsTable.tsx:44 | JavaScript's string `<` is irreflexive, so `num >= num` holds. |
| ResultsTable.LexLessAsymmetric | src/ResultsTable.tsx:44 | String `<` is asymmetric. |
| ResultsTable.LexLessTransitive | src/ResultsTable.tsx:44 | String `<` is transitive. |
| ResultsTable.LexLessTotal | src/ResultsTable.tsx:44 | Two different strings are ordered one way or the other. |
| ResultsTable.LexLessDigits | src/ResultsTable.tsx:44 | For digit strings of equal length, string order is numeric order. |
| ResultsTable.ClassOf | src/ResultsTable.tsx:36-47 | `getClassName`, with a missing cell above given as `None` for `undefined`. Stated by `ClassOfNeutral`, `ClassOfCompared`, `SameAmountPositive`, `ClassOfOpposite`, `ClassOfSameWidth`, `ClassOfLeading` and `ClassOfDigitBoundary`. |
| ResultsTable.ClassOfNeutral | src/ResultsTable.tsx:37-39 | A cell is `neutral` exactly when it is `--`. |
| ResultsTable.ClassOfCompared | src/ResultsTable.tsx:40-46 | A cell is `positive` or `negative` exactly when both it and a non-empty previous cell start with `$`. Otherwise it has no class (or is `neutral`). |
| ResultsTable.ClassOfAfterPlaceholder | src/ResultsTable.tsx:36-47 | A cell below a `--` cell gets no class, unless it is `--` itself. |
| ResultsTable.SameAmountPositive | src/ResultsTable.tsx:44 | An unchanged amount is `positive`. |
| ResultsTable.ClassOfOpposite | src/ResultsTable.tsx:44 | For two different amounts, `a` is `positive` against `b` exactly when `b` is `negative` against `a`. |
| ResultsTable.ClassOfSameWidth | src/ResultsTable.tsx:40-44 | For amounts with the same number of digits, `positive` means the amount did not decrease. |
| ResultsTable.ClassOfLeading | src/ResultsTable.tsx:44 | Only the first differing character decides: a larger leading character makes the cell `positive` and the other one `negative`, whatever the widths. |
| ResultsTable.ClassOfDigitBoundary | src/ResultsTable.tsx:40-44 | The string comparison gets amounts of different widths wrong: `$999` after `$1,000` is `positive`, and `$1,000` after `$999` is `negative`. |
| ResultsTable.Render | src/ResultsTable.tsx:4-27 | The component: nothing for no data, otherwise the header and the classified body rows. Stated by `RenderShape`, `RenderFirstRow` and `RenderLaterRow`. |
| ResultsTable.PrevCell | src/ResultsTable.tsx:23 | `rows[Math.max(rowIndex - 1, 0)][cellIndex]`. Stated by `RenderFirstRow` and `RenderLaterRow`. |
| ResultsTable.RenderShape | src/ResultsTable.tsx:4-27 | Empty data renders nothing. Otherwise the first row is the header, which gets no class. Every other row becomes a body row of the same cells. |
| ResultsTable.RenderFirstRow | src/ResultsTable.tsx:23 | The first body row is compared with itself, so every dollar cell in it is `positive`. |
| ResultsTable.RenderLaterRow | src/ResultsTable.tsx:23 | A later body row's cell is classified against the same column one row up, or against nothing when that row is shorter. |
| ResultsTable.WeekendRowNeutral | src/ResultsTable.tsx:19-39 | Every amount cell of a weekend row of the generated table renders as `neutral`. |

## Left out

- Numbers are exact reals or `NaN`. IEEE-754 rounding, `-0`, infinities and overflow are not modelled, so `start * rate^w` holds exactly here, where the browser rounds.
- `parseFloat` does not recognise the word `Infinity` in the model (it gives `NaN` there). An exponent scales the exact value by a power of ten, with no overflow to `Infinity` or underflow to 0.
- `formatUSD`, `formatDate` and `toFixed(0)` are `Intl` and engine functions. They are parameters of the model (`Env.usd`, `Env.date`, `Env.fixed0`), so no property depends on their output text.
- The current date, `getTime` and `getDay` are replaced by the weekday of the first day. Day `i` falls on weekday `(start + i) mod 7`, which ignores daylight-saving shifts of the 24-hour step.
- The test `interval === DAY` is always true in the source, so the model drops it.
- `Math.random()` is a parameter: the sequence of values its successive calls return. `Simulation.RangeFactorBetween` and `Simulation.RangeDayBetween` require them to lie in `[0, 1)`, as the language promises (`Simulation.RandomInUnitInterval`).
- The starting amount and the duration reach `generateData` after `parseFloat(...) || 0`, so they are never `NaN`. The model takes them as reals. An infinite duration, which would make the loop run forever, is not modelled.
- Simulation.PointValues: states the value of a label only for the last spec carrying it; a key written earlier in the same `reduce` is overwritten, as in the source.
- JavaScript compares strings by UTF-16 code units. The model compares Dafny characters, which agrees for the ASCII text the table holds.
- The React components, `usePersistedState`, the form fields, the JSX markup, the CSS and the chart drawing are not modelled. Only the data they receive and the class each cell gets are.
