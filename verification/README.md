# Commodity price dashboard: the price-series pipeline

This project models the data pipeline of the commodity price dashboard
(`app.py`). It proves properties of that pipeline in Dafny. One load of the
dashboard goes through these steps:

1. The rows of a price-history file are ordered by date. No row is dropped
   and no row is merged with another.
2. Every comma is removed from each `Price` text, and the rest is converted
   to a number. If one price does not convert, the whole load fails with an
   error.
3. If the file has no rows, nothing is shown.
4. Otherwise the latest price is the price of the last row. The change is
   the last price minus the one before it. The percentage is the change
   divided by the previous price, times 100. The change shows as a rise
   ("up") when it is zero or more. With a single row there is no previous
   price, and the dashboard says it is unable to calculate the change.
5. The chart shows the whole history. The rows of a date range that
   includes both ends are computed as well. By default the range runs from
   the first date to the last. The dashboard never displays these filtered
   rows; the model computes them as the source does.

Modules, one per stage:

- `Wrappers`: `Option` and `Result`.
- `PriceText`: comma removal, the decimal-number syntax (`Lex`/`Render`)
  and its value, and `ParsePrice`.
- `Series`: rows `Row<P>(day, price)`, ordering by date (`SortByDate`),
  price conversion (`ConvertAll`) and the load (`Load`).
- `Metrics`: the latest price, the change with its `Percent` and
  `Direction`.
- `DateRange`: the inclusive date filter.
- `Dashboard`: the full load (`Show`). It returns `LoadFailed`, `NoData` or
  `Shown`.
- `Scenarios`: small worked loads.

Modelling choices:

- Dates are whole day numbers. The source parses them into timestamps.
  The sort (app.py:58) and the default range bounds (app.py:94, 96) compare
  full timestamps. Only the range filter (app.py:99) compares the date part.
  The two comparisons agree only when the timestamps carry no time of day,
  as in day-level files. For such files, both are comparisons of day numbers.
- Prices are exact `real` numbers, not floating-point values.
- Pandas' default sort is not stable, so rows with the same date come out
  in an order the source does not fix. `SortByDate` is one particular
  ordering, but its contract promises only two things: the output has the
  same rows, and dates never decrease. The metric lemmas (`LatestIsAtLatestDay`,
  `LatestPriceIndependentOfTies`) hold for every such ordering.
- A previous price of zero is not guarded in the source. The division is a
  floating-point division, so it yields an infinity or not-a-number rather
  than an error. `Metrics.Percent` models this exactly:
  `Finite | PosInf | NegInf | NaN`. The percentage is never absent.
- A bad price aborts the whole load. The bad row is not dropped on its own.
- Rows with equal dates are all kept. None is merged or removed.
- A zero change shows as a rise. There is no separate "flat" state.

## Model

| member | source | states |
|---|---|---|
| PriceText.StripCommas | app.py:61 | the cleaned text contains no comma and is no longer than the original |
| PriceText.StripCommasKeepsOtherChars | app.py:61 | every character other than a comma occurs exactly as often after cleaning as before |
| PriceText.StripCommasIsSubsequence | app.py:61 | the cleaned text is the original with characters deleted, order kept |
| PriceText.StripCommasIdempotent | app.py:61 | cleaning twice equals cleaning once |
| PriceText.NoCommaFixpoint | app.py:61 | cleaning leaves a text unchanged exactly when it has no comma |
| PriceText.StripCommasAppend | app.py:61 | cleaning a concatenation is the concatenation of the cleaned parts |
| PriceText.CommaIsIgnored | app.py:61 | a comma inserted anywhere in a price text does not change the number read |
| PriceText.LexThenRender | app.py:61 | whatever is read as a number is well formed and renders back to exactly the text read |
| PriceText.RenderThenLex | app.py:61 | every well-formed decimal is read back from its own text |
| PriceText.FindPointIsFirst | app.py:61 | the point search returns the first '.' and returns nothing when there is none |
| PriceText.Lex | app.py:61 | whatever is read as a number is well formed, and its sign is Minus exactly when the text starts with '-' (so "-0" has a Minus sign and value 0); LexThenRender and RenderThenLex make it the inverse of Render |
| PriceText.Value | app.py:61 | the value of a decimal lies between its integer digits and the next integer away from zero, with the sign applied; ValueIsExact gives the exact value |
| PriceText.DigitsValueAppend | app.py:61 | the digits of a concatenation denote the leading digits shifted by the length of the trailing ones, plus the trailing digits |
| PriceText.ValueIsExact | app.py:61 | a decimal's value, with the point moved past all fraction digits, is exactly the integer its digits write, negated for a '-' sign |
| PriceText.ParsePrice | app.py:61 | a price converts exactly when its comma-free text is a decimal number |
| PriceText.RenderedPriceParses | app.py:61 | the text of a decimal converts to the value it denotes |
| Series.SortByDate | app.py:58 | the result holds the same rows (as a multiset) with dates non-decreasing |
| Series.Insert | app.py:58 | inserting into a date-ordered sequence adds exactly that row and keeps the order |
| Series.ConvertAll | app.py:61 | conversion succeeds iff every price converts; on success row i is row i converted; on failure the error names a price text that does not convert |
| Series.Load | app.py:58-61 | a successful load keeps one row per input row, in date order; LoadFailsIffSomePriceIsBad and LoadedSeriesIsConvertedOrdering characterise it fully |
| Series.LoadFailsIffSomePriceIsBad | app.py:55-61 | the load fails exactly when some input row's price does not convert, and the error names such a price |
| Series.LoadedSeriesIsConvertedOrdering | app.py:58-61 | a successful load has one converted row per input row, as a multiset, ordered by date |
| Series.MaxDay | app.py:96 | the latest date is an upper bound of all dates and is the date of some row |
| Series.MinDay | app.py:94 | the earliest date is a lower bound of all dates and is the date of some row |
| Series.SortedEnds | app.py:94-96 | in a date-ordered series the first row has the earliest date and the last row the latest |
| Series.OrderingKeepsDayBounds | app.py:58 | reordering the rows changes neither the earliest nor the latest date |
| Series.LoadKeepsDayBounds | app.py:58-61 | the loaded series spans the same first and last date as the file's rows |
| Metrics.LatestPrice | app.py:63-65 | a latest price exists exactly when the series is non-empty |
| Metrics.PriceChange | app.py:70-80 | the change is "unable to calculate" exactly when the series has fewer than two rows |
| Metrics.LatestIsAtLatestDay | app.py:58-65 | for every date ordering of a non-empty series, the latest price belongs to a row on the latest date |
| Metrics.LatestPriceIndependentOfTies | app.py:58-65 | when one row alone holds the latest date, every date ordering shows the same latest price |
| Metrics.Divide | app.py:72 | a finite quotient times the divisor gives back the dividend; the result is non-finite exactly for a zero divisor, and not-a-number exactly for zero over zero |
| Metrics.DirectionOf | app.py:75-78 | no contract of its own; UpIffNotLower states the direction rule over a series |
| Metrics.ChangeRecoversLatest | app.py:71 | previous price plus change equals the latest price |
| Metrics.PercentRecoversLatest | app.py:72 | with a non-zero previous price the percentage is finite, and growing the previous price by it gives the latest price |
| Metrics.PercentOfZeroPrevious | app.py:72 | with a zero previous price the percentage is +infinity for a rise, -infinity for a fall, and not-a-number for no change |
| Metrics.UpIffNotLower | app.py:75-78 | the direction is Up iff the latest price is at least the previous one, and Down iff it is lower |
| Metrics.PercentAgreesWithDirection | app.py:72-78 | with a positive previous price the percentage is non-negative exactly when the direction is Up |
| Metrics.PreviousIsSecondLatest | app.py:58-72 | in every date ordering of a series, the previous row is one of the series' rows other than the last, and no other such row is dated later |
| DateRange.FilterByDate | app.py:99-100 | every kept row lies in the range and no more rows are kept than given |
| DateRange.FilterCounts | app.py:99-100 | each row in the range is kept exactly as often as it occurs; no other row is kept |
| DateRange.FilterIsOrderedSelection | app.py:99-100 | the kept rows are the series' rows at strictly increasing positions, and a position is kept exactly when its row is in the range |
| DateRange.FilterAppend | app.py:99-100 | filtering a concatenation filters each part |
| DateRange.ReversedRangeIsEmpty | app.py:99-100 | a range whose start is after its end keeps nothing |
| DateRange.WideRangeKeepsAll | app.py:99-100 | a range covering every date keeps the whole series unchanged |
| DateRange.DefaultRangeKeepsAll | app.py:94-100 | the default range, first to last date, keeps the whole series |
| DateRange.FilterKeepsOrder | app.py:58-100 | filtering a date-ordered series leaves it date-ordered |
| DateRange.FilterTwice | app.py:99-100 | filtering twice equals filtering once by the intersection of the ranges |
| Dashboard.Show | app.py:49-104 | nothing is shown exactly for a file without rows; a shown history has one row per file row, in date order; the shown latest price and change are LatestPrice and PriceChange of that history, and a change is shown exactly when the file has at least two rows; the filtered rows are the history filtered by the range, which is the chosen one when dates are chosen; ShowOutcomes gives the three outcomes, ShownLatestIsAtLatestDay the file row behind the latest price, and DefaultBoundsShowWholeHistory the default range |
| Dashboard.Figures | app.py:63-100 | the latest figure is the last row's price, a change appears exactly when there are at least two rows, the filtered rows (computed, not displayed) lie in the range, chosen dates are used as given, and the default range spans every date |
| Dashboard.ShowOutcomes | app.py:49-104 | the load fails iff some price does not convert; nothing is shown iff the file has no rows; otherwise the figures are derived |
| Dashboard.ShownLatestIsAtLatestDay | app.py:52-65 | the shown history is a date ordering of the converted rows, and the shown latest price is the converted price of a row on the file's latest date |
| Dashboard.LatestOfLoadedRows | app.py:58-65 | the last row of a loaded series is the conversion of a file row on the latest date |
| Dashboard.ShownChangeNeedsTwoRows | app.py:63-80 | a change is shown exactly when the file has at least two rows |
| Dashboard.LatestOfConvertedOrdering | app.py:58-65 | in any date ordering of the converted rows, the last row is the conversion of a file row on the latest date |
| Dashboard.DefaultBoundsShowWholeHistory | app.py:94-100 | with the default dates the range is the file's first to last date and the filtered history is the whole history |
| Scenarios.ThousandsSeparatorIsRemoved | app.py:61 | "1,234.50" converts to 1234.5 |
| Scenarios.WordIsNotAPrice | app.py:61 | "abc" does not convert |
| Scenarios.BadRowAbortsLoad | app.py:61-104 | a file with prices "100" and "abc" fails to load, with an error naming "abc" |
| Scenarios.RisingPairShowsUp | app.py:58-100 | prices 100 then 110, given out of date order, show latest 110, change 10, 10 percent, Up, and the whole history as the chart |
| Scenarios.SingleRowHasNoChange | app.py:63-80 | a one-row file shows its price and "unable to calculate" for the change |
| Scenarios.ZeroPreviousGivesInfinity | app.py:71-78 | prices 0 then 5 show change 5, an infinite percentage, and Up |

## Left out

- Page setup, title, dropdown, refresh button, headers, chart, date-picker
  widgets, last-updated time and footer (app.py:7-47, 66-67, 76-78, 83-96,
  106-111): these only display things and derive nothing.
- The commodity-to-file table (app.py:30-35): it is static configuration.
  The model takes the rows of the chosen file as input.
- Reading the CSV file (app.py:52): I/O. The model starts from rows
  already read.
- Parsing dates from text (app.py:55): the date grammar belongs to the
  library. Dates are day numbers, so a date-parsing failure is not modelled.
- Metrics.LatestIsAtLatestDay, Dashboard.ShownLatestIsAtLatestDay,
  Dashboard.DefaultBoundsShowWholeHistory: rows without a date are not
  modelled; every row has a day number. In the source, the CSV reader turns
  an empty `Date` cell, or one of its missing-value markers, into
  not-a-number (app.py:52), and the date conversion turns that into a
  missing timestamp without raising (app.py:55). The sort puts such rows
  last (app.py:58), so the latest price is the price of a row with no date
  (app.py:65). The earliest and latest dates skip them (app.py:94, 96), and
  the range filter leaves them out (app.py:99). For such files these three
  lemmas do not describe the source.
- Time of day in dates: day-level files have none, so comparing the date
  part is comparing day numbers.
- The full number syntax of the float conversion: surrounding whitespace,
  exponents, `nan`/`inf`, `_` digit separators and non-ASCII decimal digits
  (the float conversion reads "١٢٣" as 123). The model accepts only an
  optional sign, digits and an optional point with digits.
- Floating-point rounding and signed zero: prices and results are exact
  reals, so a price of "-0" counts as a plain zero previous price.
- Series.LoadFailsIffSomePriceIsBad, PriceText.ParsePrice: missing-value
  markers in a price cell are not modelled. When the CSV reader reads the
  file (app.py:52), it turns an empty cell, and each of its default
  missing-value markers, into not-a-number. The markers are "NA", "N/A",
  "n/a", "NULL", "null", "NaN", "nan", "-NaN", "-nan", "None", "#N/A",
  "#N/A N/A", "#NA", "<NA>", "1.#IND", "-1.#IND", "1.#QNAN" and "-1.#QNAN".
  Comma removal and the float conversion (app.py:61) keep not-a-number, so
  the source loads such a file and shows "nan" figures. The model reads
  these texts as prices that do not convert, so it fails the load. Prices
  are modelled as exact reals, which have no not-a-number value.
- Formatting figures to two decimals (app.py:67, 76, 78): presentation only.
- Showing the exception text on a failed load (app.py:104): presentation
  only. The model returns the error. Its text is the price cell as read,
  commas included (`NotANumber("1,2x")`); the source's message quotes the
  text after comma removal ("12x").
