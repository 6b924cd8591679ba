# CO₂ emissions dashboard: a Dafny model of its data core

The dashboard (`src/app.py`) loads one emissions table and serves a small web
page. A metric dropdown, a year slider and a transform radio (raw, log1p,
zscore, minmax) drive a histogram and a choropleth. This project models the
part of that program that decides what the charts show:

- **Column resolution at start-up** (`ColumnResolver`). The country, year and
  total-emissions columns are picked from ordered lists of guesses by
  `pick_first_col`. The method `PickFirstCol` keeps the source's loop and
  early return, and is proved equal to the recursive `FirstColumn`. Start-up
  fails when country or year is missing. The selectable metrics are the
  preferred names found among the numeric columns, or else the first five
  numeric columns. The year slider's range is `int()` of the minimum and
  maximum coerced year. `Resolve` takes the guess lists as parameters, and
  `Startup` applies it to the dashboard's own lists.
- **The table and its coercions** (`Table`). Cells are missing (NaN), numbers
  (finite or ±infinity) or text. `pd.to_numeric(errors="coerce")` is a
  per-cell function, with a `Parser` value standing for the conversion of
  strings. The replacement of infinities by NaN and Python's `int()` on a
  float (truncation toward zero) are written out.
- **The transforms** (`Transforms`, with `Stats` for the reductions). The
  log1p and standard-deviation numerics are a `Numerics` value, taken as
  given.
- **The `update` callback** (`ViewPipeline`). It selects the year, filters
  the rows, coerces and transforms the metric, and produces the values the
  histogram draws (`distribution`) and the (country, value) rows the map
  draws (`locations`).

Values are exact reals. A NaN entry of a column is `None` in a
`seq<Option<real>>`. A raised exception is the `Err` side of a `Result`,
except in `Transforms.MinMaxAsWritten`, where the only exception that can
occur (the ValueError of `np.nanmin` on a zero-length series) is the `None`
of an `Option<Series>`.
`Seqs` holds the boolean-mask filter, `dropna` and element-wise maps, with
their order lemmas.

Start-up fails when the country or year column is not detected. It also
fails in three more cases, each modelled as its own error:

- no year value is numeric: `int(NaN)` raises, at src/app.py:42;
- the minimum or maximum year is infinite: `int(±inf)` raises, at src/app.py:42-43;
- there are no metrics at all: `metrics[0]` raises, at src/app.py:57.

Under min-max the callback raises on a year with no rows, unlike the other
three transforms; see Findings.

## Model

| member | source | states |
|---|---|---|
| ColumnResolver.FirstColumn | src/app.py:17-21 | no column is found exactly when no candidate is a column of the table; a found column is both a candidate and a column |
| ColumnResolver.FirstColumnIsEarliest | src/app.py:17-21 | a candidate that is a column and comes after only non-columns is the one returned (first match wins) |
| ColumnResolver.PickFirstCol | src/app.py:17-21 | the scanning loop with early return yields exactly `FirstColumn` of the table's column names |
| ColumnResolver.FirstColumnIsFirstKept | src/app.py:17-21 | the result is the head of the candidates filtered by membership, or None when that filter is empty |
| ColumnResolver.Metrics | src/app.py:36-40 | every metric is a numeric column; the list is empty only when there are no numeric columns; with a preferred name present, its members are exactly the preferred names that are numeric; otherwise it is the first min(5, n) numeric columns in table order; with a preferred name present, its length is the number of preferred names that are numeric |
| ColumnResolver.PreferredCandidates | src/app.py:37-38 | the candidate list is the detected total column (dropped when it was not detected) followed by the seven fixed extras; a name is a candidate exactly when it is the detected total or one of the extras |
| ColumnResolver.MetricsOfTotalOnly | src/app.py:37-40 | when the detected total column is numeric and none of the extras is, it is the only metric |
| ColumnResolver.MetricsInPreferredOrder | src/app.py:37-39 | two preferred names that are both numeric appear in the metric list in preferred-list order |
| ColumnResolver.DefaultMetric | src/app.py:57 | the dropdown's default `metrics[0]` is the first preferred name that is numeric, or else the first numeric column |
| ColumnResolver.NumLe | src/app.py:42-43 | the order `min`/`max` use on non-NaN floats: reflexive, the real order on finite values, +inf is below only itself and only -inf is below -inf |
| ColumnResolver.NumMin | src/app.py:42 | the NaN-skipping minimum is one of the values and is below every value, with -inf lowest and +inf highest |
| ColumnResolver.NumMax | src/app.py:43 | the NaN-skipping maximum is one of the values and is above every value |
| ColumnResolver.ResolvedDefaultMetric | src/app.py:57 | after a successful start-up, `metrics[0]` is the first preferred name that is a numeric column, or else the first numeric column |
| ColumnResolver.YearValues | src/app.py:42-43 | the coerced year column has one entry per row, the coercion of that row's year cell |
| ColumnResolver.IntOfNum | src/app.py:42-43 | `int()` of a non-NaN float succeeds exactly when it is finite and then truncates toward zero; an infinity gives the overflow error |
| ColumnResolver.YearRange | src/app.py:42-43 | fails with the NaN error exactly when no year is numeric; fails with overflow exactly when some numeric year is infinite; otherwise min <= max, the truncation of every numeric year lies between them, and both ends are attained |
| ColumnResolver.Resolve | src/app.py:29-43 | fails on columns exactly when country or year is not detected; on success the country, year and total columns are the first matching guesses, the metrics are exactly the derived list `Metrics(total, numeric columns)`, the metrics are non-empty and numeric, and the range is the year range of the year column; year errors pass through unchanged; fails at `metrics[0]` (src/app.py:57) exactly when the columns and years resolve but no column is numeric |
| ColumnResolver.Startup | src/app.py:11-43 | with the dashboard's own guess lists: fails on columns exactly when no country or no year guess is a column; on success the columns are the first matching guesses and the metrics are the derived list |
| Table.Names | src/app.py:19 | `df.columns` has one name per column, in table order, each the name of that column |
| Table.NumericNames | src/app.py:36 | the numeric column names are exactly the names of the columns flagged numeric |
| Table.NumericNamesInTableOrder | src/app.py:36 | the numeric names are the names of the numeric columns selected in table order, so the fallback `numeric_cols[:5]` takes the first five in file order |
| Table.NumericNamesAreNames | src/app.py:36 | every numeric column name is a column name of the table |
| Table.ToNumeric | src/app.py:103 | coercion keeps a number as it is and leaves a missing cell missing |
| Table.FiniteValue | src/app.py:106 | a value is present exactly when the cell coerces to a finite number, and it is that number |
| Table.Trunc | src/app.py:42-43 | `int()` of a float rounds toward zero: floor for non-negative values, ceiling for negative ones |
| Table.TruncMonotone | src/app.py:42-43 | truncation preserves order |
| Transforms.TransformNamed | src/app.py:111-118 | each of the three names selects its transform, and any other radio value selects raw |
| Transforms.UnknownNameIsRaw | src/app.py:110-118 | a radio value that is not one of the three names leaves the series unchanged |
| Transforms.Apply | src/app.py:110-120 | every transform keeps the series length and keeps exactly the NaN entries NaN; raw is the identity |
| Transforms.ClipAtZero | src/app.py:112 | a negative value becomes 0 and a non-negative value is left as it is |
| Transforms.Log1pView | src/app.py:112 | one entry per row, NaN exactly where the input is NaN |
| Transforms.Log1pClipsNegatives | src/app.py:112 | the log1p view of a present value v is log1p(max(v, 0)) |
| Transforms.Log1pKeepsOrder | src/app.py:112 | when log1p is non-decreasing on the non-negative reals, the view keeps the order of the present values |
| Transforms.Zeros | src/app.py:115 | `x*0` gives 0 where there was a value and NaN where there was none |
| Transforms.StdDev | src/app.py:114 | the standard deviation is the square root (an input function) of the population variance, which is never negative |
| Transforms.StdDevOfConstant | src/app.py:114 | equal values have as standard deviation the square root of 0 |
| Transforms.Standardized | src/app.py:115 | the z-score times sd is the deviation from the mean; it is positive exactly above the mean and zero exactly at the mean |
| Transforms.ZScoreView | src/app.py:114-115 | one entry per row, NaN exactly where the input is NaN |
| Transforms.ZScoreAt | src/app.py:114-115 | each present z-score is (value - mean) / sd over the present values when sd > 0, and 0 otherwise |
| Transforms.ZScoreStandardizes | src/app.py:114-115 | with an exact square root and sd > 0, the present z-scores have mean 0 and population variance 1 |
| Transforms.ZScoreConstant | src/app.py:114-115 | when all present values are equal, every present z-score is 0 |
| Transforms.MinMaxView | src/app.py:117-118 | one entry per row, NaN exactly where the input is NaN |
| Transforms.Scaled | src/app.py:118 | the scaled value times (max - min) is the distance of the value above the minimum |
| Transforms.MinMaxAt | src/app.py:117-118 | each present value lies between the extremes; it is scaled by them when max > min and is 0 otherwise |
| Transforms.MinMaxInUnitInterval | src/app.py:117-118 | every present min-max value lies in [0, 1] |
| Transforms.MinMaxPresentInUnitInterval | src/app.py:117-118 | every value left after dropping NaN from the min-max view lies in [0, 1] |
| Transforms.MinMaxEndpoints | src/app.py:117-118 | when the present values are not all equal, the minimum maps to 0 and the maximum to 1 |
| Transforms.MinMaxKeepsOrder | src/app.py:117-118 | min-max scaling preserves the order of present values, both weak and strict |
| Transforms.MinMaxConstant | src/app.py:118 | when all present values are equal, the min-max view is all zeros, with NaN kept |
| Transforms.MinMaxAsWritten | src/app.py:117 | as written, min-max raises exactly on a series with no rows, and otherwise agrees with the corrected view |
| Stats.Mean | src/app.py:114 | `np.nanmean` of the present values: the mean times their count is their sum |
| Stats.Variance | src/app.py:114 | the variance inside `np.nanstd(ddof=0)`: the variance times the count is the sum of squared deviations from the mean |
| Stats.Min | src/app.py:117 | `np.nanmin` of the present values is attained and is below every value |
| Stats.Max | src/app.py:117 | `np.nanmax` of the present values is attained and is above every value |
| Stats.VarianceNonNegative | src/app.py:114 | the population variance is never negative |
| Stats.VarianceZeroIffConstant | src/app.py:114-115 | the population variance is zero exactly when all values are equal |
| Stats.Standardization | src/app.py:114-115 | subtracting the mean and dividing by an exact square root of the variance gives mean 0 and variance 1 |
| Seqs.Filter | src/app.py:103 | the boolean-mask filter keeps exactly the elements the mask selects, and no more elements than it had |
| Seqs.FilterAt | src/app.py:103 | a selected row lands at its rank among the selected rows |
| Seqs.FilterOrder | src/app.py:103 | selected rows keep their relative order |
| Seqs.FilterPositions | src/app.py:103 | every position of the filtered rows holds a selected row at its rank, so the filter adds nothing besides the selected rows |
| Seqs.Present | src/app.py:124 | `dropna` keeps exactly the present values |
| Seqs.PresentAt | src/app.py:124 | a present entry lands at its rank among the present entries |
| Seqs.PresentOrder | src/app.py:124 | present entries keep their relative order |
| Seqs.PresentPositions | src/app.py:124 | every position after `dropna` holds a present entry at its rank, so nothing besides the present values appears |
| Seqs.MapPresent | src/app.py:110-118 | element-wise arithmetic keeps the length, keeps NaN as NaN, and maps each present value |
| Seqs.PresentOfMapPresent | src/app.py:110-124 | dropping NaN after an element-wise map equals mapping the dropped series |
| ViewPipeline.SelectedYear | src/app.py:98-101 | `int(year)` of a finite number truncates; None, NaN, infinities and non-integer strings fall back to `max_year` |
| ViewPipeline.InYear | src/app.py:103 | the mask holds exactly when the row's year cell coerces to a finite number equal to the year, so NaN and infinities match no year; a number cell holding the year matches |
| ViewPipeline.RowsForYear | src/app.py:103 | the filtered rows are exactly the table rows whose coerced year equals the selected year |
| ViewPipeline.MetricSeries | src/app.py:106 | one entry per filtered row: the finite coerced metric, or NaN |
| ViewPipeline.ViewSeries | src/app.py:120 | the view column has one transformed value per row of the selected year |
| ViewPipeline.Countries | src/app.py:131 | the country column of the year's rows: one cell per row, in row order |
| ViewPipeline.Paired | src/app.py:131 | one (country, value) entry per row, present only where the value is present |
| ViewPipeline.Located | src/app.py:131 | the map has at most as many rows as the histogram has values |
| ViewPipeline.LocatedMembers | src/app.py:131 | a (country, value) pair is on the map exactly when some filtered row has that present country and that present value |
| ViewPipeline.LocatedInRowOrder | src/app.py:131 | rows with both country and value appear on the map in row order |
| ViewPipeline.LocatedValuesArePresent | src/app.py:124-131 | when every filtered row names its country, the map's values are exactly the histogram's values in the same order |
| ViewPipeline.ViewOf | src/app.py:124-131 | map rows <= histogram values <= rows; a value is in the histogram exactly when it is a present entry of the view column |
| ViewPipeline.DistributionOfSeries | src/app.py:103-124 | the histogram's values are the present values of the transformed metric of the rows of the year |
| ViewPipeline.ComputeView | src/app.py:103-131 | map rows <= histogram values <= rows of the selected year |
| ViewPipeline.Update | src/app.py:96-131 | raises KeyError exactly when the metric is not a column; otherwise the view of the selected year and the named transform |
| ViewPipeline.UpdateAsWritten | src/app.py:96-131 | as written, the callback raises the zero-size error exactly for a known metric, transform minmax and a selected year with no rows; otherwise it equals `Update` |
| ViewPipeline.DistributionSizeIndependentOfTransform | src/app.py:110-124 | every transform draws as many histogram values as raw does |
| ViewPipeline.RawDistribution | src/app.py:103-124 | under raw, a value is drawn exactly when some row of the year has that finite metric value |
| ViewPipeline.MinMaxDistributionInUnitInterval | src/app.py:116-124 | under min-max, every histogram value lies in [0, 1] |
| ViewPipeline.AbsentYearEmptyView | src/app.py:103-131 | a year with no rows gives an empty histogram and an empty map under every transform |
| ViewPipeline.InitialRender | src/app.py:55-77 | after a successful start-up, the first render (default metric, slider at `max_year`, raw) succeeds and shows `max_year` |
| ViewPipeline.GapTableStartup | src/app.py:29-43 | start-up on the gap table succeeds with country `country`, year `year`, total `co2`, metrics [`co2`] and years 2000 to 2002 |
| ViewPipeline.GapColumns | src/app.py:29-36 | on the gap table the three guess lists detect `country`, `year` and `co2`, and the numeric columns are `year` and `co2` |
| ViewPipeline.GapYears | src/app.py:42-43 | the gap table's year range is 2000 to 2002 |
| ViewPipeline.GapMetrics | src/app.py:37-40 | with `co2` detected among the numeric columns `year` and `co2`, the metrics are [`co2`] |
| ViewPipeline.GapYearViews | src/app.py:96-131 | on the gap table's configuration, year 2001 under min-max: the callback as written raises, the corrected one draws empty charts |
| ViewPipeline.MinMaxOnGapYear | src/app.py:117 | after start-up on the gap table (which succeeds), a year missing between 2000 and 2002 under min-max: the code as written raises; the corrected callback draws empty charts |
| ViewPipeline.MinMaxThreeCountries | src/app.py:116-131 | for rows A=10, B=30, C=30 in 2000, min-max draws [0, 1, 1] and maps A to 0, B to 1 and C to 1 |
| ViewPipeline.ZScoreTenThirtyThirty | src/app.py:114-115 | for 10, 30, 30: mean 70/3, population variance 800/9, and A's z-score times the standard deviation is -40/3 |

## Left out

- Reading the CSV file and checking that it exists (src/app.py:24-27) are I/O. The table is an input value.
- The Dash layout, callback registration and `app.run` (src/app.py:45-95, src/app.py:143-146) are left out. Only the initial dropdown, slider and radio values feed `InitialRender`.
- The Plotly figures are left out: `px.histogram` with its 30 bins and titles, `px.choropleth` and its geo and layout settings (src/app.py:123-127, src/app.py:132-139). The model stops at the data handed to them.
- pandas dtype inference (`select_dtypes`) is not modelled. Whether a column is numeric is part of the input `Column` value.
- `pd.to_numeric` on a string and `int()` on a string are the `Parser` functions. Their parsing rules are not modelled.
- `np.log1p` and the square root inside `np.nanstd` are the `Numerics` functions. Only the clamp at zero is stated for log1p, plus order preservation when log1p is assumed monotone.
- Floating point is not modelled: values are exact reals. Rounding can make the float `sd` slightly positive for equal values; the model does not capture this, nor signed zeros or overflow to infinity in the arithmetic.
- Transforms.ZScoreStandardizes: assumes the square root is exact (sd * sd equals the variance). The float result only approximates mean 0 and variance 1.
- Transforms.ZScoreConstant: assumes the square root of 0 is 0.
- Transforms.Log1pKeepsOrder: assumes log1p is non-decreasing on the non-negative reals, since the logarithm itself is not modelled.
- A metric value that is not a string, such as None from a cleared dropdown, is not modelled. The dropdown is not clearable, and the metric is a `string`.
- Duplicate column names in the CSV are not modelled. A data column literally named `_metric_raw_` or `_metric_view_`, which the callback would overwrite in its copy of the rows, is not modelled either.
- `dff["_metric_raw_"]` (src/app.py:107) is never read again, so it has no part in the model.
- Idempotence of the callback holds by construction, because every model function is pure. No separate lemma states it.
- A row that lacks a column reads as a missing cell. Rows of a CSV always carry every column.

## Findings

| source | as written | input that shows it | evidently intended | confidence | as-written member | corrected member |
|---|---|---|---|---|---|---|
| src/app.py:117 | `np.nanmin(x)` and `np.nanmax(x)` run on the metric of the selected year even when no row has that year; on a zero-length series both raise ValueError, so the callback fails | rows for 2000 and 2002 only (`GapTable`), slider at 2001, transform minmax | empty histogram and map with no error, as under the other three transforms | medium, not executed | ViewPipeline.UpdateAsWritten (with ViewPipeline.MinMaxOnGapYear) | ViewPipeline.Update |
