# Vaccination trend analyser — a Dafny model

`analisador_vacinacao.py` is a one-page Streamlit report over a CSV of
vaccination counts by date (`data,vacinas,municipio`). It processes one upload
in this order:

1. It orders the rows by date.
2. If the file has a `municipio` column, it keeps only the rows of the
   municipality the user picks.
3. It annotates each row with its percent change from the previous row and
   its `YYYY-MM` month.
4. It lists the rows whose change is below -20% as significant drops, each
   with the count of the row dated just before it.
5. It fits an ordinary least-squares line of the count against the row
   position 0..n-1. It evaluates that line at n, n+1 and n+2 and dates those
   points 30, 60 and 90 days after the last observation.
6. It prints the forecasts truncated to integers.
7. It recommends intensifying campaigns exactly when there was a drop.

This project models that core as pure Dafny functions, in six modules:

| module | file | models |
|---|---|---|
| `Sequences` | `sequences.dfy` | boolean-mask selection (`data[mask]`): the kept rows in their original order |
| `Loader` | `loader.dfy` | date ordering (an insertion sort) and the municipality filter |
| `ChangeDetector` | `change_detector.dfy` | `pct_change() * 100`, the drop mask, the previous-row lookup and the drop list |
| `Arith` | `arith.dfy` | real-arithmetic steps used by the least-squares proofs |
| `Forecaster` | `forecaster.dfy` | the least-squares fit, the three forecast points and their integer display |
| `Analysis` | `analysis.dfy` | the whole run: the report and its recommendation, with a worked example |

Percent changes are exact reals. The float outcomes of a zero predecessor are
kept as values of their own: `+inf`, `-inf`, and `NaN` for 0/0. `NaN` also
stands in the first row. A negative count after a zero gives `-inf`, and the
source's comparison `-inf < -20` is true, so that row counts as a drop.

The fit is the closed form of the normal equations. When all positions
coincide, which happens only for a single observation, the slope is 0, as the
fitting library gives. An empty series cannot be fitted: the library raises,
and the model returns `Failure(EmptySeries)`. About the fit the model proves:

- it satisfies the normal equations;
- it is the least-squares line: no line has a smaller squared error;
- with two or more points it is the unique line whose residuals sum to zero
  and are orthogonal to the positions;
- data lying on a line are fitted by that line, so their forecasts continue
  the line.

Three behaviours of the code differ from what a reader might expect of such
a tool; the model follows the code:

- **Sorting.** One might expect a stable sort, keeping rows with equal dates
  in file order. The code uses pandas' default sort, which is not stable. So
  `Loader.SortByDate` promises only order and permutation.
  `Loader.SortedPermutationIsUnique` shows the result is determined when
  dates are distinct.
- **Zero predecessor.** One might expect a step from a zero count to be left
  out of drop detection. The code computes `±inf` or `NaN` and compares it
  with -20 like any other value. With non-negative counts no such step is a
  drop (`ChangeDetector.ZeroPredecessorIsNoDrop`). A negative count after a
  zero is one (`ChangeDetector.NegativeAfterZeroIsDrop`).
- **One observation.** One might expect an error below two observations, as
  a single point determines no trend. The code fits the flat line through the
  single observation (`Forecaster.FitLine`) and forecasts that value three
  times. It fails only on an empty series.

## Model

| member | source | states |
|---|---|---|
| Sequences.FilterIsSelection | analisador_vacinacao.py:29 | a boolean mask keeps exactly the rows at the positions where it holds, in increasing position order |
| Sequences.FilterOfPermutation | analisador_vacinacao.py:29 | masking a permutation of the rows gives a permutation of the masked rows |
| Loader.Insert | analisador_vacinacao.py:24 | inserting a row into date-ordered rows keeps them ordered and adds exactly that row |
| Loader.SortByDate | analisador_vacinacao.py:24 | the result is ordered by date and is a permutation of the input rows |
| Loader.SortedPermutationIsUnique | analisador_vacinacao.py:24 | when dates are distinct, the date-ordered permutation of the rows is unique |
| Loader.SortKeepsOrderedSeries | analisador_vacinacao.py:24 | sorting rows already in strictly increasing date order leaves them unchanged |
| Loader.Municipalities | analisador_vacinacao.py:28 | the choices offered are exactly the municipalities some row names |
| Loader.SelectMunicipality | analisador_vacinacao.py:27-29 | without a pick the rows are unchanged; with one, every kept row is a row of the file in that municipality, and every such row is kept |
| Loader.OfferedMunicipalityIsNonEmpty | analisador_vacinacao.py:28-29 | picking an offered municipality keeps at least one row |
| Loader.SelectKeepsOrder | analisador_vacinacao.py:29 | selecting a municipality from date-ordered rows keeps date order |
| Loader.Prepare | analisador_vacinacao.py:24-29 | the series analysed is date-ordered; every row of it is a row of the file, in the picked municipality when there is a pick, and every such row of the file is in it |
| Loader.PrepareIsSortedSelection | analisador_vacinacao.py:22-29 | the prepared series is date-ordered and is a permutation of the file, or of the file's rows in the picked municipality |
| ChangeDetector.PctChange | analisador_vacinacao.py:41 | for a non-zero predecessor the change is (cur - prev) / prev * 100, and prev * (1 + change / 100) gives cur back; for a zero predecessor it is non-finite: NaN iff cur is 0, -inf iff cur is negative |
| ChangeDetector.PandasRatio | analisador_vacinacao.py:41 | the computed cur / prev - 1 equals the relative change (cur - prev) / prev |
| ChangeDetector.IsDrop | analisador_vacinacao.py:45 | `< -20` as floats compare: NaN and +inf are never below -20, -inf always is, a finite change iff it is strictly below -20 |
| ChangeDetector.DropIsFallBelowFourFifths | analisador_vacinacao.py:45 | for a positive predecessor, a step is a drop iff the count falls below 80% of it |
| ChangeDetector.ZeroPredecessorIsNoDrop | analisador_vacinacao.py:41-45 | a non-negative count after a zero is never a drop |
| ChangeDetector.NegativeAfterZeroIsDrop | analisador_vacinacao.py:41-45 | every negative count after a zero gives -inf, which the mask counts as a drop |
| ChangeDetector.Annotate | analisador_vacinacao.py:41-42 | one annotated row per record, with the record and its month label; NaN change in the first row, the percent change from the previous row in every other |
| ChangeDetector.Drops | analisador_vacinacao.py:45 | every listed row is a drop row of the table, and every drop row of the table is listed |
| ChangeDetector.DropsOfSeries | analisador_vacinacao.py:41-45 | the drops are, in order, exactly the rows i > 0 whose step from row i - 1 is a drop |
| ChangeDetector.DropIffSharpFall | analisador_vacinacao.py:41-45 | with non-negative counts, row i is a drop iff i > 0, row i - 1 is positive and row i falls below 80% of it |
| ChangeDetector.PreviousRow | analisador_vacinacao.py:63 | a found row is a row of the table dated before the given date; none is found iff no row is dated before it |
| ChangeDetector.PreviousRowIsLastEarlier | analisador_vacinacao.py:63 | the found row is the last row dated before the given date |
| ChangeDetector.PreviousRowIsPredecessor | analisador_vacinacao.py:63 | with strictly increasing dates, the row found for row i is row i - 1, and none for row 0 |
| ChangeDetector.SharedDateHidesPredecessor | analisador_vacinacao.py:63-67 | when two rows share a date, the second can be a drop with no row dated before it, so its line shows no previous count |
| ChangeDetector.Magnitude | analisador_vacinacao.py:65 | `abs`: a finite change becomes the non-negative one of v and -v, both infinities become +inf, NaN stays NaN; so the magnitude of a drop is not itself a drop or NaN |
| ChangeDetector.FallMagnitude | analisador_vacinacao.py:65 | for a drop from a non-zero count, the magnitude shown is the fall (prev - cur) / prev * 100, which exceeds 20 |
| ChangeDetector.ReportLine | analisador_vacinacao.py:62-67 | a drop's line shows its month, the size of its change and its count; it has a previous count iff some row is dated before the drop, and that count is the count of such a row |
| ChangeDetector.DropReport | analisador_vacinacao.py:61-67 | one line per drop, in order; the k-th shows the k-th drop's month, size of change and count, and the count of the row `PreviousRow` finds for its date (the last row dated strictly earlier), or none |
| ChangeDetector.DropReportLine | analisador_vacinacao.py:62-67 | when dates strictly increase, the k-th line describes the k-th drop row i: its month, the magnitude of its change, the count of row i - 1 (none for row 0) and its own count |
| ChangeDetector.DropReportDescribesFall | analisador_vacinacao.py:61-67 | with increasing dates and non-negative counts, the k-th line names a row i > 0, its month, its fall from row i - 1 in percent (over 20), and both counts |
| Forecaster.SumIClosedForm | analisador_vacinacao.py:48 | the positions 0..n-1 sum to n(n-1)/2 |
| Forecaster.SumIIClosedForm | analisador_vacinacao.py:48 | the squared positions sum to (n-1)n(2n-1)/6 |
| Forecaster.SpreadSign | analisador_vacinacao.py:48-50 | the spread of the positions is zero for at most one observation and positive from two on |
| Forecaster.FitLine | analisador_vacinacao.py:48-50 | the least-squares fit of the counts against positions 0..n-1 (its properties are the rows below); a single observation is fitted by the flat line through it |
| Forecaster.NormalEquations | analisador_vacinacao.py:50 | the fitted line's residuals sum to zero and are orthogonal to the positions |
| Forecaster.SquaredErrorSplit | analisador_vacinacao.py:50 | the squared error of any line g equals that of f, plus twice the residual sums of f weighted by the difference g - f, plus the non-negative squared gap between the lines |
| Forecaster.FitIsLeastSquares | analisador_vacinacao.py:50 | no line has a smaller squared error than the fitted one |
| Forecaster.ZeroResidualsIsFit | analisador_vacinacao.py:50 | with two or more observations, any line whose residuals sum to zero and are orthogonal to the positions is the fitted line |
| Forecaster.FitReproducesLine | analisador_vacinacao.py:50 | observations lying on a line, two or more of them, are fitted by that line |
| Forecaster.Forecast | analisador_vacinacao.py:48-53 | fails iff the series is empty; otherwise three points, the k-th dated 30(k+1) days after the last observation, with the value at position n + k of the line fitted to the counts in row order |
| Forecaster.ForecastDatesFollowSeries | analisador_vacinacao.py:53 | forecast dates increase and come after every observed date |
| Forecaster.ForecastContinuesLine | analisador_vacinacao.py:48-53 | when two or more counts lie on a line, the forecasts continue that line |
| Forecaster.TenStepExample | analisador_vacinacao.py:48-52 | counts 10, 20, 30, 40 are forecast as 50, 60, 70 |
| Forecaster.TruncateTowardZero | analisador_vacinacao.py:74 | `int()` of a prediction: the integer between zero and the value that is less than one away from it |
| Forecaster.DisplayForecast | analisador_vacinacao.py:73-74 | one line per forecast point, with the month of its date and its prediction truncated toward zero |
| Analysis.Recommend | analisador_vacinacao.py:78-88 | exactly one of the two recommendation blocks: campaigns iff the drop list is non-empty, the current strategy iff it is empty |
| Analysis.RecommendationFollowsDrops | analisador_vacinacao.py:78-88 | campaigns are recommended iff some step of the series is a drop |
| Analysis.RecommendationFollowsFalls | analisador_vacinacao.py:78-88 | with non-negative counts, campaigns are recommended iff some count falls below 80% of a positive predecessor |
| Analysis.Analyze | analisador_vacinacao.py:22-88 | no report iff the prepared series is empty; otherwise the table is the prepared series annotated, the drop lines are its drop report, the three forecast lines are its forecast as displayed, and campaigns are recommended iff the drop list is non-empty, that is iff some step of the prepared series is a drop |
| Analysis.OfferedChoiceGivesReport | analisador_vacinacao.py:27-29 | a non-empty file with an offered municipality (or none to pick) always gives a report |
| Analysis.ExampleDrops | analisador_vacinacao.py:41-45 | in the series 100, 100, 70, 90 the one drop is the third row, at -30% |
| Analysis.ExampleDropLines | analisador_vacinacao.py:61-65 | that drop is shown as a 30% fall from 100 to 70 |
| Analysis.ExampleForecast | analisador_vacinacao.py:48-53 | the series is fitted by 99 - 6i, giving 75, 69 and 63 at 30-day steps |
| Analysis.ExampleForecastLines | analisador_vacinacao.py:73-74 | those forecasts are displayed as 75, 69 and 63 |
| Analysis.ExampleReport | analisador_vacinacao.py:22-88 | the report for 100, 100, 70, 90 (January to April 2024) has that drop line, those forecasts, and recommends campaigns |

## Left out

- The page itself is not modelled: configuration, titles, the upload widget,
  the municipality picker's rendering and the markdown blocks (lines 9-18 and
  55-60). The picked municipality is a parameter.
- The trend chart (lines 31-38) has no effect on the results.
- CSV reading and date parsing (lines 22-23) are not modelled. The input is
  already a sequence of parsed rows, with dates as day numbers. Parse errors
  and missing columns are out of scope.
- The calendar is not modelled. `strftime('%Y-%m')` is the parameter
  `monthOf`, and day numbers stand for dates.
- Floating point is not modelled: counts and changes are exact reals.
  Rounding in `pct_change` and in the least-squares solver is out of scope.
  Only the non-finite outcomes of a zero predecessor are kept.
- Text formatting is not modelled: the `.1f` rendering and the wording of the
  lines. Drop and forecast lines are data (`DropLine`, `ForecastLine`), and
  the two recommendation blocks are the two values of `Recommendation`.
- The CSV download (lines 90-96) is not modelled as a file: the report keeps
  the annotated rows it would contain, and byte encoding is out of scope.
- Empty `municipio` cells are not offered as a choice. In the source,
  `unique()` offers them as NaN, and picking NaN keeps no rows, since NaN
  never equals itself, so the fit then raises.
- A blank `vacinas` cell cannot be represented: counts are reals. In the
  source such a cell reads as NaN, and the fit of line 50 rejects NaN and
  raises, so no report is shown.
- Loader.SortByDate: does not say which of two rows with the same date comes
  first, because pandas' default sort is not stable.
- Forecaster.Forecast: models the exception the fitting library raises on an
  empty series as a `Failure` value.
