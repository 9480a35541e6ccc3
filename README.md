# HR metrics dashboard: a verified model

`hr-metrics-automator` turns a monthly HR metrics table into charts and a
slide deck. Each row of the table holds one department in one month:

- headcount, new hires, terminations and open positions;
- days to fill a position;
- the offer-acceptance rate and the turnover rate, both in percent.

This project models two parts of the system and proves what they promise.

**The insight computation** (`build_insights`):

- The records are grouped by month. The four counts are summed per month and
  the three rates averaged.
- The months are sorted, earliest first.
- Month-over-month columns are derived. Headcount and new hires get a
  percentage change. Average turnover gets a difference.
- The last two rows become `latest` and `prior`.
- For the latest month, a department table is built. Headcount is summed and
  turnover and time-to-fill averaged. The table is sorted by headcount,
  largest first.
- From that table, the department with the highest turnover and the one with
  the shortest time-to-fill are picked. The insights slide additionally picks
  the department with the lowest headcount.

**The mock data generator**:

- It covers twelve months, February 2025 to January 2026, and six
  departments.
- Each row is drawn around a department baseline, with seasonal adjustments.
- Each field is clamped by `bounded` or floored by `max`, then rounded.
- Four seasonal lookups keyed by calendar month (`HiringBoost`, `TurnoverBump`,
  `TimeToFillCut`, `OfferDip`) are constant tables. Their effect on the
  generated rows is stated by month position in `SeasonalRules`.
- The random draws are parameters of the model. The bounds below therefore
  hold for every value the sampler could return.

Modules:

- `Wrappers`: `Option` and `Result`.
- `Sequences`: distinctness and element sets.
- `Calendar`: year-months and their `YYYY-MM` text.
- `Records`: CSV rows and loaded records.
- `Aggregation`: a group-by over any key, proved equal to a filter-then-sum
  reference.
- `DashboardReport`: `build_insights` and the slide picks.
- `MockData`: the generator.
- `Pipeline`: generated data fed into the report.

Rates are exact rationals (`real`). `pct_change` yields NaN when both values
are 0, and an infinity when only the previous value is 0. The model reflects
this with `Change = Undefined | Finite(value) | Infinite(positive)`.

## Model

| member | source | states |
|---|---|---|
| Calendar.Format | src/generate_mock_data.py:92 | `strftime("%Y-%m")`: seven characters with the dash at position 4 |
| Calendar.Parse | src/build_dashboard_report.py:23 | only four digits, a dash and two digits are accepted, and only for months 01-12 within the timestamp range; anything accepted is a representable month |
| Calendar.ParseFormat | src/build_dashboard_report.py:23 | parsing the text the generator writes gives back the same month |
| Calendar.FormatParse | src/build_dashboard_report.py:23 | every accepted text is exactly the rendering of the month it denotes |
| Calendar.FormatInjective | src/generate_mock_data.py:92 | different months are rendered differently |
| Records.Load | src/build_dashboard_report.py:22-24 | loading succeeds exactly when every month text parses; then record i is row i with its parsed month; otherwise the error names the first row that does not parse |
| Aggregation.Where | src/build_dashboard_report.py:50 | the boolean-mask filter keeps a record exactly when it has the given key, and is never longer than its input; it is empty exactly when the key does not occur |
| Aggregation.WhereCounts | src/build_dashboard_report.py:50 | every record with the key is kept as many times as it occurs in the input, and no other record is kept, so duplicated rows are summed twice |
| Aggregation.WhereConcat | src/build_dashboard_report.py:50 | the filter keeps input order: filtering a concatenation gives the filtered first part followed by the filtered second part |
| Aggregation.GroupBy | src/build_dashboard_report.py:29 | the groups are exactly the distinct keys of the records |
| Aggregation.GroupByIsSummary | src/build_dashboard_report.py:29-38 | each group is non-empty, and its totals equal the column sums and the record count over the records with that key |
| DashboardReport.SortedMonths | src/build_dashboard_report.py:39 | the distinct months, strictly ascending |
| DashboardReport.AggregateMonths | src/build_dashboard_report.py:28-40 | the grouped table has exactly as many rows as there are distinct months (the sorted month keys) |
| DashboardReport.WithChanges | src/build_dashboard_report.py:42-44 | adding the derived columns neither adds nor removes a row |
| DashboardReport.Monthly | src/build_dashboard_report.py:28-44 | the `monthly` table has exactly as many rows as there are distinct months |
| DashboardReport.MonthlyMonths | src/build_dashboard_report.py:28-40 | row `i` of the monthly table is the `i`-th distinct month, earliest first |
| DashboardReport.MonthlyOneRowPerMonth | src/build_dashboard_report.py:28-40 | the monthly table has exactly one row per distinct month of the input, and its rows are strictly ascending by month |
| DashboardReport.MonthlyAggregates | src/build_dashboard_report.py:31-37 | each monthly row sums headcount, hires, terminations and open positions, and averages time-to-fill, offer acceptance and turnover, over exactly that month's records |
| DashboardReport.PctChange | src/build_dashboard_report.py:42-43 | the percentage change is finite exactly when the previous value is non-zero; it is an infinity exactly when the previous value is 0 and the new one is not, positive exactly when the new value is; it is undefined (NaN) exactly for 0 then 0 |
| DashboardReport.PctChangeMeaning | src/build_dashboard_report.py:42-43 | a finite percentage change is the relative change times 100: `value * prev == (cur - prev) * 100` |
| DashboardReport.PctChangeExample | src/build_dashboard_report.py:42 | headcounts 100 then 110 give exactly 10 percent |
| DashboardReport.MonthlyChanges | src/build_dashboard_report.py:42-44 | adding the derived columns leaves the aggregated columns unchanged; row 0 has no change values; every later row carries the percentage change of headcount and of new hires from the previous row, and the current average turnover minus the previous one (`diff()`) |
| DashboardReport.DepartmentsIn | src/build_dashboard_report.py:51 | the group keys of the department group-by: each department present, once |
| DashboardReport.DepartmentGroups | src/build_dashboard_report.py:51-56 | row `i` of the department group-by is the `i`-th department present, so every department present has one row |
| DashboardReport.DepartmentGroupsTable | src/build_dashboard_report.py:49-56 | the department group-by has one row per department present, each summing headcount and averaging turnover and time-to-fill over that department's records |
| DashboardReport.SortByHeadcount | src/build_dashboard_report.py:57 | the rows are permuted (same multiset) into non-increasing headcount order |
| DashboardReport.SortKeepsDistinct | src/build_dashboard_report.py:57 | sorting does not make any department occur twice |
| DashboardReport.DeptLatest | src/build_dashboard_report.py:49-57 | `dept_latest` is a reordering (same multiset of rows) of the month's department groups, headcount non-increasing |
| DashboardReport.DeptLatestFacts | src/build_dashboard_report.py:49-58 | `dept_latest` holds exactly one row per department present in the month, aggregates only that month's records, and is ordered by headcount, non-increasing |
| DashboardReport.MaxBy | src/build_dashboard_report.py:60 | the first row after a descending sort is a row of the table whose score is at least every row's |
| DashboardReport.MinBy | src/build_dashboard_report.py:61 | the first row after an ascending sort is a row of the table whose score is at most every row's |
| DashboardReport.LatestAndPrior | src/build_dashboard_report.py:46-47 | in a table with one row per month, the last row is the latest month of the records, and the second-to-last is the latest month before it |
| DashboardReport.BuildInsights | src/build_dashboard_report.py:27-78 | fails exactly when there are fewer than two distinct months; otherwise `latest` and `prior` are the last two monthly rows (the latest month and the one before it), `dept_latest` is the latest month's non-empty department table, `top_turnover` has the highest turnover and `best_ttf` the lowest time-to-fill among its rows, and both are rows of it |
| DashboardReport.PickSlideDepartments | src/build_dashboard_report.py:187-190 | `risk_dept` has the highest turnover and `low_hc_dept` the lowest headcount of the department table, and both are rows of it |
| MockData.Bounded | src/generate_mock_data.py:8-9 | with `low <= high` the result lies in `[low, high]`; a value already in range is returned unchanged, one below `low` becomes `low`, one above `high` becomes `high`; with `high < low` the result is `low` |
| MockData.BoundedIdempotent | src/generate_mock_data.py:8-9 | clamping twice is the same as clamping once, for any bounds |
| MockData.RoundHalfEven | src/generate_mock_data.py:42 | Python's `round`: within one half of the argument, and even on a tie |
| MockData.RoundMonotone | src/generate_mock_data.py:42 | rounding never reverses the order of two numbers |
| MockData.RoundDigits | src/generate_mock_data.py:99-100 | `round(x, digits)` is at most half a unit of the last kept digit away from `x` |
| MockData.RoundAtLeast | src/generate_mock_data.py:42 | `round(max(floor, x))` is never below the floor, whatever `x` is, and is the floor when `x` is at most the floor |
| MockData.TurnoverPercentBounds | src/generate_mock_data.py:100 | a turnover fraction in [0.004, 0.05] becomes a two-decimal percentage in [0.4, 5.0] |
| MockData.OfferPercentBounds | src/generate_mock_data.py:99 | an offer-acceptance fraction in [0.62, 0.95] becomes a one-decimal percentage in [62, 95] |
| MockData.GeneratedMonth | src/generate_mock_data.py:15 | month `k` of the range is February 2025 plus `k` months |
| MockData.GeneratedMonthRepresentable | src/generate_mock_data.py:15 | the range runs from February 2025 to January 2026, all of it representable |
| MockData.GeneratedMonthsAscending | src/generate_mock_data.py:15 | the range is strictly ascending |
| MockData.DepartmentNamesDistinct | src/generate_mock_data.py:16 | the six department names are pairwise different |
| MockData.SeasonsByIndex | src/generate_mock_data.py:37-85 | for month `k` of the range (0 is February 2025), the hiring multiplier is 1.2 exactly for `k` in {1, 2, 7, 8}, else 0.8; the turnover bump is 0.002 exactly for `k` in {5, 6}; the time-to-fill cut is one day exactly for `k` in {8, 9}; the offer dip is 0.015 exactly for `k` in {4, 5} |
| MockData.HeadcountDraw | src/generate_mock_data.py:41-42 | headcount is at least 8 for every draw |
| MockData.HiresDraw | src/generate_mock_data.py:44-45 | new hires are never negative |
| MockData.TurnoverDraw | src/generate_mock_data.py:56-60 | before conversion to percent, the turnover rate lies in [0.004, 0.05] for every draw and bump |
| MockData.TerminationsDraw | src/generate_mock_data.py:62 | terminations are never negative |
| MockData.OpenPositionsDraw | src/generate_mock_data.py:63 | open positions are never negative |
| MockData.TimeToFillDraw | src/generate_mock_data.py:73 | time-to-fill is at least 15 days |
| MockData.OfferDraw | src/generate_mock_data.py:75-88 | before conversion to percent, the offer-acceptance rate lies in [0.62, 0.95] for every draw and dip |
| MockData.SeasonalDirections | src/generate_mock_data.py:38-85 | with everything else equal, the hiring boost never lowers new hires, the turnover bump never lowers turnover, the time-to-fill cut never raises time-to-fill and the offer dip never raises offer acceptance |
| MockData.MakeRow | src/generate_mock_data.py:90-102 | a row's `month` is the `YYYY-MM` rendering of its month, and its `department` is the department's name |
| MockData.SeasonalRules | src/generate_mock_data.py:36-102 | the row of month `k` is fixed by `k` alone, not by calendar lookups: the hires use multiplier 1.2 exactly for `k` in {1, 2, 7, 8}, turnover (and through it terminations) carries +0.002 before clamping exactly for `k` in {5, 6}, time-to-fill carries -1 exactly for `k` in {8, 9}, offer acceptance carries -0.015 before clamping exactly for `k` in {4, 5}; open positions follow the row's own new hires |
| MockData.MakeRowBounds | src/generate_mock_data.py:41-100 | every row has headcount at least 8; hires, terminations and open positions at least 0; time-to-fill at least 15; turnover in [0.4, 5.0]; offer acceptance in [62, 95] |
| MockData.GeneratedRows | src/generate_mock_data.py:36-102 | the table has one row per draw, 72 for twelve months by six departments |
| MockData.GeneratedRowsBounds | src/generate_mock_data.py:36-102 | every generated row respects those floors and clamps |
| MockData.Generate | src/generate_mock_data.py:36-102 | the nested loops produce 72 rows, row `k * 6 + d` from month `k` and department `d`, each within the floors and clamps |
| MockData.GeneratedRowAt | src/generate_mock_data.py:37-40 | month-major order: row `k * 6 + d` carries month `k` and department `d` |
| MockData.GeneratedSeasons | src/generate_mock_data.py:36-102 | row `k * 6 + d` of the generated table, with draw `k * 6 + d`, obeys the seasonal rules of month `k` for department `d` |
| MockData.GeneratedKeysDistinct | src/generate_mock_data.py:37-40 | no (month, department) pair occurs twice |
| Pipeline.GeneratedRowsLoad | src/build_dashboard_report.py:23 | the generated table always loads, and each record keeps its generated month |
| Pipeline.GeneratedLayoutMonths | src/generate_mock_data.py:15 | the months of the generated data end with December 2025 and January 2026, with none after January |
| Pipeline.MonthlyEndsDecemberJanuary | src/build_dashboard_report.py:28-40 | the monthly table of such data ends with December 2025 and January 2026 |
| Pipeline.InsightsFromMonthly | src/build_dashboard_report.py:46-47 | with at least two monthly rows, the insights succeed, with `latest` and `prior` the last two rows |
| Pipeline.ReportOnGeneratedData | src/build_dashboard_report.py:46-47 | for every possible draw, the report on generated data succeeds and compares January 2026 with December 2025 |

## Left out

- Chart rendering (matplotlib), slide composition (python-pptx), the text wrapping of the summary, and `datetime.now()`: drawing, layout, a library text wrapper and the wall clock, with no logic to state.
- File input and output: the existence check, `read_csv`, `to_csv`, `mkdir`, `write_text`, and the prints. The model starts from the rows as a sequence and ends with the generated rows as a sequence.
- The executive summary and the slide bullets as text: their float formatting (`:+.1f`, `:.2f`) and `strftime('%b %Y')`. `Insights` holds every value that the summary interpolates.
- Floating point: rates, means and percentage changes are exact rationals. Python's `round` is modelled as exact round-half-even on those rationals, not on the binary double.
- The random sampler (`np.random.seed`, `normal`, `uniform`): each row's eight draws are a `Draws` parameter. The distributions are not modelled. In particular, the open-positions factor is not restricted to [1.1, 2.2), and no bound depends on it.
- `pd.to_datetime` accepts many date layouts. `Calendar.Parse` accepts only the `YYYY-MM` layout that the generator writes. Text that pandas would accept in another layout is a load failure in the model.
- Numeric parsing of the CSV columns, and missing values: records carry integers and rationals directly.
- DashboardReport.DepartmentsIn: groups come in order of first appearance, not in pandas' alphabetical key order. The group order is the input order of the headcount sort, so on equal headcounts it decides the order of `dept_latest`, and through it which department `top_turnover`, `best_ttf` and `low_hc_dept` name when scores tie. The model can then name a different department than pandas; no contract states how ties are broken.
- DashboardReport.SortByHeadcount: the model sorts stably. pandas' default quicksort need not be stable. The contract does not state how ties are ordered, and neither do the contracts of `MaxBy`, `MinBy`, `BuildInsights` or `PickSlideDepartments`.
- DashboardReport.PctChange: modelled for non-missing (non-NaN) values only. Missing values in the input columns are out of scope, as above.
- MockData.RoundDigits: the contract bounds the distance to the argument; it does not state that the result has at most `digits` decimals, though the definition divides an integer by `10^digits`.
