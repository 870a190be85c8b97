# Customer Analysis Dashboard — data pipeline model

The dashboard (`main.py`) loads a customer table, lets the analyst narrow it
with four sidebar widgets (regions, marital statuses, an age range and a
salary range), and redraws KPIs and charts from the filtered rows on every
rerun. The only logic the program owns is that pipeline, and this project
models it with immutable datatypes and pure functions:

- `Customers` — a customer row (REGION, MARITAL_STATUS, AGE, SALARY,
  BUY_INSURANCE and one categorical `group` column standing for the predictor
  the stacked bar chart is drawn for), an inclusive slider `Range`, the
  `Selection` the widgets produce, and the widgets' initial values.
- `Filtering` — `data[mask]` with the mask being the conjunction of `isin` on
  REGION and MARITAL_STATUS and inclusive `between` on AGE and SALARY.
- `Kpi` — `value_counts`, `value_counts(normalize=True)` and the
  "Insurance Purchased Percentage" KPI.
- `Ordering` — Python's string order, which `groupby` sorts its keys by.
- `CrossTab` — `groupby([x, 'BUY_INSURANCE']).size()` as a key-sorted table
  of counts, the within-group normalisation to percentages, and the
  conservation facts that make every stacked bar reach 100%.
- `Fractions` — the exact-arithmetic facts about shares the percentages use.
- `Dashboard` — one rerun: filter, then KPI and stacked-bar data.

Percentages are exact `real` numbers; AGE and SALARY are integers; a
categorical value is a `string`. The default selection of an empty table does
not exist (`Option.None`): `int(data['AGE'].min())` is `int(NaN)` there, which
raises, so the program cannot start on an empty file.

## Model

| member | source | states |
|---|---|---|
| Customers.Selection.Accepts | main.py:23-26 | a row passes the mask exactly when its REGION and MARITAL_STATUS are among the selected values and its AGE and SALARY lie within the slider handles, both ends included |
| Customers.Min | main.py:18-19 | `Series.min()` of a non-empty column is at most every value of the column |
| Customers.Max | main.py:18-19 | `Series.max()` of a non-empty column is at least every value of the column |
| Customers.Regions | main.py:16 | `unique()` of REGION lists every region some row has |
| Customers.Statuses | main.py:17 | `unique()` of MARITAL_STATUS lists every status some row has |
| Customers.Observed | main.py:18-19 | the slider's initial `(min, max)` pair contains every value of the column |
| Customers.DefaultSelection | main.py:16-19 | there is a default exactly when the table is non-empty, and it accepts every row of the table |
| Customers.DefaultSelectionIsObserved | main.py:16-19 | the default regions and statuses are only values that occur, and both ends of each default range are observed values |
| Customers.UniqueValuesOccur | main.py:16-17 | the default region and status options are only values some row has |
| Customers.ExtremesAttained | main.py:18-19 | the column minimum and maximum that seed the sliders are values of the column |
| Customers.ObservedIsTightest | main.py:18-19 | any range holding every value of a column holds the slider's initial range |
| Customers.DefaultIsTightest | main.py:16-19 | any selection accepting every row is at least as wide, in each of its four components, as the widgets' initial values: the default is the tightest selection that shows the whole table |
| Customers.WithinIsInclusion | main.py:25-26 | one slider range lies within another exactly when every value the first accepts the second accepts too |
| Filtering.Filter | main.py:22-27 | the filtered table is no longer than the table and holds a row exactly when the table holds it and all four predicates accept it |
| Filtering.FilterCounts | main.py:22-27 | no row is created, duplicated or altered: an accepted row is kept exactly as often as the table holds it, a rejected row never |
| Filtering.KeptPositions | main.py:22-27 | the positions where the mask holds are strictly increasing valid positions of accepted rows |
| Filtering.KeptPositionsComplete | main.py:22-27 | every position whose row the selection accepts is among the mask's positions |
| Filtering.FilterSelectsMaskedRows | main.py:22-27 | the k-th filtered row is the row at the k-th accepted position: the result is the order-preserving subsequence of accepted rows |
| Filtering.FilterAcceptingAll | main.py:22-27 | a selection that accepts every row returns the table unchanged |
| Filtering.FilterMonotone | main.py:22-27 | widening any of the four components never removes a row: the narrow result is the narrow filter of the wide result, no longer than it and contained in it as a multiset |
| Filtering.FilterIdempotent | main.py:22-27 | filtering the filtered table again with the same selection changes nothing |
| Filtering.DisjointRangeEmpties | main.py:25-26 | an age or salary range no row falls into, such as one below the observed minimum, leaves an empty table |
| Filtering.InvertedRangeEmpties | main.py:25-26 | a range whose low end exceeds its high end leaves an empty table |
| Filtering.DefaultSelectionKeepsAll | main.py:16-27 | with the widgets at their initial values the filtered table is the whole table, in order |
| Filtering.OneRegionOf | main.py:22-27 | replacing the regions of a selection that accepts every row by one region keeps exactly that region's rows, as many as the table has |
| Filtering.SingleRegion | main.py:16-27 | selecting one region with the other widgets at their defaults keeps exactly the rows of that region, and as many as the table has |
| Kpi.Responses | main.py:62 | the BUY_INSURANCE column has one entry per row, in row order, holding that row's response |
| Kpi.ValueCounts | main.py:62 | a value has an entry exactly when it occurs in the column, and the entry is its number of occurrences |
| Kpi.Frequencies | main.py:62 | a value has a frequency exactly when it occurs, the frequency is its occurrences over the column length, and it lies in (0, 1] |
| Kpi.YesShare | main.py:62 | "Yes" has a frequency exactly when some row bought, and then it is the buyers' share of the rows |
| Kpi.YesFrequency | main.py:62 | `.get('Yes', 0)` on the normalised counts lies in [0, 1], is 0 when nobody bought, and otherwise is the buyers over the rows |
| Kpi.PurchasePercentage | main.py:62 | the KPI lies in [0, 100], is 0 when no row has "Yes" (including the empty table), and otherwise is 100 times the buyers over the rows |
| Kpi.FullPurchase | main.py:62 | the KPI is 100 exactly when the table is non-empty and every row has "Yes" |
| Ordering.StrLess | main.py:224 | Python's `str` comparison that `groupby` sorts keys by: lexicographic by character, a proper prefix first; its partners StrLessIrreflexive, StrLessTotal and StrLessTransitive make it a strict total order |
| Ordering.StrLessTotal | main.py:224 | any two different group or outcome strings are ordered one way or the other, as Python compares them |
| Ordering.StrLessTransitive | main.py:224 | the string order is transitive |
| CrossTab.Bump | main.py:224 | counting one more row keeps the table key-sorted, adds its key to the keys, raises that key's count by one and leaves every other count alone |
| CrossTab.Tabulate | main.py:224 | the grouped table is strictly sorted by key, has no empty cell, and looking up any key gives the number of rows with that (group, outcome) pair |
| CrossTab.SortedStrict | main.py:224 | a key-sorted grouped table lists each (group, outcome) pair once and never a later key before an earlier one |
| CrossTab.TabulateCells | main.py:224 | a pair has a cell exactly when some row has it, and each cell's count is its pair's row count |
| CrossTab.GroupTotal | main.py:225 | `transform('sum')` over the counts of a group; its partner TabulateConserves equates it with the number of rows in that group |
| CrossTab.TabulateConserves | main.py:224-225 | the cells of a group add up to the number of rows in that group |
| CrossTab.Normalise | main.py:225-226 | one bar per cell, with the same key and count, and each percentage lies in (0, 100] |
| CrossTab.PercentagesSumTo100 | main.py:225-226 | within every group that has cells, the percentages add up to exactly 100 |
| CrossTab.StackedBars | main.py:224-226 | the bars are sorted by key, each count is its pair's row count and at least 1, and each percentage is that count over the group's row count, times 100 |
| CrossTab.StackedBarsCover | main.py:224-226 | every (group, outcome) pair some row has gets a bar |
| CrossTab.StackedBarsSumTo100 | main.py:224-226 | for every group value some row has, its bar's percentages add up to exactly 100 |
| Dashboard.Render | main.py:22-226 | the filtered table holds exactly the accepted rows, the KPI is in [0, 100], an empty filtered table gives a 0 KPI and no bars, and every bar's key occurs in the filtered table |
| Dashboard.RenderShowsEveryPair | main.py:22-226 | every (group, outcome) pair of the filtered table has a bar in the chart data |

## Left out

- Page configuration, markdown and CSS, sidebar widget construction, layout columns, the "Show Filtered Data" checkbox and `st.dataframe` (main.py:6, 12-19, 29-55): framework plumbing; only the selection values the widgets produce are modelled, as a `Selection` parameter.
- How the slider widget itself treats a reversed or degenerate pair of handles: that is the widget library's behaviour, not visible here; the filter accepts any pair, and a reversed one empties the result.
- Loading the CSV with `pd.read_csv` (main.py:9): I/O and an external parser; the table is a parameter.
- The Average LTV, Average Salary and Average Credit Balance KPIs (main.py:58, 65, 70) and the currency and percent formatting of all KPIs: floating-point means that are NaN on an empty table, and presentation.
- Every Plotly chart (main.py:82-207, 229-276): pies, the 50-bin histogram, box and scatter plots, axis layout; their binning and rendering belong to the charting library.
- Label prettifying with `.replace("_", " ").title()`: cosmetic, and depends on Python's `str.title`.
- Missing values: pandas drops NaN keys in `groupby` and `value_counts`, and `int()` truncates a float minimum or maximum for the sliders; the model assumes integer AGE and SALARY and no missing categorical values. Under that assumption the number of non-missing BUY_INSURANCE values that `value_counts(normalize=True)` divides by is the number of rows, which is what `Kpi.Frequencies` divides by.
- Floating-point rounding of percentages: exact reals are used, so the group sums are exactly 100 rather than 100 up to rounding.
- Which column `group` holds is chosen by a select box (main.py:218-221); the model takes the chosen column's value as a field of the row.
- Numeric predictor columns: `group` is always a string compared as Python compares strings, but a column pandas reads as numbers (HAS_CHILDREN as 0/1, say) is sorted numerically by `groupby`. The two orders agree when every value is a single character. This affects only the key order of the grouped table (`CrossTab.Tabulate`'s sortedness), not its counts or percentages.
