# COVID-19 patient dashboard: summary cards and per-region chart data

The dashboard (`app.py`) loads a table of patient records once at start-up.
It shows four summary cards: total cases, active cases (status
"Hospitalized"), recovered and deaths. Below them is a bar chart of patients
per region (`detected_state`), filtered by a dropdown whose value is "All",
"Hospitalized", "Recovered" or "Deceased". This project models the two pieces
of logic in that file and proves their properties:

- the card values (`app.py:13-16`): the row count, and the row counts of three
  boolean-mask selections on `current_status`;
- the data half of the `update_graph` callback (`app.py:108-116`): keep every
  row for "All", otherwise keep the rows whose status equals the dropdown
  value; then take pandas `value_counts()` of their `detected_state` column.

Modules:

- `Patients` (patients.dfy): the `Record` (status and region, each possibly
  missing), the `Table`, pandas' element-wise `==` on a cell (`CellEquals`),
  and mask selection (`Select`).
- `Cards` (cards.dfy): the four card values.
- `Aggregation` (value_counts.dfy): `Series.value_counts()` with its
  defaults. Missing values are dropped. Values are grouped in order of first
  occurrence (`Tally`), then stably sorted by count, largest first
  (`SortByCount`). `IsValueCounts` states what pandas promises of the result.
  Only that promise is proved, not this particular order among equal counts.
- `UpdateGraph` (update_graph.dfy): the rows the callback aggregates
  (`FilteredRows`), their region column (`DetectedState`) and the chart's
  (region, count) pairs (`BarData`). Each count is tied to an independent
  reference definition: the set of table positions holding a kept row of that
  region.
- `Scenarios` (scenarios.dfy): worked examples on a three-row table.

Where a stricter design would differ, the model follows the code:

- The callback never rejects a dropdown value. Any value other than "All" is
  compared by equality: an unknown label, a status absent from the table, or
  `None` from a cleared dropdown. When nothing matches, the chart data is
  empty and no error is raised.
- The chart's counts add up to the kept rows that HAVE a region, because
  `value_counts` drops missing values. They equal the matching card only when
  every such row has a region (`BarsWithinCard`).
- A missing status cell equals no dropdown value, and comparing with `None`
  is false for every row. `CellEquals` models both facts.

Every operation is a Dafny function, so two calls on the same table and the
same dropdown value give the same output.

## Model

| member | source | states |
|---|---|---|
| `Cards.SummaryCards` | app.py:13-16 | total is the number of rows. Active, recovered and deaths are the numbers of row positions whose status is exactly "Hospitalized", "Recovered" and "Deceased". Their sum is at most total. |
| `Cards.StatusCardsBounded` | app.py:14-16 | the three exact-match selections are disjoint, so their sizes add up to at most the row count |
| `Cards.EmptyTableCards` | app.py:13-16 | an empty table shows 0 on all four cards |
| `Patients.SelectExact` | app.py:112 | the mask selection holds every row whose status equals the value, with its multiplicity in the table, and no other row |
| `Patients.SelectSize` | app.py:14-16 | a selection's row count (`shape[0]`) is the number of table positions whose status equals the value |
| `Patients.SelectAppend` | app.py:112 | selection keeps table order: selecting from `a + b` is selecting from `a` followed by selecting from `b` |
| `Aggregation.ValueCounts` | app.py:110 | the result meets `IsValueCounts`: each present region exactly once, no absent region, each count equal to its number of occurrences, counts non-increasing. The counts add up to the non-missing cells. |
| `Aggregation.TallyCounts` | app.py:110 | grouping gives one pair per present value, with no label repeated, and counts every value's occurrences |
| `Aggregation.TallyTotal` | app.py:110 | every grouped count is at least 1, and the counts add up to the non-missing cells |
| `Aggregation.SortByCountPermutes` | app.py:110 | sorting by count is a permutation of the pairs and keeps the sum of the counts |
| `Aggregation.SortByCountSorts` | app.py:110 | sorting orders the pairs by non-increasing count |
| `Aggregation.SortByCountDistinct` | app.py:110 | sorting never repeats a label |
| `Aggregation.PresentIff` | app.py:110 | a value is in the result's labels exactly when some cell holds it, and exactly when it occurs at least once |
| `Aggregation.NothingPresent` | app.py:110 | nothing is present exactly when every cell is missing, exactly when no cell counts |
| `Aggregation.CountsPositive` | app.py:110 | every count in a result that meets the promise is at least 1 |
| `Aggregation.ValueCountsUnique` | app.py:110 | two results that meet the promise have the same length (the number of present values) and the same pairs. They differ only in the order of equal counts. |
| `Aggregation.ValueCountsEmpty` | app.py:110 | the result is empty exactly when every cell of the column is missing |
| `UpdateGraph.FilteredRowsExact` | app.py:109-112 | "All" uses the table unchanged. Any other value uses exactly the rows whose status equals it, with their multiplicities, and no other row. |
| `UpdateGraph.OccurrencesInTable` | app.py:109-113 | a region's count in the aggregated column equals the number of table positions holding a kept row of that region |
| `UpdateGraph.NonMissingInTable` | app.py:109-113 | the non-missing cells of the aggregated column equal the number of table positions holding a kept row that has a region |
| `UpdateGraph.BarDataSpec` | app.py:108-116 | the chart pairs have distinct regions and non-increasing counts. A region appears exactly when some kept row carries it. Each count equals the number of kept rows of that region and is at least 1. The counts add up to the kept rows that have a region. |
| `UpdateGraph.BarDataEmpty` | app.py:109-113 | the chart data is empty exactly when no kept row has a region |
| `UpdateGraph.NoMatchNoBars` | app.py:111-113 | a non-"All" value that matches no row gives empty chart data. So does a cleared dropdown (`None`). An empty table gives empty chart data for every value. |
| `UpdateGraph.ChartHasRegion` | app.py:109-113 | a region carried by some kept row is on the chart, with the number of such rows as its count |
| `UpdateGraph.KeptSubset` | app.py:109-112 | the rows of a region kept by a status filter are a subset of those kept by "All", so there are no more of them |
| `UpdateGraph.FilterNeverExceedsAll` | app.py:109-113 | every region on a status-filtered chart is on the "All" chart with a count at least as large |
| `UpdateGraph.BarsWithinCard` | app.py:112-113 | a status's chart counts add up to at most that status's selected rows. They add up to exactly that many when every such row has a region. |
| `Scenarios.ThreeRowsAll` | app.py:109-110 | on the three-row table, "All" gives [("MH", 2), ("KL", 1)] |
| `Scenarios.ThreeRowsHospitalized` | app.py:111-113 | on the three-row table, "Hospitalized" gives [("MH", 1)] |
| `Scenarios.ThreeRowsDeceased` | app.py:111-113 | on the three-row table, "Deceased" gives [("KL", 1)] |
| `Scenarios.ThreeRowsUnmatched` | app.py:111-113 | a label outside the dropdown's options gives an empty chart |
| `Scenarios.NoRecoveredRows` | app.py:111-113 | "Recovered" on a table without recovered rows gives an empty chart |
| `Scenarios.ThreeRowsCards` | app.py:13-16 | the three-row table shows the cards 3, 1, 1, 1 |

## Left out

- Loading the CSV file with `pd.read_csv` (`app.py:10`): file I/O and parsing are done by pandas. The table is a given `seq<Record>`. An empty CSV cell becomes `None`. Columns other than `current_status` and `detected_state` are not modelled, because no logic reads them.
- The Dash app, its Bootstrap theme and its layout tree (`app.py:19-103`) are user interface only. The dropdown's four options matter only as the values a user normally picks, and the model accepts any value.
- The callback registration with `@app.callback` (`app.py:107`) is the framework's event dispatch. `BarData` takes the dropdown value as a parameter.
- Renaming the columns to `detected_state` and `count` (`app.py:116`) is cosmetic. `StateCount(state, count)` stands for one row of the renamed frame.
- The Plotly figure and its title (`app.py:119-123`) are rendering only.
- The server start (`app.run_server()`, `app.py:127-128`) is networking and the process entry point.
- pandas' order among regions with equal counts: pandas does not fix it. The model fixes one order (first occurrence, then a stable sort). No property depends on that order beyond non-increasing counts, and `ValueCountsUnique` shows that any order meeting the promise holds the same pairs.
- Rejecting a dropdown value outside the four options: the source does not do this. The model follows the source, where such a value yields empty chart data.
- Type coercion by the CSV reader (for instance a region column read as numbers) is not modelled. Both columns are modelled as strings.
