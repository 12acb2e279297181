# FYPWS dashboard callbacks in Dafny

A model of the callbacks behind the FYPWS Dash dashboard, which covers poverty, income and GDP.
The model covers:

- **GDP per capita forecast** (`forecast.py`, module `GdpForecast`). The `update_forecast` callback:
  - guards on the submit-button click count and the country dropdown;
  - takes the country's rows, keeps the years 1950 to 2018 and drops the zero values, with a message for each empty stage;
  - fits ARIMA on each of the 27 orders of `{0,1,2}^3` in `itertools.product` order, skipping every fit that raises;
  - picks the order with the lowest AIC. The sort is stable, so on a tie the earliest order wins;
  - refits that order and projects ten years;
  - turns the exceptions it models into the error message: the IndexError when no order fits, and any exception a fit or forecast raises.

  `SearchOrders` keeps the source's loop. `UpdateForecast` is the callback as a method, proved equal to `ForecastSpec`.
- **Income inequality forecast** (`incomeforecast.py`, module `IncomeForecast`). The `update_inc_forecast` callback:
  - uses the same guards and messages;
  - has no year window;
  - fits one degree-2 polynomial regression and predicts the ten following years.
- **Shared forecast parts** (module `Forecasting`): the messages, the projected years and the forecast table.
- **Home page bar chart** (`home.py`, module `Home`): the top ten countries by the selected metric, among rows whose six raw indicators are all positive.
- **Bottom-ten chart** (`home_callback.py`, module `HomeCallback`): the bottom ten countries, among rows whose five raw indicators are positive. The Poverty Index is not tested.
- **Ranking** (module `Indicators`): the "sort by metric, keep the first k" step that both charts share.
- **Router and graph callback** (`app.py`, module `App`):
  - `display_page` and `update_graph_callback`;
  - the sidebar's links (`sidebar.py`), compared with the router.
- **MPI map page** (`mpi_map.py`, module `MpiMap`):
  - the dependent region dropdown;
  - the rows, columns, title and projection the map is drawn from.
- **Shared table operations** (module `Tables`): `df[mask]` as `Keep`, and dropdown truthiness.

The fitting libraries are oracles passed in as functions: statsmodels ARIMA and scikit-learn `LinearRegression`. Each call either returns or raises with a message (`Fit`). Tables are sequences of rows. Dropdown values are `Option<string>`, where `None` and `""` are falsy. The click count is a `nat`, where 0 is falsy.

## Model

| member | source | states |
|---|---|---|
| Tables.Keep | FYPWS/demo/forecast.py:48-55 | A mask keeps exactly the rows of the table that satisfy it, and never more rows than the table has |
| Tables.KeepCounts | FYPWS/demo/forecast.py:48-55 | A kept row keeps its multiplicity; a dropped row does not occur |
| Tables.KeepAppend | FYPWS/demo/forecast.py:48-55 | Masking preserves row order: it distributes over concatenation |
| Tables.KeepKeep | FYPWS/demo/forecast.py:48-55 | Two successive masks equal the single mask of their conjunction |
| Tables.KeepEverything | FYPWS/demo/mpi_map.py:89-93 | A mask true on every row returns the table unchanged |
| Forecasting.Message | FYPWS/demo/forecast.py:46-116 | Exactly the non-chart answers carry a text; only the blank answer is the empty string |
| Forecasting.MessagesDistinct | FYPWS/demo/forecast.py:51-58 | The "no data" and "no valid data" messages differ for every pair of countries |
| Forecasting.LastYear | FYPWS/demo/forecast.py:82 | `index[-1]` is the Year of the final row in row order, not the largest Year, and that row is in the series |
| Forecasting.ProjectedYears | FYPWS/demo/forecast.py:82 | Ten contiguous years starting after the last year; a year is in the list iff it lies in (last, last+10] |
| Forecasting.ForecastTable | FYPWS/demo/forecast.py:81-84 | Ten rows; row i pairs projected year i with predicted value i |
| Forecasting.Years | FYPWS/demo/forecast.py:81-84 | Reads back the Year column of a forecast table |
| Forecasting.ForecastTableRoundTrip | FYPWS/demo/forecast.py:81-84 | Reading back a forecast table gives the projected years and the prediction it was built from |
| GdpForecast.ToSeries | FYPWS/demo/forecast.py:54-60 | The series has one (Year, GDP) pair per row, in row order |
| GdpForecast.Prepare | FYPWS/demo/forecast.py:48-58 | "No data" iff no row is in the country and window. "No valid data" iff such rows exist and all are zero. Otherwise the series is non-empty and holds exactly the usable rows, in order |
| GdpForecast.LexLessByRank | FYPWS/demo/forecast.py:64-65 | On {0,1,2}^3, lexicographic order coincides with the base-3 position |
| GdpForecast.Grid | FYPWS/demo/forecast.py:64-65 | The product grid has 27 orders |
| GdpForecast.GridRanks | FYPWS/demo/forecast.py:64-65 | Position i of the grid holds the in-range order of rank i |
| GdpForecast.GridComplete | FYPWS/demo/forecast.py:64-65 | The grid runs from (0,0,0) to (2,2,2) and contains every order in range |
| GdpForecast.GridIncreasing | FYPWS/demo/forecast.py:64-65 | The grid is strictly increasing in lexicographic order |
| GdpForecast.Successes | FYPWS/demo/forecast.py:66-74 | Each recorded pair is a candidate whose fit returned that AIC, and every candidate that fitted is recorded |
| GdpForecast.SuccessesSnoc | FYPWS/demo/forecast.py:68-74 | One more loop step appends the candidate's pair iff its fit returns |
| GdpForecast.SuccessesOrdered | FYPWS/demo/forecast.py:68-74 | Visiting increasing candidates keeps the recorded orders increasing |
| GdpForecast.SearchOrders | FYPWS/demo/forecast.py:66-74 | The loop over `pdq` builds exactly the successes over the whole grid, skipping failed fits |
| GdpForecast.InsertByAic | FYPWS/demo/forecast.py:76 | Insertion is a permutation, and an element ties ahead of equal keys already sorted |
| GdpForecast.SortByAic | FYPWS/demo/forecast.py:76 | The sort is a permutation of its input |
| GdpForecast.PrependAicSorted | FYPWS/demo/forecast.py:76 | A pair whose AIC is no larger than any in a sorted list may head it |
| GdpForecast.HeadIsLeast | FYPWS/demo/forecast.py:76 | The head of an AIC-sorted list has the smallest AIC in it |
| GdpForecast.InsertByAicSorted | FYPWS/demo/forecast.py:76 | Inserting into an AIC-sorted list keeps it sorted by AIC |
| GdpForecast.SortByAicSorted | FYPWS/demo/forecast.py:76 | The result of `sorted(aic_values, key=...)` is in non-decreasing order of AIC |
| GdpForecast.EarliestMin | FYPWS/demo/forecast.py:76 | The index of a minimal AIC, strictly below every earlier AIC |
| GdpForecast.SortedHeadIsEarliestMin | FYPWS/demo/forecast.py:76 | The head of the stable sort is the earliest minimal-AIC pair |
| GdpForecast.BestOrder | FYPWS/demo/forecast.py:76 | Raises "list index out of range" iff no fit succeeded; otherwise returns the earliest minimal-AIC order |
| GdpForecast.FitAndProject | FYPWS/demo/forecast.py:62-116 | A chart's model is the best order, its history is the series, and its forecast is the refit's projection. A failure carries the IndexError text or the refit's exception |
| GdpForecast.ForecastSpec | FYPWS/demo/forecast.py:45-116 | Blank iff no click or no country. The two messages occur iff preparation finds no rows or only zero values. Otherwise the answer is the fit-and-project outcome on the prepared series |
| GdpForecast.UpdateForecast | FYPWS/demo/forecast.py:45-116 | The callback, as a method with the search loop, gives exactly the answer `ForecastSpec` describes |
| GdpForecast.EarlierInIncreasing | FYPWS/demo/forecast.py:64-76 | In the increasing grid order, a lexicographically smaller order sits earlier |
| GdpForecast.BestOrderIsEarliestMinimum | FYPWS/demo/forecast.py:64-76 | The chosen order is in the grid and fitted, its AIC is no larger than any fitted order's, and it is strictly smaller than every earlier order's |
| GdpForecast.ChosenOrderIsEarliestMinimum | FYPWS/demo/forecast.py:45-84 | A chart's model is the earliest minimum-AIC order among those that fitted the prepared series |
| GdpForecast.NoSuccessIffAllRaise | FYPWS/demo/forecast.py:66-76 | `aic_values` is empty iff all 27 fits raise |
| GdpForecast.FitAndProjectOutcomes | FYPWS/demo/forecast.py:62-116 | If all fits raise, the answer is the IndexError message. If one fits, the answer is the chart of a fitted order or that order's refit error |
| GdpForecast.NoViableOrder | FYPWS/demo/forecast.py:62-116 | On a prepared series where nothing fits, the page shows the IndexError message |
| GdpForecast.ForecastCoversHorizon | FYPWS/demo/forecast.py:77-84 | A chart's table has ten rows, for the ten years after the last retained Year, each with the refit's value for it |
| IncomeForecast.ToSeries | FYPWS/demo/incomeforecast.py:52-53 | One (Year, Value) pair per row, in row order |
| IncomeForecast.Prepare | FYPWS/demo/incomeforecast.py:48-57 | "No data" iff the country has no row. "No valid data" iff all its values are zero. Otherwise the series holds exactly its non-zero rows, in order |
| IncomeForecast.FitAndProject | FYPWS/demo/incomeforecast.py:59-113 | A chart uses degree 2 and the series as history, with the regression's predictions for the ten projected years. Otherwise the answer carries the regression's exception |
| IncomeForecast.UpdateIncForecast | FYPWS/demo/incomeforecast.py:45-113 | Blank iff no click or no country. The two messages occur iff the country has no rows or only zero values. Otherwise the answer is the fit-and-project outcome |
| IncomeForecast.IncomeForecastCoversHorizon | FYPWS/demo/incomeforecast.py:73-81 | A chart's table covers exactly the ten years after the last non-zero row's Year, each with the value the regression predicted for it |
| Indicators.PrependOrdered | FYPWS/demo/home.py:53 | A row that may precede all rows of an ordered list may head it |
| Indicators.Insert | FYPWS/demo/home.py:53 | Insertion keeps the list ordered by the metric and is a permutation plus the new row |
| Indicators.Sort | FYPWS/demo/home.py:53 | The sort is ordered by the metric in the requested direction and is a permutation of the input |
| Indicators.PrefixPrecedesRest | FYPWS/demo/home.py:53 | In an ordered list, every row kept by `head(n)` may precede every row after it |
| Indicators.LeftOut | FYPWS/demo/home.py:53 | The rows `head(n)` leaves out are exactly the rest of the sorted list |
| Indicators.Rank | FYPWS/demo/home.py:53 | `sort_values(...).head(k)`: min(k, n) rows in metric order, drawn from the input, with no omitted row ranking ahead of a kept one |
| Home.UpdateGraph | FYPWS/demo/home.py:43-53 | The top ten rows by the metric, descending, among rows whose six raw columns are positive |
| HomeCallback.UpdateGraph | FYPWS/demo/home_callback.py:18-27 | The bottom ten rows by the metric, ascending, among rows whose five raw columns other than the Poverty Index are positive |
| HomeCallback.PovertyIndexNotTested | FYPWS/demo/home_callback.py:20-24 | Whether a row qualifies does not depend on its Poverty Index |
| App.DisplayPage | FYPWS/demo/app.py:39-53 | A non-home page is returned only for its exact path, and every exact page path routes to its page |
| App.RoutingRoundTrip | FYPWS/demo/app.py:39-53 | Routing inverts the page paths; the root "/" shows home |
| App.RoutingInjective | FYPWS/demo/app.py:39-53 | Two paths that reach the same non-home page are equal |
| App.RoutingIsExact | FYPWS/demo/app.py:39-53 | A trailing slash, a change of case, "/" and a missing path all fall through to home |
| App.SidebarMatchesRouter | FYPWS/demo/sidebar.py:10-16 | Every sidebar link routes to the page its label names, and every page has a link |
| App.UpdateGraphCallback | FYPWS/demo/app.py:60-61 | The home chart is home.py's top-ten ranking |
| MpiMap.FirstIndex | FYPWS/demo/mpi_map.py:76 | The position of a value's first occurrence |
| MpiMap.FirstIndexPrefix | FYPWS/demo/mpi_map.py:76 | A first occurrence is unchanged by what follows it |
| MpiMap.Unique | FYPWS/demo/mpi_map.py:76 | `unique()` has the same values as its input, none twice, in order of first appearance |
| MpiMap.Regions | FYPWS/demo/mpi_map.py:76 | The region column, row by row |
| MpiMap.Values | FYPWS/demo/mpi_map.py:76 | The values of a list of options |
| MpiMap.UpdateSubnationalOptions | FYPWS/demo/mpi_map.py:73-79 | No options without a selected country. Otherwise the options are the distinct regions of that country's rows in first-appearance order, each labelled with its own value |
| MpiMap.SubnationalOptionsAreTheCountrysRegions | FYPWS/demo/mpi_map.py:73-79 | A region is offered iff some row of the country names it, and no region is offered twice |
| MpiMap.MapRows | FYPWS/demo/mpi_map.py:89-93 | The two optional filters in sequence keep exactly the rows matching every selection made |
| MpiMap.MapRowsWithoutCountry | FYPWS/demo/mpi_map.py:89-93 | With no country, no region selection shows the whole table, and a region selects that region's rows in every country |
| MpiMap.UpdateMap | FYPWS/demo/mpi_map.py:88-117 | A map is drawn iff the map type is 'urban' or 'rural'; otherwise `size_col` is unbound. A drawn map shows exactly the selected rows, uses one column for size and colour, has the title "<column> by Country and Region", and takes the chosen projection |

## Left out

- Figures are not modelled: matplotlib and plotly figures, their PNG/base64 encoding, the markdown table, axis labels, colours, styles and chart titles. The model returns the data each figure is drawn from.
- Page layouts and their dropdown option lists are not modelled. This includes the country lists built with `unique()` at import time.
- Reading the CSV files is not modelled. Tables are parameters.
- Fitting and prediction numerics are oracles: ARIMA, AIC, `get_forecast`, `PolynomialFeatures` and `LinearRegression`. The model does not compute them.
- Floating point is not modelled: values are `real`, so NaN is not represented, and the zero test is exact.
- The forecast values are paired with the projected years by position. A projection of exactly ten values is assumed by its type, because `get_forecast(steps=10)` and `predict` on ten rows return ten.
- The GDP table's import-time filter to 1950–2018 (`forecast.py:13`) only feeds the country dropdown, so it is left out. The callback's own year window is modelled.
- Metric: the metric is one of the six values the home dropdown offers. An arbitrary column name, or a missing one, is not modelled.
- Indicators.Rank: which of several rows with equal metric pandas places first is not fixed, because `sort_values` defaults to an unstable sort. The ranking is stated relationally, and the model's sort is one admissible order.
- HomeCallback.UpdateGraph: `register_callbacks` of home_callback.py is never called by app.py, so this chart is not wired to the page. It is modelled on its own.
- The other map pages (income_map.py, GDP_map.py, salary_map.py) are not part of this model; only their routes and sidebar links are.
- Dash's runtime is not modelled: callback dispatch, duplicate component ids across pages, and `suppress_callback_exceptions`.
- MpiMap.UpdateMap: the unbound-variable error is an outcome value, not a raised exception.
- GdpForecast.FitAndProject: building the forecast DataFrame, the matplotlib figure, the base64 image and the markdown table (`forecast.py:81-114`) is assumed not to raise. In the source, an exception there, such as the ImportError `to_markdown` raises without the `tabulate` package, becomes the error message (`forecast.py:115-116`); the model answers with a chart instead.
- IncomeForecast.FitAndProject: likewise, building the forecast DataFrame, the figure, the image and the markdown table (`incomeforecast.py:77-111`) is assumed not to raise, although the source would turn such an exception into the error message (`incomeforecast.py:112-113`).
