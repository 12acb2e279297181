/** The GDP-per-capita forecast page: the `update_forecast` callback.
    It prepares one country's series, searches the 27 ARIMA orders for the
    lowest AIC (skipping every order whose fit raises), refits the winner
    and projects ten years. The fitting library is an oracle. */
module GdpForecast {
  import opened Tables
  import opened Forecasting

  /** A row of the GDP table (only the columns the callback reads). */
  datatype GdpRow = GdpRow(country: string, year: int, gdp: real)

  /** The year window the page keeps. */
  const FirstYear: int := 1950
  const FinalYear: int := 2018

  /** An ARIMA order (p, d, q). */
  datatype Order = Order(p: int, d: int, q: int)

  /** AIC of the ARIMA model of a given order fitted to a series. */
  type AicOracle = (Series, Order) -> Fit<real>

  /** Refit of the chosen order and its ten-step forecast. */
  type ProjectOracle = (Series, Order) -> Fit<Projection>

  // ---------------------------------------------------------------------
  // Series preparation
  // ---------------------------------------------------------------------

  predicate InCountry(c: string, row: GdpRow) { row.country == c }
  predicate InWindow(row: GdpRow) { FirstYear <= row.year <= FinalYear }
  predicate NonZero(row: GdpRow) { row.gdp != 0.0 }

  /** A row that ends up in the prepared series of country `c`. */
  predicate Usable(c: string, row: GdpRow) {
    InCountry(c, row) && InWindow(row) && NonZero(row)
  }

  /** `filtered_data[['Year', 'GDP per capita']]` with Year as the index. */
  function ToSeries(rows: seq<GdpRow>): (s: Series)
    ensures |s| == |rows|
    ensures forall i :: 0 <= i < |rows| ==> s[i] == (rows[i].year, rows[i].gdp)
  {
    seq(|rows|, i requires 0 <= i < |rows| => (rows[i].year, rows[i].gdp))
  }

  /** Country filter, then year window, then the zero drop, each followed
      by its emptiness test. */
  function Prepare(table: seq<GdpRow>, c: string): (r: Prepared)
    ensures r.Missing? <==> forall row :: row in table ==> !(InCountry(c, row) && InWindow(row))
    ensures r.AllZero? <==>
      (exists row :: row in table && InCountry(c, row) && InWindow(row)) &&
      (forall row :: row in table && InCountry(c, row) && InWindow(row) ==> row.gdp == 0.0)
    ensures r.Ready? ==> r.series != [] && r.series == ToSeries(Keep(table, row => Usable(c, row)))
  {
    var inCountry := Keep(table, row => InCountry(c, row));
    var inWindow := Keep(inCountry, InWindow);
    KeepKeep(table, row => InCountry(c, row), InWindow, row => InCountry(c, row) && InWindow(row));
    if inWindow == [] then
      assert forall row :: row in table && InCountry(c, row) && InWindow(row) ==> row in inWindow;
      Missing
    else
      assert inWindow[0] in inWindow;
      var nonZero := Keep(inWindow, NonZero);
      KeepKeep(table, row => InCountry(c, row) && InWindow(row), NonZero, row => Usable(c, row));
      if nonZero == [] then
        assert forall row :: row in table && InCountry(c, row) && InWindow(row) && row.gdp != 0.0 ==> row in nonZero;
        AllZero
      else
        assert nonZero[0] in nonZero;
        Ready(ToSeries(nonZero))
  }

  // ---------------------------------------------------------------------
  // The order grid
  // ---------------------------------------------------------------------

  /** Every component of the order is in `range(0, 3)`. */
  predicate InRange(o: Order) {
    0 <= o.p < 3 && 0 <= o.d < 3 && 0 <= o.q < 3
  }

  /** Lexicographic order on (p, d, q): the order `itertools.product` yields them. */
  predicate LexLess(a: Order, b: Order) {
    a.p < b.p || (a.p == b.p && (a.d < b.d || (a.d == b.d && a.q < b.q)))
  }

  /** Position of an order in the grid. */
  function Rank(o: Order): int {
    9 * o.p + 3 * o.d + o.q
  }

  /** On the grid, lexicographic order is the order of positions. */
  lemma LexLessByRank(a: Order, b: Order)
    requires InRange(a) && InRange(b)
    ensures LexLess(a, b) <==> Rank(a) < Rank(b)
  {
  }

  /** Orders strictly increasing in lexicographic order. */
  predicate Increasing(orders: seq<Order>) {
    forall i, j :: 0 <= i < j < |orders| ==> LexLess(orders[i], orders[j])
  }

  /** `list(itertools.product(range(0, 3), range(0, 3), range(0, 3)))`:
      the order at position i has p, d, q the base-3 digits of i. */
  function Grid(): (g: seq<Order>)
    ensures |g| == 27
  {
    seq(27, i => Order(i / 9, i % 9 / 3, i % 9 % 3))
  }

  /** Position i of the grid holds the order of rank i. */
  lemma GridRanks()
    ensures forall i :: 0 <= i < 27 ==> InRange(Grid()[i]) && Rank(Grid()[i]) == i
  {
    var g := Grid();
    forall i | 0 <= i < 27 ensures InRange(g[i]) && Rank(g[i]) == i {
      var m := i % 9;
      assert i == 9 * (i / 9) + m;
      assert m == 3 * (m / 3) + m % 3;
    }
  }

  /** The grid starts at (0,0,0), ends at (2,2,2) and holds every order of
      {0,1,2}^3. */
  lemma GridComplete()
    ensures Grid()[0] == Order(0, 0, 0) && Grid()[26] == Order(2, 2, 2)
    ensures forall o :: InRange(o) ==> o in Grid()
  {
    var g := Grid();
    forall o | InRange(o) ensures o in g {
      var i := Rank(o);
      assert i / 9 == o.p && i % 9 == 3 * o.d + o.q;
      assert g[i] == o;
    }
  }

  /** The grid is in lexicographic order, so no order appears twice. */
  lemma GridIncreasing()
    ensures Increasing(Grid())
  {
    var g := Grid();
    GridRanks();
    forall i, j | 0 <= i < j < 27 ensures LexLess(g[i], g[j]) {
      LexLessByRank(g[i], g[j]);
    }
  }

  // ---------------------------------------------------------------------
  // The search
  // ---------------------------------------------------------------------

  /** `aic_values` after the loop has visited `candidates`: the (order, AIC)
      pair of every candidate whose fit returned, in visiting order. */
  function Successes(series: Series, candidates: seq<Order>, aic: AicOracle): (r: seq<(Order, real)>)
    ensures |r| <= |candidates|
    ensures forall k :: 0 <= k < |r| ==> r[k].0 in candidates && aic(series, r[k].0) == Returned(r[k].1)
    ensures forall c :: c in candidates && aic(series, c).Returned? ==> (c, aic(series, c).value) in r
  {
    if candidates == [] then []
    else
      var n := |candidates| - 1;
      var before := Successes(series, candidates[..n], aic);
      assert candidates == candidates[..n] + [candidates[n]];
      match aic(series, candidates[n])
      case Returned(a) => before + [(candidates[n], a)]
      case Raised(_) => before
  }

  /** The orders of a list of (order, AIC) pairs. */
  function OrdersOf(xs: seq<(Order, real)>): (orders: seq<Order>)
    ensures |orders| == |xs|
    ensures forall k :: 0 <= k < |xs| ==> orders[k] == xs[k].0
  {
    seq(|xs|, k requires 0 <= k < |xs| => xs[k].0)
  }

  /** Visiting candidates in increasing order keeps `aic_values` in that order. */
  lemma {:induction false} SuccessesOrdered(series: Series, candidates: seq<Order>, aic: AicOracle)
    requires Increasing(candidates)
    ensures Increasing(OrdersOf(Successes(series, candidates, aic)))
  {
    if candidates != [] {
      var n := |candidates| - 1;
      var prefix := candidates[..n];
      SuccessesOrdered(series, prefix, aic);
      var before := Successes(series, prefix, aic);
      var orders := OrdersOf(before);
      forall k | 0 <= k < |before| ensures LexLess(orders[k], candidates[n]) {
        var i :| 0 <= i < n && prefix[i] == before[k].0;
      }
      match aic(series, candidates[n]) {
        case Returned(a) =>
          assert OrdersOf(Successes(series, candidates, aic)) == orders + [candidates[n]];
        case Raised(_) =>
          assert Successes(series, candidates, aic) == before;
      }
    }
  }

  /** Visiting one more candidate appends its pair exactly when its fit returns. */
  lemma SuccessesSnoc(series: Series, candidates: seq<Order>, c: Order, aic: AicOracle)
    ensures Successes(series, candidates + [c], aic) ==
      Successes(series, candidates, aic) + (if aic(series, c).Returned? then [(c, aic(series, c).value)] else [])
  {
    assert (candidates + [c])[..|candidates|] == candidates;
  }

  /** The loop over `pdq`: a failing fit is skipped and the loop goes on. */
  method SearchOrders(series: Series, aic: AicOracle) returns (aicValues: seq<(Order, real)>)
    ensures aicValues == Successes(series, Grid(), aic)
  {
    var pdq := Grid();
    aicValues := [];
    for i := 0 to |pdq|
      invariant aicValues == Successes(series, pdq[..i], aic)
    {
      var param := pdq[i];
      assert pdq[..i + 1] == pdq[..i] + [param];
      SuccessesSnoc(series, pdq[..i], param, aic);
      match aic(series, param) {
        case Returned(a) =>
          aicValues := aicValues + [(param, a)];
        case Raised(_) =>
      }
    }
    assert pdq[..|pdq|] == pdq;
  }

  // ---------------------------------------------------------------------
  // Selection: `sorted(aic_values, key=lambda x: x[1])[0][0]`
  // ---------------------------------------------------------------------

  /** Pairs in non-decreasing order of AIC. */
  predicate AicSorted(s: seq<(Order, real)>) {
    forall i, j :: 0 <= i < j < |s| ==> s[i].1 <= s[j].1
  }

  /** A pair whose AIC is no larger than any in a sorted list may head it. */
  lemma PrependAicSorted(x: (Order, real), s: seq<(Order, real)>)
    requires AicSorted(s)
    requires forall y :: y in s ==> x.1 <= y.1
    ensures AicSorted([x] + s)
  {
    forall i, j | 0 <= i < j < |[x] + s| ensures ([x] + s)[i].1 <= ([x] + s)[j].1 {
      assert ([x] + s)[j] == s[j - 1];
      if i > 0 {
        assert ([x] + s)[i] == s[i - 1];
      }
    }
  }

  /** The head of a sorted list has the smallest AIC in it. */
  lemma HeadIsLeast(s: seq<(Order, real)>)
    requires AicSorted(s) && s != []
    ensures forall y :: y in s ==> s[0].1 <= y.1
  {
    forall y | y in s ensures s[0].1 <= y.1 {
      var j :| 0 <= j < |s| && s[j] == y;
    }
  }

  /** Insert `x` before the first element whose AIC is not smaller:
      `x` comes from earlier in the list, so equal keys keep their order. */
  function InsertByAic(x: (Order, real), sorted: seq<(Order, real)>): (r: seq<(Order, real)>)
    ensures |r| == |sorted| + 1
    ensures multiset(r) == multiset(sorted) + multiset{x}
    ensures r[0] == if sorted == [] || x.1 <= sorted[0].1 then x else sorted[0]
  {
    if sorted == [] || x.1 <= sorted[0].1 then [x] + sorted
    else
      assert sorted == [sorted[0]] + sorted[1..];
      [sorted[0]] + InsertByAic(x, sorted[1..])
  }

  /** A stable sort by AIC (Python's `sorted` is stable). */
  function SortByAic(xs: seq<(Order, real)>): (r: seq<(Order, real)>)
    ensures |r| == |xs|
    ensures multiset(r) == multiset(xs)
  {
    if xs == [] then []
    else
      assert xs == [xs[0]] + xs[1..];
      InsertByAic(xs[0], SortByAic(xs[1..]))
  }

  /** Inserting into a list sorted by AIC keeps it sorted. */
  lemma {:induction false} InsertByAicSorted(x: (Order, real), sorted: seq<(Order, real)>)
    requires AicSorted(sorted)
    ensures AicSorted(InsertByAic(x, sorted))
  {
    if sorted != [] {
      HeadIsLeast(sorted);
      if x.1 <= sorted[0].1 {
        PrependAicSorted(x, sorted);
      } else {
        var head, tail := sorted[0], sorted[1..];
        assert sorted == [head] + tail;
        var rest := InsertByAic(x, tail);
        InsertByAicSorted(x, tail);
        forall y | y in rest ensures head.1 <= y.1 {
          assert y in multiset(rest);
        }
        PrependAicSorted(head, rest);
      }
    }
  }

  /** `sorted(aic_values, key=lambda x: x[1])` is ordered by AIC. */
  lemma {:induction false} SortByAicSorted(xs: seq<(Order, real)>)
    ensures AicSorted(SortByAic(xs))
  {
    if xs != [] {
      SortByAicSorted(xs[1..]);
      InsertByAicSorted(xs[0], SortByAic(xs[1..]));
    }
  }

  /** Index of the first pair whose AIC is minimal: no pair has a smaller
      AIC, and every earlier pair has a strictly larger one. */
  function EarliestMin(xs: seq<(Order, real)>): (i: nat)
    requires xs != []
    ensures i < |xs|
    ensures forall j :: 0 <= j < |xs| ==> xs[i].1 <= xs[j].1
    ensures forall j :: 0 <= j < i ==> xs[i].1 < xs[j].1
  {
    if |xs| == 1 then 0
    else
      var k := EarliestMin(xs[1..]) + 1;
      if xs[0].1 <= xs[k].1 then 0 else k
  }

  /** The head of the stable sort is the earliest pair of minimal AIC. */
  lemma {:induction false} SortedHeadIsEarliestMin(xs: seq<(Order, real)>)
    requires xs != []
    ensures SortByAic(xs)[0] == xs[EarliestMin(xs)]
  {
    if |xs| > 1 {
      SortedHeadIsEarliestMin(xs[1..]);
    }
  }

  /** `sorted(aic_values, ...)[0][0]`; indexing the empty list raises. */
  function BestOrder(aicValues: seq<(Order, real)>): (r: Fit<Order>)
    ensures r.Raised? <==> aicValues == []
    ensures r.Raised? ==> r.error == IndexErrorText
    ensures r.Returned? ==> r.value == aicValues[EarliestMin(aicValues)].0
  {
    if aicValues == [] then Raised(IndexErrorText)
    else
      SortedHeadIsEarliestMin(aicValues);
      Returned(SortByAic(aicValues)[0].0)
  }

  // ---------------------------------------------------------------------
  // The callback
  // ---------------------------------------------------------------------

  /** The part of the callback inside `try`, on a prepared series: search,
      select, refit and project; any exception becomes `Failed`. */
  function FitAndProject(series: Series, aic: AicOracle, project: ProjectOracle): (r: Response<Order>)
    requires series != []
    ensures r.Failed? || r.Chart?
    ensures r.Chart? ==>
      && r.history == series
      && BestOrder(Successes(series, Grid(), aic)) == Returned(r.model)
      && project(series, r.model).Returned?
      && r.forecast == ForecastTable(LastYear(series), project(series, r.model).value)
    ensures r.Failed? ==>
      || (BestOrder(Successes(series, Grid(), aic)).Raised? && r.error == IndexErrorText)
      || (BestOrder(Successes(series, Grid(), aic)).Returned? &&
          project(series, BestOrder(Successes(series, Grid(), aic)).value) == Raised(r.error))
  {
    match BestOrder(Successes(series, Grid(), aic))
    case Raised(e) => Failed(e)
    case Returned(order) =>
      match project(series, order)
      case Raised(e) => Failed(e)
      case Returned(values) => Chart(order, series, ForecastTable(LastYear(series), values))
  }

  /** The answer `update_forecast` gives; `UpdateForecast` computes it. */
  function ForecastSpec(table: seq<GdpRow>, nClicks: nat, country: Option<string>,
                        aic: AicOracle, project: ProjectOracle): (r: Response<Order>)
    ensures r.Blank? <==> nClicks == 0 || !Truthy(country)
    ensures r.NoData? <==> nClicks != 0 && Truthy(country) && Prepare(table, country.value).Missing?
    ensures r.NoValidData? <==> nClicks != 0 && Truthy(country) && Prepare(table, country.value).AllZero?
    ensures (r.NoData? || r.NoValidData?) ==> r.country == country.value
    ensures (r.Failed? || r.Chart?) ==>
      nClicks != 0 && Truthy(country) && Prepare(table, country.value).Ready? &&
      r == FitAndProject(Prepare(table, country.value).series, aic, project)
  {
    if nClicks == 0 || !Truthy(country) then Blank
    else
      match Prepare(table, country.value)
      case Missing => NoData(country.value)
      case AllZero => NoValidData(country.value)
      case Ready(series) => FitAndProject(series, aic, project)
  }

  /** `update_forecast(n_clicks, country)` over the GDP table `table`. */
  method UpdateForecast(table: seq<GdpRow>, nClicks: nat, country: Option<string>,
                        aic: AicOracle, project: ProjectOracle) returns (r: Response<Order>)
    ensures r == ForecastSpec(table, nClicks, country, aic, project)
  {
    if nClicks == 0 || !Truthy(country) {
      return Blank;
    }
    var prepared := Prepare(table, country.value);
    if prepared.Missing? {
      return NoData(country.value);
    }
    if prepared.AllZero? {
      return NoValidData(country.value);
    }
    var series := prepared.series;
    assert series != [];
    var aicValues := SearchOrders(series, aic);
    var best := BestOrder(aicValues);
    if best.Raised? {
      return Failed(best.error);
    }
    var projected := project(series, best.value);
    if projected.Raised? {
      return Failed(projected.error);
    }
    r := Chart(best.value, series, ForecastTable(LastYear(series), projected.value));
  }

  // ---------------------------------------------------------------------
  // Properties of the callback
  // ---------------------------------------------------------------------

  /** In an increasing list, an order lexicographically before another sits
      at an earlier position. */
  lemma EarlierInIncreasing(orders: seq<Order>, j: nat, i: nat)
    requires Increasing(orders) && i < |orders| && j < |orders|
    requires LexLess(orders[j], orders[i])
    ensures j < i
  {
  }

  /** The order `BestOrder` picks from the search fitted, has an AIC no
      larger than any order that fitted, and beats every order enumerated
      before it strictly: on a tie the earliest order in the grid wins. */
  lemma {:induction false} BestOrderIsEarliestMinimum(series: Series, aic: AicOracle)
    requires BestOrder(Successes(series, Grid(), aic)).Returned?
    ensures var best := BestOrder(Successes(series, Grid(), aic)).value;
      && best in Grid()
      && aic(series, best).Returned?
      && (forall c :: c in Grid() && aic(series, c).Returned? ==>
            aic(series, best).value <= aic(series, c).value)
      && (forall c :: c in Grid() && LexLess(c, best) && aic(series, c).Returned? ==>
            aic(series, best).value < aic(series, c).value)
  {
    var xs := Successes(series, Grid(), aic);
    var i := EarliestMin(xs);
    var best := xs[i].0;
    GridIncreasing();
    SuccessesOrdered(series, Grid(), aic);
    forall c | c in Grid() && LexLess(c, best) && aic(series, c).Returned?
      ensures xs[i].1 < aic(series, c).value
    {
      assert (c, aic(series, c).value) in xs;
      var j :| 0 <= j < |xs| && xs[j] == (c, aic(series, c).value);
      EarlierInIncreasing(OrdersOf(xs), j, i);
    }
    forall c | c in Grid() && aic(series, c).Returned?
      ensures xs[i].1 <= aic(series, c).value
    {
      assert (c, aic(series, c).value) in xs;
    }
  }

  /** On the page: a chart's order is the earliest minimum-AIC order among
      those whose fit on the prepared series returned. */
  lemma ChosenOrderIsEarliestMinimum(table: seq<GdpRow>, nClicks: nat, country: Option<string>,
                                     aic: AicOracle, project: ProjectOracle)
    requires ForecastSpec(table, nClicks, country, aic, project).Chart?
    ensures var r := ForecastSpec(table, nClicks, country, aic, project);
      && r.model in Grid()
      && aic(r.history, r.model).Returned?
      && (forall c :: c in Grid() && aic(r.history, c).Returned? ==>
            aic(r.history, r.model).value <= aic(r.history, c).value)
      && (forall c :: c in Grid() && LexLess(c, r.model) && aic(r.history, c).Returned? ==>
            aic(r.history, r.model).value < aic(r.history, c).value)
  {
    var r := ForecastSpec(table, nClicks, country, aic, project);
    assert BestOrder(Successes(r.history, Grid(), aic)) == Returned(r.model);
    BestOrderIsEarliestMinimum(r.history, aic);
  }

  /** The search comes back empty exactly when every one of the 27 fits raises. */
  lemma {:induction false} NoSuccessIffAllRaise(series: Series, aic: AicOracle)
    ensures Successes(series, Grid(), aic) == [] <==> forall c :: c in Grid() ==> aic(series, c).Raised?
  {
    var xs := Successes(series, Grid(), aic);
    if xs != [] {
      assert xs[0].0 in Grid() && aic(series, xs[0].0).Returned?;
    }
    if c :| c in Grid() && aic(series, c).Returned? {
      assert (c, aic(series, c).value) in xs;
    }
  }

  /** Inside `try`: when every one of the 27 fits raises, the answer is the
      IndexError message; when one fits, it is the chart of the chosen
      order or the error its refit and forecast raised. */
  lemma FitAndProjectOutcomes(series: Series, aic: AicOracle, project: ProjectOracle)
    requires series != []
    ensures var r := FitAndProject(series, aic, project);
      && ((forall c :: c in Grid() ==> aic(series, c).Raised?) ==> r == Failed(IndexErrorText))
      && ((exists c :: c in Grid() && aic(series, c).Returned?) ==>
            exists o :: o in Grid() && aic(series, o).Returned? &&
              ((r.Chart? && r.model == o) || (r.Failed? && project(series, o) == Raised(r.error))))
  {
    var r := FitAndProject(series, aic, project);
    NoSuccessIffAllRaise(series, aic);
    var best := BestOrder(Successes(series, Grid(), aic));
    if best.Returned? {
      BestOrderIsEarliestMinimum(series, aic);
      assert (r.Chart? && r.model == best.value) || (r.Failed? && project(series, best.value) == Raised(r.error));
    }
  }

  /** On the page, once a series is prepared: no viable order gives the
      IndexError message, never an unhandled fault. */
  lemma NoViableOrder(table: seq<GdpRow>, nClicks: nat, country: Option<string>,
                      aic: AicOracle, project: ProjectOracle)
    requires nClicks != 0 && Truthy(country) && Prepare(table, country.value).Ready?
    requires forall c :: c in Grid() ==> aic(Prepare(table, country.value).series, c).Raised?
    ensures ForecastSpec(table, nClicks, country, aic, project) == Failed(IndexErrorText)
  {
    FitAndProjectOutcomes(Prepare(table, country.value).series, aic, project);
  }

  /** A chart's forecast table covers exactly the ten years after the Year
      of the last retained row. */
  lemma ForecastCoversHorizon(table: seq<GdpRow>, nClicks: nat, country: Option<string>,
                              aic: AicOracle, project: ProjectOracle)
    requires ForecastSpec(table, nClicks, country, aic, project).Chart?
    ensures var r := ForecastSpec(table, nClicks, country, aic, project);
      && |r.forecast| == Steps
      && Years(r.forecast) == ProjectedYears(LastYear(r.history))
      && project(r.history, r.model).Returned?
      && forall i :: 0 <= i < Steps ==> r.forecast[i].1 == project(r.history, r.model).value[i]
  {
    var r := ForecastSpec(table, nClicks, country, aic, project);
    ForecastTableRoundTrip(LastYear(r.history), project(r.history, r.model).value);
  }

}
