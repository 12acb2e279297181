/** The income-inequality forecast page: the `update_inc_forecast`
    callback. One country's rows, zeros dropped (no year window), one
    degree-2 polynomial regression and a ten-year projection. The
    regression library is an oracle. */
module IncomeForecast {
  import opened Tables
  import opened Forecasting

  /** A row of the income table (only the columns the callback reads). */
  datatype IncomeRow = IncomeRow(country: string, year: int, value: real)

  /** The one model configuration the page uses: `PolynomialFeatures(degree=2)`. */
  const Degree: nat := 2

  /** Fit a polynomial of the given degree to a series with
      `LinearRegression` and predict the value at each of the given years. */
  type RegressOracle = (Series, nat, seq<int>) -> Fit<Projection>

  predicate InCountry(c: string, row: IncomeRow) { row.country == c }
  predicate NonZero(row: IncomeRow) { row.value != 0.0 }

  /** `df_country[['Year', 'Value']]` with Year as the index. */
  function ToSeries(rows: seq<IncomeRow>): (s: Series)
    ensures |s| == |rows|
    ensures forall i :: 0 <= i < |rows| ==> s[i] == (rows[i].year, rows[i].value)
  {
    seq(|rows|, i requires 0 <= i < |rows| => (rows[i].year, rows[i].value))
  }

  /** A row that ends up in the series of country `c`. */
  predicate Usable(c: string, row: IncomeRow) { InCountry(c, row) && NonZero(row) }

  /** Country filter, its emptiness test, the zero drop and its emptiness
      test. Unlike the GDP page there is no year window. */
  function Prepare(table: seq<IncomeRow>, c: string): (r: Prepared)
    ensures r.Missing? <==> forall row :: row in table ==> !InCountry(c, row)
    ensures r.AllZero? <==>
      (exists row :: row in table && InCountry(c, row)) &&
      (forall row :: row in table && InCountry(c, row) ==> row.value == 0.0)
    ensures r.Ready? ==> r.series != [] && r.series == ToSeries(Keep(table, row => Usable(c, row)))
  {
    var inCountry := Keep(table, row => InCountry(c, row));
    if inCountry == [] then
      assert forall row :: row in table && InCountry(c, row) ==> row in inCountry;
      Missing
    else
      assert inCountry[0] in inCountry;
      var nonZero := Keep(inCountry, NonZero);
      KeepKeep(table, row => InCountry(c, row), NonZero, row => Usable(c, row));
      if nonZero == [] then
        assert forall row :: row in table && InCountry(c, row) && row.value != 0.0 ==> row in nonZero;
        AllZero
      else
        assert nonZero[0] in nonZero;
        Ready(ToSeries(nonZero))
  }

  /** The part of the callback inside `try`: one degree-2 fit, predicted
      at the ten projected years; an exception becomes `Failed`. */
  function FitAndProject(history: Series, regress: RegressOracle): (r: Response<nat>)
    requires history != []
    ensures r.Failed? || r.Chart?
    ensures var years := ProjectedYears(LastYear(history));
      if r.Chart? then
        && r.model == Degree
        && r.history == history
        && regress(history, Degree, years).Returned?
        && r.forecast == ForecastTable(LastYear(history), regress(history, Degree, years).value)
      else
        regress(history, Degree, years) == Raised(r.error)
  {
    match regress(history, Degree, ProjectedYears(LastYear(history)))
    case Raised(e) => Failed(e)
    case Returned(values) => Chart(Degree, history, ForecastTable(LastYear(history), values))
  }

  /** `update_inc_forecast(n_clicks, country)` over the income table `table`. */
  function UpdateIncForecast(table: seq<IncomeRow>, nClicks: nat, country: Option<string>,
                             regress: RegressOracle): (r: Response<nat>)
    ensures r.Blank? <==> nClicks == 0 || !Truthy(country)
    ensures r.NoData? <==> nClicks != 0 && Truthy(country) && Prepare(table, country.value).Missing?
    ensures r.NoValidData? <==> nClicks != 0 && Truthy(country) && Prepare(table, country.value).AllZero?
    ensures (r.NoData? || r.NoValidData?) ==> r.country == country.value
    ensures (r.Failed? || r.Chart?) ==>
      nClicks != 0 && Truthy(country) && Prepare(table, country.value).Ready? &&
      r == FitAndProject(Prepare(table, country.value).series, regress)
  {
    if nClicks == 0 || !Truthy(country) then Blank
    else
      match Prepare(table, country.value)
      case Missing => NoData(country.value)
      case AllZero => NoValidData(country.value)
      case Ready(series) => FitAndProject(series, regress)
  }

  /** A chart's forecast table covers exactly the ten years after the Year
      of the last non-zero row, each with the one value the regression
      predicted for it. */
  lemma IncomeForecastCoversHorizon(table: seq<IncomeRow>, nClicks: nat, country: Option<string>,
                                    regress: RegressOracle)
    requires UpdateIncForecast(table, nClicks, country, regress).Chart?
    ensures var r := UpdateIncForecast(table, nClicks, country, regress);
      && |r.forecast| == Steps
      && Years(r.forecast) == ProjectedYears(LastYear(r.history))
      && r.forecast[0].0 == LastYear(r.history) + 1
      && r.forecast[Steps - 1].0 == LastYear(r.history) + Steps
      && regress(r.history, Degree, ProjectedYears(LastYear(r.history))).Returned?
      && forall i :: 0 <= i < Steps ==>
           r.forecast[i].1 == regress(r.history, Degree, ProjectedYears(LastYear(r.history))).value[i]
  {
    var r := UpdateIncForecast(table, nClicks, country, regress);
    var values := regress(r.history, Degree, ProjectedYears(LastYear(r.history))).value;
    ForecastTableRoundTrip(LastYear(r.history), values);
  }
}
