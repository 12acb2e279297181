/** What the two forecast pages (GDP per capita and income inequality)
    share: the prepared series, the outcome of a call into a fitting
    library, the ten-year horizon and the callback's possible answers. */
module Forecasting {
  import opened Tables

  /** A prepared series: (Year, value) rows in table order; Year is the index. */
  type Series = seq<(int, real)>

  /** Where preparation stops: no row for the country (in the window),
      only zero values, or a series to fit. */
  datatype Prepared = Missing | AllZero | Ready(series: Series)

  /** Both pages forecast ten years ahead. */
  const Steps: nat := 10

  /** What a model's prediction for the horizon holds: one value per
      projected year (ARIMA's `get_forecast(steps=10)` and scikit-learn's
      `predict` on ten rows both return exactly ten). */
  type Projection = s: seq<real> | |s| == Steps witness seq(Steps, _ => 0.0)

  /** A call into a fitting library either returns or raises an exception
      whose text becomes part of the page's error message. */
  datatype Fit<T> = Returned(value: T) | Raised(error: string)

  /** The text Python gives the IndexError of `[][0]`. */
  const IndexErrorText := "list index out of range"

  /** What a forecast callback returns: the empty string (nothing
      submitted), one of three messages, or a chart together with the
      forecast table. `model` is the chosen model configuration. */
  datatype Response<M> =
    | Blank
    | NoData(country: string)
    | NoValidData(country: string)
    | Failed(error: string)
    | Chart(model: M, history: Series, forecast: seq<(int, real)>)

  /** The text shown for every answer other than a chart. */
  function Message<M>(r: Response<M>): (text: Option<string>)
    ensures text.None? <==> r.Chart?
    ensures r.Blank? <==> text == Some("")
  {
    match r
    case Blank => Some("")
    case NoData(c) => Some("No data available for " + c + ".")
    case NoValidData(c) => Some("No valid data available for " + c + " after filtering out zero values.")
    case Failed(e) => Some("An error occurred while fitting the model or forecasting: " + e)
    case Chart(_, _, _) => None
  }

  /** The two "no data" messages can never be confused, whatever the country. */
  lemma MessagesDistinct<M>(c: string, d: string)
    ensures Message<M>(NoData(c)) != Message<M>(NoValidData(d))
  {
    var a := Message<M>(NoData(c)).value;
    var b := Message<M>(NoValidData(d)).value;
    assert a[3] == 'd' && b[3] == 'v';
  }

  /** The Year of the final row of a series, in row order (not the largest Year). */
  function LastYear(series: Series): (y: int)
    requires series != []
    ensures y == series[|series| - 1].0
    ensures (y, series[|series| - 1].1) in series
  {
    series[|series| - 1].0
  }

  /** `range(last + 1, last + 11)`: the projected years. */
  function ProjectedYears(last: int): (years: seq<int>)
    ensures |years| == Steps
    ensures years[0] == last + 1
    ensures forall i :: 0 < i < |years| ==> years[i] == years[i - 1] + 1
    ensures forall y :: y in years <==> last < y <= last + Steps
  {
    var years := seq(Steps, i => last + 1 + i);
    assert forall y | last < y <= last + Steps :: y in years by {
      forall y | last < y <= last + Steps ensures y in years {
        assert years[y - last - 1] == y;
      }
    }
    years
  }

  /** The forecast table: each projected year paired with exactly one
      predicted value, positionally. */
  function ForecastTable(last: int, values: Projection): (table: seq<(int, real)>)
    ensures |table| == Steps
    ensures forall i :: 0 <= i < |table| ==> table[i] == (ProjectedYears(last)[i], values[i])
  {
    var years := ProjectedYears(last);
    seq(Steps, i requires 0 <= i < Steps => (years[i], values[i]))
  }

  /** The years of the forecast table, read back, are the projected years. */
  function Years(table: seq<(int, real)>): (years: seq<int>)
    ensures |years| == |table|
    ensures forall i :: 0 <= i < |table| ==> years[i] == table[i].0
  {
    seq(|table|, i requires 0 <= i < |table| => table[i].0)
  }

  /** Reading the years and the values back out of a forecast table gives
      the projected years and the prediction it was built from. */
  lemma ForecastTableRoundTrip(last: int, values: Projection)
    ensures Years(ForecastTable(last, values)) == ProjectedYears(last)
    ensures forall i :: 0 <= i < Steps ==> ForecastTable(last, values)[i].1 == values[i]
  {
  }
}
