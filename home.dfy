/** The home page's bar chart (`update_graph` of home.py): the ten
    countries ranking highest on the selected metric, among those whose
    six raw indicators are all positive. */
module Home {
  import opened Tables
  import opened Indicators

  /** The home page shows ten countries. */
  const Shown: nat := 10

  /** The row filter: all six raw columns positive, whatever the metric. */
  predicate AllSixPositive(row: Row) {
    && row.medianSalary > 0.0
    && row.inequalityInIncome > 0.0
    && row.gdpPerCapita > 0.0
    && row.deprivationUrban > 0.0
    && row.deprivationRural > 0.0
    && row.povertyIndex > 0.0
  }

  /** `update_graph(selected_metric)`: the rows of the bar chart, top first. */
  function UpdateGraph(table: seq<Row>, selectedMetric: Metric): (top: seq<Row>)
    ensures IsRanking(Keep(table, AllSixPositive), top, selectedMetric, false, Shown)
    ensures forall row :: row in top ==> row in table && AllSixPositive(row)
  {
    var eligible := Keep(table, AllSixPositive);
    var top := Rank(eligible, selectedMetric, false, Shown);
    assert forall row :: row in top ==> row in eligible by {
      forall row | row in top ensures row in eligible {
        assert row in multiset(top);
      }
    }
    top
  }
}
