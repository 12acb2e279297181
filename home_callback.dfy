/** The bottom-ten bar chart of home_callback.py (`update_graph` inside
    `register_callbacks`): the ten countries ranking lowest on the selected
    metric, among those whose five raw indicators other than the Poverty
    Index are positive. */
module HomeCallback {
  import opened Tables
  import opened Indicators

  /** The chart shows ten countries. */
  const Shown: nat := 10

  /** The row filter: five raw columns positive; the Poverty Index is not tested. */
  predicate AllFivePositive(row: Row) {
    && row.medianSalary > 0.0
    && row.inequalityInIncome > 0.0
    && row.gdpPerCapita > 0.0
    && row.deprivationUrban > 0.0
    && row.deprivationRural > 0.0
  }

  /** The inner `update_graph(selected_metric)`: the rows of the bar chart,
      lowest first. */
  function UpdateGraph(table: seq<Row>, selectedMetric: Metric): (bottom: seq<Row>)
    ensures IsRanking(Keep(table, AllFivePositive), bottom, selectedMetric, true, Shown)
    ensures forall row :: row in bottom ==> row in table && AllFivePositive(row)
  {
    var eligible := Keep(table, AllFivePositive);
    var bottom := Rank(eligible, selectedMetric, true, Shown);
    assert forall row :: row in bottom ==> row in eligible by {
      forall row | row in bottom ensures row in eligible {
        assert row in multiset(bottom);
      }
    }
    bottom
  }

  /** A row whose only non-positive column is the Poverty Index still
      qualifies for the bottom ten, whatever its Poverty Index. */
  lemma PovertyIndexNotTested(row: Row, p: real)
    ensures AllFivePositive(row.(povertyIndex := p)) == AllFivePositive(row)
  {
  }
}
