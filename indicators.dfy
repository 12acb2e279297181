/** The country indicator table behind the home page's bar chart, and the
    "sort by the selected metric, keep the first k" step both ranking
    callbacks share. */
module Indicators {

  /** A row of the indicator table: the raw columns and their normalized
      counterparts. */
  datatype Row = Row(
    country: string,
    medianSalary: real,
    inequalityInIncome: real,
    gdpPerCapita: real,
    deprivationUrban: real,
    deprivationRural: real,
    povertyIndex: real,
    normalizedMedianSalary: real,
    normalizedInequalityInIncome: real,
    normalizedGdpPerCapita: real,
    normalizedDeprivationUrban: real,
    normalizedDeprivationRural: real)

  /** The values of the metric dropdown: five normalized columns and the
      raw Poverty Index. */
  datatype Metric =
    | NormalizedMedianSalary
    | NormalizedInequalityInIncome
    | NormalizedGdpPerCapita
    | NormalizedDeprivationUrban
    | NormalizedDeprivationRural
    | PovertyIndex

  /** The column a metric names. */
  function Value(row: Row, m: Metric): real {
    match m
    case NormalizedMedianSalary => row.normalizedMedianSalary
    case NormalizedInequalityInIncome => row.normalizedInequalityInIncome
    case NormalizedGdpPerCapita => row.normalizedGdpPerCapita
    case NormalizedDeprivationUrban => row.normalizedDeprivationUrban
    case NormalizedDeprivationRural => row.normalizedDeprivationRural
    case PovertyIndex => row.povertyIndex
  }

  /** The sort key: the metric, negated for a descending sort. */
  function Key(row: Row, m: Metric, ascending: bool): real {
    if ascending then Value(row, m) else -Value(row, m)
  }

  /** `a` may come before `b` in `sort_values(by=m, ascending=ascending)`. */
  predicate InOrder(a: Row, b: Row, m: Metric, ascending: bool) {
    Key(a, m, ascending) <= Key(b, m, ascending)
  }

  /** Every row may come before every later one. */
  predicate Ordered(s: seq<Row>, m: Metric, ascending: bool) {
    forall i, j :: 0 <= i < j < |s| ==> InOrder(s[i], s[j], m, ascending)
  }

  /** A row that may precede every row of an ordered list may head it. */
  lemma PrependOrdered(x: Row, s: seq<Row>, m: Metric, ascending: bool)
    requires Ordered(s, m, ascending)
    requires forall y :: y in s ==> InOrder(x, y, m, ascending)
    ensures Ordered([x] + s, m, ascending)
  {
    forall i, j | 0 <= i < j < |[x] + s| ensures InOrder(([x] + s)[i], ([x] + s)[j], m, ascending) {
      assert ([x] + s)[j] == s[j - 1];
      if i > 0 {
        assert ([x] + s)[i] == s[i - 1];
      }
    }
  }

  /** Insert `x` into an ordered list before the first row it may precede. */
  function Insert(x: Row, s: seq<Row>, m: Metric, ascending: bool): (r: seq<Row>)
    requires Ordered(s, m, ascending)
    ensures |r| == |s| + 1
    ensures multiset(r) == multiset(s) + multiset{x}
    ensures forall y :: y in r ==> y == x || y in s
    ensures Ordered(r, m, ascending)
  {
    if s == [] then [x]
    else if InOrder(x, s[0], m, ascending) then
      assert forall y :: y in s ==> InOrder(x, y, m, ascending) by {
        forall y | y in s ensures InOrder(x, y, m, ascending) {
          var j :| 0 <= j < |s| && s[j] == y;
        }
      }
      PrependOrdered(x, s, m, ascending);
      [x] + s
    else
      var head, tail := s[0], s[1..];
      assert s == [head] + tail;
      assert forall y :: y in tail ==> InOrder(head, y, m, ascending) by {
        forall y | y in tail ensures InOrder(head, y, m, ascending) {
          var j :| 0 <= j < |tail| && tail[j] == y;
          assert s[j + 1] == y;
        }
      }
      var rest := Insert(x, tail, m, ascending);
      PrependOrdered(head, rest, m, ascending);
      [head] + rest
  }

  /** One order `sort_values` may produce. Which rows of equal metric come
      first is not fixed by pandas, and nothing below depends on it. */
  function Sort(s: seq<Row>, m: Metric, ascending: bool): (r: seq<Row>)
    ensures Ordered(r, m, ascending)
    ensures |r| == |s|
    ensures multiset(r) == multiset(s)
  {
    if s == [] then []
    else
      assert s == [s[0]] + s[1..];
      Insert(s[0], Sort(s[1..], m, ascending), m, ascending)
  }

  /** What `rows.sort_values(by=m, ascending=ascending).head(k)` may
      return, whatever order it gives to rows of equal metric: as many rows
      as there are, up to k, in metric order, drawn from `rows`, and no row
      left out ranks ahead of a row kept. */
  ghost predicate IsRanking(rows: seq<Row>, r: seq<Row>, m: Metric, ascending: bool, k: nat) {
    && |r| == (if |rows| < k then |rows| else k)
    && Ordered(r, m, ascending)
    && multiset(r) <= multiset(rows)
    && forall x, y :: x in multiset(rows) - multiset(r) && y in r ==> InOrder(y, x, m, ascending)
  }

  /** In an ordered list, every row of a prefix may precede every row after it. */
  lemma PrefixPrecedesRest(sorted: seq<Row>, n: nat, m: Metric, ascending: bool)
    requires Ordered(sorted, m, ascending) && n <= |sorted|
    ensures forall x, y :: x in sorted[n..] && y in sorted[..n] ==> InOrder(y, x, m, ascending)
  {
    forall x, y | x in sorted[n..] && y in sorted[..n] ensures InOrder(y, x, m, ascending) {
      var j :| 0 <= j < |sorted| - n && sorted[n..][j] == x;
      var i :| 0 <= i < n && sorted[..n][i] == y;
      assert sorted[i] == y && sorted[n + j] == x;
    }
  }

  /** What `head(n)` leaves out is the rest of the list. */
  lemma LeftOut(rows: seq<Row>, sorted: seq<Row>, n: nat)
    requires multiset(sorted) == multiset(rows) && n <= |sorted|
    ensures multiset(rows) - multiset(sorted[..n]) == multiset(sorted[n..])
    ensures multiset(sorted[..n]) <= multiset(rows)
  {
    assert sorted == sorted[..n] + sorted[n..];
  }

  /** Sort by the metric, then `head(k)`. */
  function Rank(rows: seq<Row>, m: Metric, ascending: bool, k: nat): (r: seq<Row>)
    ensures IsRanking(rows, r, m, ascending, k)
  {
    var sorted := Sort(rows, m, ascending);
    var n := if |sorted| < k then |sorted| else k;
    LeftOut(rows, sorted, n);
    PrefixPrecedesRest(sorted, n, m, ascending);
    sorted[..n]
  }
}
