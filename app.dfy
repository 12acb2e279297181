/** The application shell (app.py): the page router and the home page's
    bar-chart callback, compared with the sidebar's links (sidebar.py). */
module App {
  import opened Tables
  import opened Indicators
  import Home

  /** The pages of the dashboard. */
  datatype Page =
    | HomePage
    | SalaryMapPage
    | MpiMapPage
    | IncomeMapPage
    | GdpMapPage
    | GdpForecastPage
    | IncomeForecastPage

  /** The path each page is served at; the home page is the root. */
  function Href(p: Page): string {
    match p
    case HomePage => "/"
    case SalaryMapPage => "/salary-map"
    case MpiMapPage => "/mpi-map"
    case IncomeMapPage => "/income-map"
    case GdpMapPage => "/gdp-map"
    case GdpForecastPage => "/forecasting"
    case IncomeForecastPage => "/incForecasting"
  }

  /** `display_page(pathname)`: exact, case-sensitive comparison with the
      six page paths in turn; anything else, `None` included, is home. */
  function DisplayPage(pathname: Option<string>): (p: Page)
    ensures p != HomePage ==> pathname == Some(Href(p))
    ensures forall q :: q != HomePage && pathname == Some(Href(q)) ==> p == q
  {
    if pathname == Some("/salary-map") then SalaryMapPage
    else if pathname == Some("/mpi-map") then MpiMapPage
    else if pathname == Some("/income-map") then IncomeMapPage
    else if pathname == Some("/gdp-map") then GdpMapPage
    else if pathname == Some("/forecasting") then GdpForecastPage
    else if pathname == Some("/incForecasting") then IncomeForecastPage
    else HomePage
  }

  /** Every page is reached at its own path: routing inverts `Href`. */
  lemma RoutingRoundTrip(p: Page)
    ensures DisplayPage(Some(Href(p))) == p
  {
    if p == HomePage {
      assert forall q :: q != HomePage ==> |Href(q)| > 1;
    }
  }

  /** Different pages are never served at the same path. */
  lemma RoutingInjective(a: Option<string>, b: Option<string>)
    requires DisplayPage(a) == DisplayPage(b) != HomePage
    ensures a == b
  {
  }

  /** Only the exact spelling matches: a trailing slash or a change of
      case falls through to home, as do the root and a missing path. */
  lemma RoutingIsExact()
    ensures DisplayPage(Some("/gdp-map/")) == HomePage
    ensures DisplayPage(Some("/GDP-map")) == HomePage
    ensures DisplayPage(Some("/")) == HomePage
    ensures DisplayPage(None) == HomePage
  {
    assert "/gdp-map/" != "/gdp-map" by { assert |"/gdp-map/"| != |"/gdp-map"|; }
  }

  /** A link of the sidebar: its text and its href. */
  datatype NavLink = NavLink(text: string, href: string)

  /** The sidebar's links, in order. */
  const Sidebar: seq<NavLink> := [
    NavLink("Home", "/"),
    NavLink("GDP Map", "/gdp-map"),
    NavLink("Income Map", "/income-map"),
    NavLink("Salary Map", "/salary-map"),
    NavLink("MPI Map", "/mpi-map"),
    NavLink("GDP Forecasting", "/forecasting"),
    NavLink("Income Forecasting", "/incForecasting")
  ]

  /** The page a sidebar label names. */
  function Named(text: string): Option<Page> {
    if text == "Home" then Some(HomePage)
    else if text == "GDP Map" then Some(GdpMapPage)
    else if text == "Income Map" then Some(IncomeMapPage)
    else if text == "Salary Map" then Some(SalaryMapPage)
    else if text == "MPI Map" then Some(MpiMapPage)
    else if text == "GDP Forecasting" then Some(GdpForecastPage)
    else if text == "Income Forecasting" then Some(IncomeForecastPage)
    else None
  }

  /** Following any sidebar link shows the page its label names, and every
      page has a link. */
  lemma SidebarMatchesRouter()
    ensures forall link :: link in Sidebar ==> Named(link.text) == Some(DisplayPage(Some(link.href)))
    ensures forall p: Page :: exists link :: link in Sidebar && Named(link.text) == Some(p)
  {
    forall link | link in Sidebar
      ensures Named(link.text) == Some(DisplayPage(Some(link.href)))
    {
      RoutingRoundTrip(Named(link.text).value);
    }
    forall p: Page ensures exists link :: link in Sidebar && Named(link.text) == Some(p) {
      match p
      case HomePage => assert Sidebar[0] in Sidebar;
      case GdpMapPage => assert Sidebar[1] in Sidebar;
      case IncomeMapPage => assert Sidebar[2] in Sidebar;
      case SalaryMapPage => assert Sidebar[3] in Sidebar;
      case MpiMapPage => assert Sidebar[4] in Sidebar;
      case GdpForecastPage => assert Sidebar[5] in Sidebar;
      case IncomeForecastPage => assert Sidebar[6] in Sidebar;
    }
  }

  /** `update_graph_callback(selected_metric)`: the home page's chart is
      exactly what home.py's `update_graph` draws, the top ten. */
  function UpdateGraphCallback(table: seq<Row>, selectedMetric: Metric): (top: seq<Row>)
    ensures top == Home.UpdateGraph(table, selectedMetric)
    ensures IsRanking(Keep(table, Home.AllSixPositive), top, selectedMetric, false, 10)
  {
    Home.UpdateGraph(table, selectedMetric)
  }
}
