/** The deprivation-intensity map page (mpi_map.py): the dependent
    sub-national region dropdown and the rows and columns the map is drawn
    from. */
module MpiMap {
  import opened Tables

  /** A row of the MPI table (only the columns the callbacks read). */
  datatype MpiRow = MpiRow(
    country: string,
    region: string,
    deprivationUrban: real,
    deprivationRural: real,
    latitude: real,
    longitude: real,
    hoverName: string)

  predicate InCountry(c: string, row: MpiRow) { row.country == c }
  predicate InRegion(r: string, row: MpiRow) { row.region == r }

  /** A dropdown option. */
  datatype DropdownOption = DropdownOption(text: string, value: string)

  /** Index of the first occurrence of `x`. */
  function FirstIndex(s: seq<string>, x: string): (i: nat)
    requires x in s
    ensures i < |s| && s[i] == x && x !in s[..i]
  {
    if s[0] == x then 0
    else
      assert s == [s[0]] + s[1..];
      var i := FirstIndex(s[1..], x) + 1;
      assert s[..i] == [s[0]] + s[1..][..i - 1];
      i
  }

  /** A value's first occurrence is unchanged by what follows it. */
  lemma FirstIndexPrefix(s: seq<string>, n: nat, x: string)
    requires n <= |s| && x in s[..n]
    ensures FirstIndex(s, x) == FirstIndex(s[..n], x)
  {
    var i := FirstIndex(s[..n], x);
    assert s[..n][..i] == s[..i];
  }

  /** `Series.unique()`: each distinct value once, in order of first appearance. */
  function Unique(s: seq<string>): (u: seq<string>)
    ensures forall x :: x in u <==> x in s
    ensures forall i, j :: 0 <= i < j < |u| ==> u[i] != u[j]
    ensures forall i, j :: 0 <= i < j < |u| ==> FirstIndex(s, u[i]) < FirstIndex(s, u[j])
  {
    if s == [] then []
    else
      var n := |s| - 1;
      var before := Unique(s[..n]);
      assert s == s[..n] + [s[n]];
      forall x | x in before ensures FirstIndex(s, x) == FirstIndex(s[..n], x) {
        FirstIndexPrefix(s, n, x);
      }
      if s[n] in before then before
      else
        assert FirstIndex(s, s[n]) == n;
        before + [s[n]]
  }

  /** The sub-national region column of some rows. */
  function Regions(rows: seq<MpiRow>): (regions: seq<string>)
    ensures |regions| == |rows|
    ensures forall i :: 0 <= i < |rows| ==> regions[i] == rows[i].region
  {
    seq(|rows|, i requires 0 <= i < |rows| => rows[i].region)
  }

  /** The values of a list of options. */
  function Values(options: seq<DropdownOption>): (values: seq<string>)
    ensures |values| == |options|
    ensures forall i :: 0 <= i < |options| ==> values[i] == options[i].value
  {
    seq(|options|, i requires 0 <= i < |options| => options[i].value)
  }

  /** `update_subnational_options(selected_country)`. */
  function UpdateSubnationalOptions(table: seq<MpiRow>, selectedCountry: Option<string>): (options: seq<DropdownOption>)
    ensures !Truthy(selectedCountry) ==> options == []
    ensures Truthy(selectedCountry) ==>
      Values(options) == Unique(Regions(Keep(table, row => InCountry(selectedCountry.value, row))))
    ensures forall i :: 0 <= i < |options| ==> options[i].text == options[i].value
  {
    if Truthy(selectedCountry) then
      var regions := Unique(Regions(Keep(table, row => InCountry(selectedCountry.value, row))));
      var options := seq(|regions|, i requires 0 <= i < |regions| => DropdownOption(regions[i], regions[i]));
      assert Values(options) == regions;
      options
    else []
  }

  /** The options of a selected country: one per region that country's rows
      name, none twice, in order of first appearance. */
  lemma SubnationalOptionsAreTheCountrysRegions(table: seq<MpiRow>, country: string)
    requires country != ""
    ensures var options := UpdateSubnationalOptions(table, Some(country));
      && (forall r :: r in Values(options) <==> exists row :: row in table && row.country == country && row.region == r)
      && (forall i, j :: 0 <= i < j < |options| ==> options[i].value != options[j].value)
  {
    var rows := Keep(table, row => InCountry(country, row));
    var regions := Regions(rows);
    forall r ensures r in regions <==> exists row :: row in table && row.country == country && row.region == r {
      if r in regions {
        var i :| 0 <= i < |regions| && regions[i] == r;
        assert rows[i] in rows;
      }
      if row :| row in table && row.country == country && row.region == r {
        var i :| 0 <= i < |rows| && rows[i] == row;
        assert regions[i] == r;
      }
    }
  }

  /** A row is on the map when it matches each selection that is made. */
  predicate Selected(row: MpiRow, country: Option<string>, region: Option<string>) {
    && (Truthy(country) ==> row.country == country.value)
    && (Truthy(region) ==> row.region == region.value)
  }

  /** The rows of the map: the country filter, then the region filter, each
      skipped when its selection is empty. The region filter applies across
      all countries when no country is selected. */
  function MapRows(table: seq<MpiRow>, country: Option<string>, region: Option<string>): (rows: seq<MpiRow>)
    ensures rows == Keep(table, row => Selected(row, country, region))
  {
    var byCountry := if Truthy(country) then Keep(table, row => InCountry(country.value, row)) else table;
    var byRegion := if Truthy(region) then Keep(byCountry, row => InRegion(region.value, row)) else byCountry;
    if Truthy(country) && Truthy(region) then
      KeepKeep(table, row => InCountry(country.value, row), row => InRegion(region.value, row),
               row => Selected(row, country, region));
      byRegion
    else if Truthy(country) then
      KeepKeep(table, row => InCountry(country.value, row), (row: MpiRow) => true, row => Selected(row, country, region));
      KeepEverything(byCountry, (row: MpiRow) => true);
      byRegion
    else if Truthy(region) then
      KeepKeep(table, (row: MpiRow) => true, row => InRegion(region.value, row), row => Selected(row, country, region));
      KeepEverything(table, (row: MpiRow) => true);
      byRegion
    else
      KeepEverything(table, row => Selected(row, country, region));
      byRegion
  }

  /** With neither selection made, every row of the table is on the map;
      a region alone selects that region's rows in every country. */
  lemma {:induction false} MapRowsWithoutCountry(table: seq<MpiRow>, region: Option<string>)
    ensures !Truthy(region) ==> MapRows(table, None, region) == table
    ensures Truthy(region) ==> MapRows(table, None, region) == Keep(table, row => InRegion(region.value, row))
  {
    if !Truthy(region) {
      KeepEverything(table, row => Selected(row, None, region));
    } else {
      KeepKeep(table, (row: MpiRow) => true, row => InRegion(region.value, row), row => Selected(row, None, region));
      KeepEverything(table, (row: MpiRow) => true);
    }
  }

  /** The deprivation column the map sizes and colours its points by. */
  datatype Column = IntensityUrban | IntensityRural

  /** The column's header in the table. */
  function ColumnName(c: Column): string {
    match c
    case IntensityUrban => "Intensity of Deprivation Urban"
    case IntensityRural => "Intensity of Deprivation Rural"
  }

  /** What the map is drawn from. */
  datatype MapView = MapView(rows: seq<MpiRow>, sizeColumn: Column, colorColumn: Column, title: string,
                             projection: Option<string>)

  /** The map, or the UnboundLocalError raised when the map type is
      neither 'urban' nor 'rural' and `size_col` was never assigned. */
  datatype MapOutcome = Drawn(view: MapView) | SizeColumnUnbound

  /** `update_map(selected_country, selected_subnational, map_type, selected_projection)`. */
  function UpdateMap(table: seq<MpiRow>, country: Option<string>, region: Option<string>,
                     mapType: Option<string>, projection: Option<string>): (r: MapOutcome)
    ensures r.Drawn? <==> mapType == Some("urban") || mapType == Some("rural")
    ensures r.Drawn? ==>
      && r.view.rows == MapRows(table, country, region)
      && (forall row :: row in r.view.rows <==> row in table && Selected(row, country, region))
      && r.view.sizeColumn == r.view.colorColumn
      && (r.view.sizeColumn == IntensityUrban <==> mapType == Some("urban"))
      && r.view.title == ColumnName(r.view.sizeColumn) + " by Country and Region"
      && r.view.projection == projection
  {
    var rows := MapRows(table, country, region);
    if mapType == Some("urban") || mapType == Some("rural") then
      var column := if mapType == Some("urban") then IntensityUrban else IntensityRural;
      Drawn(MapView(rows, column, column, ColumnName(column) + " by Country and Region", projection))
    else SizeColumnUnbound
  }
}
