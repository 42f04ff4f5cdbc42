/** The read-only queries of CityLifestyleDataProcessor
    (src/data_processor.py): ranking, lookup, filter options, grouping by
    country and row filtering. Each works on the processor's current table
    and reports a missing column as an error instead of raising KeyError. */
module Queries {
  import opened Tables
  import opened Sequences
  import opened Ordering
  import opened Ranking

  // ---------------------------------------------------------------------
  // get_top_cities

  datatype TopCities = TopCities(
    cities: seq<Cell>,
    countries: seq<Cell>,
    metricValues: seq<Cell>,
    avgIncome: seq<Cell>,
    happiness: seq<Cell>)

  /** The projected columns, with a repeated name dropped: the metric may
      itself be avg_income or happiness_score. */
  function ProjectedColumns(metric: string): seq<string> {
    Distinct([CityName, Country, metric, AvgIncome, HappinessScore])
  }

  /** Only air quality ranks from the smallest value up. */
  predicate RanksAscending(metric: string) {
    metric == AirQualityIndex
  }

  /** The projected columns name each of the five columns exactly once. */
  lemma ProjectedColumnsOnce(metric: string)
    ensures var cs := ProjectedColumns(metric);
      && NoDuplicates(cs)
      && (set c | c in cs) == {CityName, Country, metric, AvgIncome, HappinessScore}
      && metric in cs
  {
    var five := [CityName, Country, metric, AvgIncome, HappinessScore];
    DistinctProperties(five);
    assert five[2] == metric;
  }

  /** nlargest(n, metric) (nsmallest for air quality) projected onto the five
      columns. An absent metric fails first, then an absent projected column. */
  function GetTopCities(t: Table, metric: string, n: int): (r: Result<TopCities>)
    requires forall i :: 0 <= i < |t.rows| ==> IsNumeric(At(t.rows[i], metric))
    ensures metric !in t.columns ==> r == Err(MissingColumn(metric))
    ensures r.Err? ==> r.error.name !in t.columns
    ensures r.Ok? ==> var k := Clamp(n, |t.rows|);
      && |r.value.cities| == k && |r.value.countries| == k && |r.value.metricValues| == k
      && |r.value.avgIncome| == k && |r.value.happiness| == k
  {
    if metric !in t.columns then Err(MissingColumn(metric))
    else
      match FirstAbsent(ProjectedColumns(metric), t)
      case Some(c) => Err(MissingColumn(c))
      case None =>
        var top := TopRows(Column(t, metric), RanksAscending(metric), n);
        TopRowsProperties(Column(t, metric), RanksAscending(metric), n);
        Ok(TopCities(
          Select(Column(t, CityName), top),
          Select(Column(t, Country), top),
          Select(Column(t, metric), top),
          Select(Column(t, AvgIncome), top),
          Select(Column(t, HappinessScore), top)))
  }

  /** Dropping repeats changes nothing about which names are absent. */
  lemma DistinctPresent(cs: seq<string>, t: Table)
    ensures FirstAbsent(Distinct(cs), t).None? <==> forall c :: c in cs ==> c in t.columns
  {
    var d := Distinct(cs);
    DistinctProperties(cs);
    var sd, sc := set x | x in d, set x | x in cs;
    assert sd == sc;
    forall c | c in cs ensures c in d {
      assert c in sc;
      assert c in sd;
    }
    forall c | c in d ensures c in cs {
      assert c in sd;
      assert c in sc;
    }
  }

  lemma ProjectedPresent(t: Table, metric: string)
    ensures FirstAbsent(ProjectedColumns(metric), t).None? <==>
      metric in t.columns && CityName in t.columns && Country in t.columns &&
      AvgIncome in t.columns && HappinessScore in t.columns
  {
    var five := [CityName, Country, metric, AvgIncome, HappinessScore];
    DistinctPresent(five, t);
    assert five[0] == CityName && five[1] == Country && five[2] == metric;
    assert five[3] == AvgIncome && five[4] == HappinessScore;
  }

  /** The query succeeds exactly when the five columns exist. */
  lemma TopCitiesSucceeds(t: Table, metric: string, n: int)
    requires forall i :: 0 <= i < |t.rows| ==> IsNumeric(At(t.rows[i], metric))
    ensures GetTopCities(t, metric, n).Ok? <==>
      metric in t.columns && CityName in t.columns && Country in t.columns &&
      AvgIncome in t.columns && HappinessScore in t.columns
  {
    ProjectedPresent(t, metric);
  }

  /** The five lists are aligned: entry k of each comes from row top[k] of
      the ranking, a different row for each k, and there are
      min(max(n, 0), rows) of them. */
  lemma TopCitiesAligned(t: Table, metric: string, n: int)
    requires forall i :: 0 <= i < |t.rows| ==> IsNumeric(At(t.rows[i], metric))
    requires GetTopCities(t, metric, n).Ok?
    ensures var top := TopRows(Column(t, metric), RanksAscending(metric), n);
      var out := GetTopCities(t, metric, n).value;
      && |top| == Clamp(n, |t.rows|)
      && |out.cities| == |out.countries| == |out.metricValues| == |out.avgIncome| == |out.happiness| == |top|
      && (forall a, b :: 0 <= a < b < |top| ==> top[a] != top[b])
      && (forall k :: 0 <= k < |top| ==>
            && top[k] < |t.rows|
            && out.cities[k] == At(t.rows[top[k]], CityName)
            && out.countries[k] == At(t.rows[top[k]], Country)
            && out.metricValues[k] == At(t.rows[top[k]], metric)
            && out.avgIncome[k] == At(t.rows[top[k]], AvgIncome)
            && out.happiness[k] == At(t.rows[top[k]], HappinessScore))
  {
    TopRowsProperties(Column(t, metric), RanksAscending(metric), n);
  }

  /** Along the metric values, numbers precede missing values and run from
      largest to smallest (smallest to largest for air quality), and no row
      left out holds a number that beats a row selected. */
  lemma TopCitiesRanked(t: Table, metric: string, n: int)
    requires forall i :: 0 <= i < |t.rows| ==> IsNumeric(At(t.rows[i], metric))
    requires GetTopCities(t, metric, n).Ok?
    ensures var top := TopRows(Column(t, metric), RanksAscending(metric), n);
      var vs := GetTopCities(t, metric, n).value.metricValues;
      && |vs| == |top|
      && (forall a, b :: 0 <= a < b < |vs| && vs[a].Missing? ==> vs[b].Missing?)
      && (forall a, b :: 0 <= a < b < |vs| && vs[a].Num? && vs[b].Num? ==>
            if RanksAscending(metric) then vs[a].v <= vs[b].v else vs[a].v >= vs[b].v)
      && (forall j, k :: 0 <= j < |t.rows| && j !in top && 0 <= k < |vs| && At(t.rows[j], metric).Num? ==>
            && vs[k].Num?
            && if RanksAscending(metric) then vs[k].v <= At(t.rows[j], metric).v
               else vs[k].v >= At(t.rows[j], metric).v)
  {
    var col := Column(t, metric);
    var asc := RanksAscending(metric);
    TopRowsProperties(col, asc, n);
    TopRowsValues(col, asc, n);
    var top := TopRows(col, asc, n);
    var vs := GetTopCities(t, metric, n).value.metricValues;
    assert forall k :: 0 <= k < |top| ==> vs[k] == CellAt(col, top[k]);
  }

  // ---------------------------------------------------------------------
  // get_overview_stats (the parts that are not floating-point statistics)

  datatype Overview = Overview(totalCities: nat, countries: seq<Cell>)

  /** The columns the overview reads, in the order it reads them. */
  const OverviewColumns: seq<string> :=
    [Country, PopulationDensity, AvgIncome, HappinessScore, AirQualityIndex, InternetPenetration]

  function GetOverview(t: Table): (r: Result<Overview>)
    ensures r.Err? ==> r.error.name in OverviewColumns && r.error.name !in t.columns
    ensures r.Ok? ==> r.value.totalCities == |t.rows|
  {
    match FirstAbsent(OverviewColumns, t)
    case Some(c) => Err(MissingColumn(c))
    case None => Ok(Overview(|t.rows|, Distinct(Column(t, Country))))
  }

  /** total_cities is the row count; the country list holds every value of
      the country column once, missing included, in order of appearance. */
  lemma OverviewProperties(t: Table)
    ensures var r := GetOverview(t);
      && (r.Ok? <==> forall c :: c in OverviewColumns ==> c in t.columns)
      && (r.Ok? ==>
            && r.value.totalCities == |t.rows|
            && NoDuplicates(r.value.countries)
            && (forall x :: x in r.value.countries <==> exists i :: 0 <= i < |t.rows| && At(t.rows[i], Country) == x)
            && |r.value.countries| <= |t.rows|)
  {
    var col := Column(t, Country);
    var d := Distinct(col);
    DistinctProperties(col);
    DedupByProperties(col, Id);
    var sd, sc := set y | y in d, set y | y in col;
    assert sd == sc;
    forall x ensures x in d <==> exists i :: 0 <= i < |t.rows| && At(t.rows[i], Country) == x {
      assert x in d <==> x in sd;
      assert x in col <==> x in sc;
      if x in col {
        var i :| 0 <= i < |col| && col[i] == x;
      }
    }
  }

  // ---------------------------------------------------------------------
  // get_filters_options

  datatype FilterOptions = FilterOptions(countries: seq<string>, cities: seq<string>)

  /** A present column holds text in every row (sorted() cannot order text
      against NaN or numbers). */
  ghost predicate TextColumn(t: Table, c: string) {
    c in t.columns ==> forall i :: 0 <= i < |t.rows| ==> At(t.rows[i], c).Text?
  }

  function Texts(col: seq<Cell>): (r: seq<string>)
    requires forall i :: 0 <= i < |col| ==> col[i].Text?
    ensures |r| == |col| && forall i :: 0 <= i < |col| ==> col[i] == Text(r[i])
  {
    seq(|col|, i requires 0 <= i < |col| => col[i].s)
  }

  /** sorted(column.unique()) for the country and the city columns. */
  function GetFilterOptions(t: Table): (r: Result<FilterOptions>)
    requires TextColumn(t, Country) && TextColumn(t, CityName)
    ensures r.Err? <==> Country !in t.columns || CityName !in t.columns
    ensures r.Err? ==> r.error.name !in t.columns
  {
    if Country !in t.columns then Err(MissingColumn(Country))
    else if CityName !in t.columns then Err(MissingColumn(CityName))
    else
      Ok(FilterOptions(
        SortedDistinct(Distinct(Texts(Column(t, Country)))),
        SortedDistinct(Distinct(Texts(Column(t, CityName))))))
  }

  lemma SortedOptions(t: Table, c: string)
    requires c in t.columns && TextColumn(t, c)
    ensures var r := SortedDistinct(Distinct(Texts(Column(t, c))));
      && StrictlySorted(r)
      && forall s :: s in r <==> exists i :: 0 <= i < |t.rows| && At(t.rows[i], c) == Text(s)
  {
    var texts := Texts(Column(t, c));
    DistinctProperties(texts);
    var r := SortedDistinct(Distinct(texts));
    assert Elements(r) == Elements(texts);
    forall s ensures s in r <==> exists i :: 0 <= i < |t.rows| && At(t.rows[i], c) == Text(s) {
      assert s in r <==> s in Elements(r);
      if s in texts {
        var i :| 0 <= i < |texts| && texts[i] == s;
      }
      if exists i :: 0 <= i < |t.rows| && At(t.rows[i], c) == Text(s) {
        var i :| 0 <= i < |t.rows| && At(t.rows[i], c) == Text(s);
        assert texts[i] == s;
      }
    }
  }

  /** Both lists are strictly ascending and hold exactly the texts of their
      column; being strictly ascending, they are the only such lists. */
  lemma FilterOptionsProperties(t: Table)
    requires TextColumn(t, Country) && TextColumn(t, CityName)
    ensures var r := GetFilterOptions(t);
      && (r.Ok? <==> Country in t.columns && CityName in t.columns)
      && (r.Ok? ==>
            && StrictlySorted(r.value.countries) && StrictlySorted(r.value.cities)
            && (forall s :: s in r.value.countries <==>
                  exists i :: 0 <= i < |t.rows| && At(t.rows[i], Country) == Text(s))
            && (forall s :: s in r.value.cities <==>
                  exists i :: 0 <= i < |t.rows| && At(t.rows[i], CityName) == Text(s)))
  {
    if Country in t.columns && CityName in t.columns {
      SortedOptions(t, Country);
      SortedOptions(t, CityName);
    }
  }

  // ---------------------------------------------------------------------
  // get_city_comparison

  /** One entry: the requested name, then the country and the eight metrics
      of the row that matched it. */
  datatype Comparison = Comparison(cityName: Cell, country: Cell, metrics: seq<Cell>)

  /** df["city_name"] == city: equality never holds for NaN. */
  predicate Matches(cell: Cell, city: Cell) {
    !city.Missing? && cell == city
  }

  /** The first row whose city_name matches city (iloc[0] of the selection). */
  function FirstMatch(t: Table, city: Cell): (r: Option<nat>)
    ensures r.None? <==> forall i :: 0 <= i < |t.rows| ==> !Matches(At(t.rows[i], CityName), city)
    ensures r.Some? ==>
      && r.value < |t.rows|
      && Matches(At(t.rows[r.value], CityName), city)
      && forall j :: 0 <= j < r.value ==> !Matches(At(t.rows[j], CityName), city)
  {
    var keep := (i: nat) => i < |t.rows| && Matches(At(t.rows[i], CityName), city);
    var hits := Where(|t.rows|, keep);
    forall i | 0 <= i < |t.rows| && Matches(At(t.rows[i], CityName), city) ensures i in hits {
      assert keep(i);
    }
    if hits == [] then None
    else
      assert keep(hits[0]);
      assert forall l :: 0 <= l < |hits| ==> hits[0] <= hits[l];
      Some(hits[0])
  }

  /** The columns an entry reads once a row matched. */
  function EntryColumns(): seq<string> {
    [Country] + MetricColumns
  }

  /** One iteration of the loop: no entry for an unknown name, an entry built
      from the first matching row otherwise. */
  function CompareOne(t: Table, city: Cell): (r: Result<Option<Comparison>>)
    ensures CityName !in t.columns ==> r == Err(MissingColumn(CityName))
    ensures r.Err? ==> r.error.name !in t.columns
    ensures r.Ok? ==> (r.value.Some? <==> FirstMatch(t, city).Some?)
    ensures r.Ok? && r.value.Some? ==>
      var row := t.rows[FirstMatch(t, city).value];
      && r.value.value.cityName == city
      && r.value.value.country == At(row, Country)
      && |r.value.value.metrics| == |MetricColumns|
      && forall m :: 0 <= m < |MetricColumns| ==> r.value.value.metrics[m] == At(row, MetricColumns[m])
  {
    if CityName !in t.columns then Err(MissingColumn(CityName))
    else
      match FirstMatch(t, city)
      case None => Ok(None)
      case Some(i) =>
        match FirstAbsent(EntryColumns(), t)
        case Some(c) => Err(MissingColumn(c))
        case None =>
          var row := t.rows[i];
          Ok(Some(Comparison(city, At(row, Country),
            seq(|MetricColumns|, m requires 0 <= m < |MetricColumns| => At(row, MetricColumns[m])))))
  }

  /** The loop over the requested names; the first failing name decides the error. */
  function Compare(t: Table, request: seq<Cell>): (r: Result<seq<Comparison>>)
    ensures r.Ok? ==> |r.value| <= |request|
    ensures r.Err? ==> r.error.name !in t.columns
  {
    if request == [] then Ok([])
    else
      match Compare(t, request[..|request| - 1])
      case Err(e) => Err(e)
      case Ok(prev) =>
        match CompareOne(t, request[|request| - 1])
        case Err(e) => Err(e)
        case Ok(None) => Ok(prev)
        case Ok(Some(entry)) => Ok(prev + [entry])
  }

  /** The names to compare: the request, or by default the first ten city names. */
  function Requested(t: Table, request: Option<seq<Cell>>): (r: Result<seq<Cell>>)
    ensures request.Some? ==> r == Ok(request.value)
    ensures request.None? && CityName in t.columns ==>
      r.Ok? && |r.value| == Clamp(10, |t.rows|) &&
      forall k :: 0 <= k < |r.value| ==> r.value[k] == At(t.rows[k], CityName)
  {
    match request
    case Some(names) => Ok(names)
    case None =>
      if CityName !in t.columns then Err(MissingColumn(CityName))
      else Ok(Column(t, CityName)[..Clamp(10, |t.rows|)])
  }

  function GetCityComparison(t: Table, request: Option<seq<Cell>>): (r: Result<seq<Comparison>>)
    ensures r.Err? ==> r.error.name !in t.columns
    ensures r.Ok? && request.Some? ==> |r.value| <= |request.value|
    ensures r.Ok? && request.None? ==> |r.value| <= 10
  {
    match Requested(t, request)
    case Err(e) => Err(e)
    case Ok(names) => Compare(t, names)
  }

  predicate Known(t: Table, city: Cell) {
    FirstMatch(t, city).Some?
  }

  /** When the comparison succeeds it has one entry per requested name that
      occurs in the table, in request order, each built from the first row
      with that name; unknown names are skipped. */
  lemma {:induction false} CompareEntries(t: Table, request: seq<Cell>)
    requires Compare(t, request).Ok?
    ensures var found := Filter(request, c => Known(t, c));
      var out := Compare(t, request).value;
      && |out| == |found|
      && forall k :: 0 <= k < |out| ==> CompareOne(t, found[k]) == Ok(Some(out[k]))
  {
    if request != [] {
      var init, last := request[..|request| - 1], request[|request| - 1];
      CompareEntries(t, init);
      var found := Filter(init, c => Known(t, c));
      assert Filter(request, c => Known(t, c)) ==
        found + (if Known(t, last) then [last] else []);
    }
  }

  /** The comparison fails only for a missing column: with the city, country
      and metric columns present it always succeeds, and an empty request
      reads no column at all. */
  lemma {:induction false} CompareSucceeds(t: Table, request: seq<Cell>)
    requires request == [] || (CityName in t.columns && forall c :: c in EntryColumns() ==> c in t.columns)
    ensures Compare(t, request).Ok?
  {
    if request != [] {
      var init := request[..|request| - 1];
      if init != [] { CompareSucceeds(t, init); }
    }
  }

  /** Without a request, the names are the first ten city names; an entry is
      then produced for each of them that is not missing. */
  lemma DefaultRequest(t: Table)
    requires CityName in t.columns
    ensures var r := Requested(t, None);
      && r.Ok? && |r.value| == Clamp(10, |t.rows|)
      && forall k :: 0 <= k < |r.value| ==> (Known(t, r.value[k]) <==> !r.value[k].Missing?)
  {
    var names := Requested(t, None).value;
    forall k | 0 <= k < |names| ensures Known(t, names[k]) <==> !names[k].Missing? {
      if !names[k].Missing? {
        assert Matches(At(t.rows[k], CityName), names[k]);
      }
    }
  }

  // ---------------------------------------------------------------------
  // get_cities_by_country (the keys and the city counts)

  datatype CountryCounts = CountryCounts(countries: seq<string>, cityCounts: seq<nat>)

  /** The columns the grouping reads: the key, then the aggregated columns. */
  const GroupColumns: seq<string> := [Country, CityName, PopulationDensity, AvgIncome, HappinessScore]

  /** The country column holds only text and missing values, so its groups
      can be sorted by name. */
  ghost predicate CountryKeys(t: Table) {
    forall i :: 0 <= i < |t.rows| ==> !At(t.rows[i], Country).Num?
  }

  /** The texts of a column, skipping everything else: groupby drops NaN keys. */
  function TextsOf(col: seq<Cell>): (r: seq<string>)
    ensures forall s :: s in r <==> Text(s) in col
  {
    if col == [] then []
    else
      var init, last := col[..|col| - 1], col[|col| - 1];
      assert col == init + [last];
      TextsOf(init) + (if last.Text? then [last.s] else [])
  }

  /** A row of the group name that "count" counts: one with a city name. */
  function InGroup(name: string): Row -> bool {
    (r: Row) => At(r, Country) == Text(name) && !At(r, CityName).Missing?
  }

  function InAnyGroup(keys: seq<string>): Row -> bool {
    (r: Row) => At(r, Country).Text? && At(r, Country).s in keys && !At(r, CityName).Missing?
  }

  function CityCounts(rows: seq<Row>, keys: seq<string>): seq<nat> {
    seq(|keys|, k requires 0 <= k < |keys| => Count(rows, InGroup(keys[k])))
  }

  /** groupby("country") with city_name counted per group. */
  function GetCitiesByCountry(t: Table): (r: Result<CountryCounts>)
    requires CountryKeys(t)
    ensures r.Err? <==> exists c :: c in GroupColumns && c !in t.columns
    ensures r.Err? ==> r.error.name in GroupColumns && r.error.name !in t.columns
    ensures r.Ok? ==> |r.value.countries| == |r.value.cityCounts|
  {
    match FirstAbsent(GroupColumns, t)
    case Some(c) => Err(MissingColumn(c))
    case None =>
      var keys := SortedDistinct(TextsOf(Column(t, Country)));
      Ok(CountryCounts(keys, CityCounts(t.rows, keys)))
  }

  /** The group keys: each distinct country text once, in ascending order. */
  lemma GroupKeys(t: Table)
    ensures var keys := SortedDistinct(TextsOf(Column(t, Country)));
      && StrictlySorted(keys)
      && forall s :: s in keys <==> exists i :: 0 <= i < |t.rows| && At(t.rows[i], Country) == Text(s)
  {
    var col := Column(t, Country);
    var keys := SortedDistinct(TextsOf(col));
    assert Elements(keys) == Elements(TextsOf(col));
    forall s ensures s in keys <==> exists i :: 0 <= i < |t.rows| && At(t.rows[i], Country) == Text(s) {
      assert s in keys <==> s in Elements(keys);
      assert s in TextsOf(col) <==> s in Elements(TextsOf(col));
      if Text(s) in col {
        var i :| 0 <= i < |col| && col[i] == Text(s);
      }
    }
  }

  /** One group per distinct country text, in ascending order, and as many
      counts as groups; group k counts the rows of that country whose city
      name is present. */
  lemma CitiesByCountryProperties(t: Table)
    requires CountryKeys(t)
    ensures var r := GetCitiesByCountry(t);
      && (r.Ok? <==> forall c :: c in GroupColumns ==> c in t.columns)
      && (r.Ok? ==>
            && |r.value.countries| == |r.value.cityCounts|
            && StrictlySorted(r.value.countries)
            && (forall s :: s in r.value.countries <==>
                  exists i :: 0 <= i < |t.rows| && At(t.rows[i], Country) == Text(s))
            && (forall k :: 0 <= k < |r.value.countries| ==>
                  r.value.cityCounts[k] == Count(t.rows, InGroup(r.value.countries[k]))))
  {
    GroupKeys(t);
  }

  /** When no city name is missing, every group counts at least one city. */
  lemma CityCountsPositive(t: Table)
    requires CountryKeys(t)
    requires forall i :: 0 <= i < |t.rows| ==> !At(t.rows[i], CityName).Missing?
    requires GetCitiesByCountry(t).Ok?
    ensures forall k :: 0 <= k < |GetCitiesByCountry(t).value.cityCounts| ==>
      GetCitiesByCountry(t).value.cityCounts[k] > 0
  {
    CitiesByCountryProperties(t);
    var r := GetCitiesByCountry(t).value;
    forall k | 0 <= k < |r.cityCounts| ensures r.cityCounts[k] > 0 {
      var i :| 0 <= i < |t.rows| && At(t.rows[i], Country) == Text(r.countries[k]);
      CountZero(t.rows, InGroup(r.countries[k]));
      assert InGroup(r.countries[k])(t.rows[i]);
    }
  }

  lemma StrictlySortedNoDuplicates(s: seq<string>)
    requires StrictlySorted(s)
    ensures NoDuplicates(s)
  {
    forall i, j | 0 <= i < j < |s| ensures s[i] != s[j] {
      if s[i] == s[j] { LexIrreflexive(s[i]); }
    }
  }

  /** Summed over distinct keys, the group counts count the rows in any group. */
  lemma {:induction false} SumCityCounts(rows: seq<Row>, keys: seq<string>)
    requires NoDuplicates(keys)
    ensures Sum(CityCounts(rows, keys)) == Count(rows, InAnyGroup(keys))
  {
    if keys == [] {
      CountZero(rows, InAnyGroup(keys));
    } else {
      var init, last := keys[..|keys| - 1], keys[|keys| - 1];
      var counts := CityCounts(rows, keys);
      assert counts[..|counts| - 1] == CityCounts(rows, init);
      assert NoDuplicates(init) by {
        forall i, j | 0 <= i < j < |init| ensures init[i] != init[j] {
          assert init[i] == keys[i] && init[j] == keys[j];
        }
      }
      SumCityCounts(rows, init);
      assert last !in init by {
        forall i | 0 <= i < |init| ensures init[i] != last {
          assert init[i] == keys[i];
        }
      }
      CountDisjoint(rows, InAnyGroup(init), InGroup(last));
      CountAgree(rows, Either(InAnyGroup(init), InGroup(last)), InAnyGroup(keys));
    }
  }

  /** When neither a country nor a city name is missing, the city counts add
      up to the number of rows. */
  lemma CityCountsSum(t: Table)
    requires CountryKeys(t)
    requires forall i :: 0 <= i < |t.rows| ==> !At(t.rows[i], Country).Missing? && !At(t.rows[i], CityName).Missing?
    requires GetCitiesByCountry(t).Ok?
    ensures Sum(GetCitiesByCountry(t).value.cityCounts) == |t.rows|
  {
    var keys := GetCitiesByCountry(t).value.countries;
    CitiesByCountryProperties(t);
    StrictlySortedNoDuplicates(keys);
    SumCityCounts(t.rows, keys);
    forall x | x in t.rows ensures InAnyGroup(keys)(x) {
      var i :| 0 <= i < |t.rows| && t.rows[i] == x;
      assert At(t.rows[i], Country).Text?;
    }
    CountAll(t.rows, InAnyGroup(keys));
  }

  // ---------------------------------------------------------------------
  // apply_filters (the filtering; the swap of the table is in Processing)

  /** The filter dictionary: each key may be absent (None). */
  datatype Filters = Filters(
    country: Option<seq<string>>,
    city: Option<seq<string>>,
    minHappiness: Option<real>,
    maxHappiness: Option<real>,
    minIncome: Option<real>,
    maxIncome: Option<real>)

  /** A filter applies only when present and truthy: a non-empty list, a
      non-zero bound. */
  predicate ListActive(v: Option<seq<string>>) {
    v.Some? && v.value != []
  }

  predicate BoundActive(v: Option<real>) {
    v.Some? && v.value != 0.0
  }

  /** column.isin(names): a text among the names; NaN is never among them. */
  function IsIn(c: string, names: Option<seq<string>>): Row -> bool {
    (r: Row) => names.Some? && At(r, c).Text? && At(r, c).s in names.value
  }

  /** column >= bound and column <= bound: a comparison with NaN is false. */
  function AtLeast(c: string, bound: Option<real>): Row -> bool {
    (r: Row) => bound.Some? && At(r, c).Num? && At(r, c).v >= bound.value
  }

  function AtMost(c: string, bound: Option<real>): Row -> bool {
    (r: Row) => bound.Some? && At(r, c).Num? && At(r, c).v <= bound.value
  }

  /** One boolean-mask step: whether it applies, the column it reads, and the
      rows it keeps. */
  datatype Stage = Stage(active: bool, column: string, keep: Row -> bool)

  /** The six steps, in the order they are applied. */
  function Stages(f: Filters): (ss: seq<Stage>)
    ensures |ss| == 6
  {
    [Stage(ListActive(f.country), Country, IsIn(Country, f.country)),
     Stage(ListActive(f.city), CityName, IsIn(CityName, f.city)),
     Stage(BoundActive(f.minHappiness), HappinessScore, AtLeast(HappinessScore, f.minHappiness)),
     Stage(BoundActive(f.maxHappiness), HappinessScore, AtMost(HappinessScore, f.maxHappiness)),
     Stage(BoundActive(f.minIncome), AvgIncome, AtLeast(AvgIncome, f.minIncome)),
     Stage(BoundActive(f.maxIncome), AvgIncome, AtMost(AvgIncome, f.maxIncome))]
  }

  /** A step on the current result: skipped when inactive, a KeyError when
      its column is absent, otherwise the rows it keeps, in order. */
  function ApplyStage(r: Result<Table>, st: Stage): (u: Result<Table>)
    ensures u.Ok? ==> r.Ok? && u.value.columns == r.value.columns && |u.value.rows| <= |r.value.rows|
    ensures u.Err? && r.Ok? ==> u.error.name !in r.value.columns
    ensures r.Err? ==> u == r
  {
    if r.Err? || !st.active then r
    else if st.column !in r.value.columns then Err(MissingColumn(st.column))
    else Ok(Table(r.value.columns, Filter(r.value.rows, st.keep)))
  }

  function ApplyStages(t: Table, ss: seq<Stage>): (r: Result<Table>)
    ensures r.Ok? ==> r.value.columns == t.columns && |r.value.rows| <= |t.rows|
    ensures r.Err? ==> r.error.name !in t.columns
  {
    if ss == [] then Ok(t) else ApplyStage(ApplyStages(t, ss[..|ss| - 1]), ss[|ss| - 1])
  }

  /** The table apply_filters leaves in place of the current one. */
  function FilteredTable(t: Table, f: Filters): (r: Result<Table>)
    ensures r.Ok? ==> r.value.columns == t.columns && |r.value.rows| <= |t.rows|
    ensures r.Err? ==> r.error.name !in t.columns
  {
    ApplyStages(t, Stages(f))
  }

  /** A row passes every active step. */
  function PassesAll(ss: seq<Stage>): Row -> bool {
    (r: Row) => forall k :: 0 <= k < |ss| && ss[k].active ==> ss[k].keep(r)
  }

  /** Running the steps one after the other fails exactly when an active
      step's column is absent; otherwise it keeps, in order, the rows that
      pass every active step at once. */
  lemma {:induction false} ApplyStagesProperties(t: Table, ss: seq<Stage>)
    ensures var r := ApplyStages(t, ss);
      && (r.Ok? <==> forall k :: 0 <= k < |ss| && ss[k].active ==> ss[k].column in t.columns)
      && (r.Ok? ==> r.value == Table(t.columns, Filter(t.rows, PassesAll(ss))))
  {
    if ss == [] {
      FilterAll(t.rows, PassesAll(ss));
    } else {
      var init, last := ss[..|ss| - 1], ss[|ss| - 1];
      ApplyStagesProperties(t, init);
      assert forall k :: 0 <= k < |init| ==> init[k] == ss[k];
      var prev := ApplyStages(t, init);
      if prev.Ok? {
        if !last.active {
          FilterAgree(t.rows, PassesAll(init), PassesAll(ss));
        } else if last.column in t.columns {
          FilterTwice(t.rows, PassesAll(init), last.keep);
          FilterAgree(t.rows, Both(PassesAll(init), last.keep), PassesAll(ss));
        }
      }
    }
  }

  /** The rows the filter dictionary keeps, stated filter by filter. */
  function Keeps(f: Filters): Row -> bool {
    (r: Row) =>
      && (ListActive(f.country) ==> At(r, Country).Text? && At(r, Country).s in f.country.value)
      && (ListActive(f.city) ==> At(r, CityName).Text? && At(r, CityName).s in f.city.value)
      && (BoundActive(f.minHappiness) ==> At(r, HappinessScore).Num? && At(r, HappinessScore).v >= f.minHappiness.value)
      && (BoundActive(f.maxHappiness) ==> At(r, HappinessScore).Num? && At(r, HappinessScore).v <= f.maxHappiness.value)
      && (BoundActive(f.minIncome) ==> At(r, AvgIncome).Num? && At(r, AvgIncome).v >= f.minIncome.value)
      && (BoundActive(f.maxIncome) ==> At(r, AvgIncome).Num? && At(r, AvgIncome).v <= f.maxIncome.value)
  }

  lemma StagesKeep(f: Filters, r: Row)
    ensures PassesAll(Stages(f))(r) == Keeps(f)(r)
  {
    var ss := Stages(f);
    if PassesAll(ss)(r) {
      assert forall k :: 0 <= k < 6 ==> !ss[k].active || ss[k].keep(r);
      assert !ss[0].active || ss[0].keep(r);
      assert !ss[1].active || ss[1].keep(r);
      assert !ss[2].active || ss[2].keep(r);
      assert !ss[3].active || ss[3].keep(r);
      assert !ss[4].active || ss[4].keep(r);
      assert !ss[5].active || ss[5].keep(r);
    }
    if Keeps(f)(r) {
      forall k | 0 <= k < 6 && ss[k].active ensures ss[k].keep(r) {
        if k == 0 {} else if k == 1 {} else if k == 2 {} else if k == 3 {} else if k == 4 {} else {}
      }
    }
  }

  lemma StagesPresent(f: Filters, t: Table)
    ensures (forall k :: 0 <= k < |Stages(f)| && Stages(f)[k].active ==> Stages(f)[k].column in t.columns) <==>
      && (ListActive(f.country) ==> Country in t.columns)
      && (ListActive(f.city) ==> CityName in t.columns)
      && (BoundActive(f.minHappiness) || BoundActive(f.maxHappiness) ==> HappinessScore in t.columns)
      && (BoundActive(f.minIncome) || BoundActive(f.maxIncome) ==> AvgIncome in t.columns)
  {
    var ss := Stages(f);
    assert ss[0].column == Country && ss[1].column == CityName;
    assert ss[2].column == HappinessScore && ss[3].column == HappinessScore;
    assert ss[4].column == AvgIncome && ss[5].column == AvgIncome;
  }

  /** apply_filters fails exactly when an active filter's column is absent;
      otherwise the new table has the same columns and keeps, in their
      order, exactly the rows that satisfy every active filter. */
  lemma FilteredTableProperties(t: Table, f: Filters)
    ensures var r := FilteredTable(t, f);
      && (r.Ok? <==>
            && (ListActive(f.country) ==> Country in t.columns)
            && (ListActive(f.city) ==> CityName in t.columns)
            && (BoundActive(f.minHappiness) || BoundActive(f.maxHappiness) ==> HappinessScore in t.columns)
            && (BoundActive(f.minIncome) || BoundActive(f.maxIncome) ==> AvgIncome in t.columns))
      && (r.Ok? ==> r.value == Table(t.columns, Filter(t.rows, Keeps(f))))
  {
    var ss := Stages(f);
    ApplyStagesProperties(t, ss);
    StagesPresent(f, t);
    forall r | r in t.rows ensures PassesAll(ss)(r) == Keeps(f)(r) { StagesKeep(f, r); }
    FilterAgree(t.rows, PassesAll(ss), Keeps(f));
  }

  /** With no active filter (every key absent, empty or zero) the table is
      kept whole. */
  lemma NoActiveFilter(t: Table, f: Filters)
    requires !ListActive(f.country) && !ListActive(f.city)
    requires !BoundActive(f.minHappiness) && !BoundActive(f.maxHappiness)
    requires !BoundActive(f.minIncome) && !BoundActive(f.maxIncome)
    ensures FilteredTable(t, f) == Ok(t)
  {
    FilteredTableProperties(t, f);
    FilterAll(t.rows, Keeps(f));
  }
}
