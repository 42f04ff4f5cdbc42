/** CityLifestyleDataProcessor (src/data_processor.py): the table the API
    queries, prepared once when the processor is built and swapped out
    while filters are applied. */
module Processing {
  import opened Tables
  import opened Sequences
  import opened Geocoder
  import opened Cleaning
  import opened Queries

  /** _preprocess_data: synthetic coordinates first, then the ten numeric
      columns coerced. */
  function Preprocessed(p: Platform, t: Table): (u: Table)
    requires HasCoordinates(t) || HasIdentity(t)
    ensures u.columns == t.columns + {Latitude, Longitude} && |u.rows| == |t.rows|
  {
    Converted(p, WithCoordinates(p, t))
  }

  /** After preprocessing both coordinate columns exist, every row still has
      exactly the table's columns, the numeric columns hold no text, no row
      is added or dropped, and every column that is neither numeric nor a
      coordinate keeps its cells. */
  lemma PreprocessedProperties(p: Platform, t: Table)
    requires WellFormed(t) && (HasCoordinates(t) || HasIdentity(t))
    ensures var u := Preprocessed(p, t);
      && WellFormed(u) && Coerced(u) && HasCoordinates(u)
      && u.columns == t.columns + {Latitude, Longitude}
      && |u.rows| == |t.rows|
      && forall i, c :: 0 <= i < |t.rows| && c in t.columns && c !in NumericColumns ==>
           u.rows[i][c] == t.rows[i][c]
  {
    var g := WithCoordinates(p, t);
    if !HasCoordinates(t) {
      WithCoordinatesShape(p, t);
      WithCoordinatesKeepsOthers(p, t);
    }
    assert Latitude in NumericColumns && Longitude in NumericColumns;
    ConvertedProperties(p, g);
    ConvertedShape(p, g);
  }

  /** Removing rows keeps the table well formed and free of text in its
      numeric columns. */
  lemma FilteredValid(t: Table, f: Filters)
    requires WellFormed(t) && Coerced(t) && FilteredTable(t, f).Ok?
    ensures WellFormed(FilteredTable(t, f).value) && Coerced(FilteredTable(t, f).value)
  {
    FilteredTableProperties(t, f);
    FilterProperties(t.rows, Keeps(f));
    var u := FilteredTable(t, f).value;
    forall i | 0 <= i < |u.rows| ensures u.rows[i] in t.rows {
      assert u.rows[i] in u.rows;
    }
  }

  /** A comparison that fails on a prefix of the names fails the same way on
      all of them: the loop stops at the first error. */
  lemma {:induction false} CompareErrorStays(t: Table, names: seq<Cell>, k: nat)
    requires k <= |names| && Compare(t, names[..k]).Err?
    ensures Compare(t, names) == Compare(t, names[..k])
    decreases |names| - k
  {
    if k < |names| {
      var init := names[..|names| - 1];
      assert init[..k] == names[..k];
      CompareErrorStays(t, init, k);
    } else {
      assert names[..k] == names;
    }
  }

  class CityLifestyleDataProcessor {
    /** hashlib, pd.to_numeric and float formatting, as the model sees them. */
    const platform: Platform
    /** self.df: the table every query reads. */
    var df: Table

    /** Every row has exactly the table's columns and the numeric columns
        hold numbers or missing values. */
    ghost predicate Valid()
      reads this
    {
      WellFormed(df) && Coerced(df)
    }

    /** __init__, with the parsed CSV given as the input table. */
    constructor(p: Platform, input: Table)
      requires WellFormed(input) && (HasCoordinates(input) || HasIdentity(input))
      ensures platform == p && Valid() && HasCoordinates(df)
      ensures df == Preprocessed(p, input)
    {
      platform := p;
      df := input;
      new;
      PreprocessData();
    }

    /** _ensure_geolocation: both coordinate columns written from each row's
        identity when either is absent; nothing changes otherwise. */
    method EnsureGeolocation()
      requires WellFormed(df) && (HasCoordinates(df) || HasIdentity(df))
      modifies this
      ensures WellFormed(df) && HasCoordinates(df)
      ensures df == WithCoordinates(platform, old(df))
    {
      if !HasCoordinates(df) {
        WithCoordinatesShape(platform, df);
        df := WithCoordinates(platform, df);
      }
    }

    /** _preprocess_data */
    method PreprocessData()
      requires WellFormed(df) && (HasCoordinates(df) || HasIdentity(df))
      modifies this
      ensures Valid() && HasCoordinates(df)
      ensures df == Preprocessed(platform, old(df))
    {
      ghost var before := df;
      EnsureGeolocation();
      df := CoerceNumericColumns(platform, df);
      PreprocessedProperties(platform, before);
    }

    /** apply_filters: on success the filtered table replaces the current one,
        which is returned; a KeyError leaves the current table in place. */
    method ApplyFilters(f: Filters) returns (r: Result<Table>)
      requires Valid()
      modifies this
      ensures Valid()
      ensures r.Err? ==> df == old(df) && FilteredTable(old(df), f).Err?
      ensures r.Ok? ==> r.value == old(df) && FilteredTable(old(df), f) == Ok(df)
    {
      var filtered := FilteredTable(df, f);
      if filtered.Err? {
        r := Err(filtered.error);
        return;
      }
      FilteredValid(df, f);
      var original := df;
      df := filtered.value;
      r := Ok(original);
    }

    /** restore_dataframe */
    method RestoreDataframe(original: Table)
      requires WellFormed(original) && Coerced(original)
      modifies this
      ensures Valid() && df == original
    {
      df := original;
    }

    /** The intended use of apply_filters' return value: handing it to
        restore_dataframe brings back the table exactly as it was. */
    method WithFilters(f: Filters) returns (r: Result<Table>)
      requires Valid()
      modifies this
      ensures Valid() && df == old(df)
      ensures r.Ok? ==> FilteredTable(old(df), f) == r
    {
      var original := ApplyFilters(f);
      if original.Ok? {
        var filtered := df;
        RestoreDataframe(original.value);
        r := Ok(filtered);
      } else {
        r := Err(original.error);
      }
    }

    /** get_city_comparison: the loop over the requested names. */
    method GetCityComparison(request: Option<seq<Cell>>) returns (r: Result<seq<Comparison>>)
      ensures r == Queries.GetCityComparison(df, request)
    {
      var names := Requested(df, request);
      if names.Err? {
        r := Err(names.error);
        return;
      }
      var out: seq<Comparison> := [];
      for k := 0 to |names.value|
        invariant Compare(df, names.value[..k]) == Ok(out)
      {
        assert names.value[..k + 1][..k] == names.value[..k];
        var entry := CompareOne(df, names.value[k]);
        if entry.Err? {
          CompareErrorStays(df, names.value, k + 1);
          r := Err(entry.error);
          return;
        }
        if entry.value.Some? {
          out := out + [entry.value.value];
        }
      }
      assert names.value[..|names.value|] == names.value;
      r := Ok(out);
    }
  }
}
