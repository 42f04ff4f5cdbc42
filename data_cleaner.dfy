/** DataCleaner (src/clean_data.py:11-262): holds the table being cleaned
    and the last report, and runs the stages on the table in place. */
module DataCleaning {
  import opened Tables
  import opened Sequences
  import opened Ordering
  import opened Geocoder
  import opened Cleaning

  /** The columns validate_numeric_ranges has visited after k ranges. */
  ghost function Visited(k: nat): set<string> {
    set j | 0 <= j < k && j < |Ranges| :: Ranges[j].column
  }

  lemma RangesDistinct()
    ensures forall j, k :: 0 <= j < k < |Ranges| ==> Ranges[j].column != Ranges[k].column
  {
  }

  lemma VisitedStep(k: nat)
    requires k < |Ranges|
    ensures Visited(k + 1) == Visited(k) + {Ranges[k].column}
    ensures Ranges[k].column !in Visited(k)
    ensures RangeFor(Ranges[k].column) == Some(Ranges[k])
  {
    RangesDistinct();
    RangeForEntry(k);
    assert forall x :: x in Visited(k) ==> exists j :: 0 <= j < k && Ranges[j].column == x;
  }

  /** Every column with a range is visited by the end of the loop. */
  lemma VisitedAll(c: string)
    requires RangeFor(c).Some?
    ensures c in Visited(|Ranges|)
  {
    var k :| 0 <= k < |Ranges| && Ranges[k] == RangeFor(c).value;
  }

  /** The state the clipping loop reaches is the clipped table and its report. */
  lemma ClipLoopDone(t: Table, u: Table, outliers: map<string, nat>)
    requires WellFormed(t) && ClippedUpTo(t, u, |Ranges|)
    requires outliers == OutliersOf(t, Visited(|Ranges|))
    ensures u == Clipped(t) && outliers == OutlierReport(t)
  {
    forall c | RangeFor(c).Some? ensures c in Visited(|Ranges|) { VisitedAll(c); }
    TableEq(u, Clipped(t));
  }

  /** A column without a missing cell is left alone by its fill. */
  lemma FillNothing(t: Table, c: string, i: nat)
    requires WellFormed(t) && c in t.columns && c !in MissingColumns(t) && i < |t.rows|
    ensures FillCell(FillValue(Column(t, c)), t.rows[i][c]) == t.rows[i][c]
  {
    CountZero(Column(t, c), IsMissingCell);
    assert !IsMissingCell(Column(t, c)[i]);
  }

  /** The state the imputation loop reaches is the imputed table. */
  lemma FillLoopDone(t: Table, u: Table)
    requires WellFormed(t) && FilledUpTo(t, u, MissingColumns(t))
    ensures u == Imputed(t)
  {
    forall i, c | 0 <= i < |t.rows| && c in t.rows[i] && c !in MissingColumns(t)
      ensures u.rows[i][c] == Imputed(t).rows[i][c]
    {
      FillNothing(t, c, i);
    }
    TableEq(u, Imputed(t));
  }

  /** The imputation loop's state: the columns in done are filled, every
      other cell is as it was. */
  ghost predicate FilledUpTo(t: Table, u: Table, done: set<string>) {
    && u.columns == t.columns && |u.rows| == |t.rows|
    && (forall i :: 0 <= i < |t.rows| ==> u.rows[i].Keys == t.rows[i].Keys)
    && (forall i, c :: 0 <= i < |t.rows| && c in t.rows[i] ==>
          u.rows[i][c] == if c in done then FillCell(FillValue(Column(t, c)), t.rows[i][c]) else t.rows[i][c])
  }

  /** A column the loop has not filled yet reads as in the original table,
      and filling it extends the loop's state by that column. */
  lemma FillStep(t: Table, u: Table, done: set<string>, col: string)
    requires WellFormed(t) && FilledUpTo(t, u, done) && col in t.columns && col !in done
    ensures Column(u, col) == Column(t, col)
    ensures var fill := FillValue(Column(t, col));
      FilledUpTo(t, if fill.Some? then FillColumn(u, col, fill.value) else u, done + {col})
  {
    var fill := FillValue(Column(t, col));
    if fill.None? {
      forall i | 0 <= i < |t.rows| ensures FillCell(fill, t.rows[i][col]) == t.rows[i][col] { }
    }
  }

  /** Moving one element from todo to done keeps their union and keeps them apart. */
  lemma MoveOne(done: set<string>, todo: set<string>, x: string)
    requires done !! todo && x in todo
    ensures (done + {x}) + (todo - {x}) == done + todo && (done + {x}) !! (todo - {x})
  {
  }

  /** The missing counts of the columns in done. */
  ghost function ReportOf(t: Table, done: set<string>): map<string, nat> {
    map c | c in done :: CountMissing(Column(t, c))
  }

  lemma ReportStep(t: Table, done: set<string>, col: string)
    ensures ReportOf(t, done + {col}) == ReportOf(t, done)[col := CountMissing(Column(t, col))]
  {
  }

  /** The report entries of the visited columns. */
  ghost function OutliersOf(t: Table, visited: set<string>): map<string, nat> {
    map c | c in visited && c in t.columns && OutlierCount(t, c) > 0 :: OutlierCount(t, c)
  }

  /** Visiting the k-th range adds its column to the report exactly when the
      column is present with a number outside the range. */
  lemma OutliersStep(t: Table, k: nat)
    requires k < |Ranges|
    ensures var rg := Ranges[k];
      var n := CountOutside(Column(t, rg.column), rg.lo, rg.hi);
      OutliersOf(t, Visited(k + 1)) ==
        if rg.column in t.columns && n > 0 then OutliersOf(t, Visited(k))[rg.column := n]
        else OutliersOf(t, Visited(k))
  {
    VisitedStep(k);
  }

  /** The clipping loop's state after k ranges. */
  ghost predicate ClippedUpTo(t: Table, u: Table, k: nat) {
    && u.columns == t.columns && |u.rows| == |t.rows|
    && (forall i :: 0 <= i < |t.rows| ==> u.rows[i].Keys == t.rows[i].Keys)
    && (forall i, c :: 0 <= i < |t.rows| && c in t.rows[i] ==>
          u.rows[i][c] == if c in Visited(k) then ClipCellFor(c, t.rows[i][c]) else t.rows[i][c])
  }

  lemma ClipStart(t: Table)
    ensures ClippedUpTo(t, t, 0) && OutliersOf(t, Visited(0)) == map[]
  {
    assert Visited(0) == {};
  }

  /** The k-th range's column reads as in the original table; clipping it,
      or leaving it when nothing lies outside, extends the loop's state. */
  lemma ClipStep(t: Table, u: Table, k: nat)
    requires WellFormed(t) && k < |Ranges| && ClippedUpTo(t, u, k)
    ensures Ranges[k].lo < Ranges[k].hi
    ensures Column(u, Ranges[k].column) == Column(t, Ranges[k].column)
    ensures Ranges[k].column in t.columns ==>
      ClippedUpTo(t, ClipColumn(u, Ranges[k].column, Ranges[k].lo, Ranges[k].hi), k + 1)
    ensures Ranges[k].column in t.columns && CountOutside(Column(t, Ranges[k].column), Ranges[k].lo, Ranges[k].hi) == 0 ==>
      ClippedUpTo(t, u, k + 1)
    ensures Ranges[k].column !in t.columns ==> ClippedUpTo(t, u, k + 1)
  {
    var rg := Ranges[k];
    VisitedStep(k);
    if rg.column in t.columns && CountOutside(Column(t, rg.column), rg.lo, rg.hi) == 0 {
      forall i | 0 <= i < |t.rows| ensures Clip(t.rows[i][rg.column], rg.lo, rg.hi) == t.rows[i][rg.column] {
        ClipNoOutliers(Column(t, rg.column), rg.lo, rg.hi, i);
      }
    }
  }

  class DataCleaner {
    /** hashlib, pd.to_numeric and float formatting, as the model sees them. */
    const platform: Platform
    /** self.df: None until a table is loaded. */
    var df: Option<Table>
    /** self.cleaning_report: the report of the last clean, if any. */
    var cleaningReport: Option<CleaningReport>

    /** A table is loaded and every row has exactly its columns. */
    ghost predicate Loaded()
      reads this
    {
      df.Some? && WellFormed(df.value)
    }

    constructor(p: Platform)
      ensures platform == p && df == None && cleaningReport == None
    {
      platform := p;
      df := None;
      cleaningReport := None;
    }

    /** load_data, with the parsed CSV given as the input table. */
    method LoadData(input: Table) returns (loaded: Table)
      modifies this
      ensures df == Some(input) && loaded == input
      ensures cleaningReport == old(cleaningReport)
    {
      df := Some(input);
      loaded := input;
    }

    /** convert_types: every present numeric column coerced to numbers. */
    method ConvertTypes()
      requires Loaded()
      modifies this
      ensures Loaded() && Coerced(df.value)
      ensures df == Some(Converted(platform, old(df).value))
      ensures cleaningReport == old(cleaningReport)
    {
      ConvertedShape(platform, df.value);
      var u := CoerceNumericColumns(platform, df.value);
      df := Some(u);
    }

    /** remove_duplicates: the rows dropped and the count of them. */
    method RemoveDuplicates() returns (duplicatesRemoved: int)
      requires Loaded() && HasIdentity(df.value)
      modifies this
      ensures Loaded() && HasIdentity(df.value)
      ensures df == Some(Deduplicated(old(df).value))
      ensures duplicatesRemoved == |old(df).value.rows| - |df.value.rows|
      ensures duplicatesRemoved >= 0
      ensures duplicatesRemoved == 0 <==> UniqueKeys(old(df).value.rows, RowKey)
      ensures Coerced(old(df).value) ==> Coerced(df.value)
      ensures cleaningReport == old(cleaningReport)
    {
      var t := df.value;
      var initialCount := |t.rows|;
      DeduplicatedShape(t);
      DeduplicatedProperties(t);
      df := Some(Deduplicated(t));
      duplicatesRemoved := initialCount - |df.value.rows|;
    }

    /** handle_missing_values: each column with a gap is filled, one column
        at a time, and reported with its count of missing cells. */
    method HandleMissingValues() returns (missingStats: map<string, nat>)
      requires Loaded()
      modifies this
      ensures Loaded() && df.value.columns == old(df).value.columns
      ensures df == Some(Imputed(old(df).value))
      ensures missingStats == MissingReport(old(df).value)
      ensures Coerced(old(df).value) ==> Coerced(df.value)
      ensures cleaningReport == old(cleaningReport)
    {
      var t := df.value;
      ImputedShape(t);
      if Coerced(t) { ImputedCoerced(t); }
      missingStats := map[];
      var columnsWithMissing := MissingColumns(t);
      if columnsWithMissing == {} {
        FillLoopDone(t, t);
        return;
      }
      var u := t;
      var todo := columnsWithMissing;
      ghost var done: set<string> := {};
      while todo != {}
        invariant done + todo == columnsWithMissing && done !! todo
        invariant FilledUpTo(t, u, done)
        invariant missingStats == ReportOf(t, done)
        invariant df == old(df) && cleaningReport == old(cleaningReport)
        decreases todo
      {
        var col :| col in todo;
        FillStep(t, u, done, col);
        var column := Column(u, col);
        var missingCount := CountMissing(column);
        ReportStep(t, done, col);
        missingStats := missingStats[col := missingCount];
        if NumericColumn(column) {
          var values := Values(column);
          if values != [] {
            u := FillColumn(u, col, Num(Median(values)));
          }
          // Otherwise the median is NaN, and filling with NaN changes nothing.
        } else {
          u := FillColumn(u, col, Text("Unknown"));
        }
        MoveOne(done, todo, col);
        done := done + {col};
        todo := todo - {col};
      }
      FillLoopDone(t, u);
      df := Some(u);
    }

    /** validate_numeric_ranges: for each range in order, a present column
        with numbers outside it is reported and clipped. */
    method ValidateNumericRanges() returns (outliers: map<string, nat>)
      requires Loaded() && Coerced(df.value)
      modifies this
      ensures Loaded() && Coerced(df.value) && df.value.columns == old(df).value.columns
      ensures df == Some(Clipped(old(df).value))
      ensures outliers == OutlierReport(old(df).value)
      ensures cleaningReport == old(cleaningReport)
    {
      var t := df.value;
      ClippedShape(t);
      ClippedCoerced(t);
      outliers := map[];
      var u := t;
      ClipStart(t);
      for k := 0 to |Ranges|
        invariant ClippedUpTo(t, u, k)
        invariant outliers == OutliersOf(t, Visited(k))
        invariant df == old(df) && cleaningReport == old(cleaningReport)
      {
        ClipStep(t, u, k);
        OutliersStep(t, k);
        var rg := Ranges[k];
        if rg.column in u.columns {
          var outOfRange := CountOutside(Column(u, rg.column), rg.lo, rg.hi);
          if outOfRange > 0 {
            outliers := outliers[rg.column := outOfRange];
            u := ClipColumn(u, rg.column, rg.lo, rg.hi);
          }
        }
      }
      ClipLoopDone(t, u, outliers);
      df := Some(u);
    }

    /** ensure_geolocation: both coordinate columns written from each row's
        identity when either is absent; nothing changes otherwise. */
    method EnsureGeolocation()
      requires Loaded() && (HasCoordinates(df.value) || HasIdentity(df.value))
      modifies this
      ensures Loaded() && HasCoordinates(df.value)
      ensures df == Some(WithCoordinates(platform, old(df).value))
      ensures cleaningReport == old(cleaningReport)
    {
      var t := df.value;
      if !HasCoordinates(t) {
        WithCoordinatesShape(platform, t);
      }
      df := Some(WithCoordinates(platform, t));
    }

    /** generate_statistics, without the numeric summary. */
    method GenerateStatistics() returns (stats: Statistics)
      requires df.Some? && HasIdentity(df.value)
      ensures stats.totalRows == |df.value.rows| && stats.totalColumns == |df.value.columns|
      ensures stats.countries == |(set x | x in Column(df.value, Country))|
      ensures stats.cities == |(set x | x in Column(df.value, CityName))|
    {
      stats := StatisticsOf(df.value);
    }

    /** clean: the stages in order, the report assembled from their results
        and kept in cleaningReport. */
    method Clean(input: Table) returns (report: CleaningReport)
      requires WellFormed(input) && HasIdentity(input)
      modifies this
      ensures df == Some(CleanedTable(platform, input))
      ensures report == CleanedReport(platform, input)
      ensures cleaningReport == Some(report)
    {
      var _ := LoadData(input);
      ConvertTypes();
      ghost var converted := df.value;
      assert converted.columns == input.columns;
      var duplicates := RemoveDuplicates();
      ghost var deduplicated := df.value;
      var missing := HandleMissingValues();
      ghost var imputed := df.value;
      assert imputed.columns == input.columns;
      var outliers := ValidateNumericRanges();
      EnsureGeolocation();
      assert df.value == CleanedTable(platform, input);
      var stats := GenerateStatistics();
      assert stats == StatisticsOf(df.value);
      report := CleaningReport(duplicates, missing, outliers, stats);
      cleaningReport := Some(report);
    }
  }
}
