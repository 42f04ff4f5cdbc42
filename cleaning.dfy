/** The cleaning stages of DataCleaner (src/clean_data.py) as functions from
    the table before a stage to the table after it, with the count each stage
    reports. The class in data_cleaner.dfy runs them in place. */
module Cleaning {
  import opened Tables
  import opened Sequences
  import opened Ordering
  import opened Geocoder

  // =======================================================================
  // convert_types (src/clean_data.py:126-145)

  /** pd.to_numeric(x, errors="coerce") on one cell. */
  function ToNumeric(p: Platform, x: Cell): (y: Cell)
    ensures IsNumeric(y)
    ensures x.Num? ==> y == x
    ensures x.Missing? ==> y == Missing
    ensures x.Text? ==> (y.Missing? <==> p.parseNumber(x.s).None?)
    ensures x.Text? && p.parseNumber(x.s).Some? ==> y == Num(p.parseNumber(x.s).value)
  {
    match x
    case Num(_) => x
    case Missing => Missing
    case Text(s) =>
      match p.parseNumber(s)
      case Some(v) => Num(v)
      case None => Missing
  }

  function ConvertRow(p: Platform, r: Row): Row {
    map c | c in r :: if c in NumericColumns then ToNumeric(p, r[c]) else r[c]
  }

  /** The table after convert_types. */
  function Converted(p: Platform, t: Table): (u: Table)
    ensures u.columns == t.columns && |u.rows| == |t.rows|
    ensures forall i :: 0 <= i < |t.rows| ==> u.rows[i].Keys == t.rows[i].Keys
  {
    Table(t.columns, seq(|t.rows|, i requires 0 <= i < |t.rows| => ConvertRow(p, t.rows[i])))
  }

  /** df[col] = pd.to_numeric(df[col], errors="coerce") for one present column. */
  function CoerceColumn(p: Platform, t: Table, col: string): (u: Table)
    ensures u.columns == t.columns && |u.rows| == |t.rows|
    ensures forall i :: 0 <= i < |t.rows| ==> u.rows[i].Keys == t.rows[i].Keys
    ensures forall i, c :: 0 <= i < |t.rows| && c in t.rows[i] ==>
      u.rows[i][c] == if c == col then ToNumeric(p, t.rows[i][c]) else t.rows[i][c]
  {
    Table(t.columns, seq(|t.rows|, i requires 0 <= i < |t.rows| =>
      if col in t.rows[i] then t.rows[i][col := ToNumeric(p, t.rows[i][col])] else t.rows[i]))
  }

  lemma NumericColumnsDistinct()
    ensures forall j, k :: 0 <= j < k < |NumericColumns| ==> NumericColumns[j] != NumericColumns[k]
  {
  }

  /** The loop over the ten numeric columns, shared by convert_types
      (src/clean_data.py:141-143) and _preprocess_data
      (src/data_processor.py:72-74): absent columns are skipped. */
  method CoerceNumericColumns(p: Platform, t: Table) returns (u: Table)
    requires WellFormed(t)
    ensures u == Converted(p, t)
  {
    u := t;
    for k := 0 to |NumericColumns|
      invariant u.columns == t.columns && |u.rows| == |t.rows|
      invariant forall i :: 0 <= i < |t.rows| ==> u.rows[i].Keys == t.rows[i].Keys
      invariant forall i, c :: 0 <= i < |t.rows| && c in t.rows[i] ==>
        u.rows[i][c] == if c in NumericColumns[..k] then ToNumeric(p, t.rows[i][c]) else t.rows[i][c]
    {
      var col := NumericColumns[k];
      assert col !in NumericColumns[..k] by { NumericColumnsDistinct(); }
      if col in u.columns {
        u := CoerceColumn(p, u, col);
      }
      assert NumericColumns[..k + 1] == NumericColumns[..k] + [col];
    }
    assert NumericColumns[..|NumericColumns|] == NumericColumns;
    TableEq(u, Converted(p, t));
  }

  /** convert_types changes only the present numeric columns: a number keeps
      its value, text becomes its parsed number or missing, and afterwards
      those columns hold no text. Every other cell is unchanged. */
  lemma ConvertedProperties(p: Platform, t: Table)
    requires WellFormed(t)
    ensures var u := Converted(p, t);
      && WellFormed(u) && u.columns == t.columns && |u.rows| == |t.rows|
      && Coerced(u)
      && (forall i, c :: 0 <= i < |t.rows| && c in t.columns && c !in NumericColumns ==>
            u.rows[i][c] == t.rows[i][c])
      && (forall i, c :: 0 <= i < |t.rows| && c in t.columns && c in NumericColumns ==>
            u.rows[i][c] == ToNumeric(p, t.rows[i][c]))
  {
  }

  // =======================================================================
  // remove_duplicates (src/clean_data.py:34-50)

  /** The deduplication subset ["city_name", "country"]. */
  function RowKey(r: Row): (Cell, Cell) {
    (At(r, CityName), At(r, Country))
  }

  /** drop_duplicates(subset=["city_name", "country"], keep="first"). */
  function Deduplicated(t: Table): (u: Table)
    ensures u.columns == t.columns && |u.rows| <= |t.rows|
    ensures forall k :: 0 <= k < |u.rows| ==> u.rows[k] in t.rows
  {
    DedupByProperties(t.rows, RowKey);
    var rows := DedupBy(t.rows, RowKey);
    assert forall k :: 0 <= k < |rows| ==> rows[k] in rows;
    Table(t.columns, rows)
  }

  /** Deduplication keeps whole rows of the input, so it keeps the table's
      shape and its coerced numeric columns. */
  lemma DeduplicatedShape(t: Table)
    requires WellFormed(t)
    ensures WellFormed(Deduplicated(t)) && Deduplicated(t).columns == t.columns
    ensures Coerced(t) ==> Coerced(Deduplicated(t))
  {
    var u := Deduplicated(t);
    DedupByProperties(t.rows, RowKey);
    forall i | 0 <= i < |u.rows| ensures u.rows[i].Keys == t.columns {
      assert u.rows[i] in t.rows;
    }
    if Coerced(t) {
      forall i, c | 0 <= i < |u.rows| && c in NumericColumns ensures IsNumeric(At(u.rows[i], c)) {
        assert u.rows[i] in t.rows;
      }
    }
  }

  /** After remove_duplicates no two rows share (city_name, country), every
      pair of the input survives, the kept rows are the first occurrences in
      their original order, and the count removed is zero exactly when the
      input had no duplicate pair. */
  lemma DeduplicatedProperties(t: Table)
    ensures var u := Deduplicated(t);
      && UniqueKeys(u.rows, RowKey)
      && (forall i :: 0 <= i < |t.rows| ==>
            exists k :: 0 <= k < |u.rows| && RowKey(u.rows[k]) == RowKey(t.rows[i]))
      && u.rows == Select(t.rows, FirstIndices(t.rows, RowKey))
      && |u.rows| <= |t.rows|
      && (|t.rows| - |u.rows| == 0 <==> UniqueKeys(t.rows, RowKey))
  {
    DedupByProperties(t.rows, RowKey);
    DedupByKeepsAll(t.rows, RowKey);
  }

  // =======================================================================
  // handle_missing_values (src/clean_data.py:52-85)

  predicate IsMissingCell(x: Cell) { x.Missing? }

  /** isnull().sum() of one column. */
  function CountMissing(col: seq<Cell>): nat {
    Count(col, IsMissingCell)
  }

  /** The column's dtype is float64: nothing in it but numbers and NaN. */
  predicate NumericColumn(col: seq<Cell>) {
    forall k | 0 <= k < |col| :: IsNumeric(col[k])
  }

  predicate IsNumberCell(x: Cell) { x.Num? }

  function HoldsNumber(v: real): Cell -> bool {
    (x: Cell) => x == Num(v)
  }

  /** The non-missing numbers of a column, top to bottom: each number as
      often as the column holds it (ValuesCount), and nothing else. */
  function Values(col: seq<Cell>): (vs: seq<real>)
    ensures |vs| == Count(col, IsNumberCell)
    ensures forall k :: 0 <= k < |vs| ==> Num(vs[k]) in col
    ensures (exists k :: 0 <= k < |col| && col[k].Num?) ==> vs != []
  {
    if col == [] then []
    else
      var init := col[..|col| - 1];
      var last := col[|col| - 1];
      assert forall x :: x in init ==> x in col;
      var prev := Values(init);
      var tail := if last.Num? then [last.v] else [];
      prev + tail
  }

  /** Values holds each number exactly as often as the column does. */
  lemma {:induction false} ValuesCount(col: seq<Cell>, v: real)
    ensures multiset(Values(col))[v] == Count(col, HoldsNumber(v))
  {
    if col != [] {
      var init, last := col[..|col| - 1], col[|col| - 1];
      ValuesCount(init, v);
      var tail := if last.Num? then [last.v] else [];
      assert Values(col) == Values(init) + tail;
      assert multiset(Values(col)) == multiset(Values(init)) + multiset(tail);
      assert HoldsNumber(v)(last) <==> last.Num? && last.v == v;
    }
  }

  /** What fillna puts into a column's missing cells: the median of its
      numbers for a numeric column (nothing when it has none: the median is
      NaN), "Unknown" for any other column. */
  function FillValue(col: seq<Cell>): (r: Option<Cell>)
    ensures !NumericColumn(col) ==> r == Some(Text("Unknown"))
    ensures r.None? <==> NumericColumn(col) && forall k :: 0 <= k < |col| ==> !col[k].Num?
    ensures NumericColumn(col) && r.Some? ==> r.value.Num?
    ensures NumericColumn(col) && r.Some? ==> exists i, j ::
      0 <= i < |col| && 0 <= j < |col| && col[i].Num? && col[j].Num? && col[i].v <= r.value.v <= col[j].v
  {
    if NumericColumn(col) then
      var vs := Values(col);
      if vs == [] then
        CountZero(col, IsNumberCell);
        assert forall k :: 0 <= k < |col| ==> !IsNumberCell(col[k]);
        None
      else
        FillWithinObserved(col);
        Some(Num(Median(vs)))
    else Some(Text("Unknown"))
  }

  /** The fill value of a numeric column depends only on how often each
      number occurs in it: not on the order of the rows, nor on where the
      gaps are. */
  lemma FillValueOfSameNumbers(a: seq<Cell>, b: seq<Cell>)
    requires NumericColumn(a) && NumericColumn(b)
    requires forall v :: Count(a, HoldsNumber(v)) == Count(b, HoldsNumber(v))
    ensures FillValue(a) == FillValue(b)
  {
    var va, vb := Values(a), Values(b);
    forall v ensures multiset(va)[v] == multiset(vb)[v] {
      ValuesCount(a, v);
      ValuesCount(b, v);
    }
    assert multiset(va) == multiset(vb);
    if va != [] {
      MedianOfSameValues(va, vb);
    } else {
      assert |vb| == |multiset(vb)| == 0;
    }
  }

  function FillCell(fill: Option<Cell>, x: Cell): Cell {
    if x.Missing? && fill.Some? then fill.value else x
  }

  function ImputeRow(t: Table, r: Row): Row {
    map c | c in r :: FillCell(FillValue(Column(t, c)), r[c])
  }

  /** The table after handle_missing_values. */
  function Imputed(t: Table): (u: Table)
    ensures u.columns == t.columns && |u.rows| == |t.rows|
    ensures forall i :: 0 <= i < |t.rows| ==> u.rows[i].Keys == t.rows[i].Keys
  {
    Table(t.columns, seq(|t.rows|, i requires 0 <= i < |t.rows| => ImputeRow(t, t.rows[i])))
  }

  /** The columns that have at least one missing cell. */
  function MissingColumns(t: Table): set<string> {
    set c | c in t.columns && CountMissing(Column(t, c)) > 0
  }

  /** Row r has no value in column c. */
  function MissingIn(c: string): Row -> bool {
    (r: Row) => At(r, c).Missing?
  }

  /** isnull().sum() of a column is the number of rows missing that column. */
  lemma {:induction false} CountMissingRows(col: seq<Cell>, rows: seq<Row>, c: string)
    requires |col| == |rows|
    requires forall i :: 0 <= i < |rows| ==> col[i] == At(rows[i], c)
    ensures CountMissing(col) == Count(rows, MissingIn(c))
  {
    if rows != [] {
      var n := |rows| - 1;
      CountMissingRows(col[..n], rows[..n], c);
      assert IsMissingCell(col[n]) == MissingIn(c)(rows[n]);
    }
  }

  /** The report of handle_missing_values: each column with a missing cell,
      mapped to its number of missing cells before filling. */
  function MissingReport(t: Table): (r: map<string, nat>)
    ensures forall c :: c in r ==> c in t.columns && 0 < r[c] <= |t.rows|
    ensures forall c :: c in r ==> r[c] == Count(t.rows, MissingIn(c))
  {
    assert forall c :: c in MissingColumns(t) ==> CountMissing(Column(t, c)) == Count(t.rows, MissingIn(c)) by {
      forall c | c in MissingColumns(t) ensures CountMissing(Column(t, c)) == Count(t.rows, MissingIn(c)) {
        CountMissingRows(Column(t, c), t.rows, c);
      }
    }
    map c | c in MissingColumns(t) :: CountMissing(Column(t, c))
  }

  /** fillna(value, inplace=True) on one column. */
  function FillColumn(t: Table, col: string, value: Cell): (u: Table)
    ensures u.columns == t.columns && |u.rows| == |t.rows|
    ensures forall i :: 0 <= i < |t.rows| ==> u.rows[i].Keys == t.rows[i].Keys
    ensures forall i, c :: 0 <= i < |t.rows| && c in t.rows[i] ==>
      u.rows[i][c] == if c == col then FillCell(Some(value), t.rows[i][c]) else t.rows[i][c]
  {
    Table(t.columns, seq(|t.rows|, i requires 0 <= i < |t.rows| =>
      if col in t.rows[i] then t.rows[i][col := FillCell(Some(value), t.rows[i][col])] else t.rows[i]))
  }

  /** A column whose cells are all the same in two tables has the same
      missing count and the same fill value in both. */
  lemma SameColumn(t: Table, u: Table, c: string)
    requires |t.rows| == |u.rows|
    requires forall i :: 0 <= i < |t.rows| ==> At(t.rows[i], c) == At(u.rows[i], c)
    ensures Column(t, c) == Column(u, c)
  {
  }

  /** A column is imputable when it has no missing cell or has a fill value. */
  predicate Imputable(col: seq<Cell>) {
    CountMissing(col) == 0 || FillValue(col).Some?
  }

  /** The report of handle_missing_values names exactly the columns that
      had a missing cell, each with its isnull().sum() before filling, and
      is empty exactly when no cell was missing. */
  lemma MissingReportProperties(t: Table)
    requires WellFormed(t)
    ensures MissingReport(t).Keys == MissingColumns(t)
    ensures forall c :: c in MissingReport(t) ==> MissingReport(t)[c] > 0
    ensures forall c :: c in MissingReport(t) ==> MissingReport(t)[c] == CountMissing(Column(t, c))
    ensures forall c :: c in t.columns && CountMissing(Column(t, c)) > 0 ==> c in MissingReport(t)
    ensures MissingReport(t) == map[] <==>
      forall i, c :: 0 <= i < |t.rows| && c in t.columns ==> !t.rows[i][c].Missing?
  {
    if MissingReport(t) == map[] {
      forall i, c | 0 <= i < |t.rows| && c in t.columns ensures !t.rows[i][c].Missing? {
        assert c !in MissingReport(t);
        assert c !in MissingColumns(t);
        CountZero(Column(t, c), IsMissingCell);
        assert IsMissingCell(Column(t, c)[i]) == t.rows[i][c].Missing?;
      }
    } else {
      var c :| c in MissingReport(t);
      assert CountMissing(Column(t, c)) > 0;
      CountZero(Column(t, c), IsMissingCell);
    }
  }

  /** handle_missing_values leaves non-missing cells alone, fills a numeric
      column's gaps with the median of its numbers and a text column's with
      "Unknown". */
  lemma ImputedCells(t: Table)
    requires WellFormed(t)
    ensures var u := Imputed(t);
      && WellFormed(u) && u.columns == t.columns && |u.rows| == |t.rows|
      && (forall i, c :: 0 <= i < |t.rows| && c in t.columns && !t.rows[i][c].Missing? ==>
            u.rows[i][c] == t.rows[i][c])
      && (forall i, c ::
            0 <= i < |t.rows| && c in t.columns && t.rows[i][c].Missing? &&
            NumericColumn(Column(t, c)) && Values(Column(t, c)) != [] ==>
            u.rows[i][c] == Num(Median(Values(Column(t, c)))))
      && (forall i, c ::
            0 <= i < |t.rows| && c in t.columns && t.rows[i][c].Missing? &&
            !NumericColumn(Column(t, c)) ==>
            u.rows[i][c] == Text("Unknown"))
  {
  }

  /** After handle_missing_values no cell is missing, provided every column
      with a gap has something to fill it with. */
  lemma ImputedComplete(t: Table)
    requires WellFormed(t)
    requires forall c :: c in t.columns ==> Imputable(Column(t, c))
    ensures Complete(Imputed(t))
  {
    var u := Imputed(t);
    forall i, c | 0 <= i < |t.rows| && c in t.columns ensures !At(u.rows[i], c).Missing? {
      var col := Column(t, c);
      if t.rows[i][c].Missing? {
        CountZero(col, IsMissingCell);
        assert IsMissingCell(col[i]);
        assert FillValue(col).Some?;
        if NumericColumn(col) {
          assert FillValue(col).value.Num?;
        }
      }
    }
  }

  lemma NumIndex(col: seq<Cell>, v: real) returns (i: nat)
    requires Num(v) in col
    ensures i < |col| && col[i] == Num(v)
  {
    i :| 0 <= i < |col| && col[i] == Num(v);
  }

  /** The median that fills a numeric column lies between two of the
      column's own numbers. */
  lemma {:induction false} FillWithinObserved(col: seq<Cell>)
    requires NumericColumn(col) && Values(col) != []
    ensures exists i, j ::
      0 <= i < |col| && 0 <= j < |col| && col[i].Num? && col[j].Num? &&
      col[i].v <= Median(Values(col)) <= col[j].v
  {
    var vs := Values(col);
    var m := Median(vs);
    var a, b :| 0 <= a < |vs| && 0 <= b < |vs| && vs[a] <= m <= vs[b];
    var i := NumIndex(col, vs[a]);
    var j := NumIndex(col, vs[b]);
    assert col[i].v <= m <= col[j].v;
  }

  /** Imputation keeps every numeric column free of text. */
  lemma ImputedCoerced(t: Table)
    requires WellFormed(t) && Coerced(t)
    ensures Coerced(Imputed(t))
  {
    var u := Imputed(t);
    forall i, c | 0 <= i < |u.rows| && c in NumericColumns ensures IsNumeric(At(u.rows[i], c)) {
      if c in t.columns && t.rows[i][c].Missing? {
        assert NumericColumn(Column(t, c)) by {
          forall k | 0 <= k < |t.rows| ensures IsNumeric(Column(t, c)[k]) {
            assert IsNumeric(At(t.rows[k], c));
          }
        }
      }
    }
  }

  // =======================================================================
  // validate_numeric_ranges (src/clean_data.py:87-124)

  datatype Range = Range(column: string, lo: real, hi: real)

  /** The validation table, in the order the loop visits it. */
  const Ranges: seq<Range> := [
    Range(PopulationDensity, 0.0, 100000.0),
    Range(AvgIncome, 0.0, 200000.0),
    Range(InternetPenetration, 0.0, 100.0),
    Range(AvgRent, 0.0, 50000.0),
    Range(AirQualityIndex, 0.0, 500.0),
    Range(PublicTransportScore, 0.0, 100.0),
    Range(HappinessScore, 0.0, 10.0),
    Range(GreenSpaceRatio, 0.0, 100.0)
  ]

  function Find(rs: seq<Range>, c: string): (r: Option<Range>)
    ensures r.Some? ==> r.value in rs && r.value.column == c
    ensures r.None? ==> forall k :: 0 <= k < |rs| ==> rs[k].column != c
  {
    if rs == [] then None
    else if rs[0].column == c then Some(rs[0])
    else Find(rs[1..], c)
  }

  /** The range column c is validated against, if any. */
  function RangeFor(c: string): (r: Option<Range>)
    ensures r.Some? ==> r.value.lo < r.value.hi && r.value.column == c && c in MetricColumns
  {
    Find(Ranges, c)
  }

  /** Each of the eight ranges is the one its column is looked up with. */
  lemma RangeForEntry(k: nat)
    requires k < |Ranges|
    ensures RangeFor(Ranges[k].column) == Some(Ranges[k])
  {
  }

  function OutsideOf(lo: real, hi: real): Cell -> bool {
    (x: Cell) => x.Num? && (x.v < lo || x.v > hi)
  }

  /** len(df[(df[col] < min) | (df[col] > max)]): NaN compares false. */
  function CountOutside(col: seq<Cell>, lo: real, hi: real): nat {
    Count(col, OutsideOf(lo, hi))
  }

  /** Series.clip(lo, hi) on one cell: NaN stays NaN. */
  function Clip(x: Cell, lo: real, hi: real): (y: Cell)
    requires lo <= hi
    ensures x.Num? <==> y.Num?
    ensures y.Num? ==> lo <= y.v <= hi
    ensures x.Num? && lo <= x.v <= hi ==> y == x
    ensures !x.Num? ==> y == x
  {
    if x.Num? then Num(if x.v < lo then lo else if x.v > hi then hi else x.v) else x
  }

  function ClipCellFor(c: string, x: Cell): Cell {
    match RangeFor(c)
    case Some(rg) => Clip(x, rg.lo, rg.hi)
    case None => x
  }

  function ClipRow(r: Row): Row {
    map c | c in r :: ClipCellFor(c, r[c])
  }

  /** The table after validate_numeric_ranges. */
  function Clipped(t: Table): (u: Table)
    ensures u.columns == t.columns && |u.rows| == |t.rows|
    ensures forall i :: 0 <= i < |t.rows| ==> u.rows[i].Keys == t.rows[i].Keys
  {
    Table(t.columns, seq(|t.rows|, i requires 0 <= i < |t.rows| => ClipRow(t.rows[i])))
  }

  /** df[col] = df[col].clip(lo, hi) for one present column. */
  function ClipColumn(t: Table, col: string, lo: real, hi: real): (u: Table)
    requires lo <= hi
    ensures u.columns == t.columns && |u.rows| == |t.rows|
    ensures forall i :: 0 <= i < |t.rows| ==> u.rows[i].Keys == t.rows[i].Keys
    ensures forall i, c :: 0 <= i < |t.rows| && c in t.rows[i] ==>
      u.rows[i][c] == if c == col then Clip(t.rows[i][c], lo, hi) else t.rows[i][c]
  {
    Table(t.columns, seq(|t.rows|, i requires 0 <= i < |t.rows| =>
      if col in t.rows[i] then t.rows[i][col := Clip(t.rows[i][col], lo, hi)] else t.rows[i]))
  }

  /** How many numbers of column c fall outside its range (none for a
      column without a range). */
  function OutlierCount(t: Table, c: string): nat {
    match RangeFor(c)
    case Some(rg) => CountOutside(Column(t, c), rg.lo, rg.hi)
    case None => 0
  }

  /** The report of validate_numeric_ranges: each present ranged column with
      at least one number outside its range, mapped to how many. */
  function OutlierReport(t: Table): (r: map<string, nat>)
    ensures forall c :: c in r ==> c in t.columns && RangeFor(c).Some? && 0 < r[c] <= |t.rows|
  {
    map c | c in t.columns && OutlierCount(t, c) > 0 :: OutlierCount(t, c)
  }

  /** A column with no number outside [lo, hi] is left as it is by clip. */
  lemma ClipNoOutliers(col: seq<Cell>, lo: real, hi: real, k: nat)
    requires lo <= hi && k < |col|
    requires CountOutside(col, lo, hi) == 0
    ensures Clip(col[k], lo, hi) == col[k]
  {
    CountZero(col, OutsideOf(lo, hi));
    assert !OutsideOf(lo, hi)(col[k]);
  }

  /** Each of the eight ranges is the range of its column. */
  lemma RangesAreLookedUp()
    ensures forall rg :: rg in Ranges ==> RangeFor(rg.column) == Some(rg)
  {
    forall rg | rg in Ranges ensures RangeFor(rg.column) == Some(rg) {
      var k :| 0 <= k < |Ranges| && Ranges[k] == rg;
      RangeForEntry(k);
    }
  }

  lemma RangeLookedUp(rg: Range)
    requires rg in Ranges
    ensures RangeFor(rg.column) == Some(rg)
  {
    var k :| 0 <= k < |Ranges| && Ranges[k] == rg;
    RangeForEntry(k);
  }

  lemma ClippedShape(t: Table)
    requires WellFormed(t)
    ensures WellFormed(Clipped(t)) && Clipped(t).columns == t.columns && |Clipped(t).rows| == |t.rows|
  {
  }

  /** Every number in a present ranged column lies in its range. */
  ghost predicate InRange(t: Table) {
    forall i, rg ::
      0 <= i < |t.rows| && rg in Ranges && At(t.rows[i], rg.column).Num? ==>
      rg.lo <= At(t.rows[i], rg.column).v <= rg.hi
  }

  /** After validate_numeric_ranges every number in a ranged column lies in
      its range. */
  lemma ClippedInRange(t: Table)
    requires WellFormed(t)
    ensures InRange(Clipped(t))
  {
    var u := Clipped(t);
    forall i, rg | 0 <= i < |u.rows| && rg in Ranges && At(u.rows[i], rg.column).Num?
      ensures rg.lo <= At(u.rows[i], rg.column).v <= rg.hi
    {
      RangeLookedUp(rg);
      assert u.rows[i][rg.column] == Clip(t.rows[i][rg.column], rg.lo, rg.hi);
    }
  }

  /** Numbers already in range, and missing cells, are left as they are. */
  lemma ClippedKeepsInRange(t: Table)
    requires WellFormed(t)
    ensures forall i, rg ::
      0 <= i < |t.rows| && rg in Ranges && rg.column in t.columns &&
      !OutsideOf(rg.lo, rg.hi)(t.rows[i][rg.column]) ==>
      Clipped(t).rows[i][rg.column] == t.rows[i][rg.column]
  {
    RangesAreLookedUp();
  }

  /** Columns without a range are untouched. */
  lemma ClippedKeepsUnranged(t: Table)
    requires WellFormed(t)
    ensures forall i, c :: 0 <= i < |t.rows| && c in t.columns && RangeFor(c).None? ==>
      Clipped(t).rows[i][c] == t.rows[i][c]
  {
  }

  /** Clipping keeps numbers numbers and missing cells missing. */
  lemma ClippedKeepsPresent(t: Table)
    requires WellFormed(t)
    ensures forall i, c :: 0 <= i < |t.rows| && c in t.columns ==>
      (Clipped(t).rows[i][c].Missing? <==> t.rows[i][c].Missing?)
  {
  }

  lemma ClippedCoerced(t: Table)
    requires WellFormed(t) && Coerced(t)
    ensures Coerced(Clipped(t))
  {
    forall i, c | 0 <= i < |t.rows| && c in NumericColumns ensures IsNumeric(At(Clipped(t).rows[i], c)) {
      assert IsNumeric(At(t.rows[i], c));
    }
  }

  /** The report names exactly the present columns that had a number out of
      range, each with a positive count, and a ranged column it does not
      name is left untouched. */
  lemma OutlierReportProperties(t: Table)
    requires WellFormed(t)
    ensures forall c :: c in OutlierReport(t) ==> c in t.columns && RangeFor(c).Some? && OutlierReport(t)[c] > 0
    ensures forall rg, i ::
      rg in Ranges && rg.column in t.columns && rg.column !in OutlierReport(t) && 0 <= i < |t.rows| ==>
      Clipped(t).rows[i][rg.column] == t.rows[i][rg.column]
  {
    forall rg, i | rg in Ranges && rg.column in t.columns && rg.column !in OutlierReport(t) && 0 <= i < |t.rows|
      ensures Clipped(t).rows[i][rg.column] == t.rows[i][rg.column]
    {
      RangeLookedUp(rg);
      assert OutlierCount(t, rg.column) == 0;
      ClipNoOutliers(Column(t, rg.column), rg.lo, rg.hi, i);
    }
  }

  /** Each named column is mapped to the number of its cells that are
      numbers outside its range (a missing cell is never counted), and every
      present ranged column with such a number is named. */
  lemma OutlierReportCounts(t: Table)
    ensures forall c :: c in OutlierReport(t) ==>
      RangeFor(c).Some? && OutlierReport(t)[c] == CountOutside(Column(t, c), RangeFor(c).value.lo, RangeFor(c).value.hi)
    ensures forall rg :: rg in Ranges && rg.column in t.columns && CountOutside(Column(t, rg.column), rg.lo, rg.hi) > 0 ==>
      rg.column in OutlierReport(t)
  {
    forall rg | rg in Ranges && rg.column in t.columns && CountOutside(Column(t, rg.column), rg.lo, rg.hi) > 0
      ensures rg.column in OutlierReport(t)
    {
      RangeLookedUp(rg);
    }
  }

  // =======================================================================
  // generate_statistics, count part (src/clean_data.py:190-196)

  datatype Statistics = Statistics(totalRows: nat, totalColumns: nat, countries: nat, cities: nat)

  /** Row and column counts and len(unique()) of country and city_name. */
  function StatisticsOf(t: Table): (s: Statistics)
    ensures s.totalRows == |t.rows| && s.totalColumns == |t.columns|
    ensures s.countries == |(set x | x in Column(t, Country))|
    ensures s.cities == |(set x | x in Column(t, CityName))|
  {
    DistinctProperties(Column(t, Country));
    DistinctProperties(Column(t, CityName));
    Statistics(|t.rows|, |t.columns|, |Distinct(Column(t, Country))|, |Distinct(Column(t, CityName))|)
  }

  // =======================================================================
  // clean: the stages in order and the report (src/clean_data.py:215-262)

  datatype CleaningReport = CleaningReport(
    duplicatesRemoved: int,
    missingValues: map<string, nat>,
    outliersFound: map<string, nat>,
    finalStatistics: Statistics)

  /** The table clean leaves behind: convert, deduplicate, impute, clip,
      then add coordinates. */
  function CleanedTable(p: Platform, t: Table): (u: Table)
    requires HasIdentity(t)
    ensures u.columns == t.columns + {Latitude, Longitude}
    ensures |u.rows| <= |t.rows|
  {
    WithCoordinates(p, Clipped(Imputed(Deduplicated(Converted(p, t)))))
  }

  /** The report clean returns, each count taken by its own stage. */
  function CleanedReport(p: Platform, t: Table): (r: CleaningReport)
    requires HasIdentity(t)
    ensures r.duplicatesRemoved == |t.rows| - |CleanedTable(p, t).rows| >= 0
    ensures r.missingValues.Keys <= t.columns && r.outliersFound.Keys <= t.columns
    ensures r.finalStatistics.totalRows == |CleanedTable(p, t).rows|
  {
    var converted := Converted(p, t);
    var deduplicated := Deduplicated(converted);
    var imputed := Imputed(deduplicated);
    CleaningReport(
      |converted.rows| - |deduplicated.rows|,
      MissingReport(deduplicated),
      OutlierReport(imputed),
      StatisticsOf(CleanedTable(p, t)))
  }

  /** No cell of either identity column is missing. */
  ghost predicate IdentityPresent(t: Table) {
    forall i :: 0 <= i < |t.rows| ==> !RowKey(t.rows[i]).0.Missing? && !RowKey(t.rows[i]).1.Missing?
  }

  /** Row by row, the two tables carry the same (city_name, country) pairs. */
  ghost predicate SameKeys(a: Table, b: Table) {
    |a.rows| == |b.rows| && forall i :: 0 <= i < |a.rows| ==> RowKey(a.rows[i]) == RowKey(b.rows[i])
  }

  /** Tables with the same keys row by row have unique keys together and
      missing identity cells together. */
  lemma SameKeysTransfer(a: Table, b: Table)
    requires SameKeys(a, b)
    ensures UniqueKeys(a.rows, RowKey) <==> UniqueKeys(b.rows, RowKey)
    ensures IdentityPresent(a) <==> IdentityPresent(b)
  {
    if UniqueKeys(a.rows, RowKey) {
      forall i, j | 0 <= i < j < |b.rows| ensures RowKey(b.rows[i]) != RowKey(b.rows[j]) {
        assert RowKey(a.rows[i]) != RowKey(a.rows[j]);
      }
    }
    if UniqueKeys(b.rows, RowKey) {
      forall i, j | 0 <= i < j < |a.rows| ensures RowKey(a.rows[i]) != RowKey(a.rows[j]) {
        assert RowKey(b.rows[i]) != RowKey(b.rows[j]);
      }
    }
  }

  lemma ConvertedShape(p: Platform, t: Table)
    requires WellFormed(t)
    ensures WellFormed(Converted(p, t)) && Converted(p, t).columns == t.columns
    ensures |Converted(p, t).rows| == |t.rows| && Coerced(Converted(p, t))
  {
    ConvertedProperties(p, t);
  }

  /** Conversion leaves the identity columns alone. */
  lemma ConvertedKeepsKeys(p: Platform, t: Table)
    requires WellFormed(t)
    ensures SameKeys(t, Converted(p, t))
  {
  }

  lemma ImputedShape(t: Table)
    requires WellFormed(t)
    ensures WellFormed(Imputed(t)) && Imputed(t).columns == t.columns && |Imputed(t).rows| == |t.rows|
  {
  }

  /** Imputation leaves the keys of rows with both identity cells alone. */
  lemma ImputedKeepsKeys(t: Table)
    requires WellFormed(t) && HasIdentity(t) && IdentityPresent(t)
    ensures SameKeys(t, Imputed(t))
  {
    ImputedCells(t);
  }

  /** Deduplication keeps rows of its input, so it keeps their identity cells. */
  lemma DeduplicatedIdentityPresent(t: Table)
    requires IdentityPresent(t)
    ensures IdentityPresent(Deduplicated(t))
  {
    DedupByProperties(t.rows, RowKey);
    var d := Deduplicated(t);
    forall i | 0 <= i < |d.rows| ensures !RowKey(d.rows[i]).0.Missing? && !RowKey(d.rows[i]).1.Missing? {
      assert d.rows[i] in t.rows;
    }
  }

  lemma IdentityNotRanged()
    ensures RangeFor(CityName).None? && RangeFor(Country).None?
  {
  }

  /** Clipping and adding coordinates never touch the identity columns. */
  lemma LaterStagesKeepKeys(p: Platform, t: Table)
    requires WellFormed(t) && HasIdentity(t)
    ensures SameKeys(t, WithCoordinates(p, Clipped(t)))
  {
    IdentityNotRanged();
    ClippedShape(t);
    ClippedKeepsUnranged(t);
    WithCoordinatesKeepsOthers(p, Clipped(t));
  }

  /** The table clean leaves behind is well formed, keeps the identity
      columns and has both coordinate columns, and its numeric columns hold
      no text. */
  lemma CleanedShape(p: Platform, t: Table)
    requires WellFormed(t) && HasIdentity(t)
    ensures var u := CleanedTable(p, t);
      WellFormed(u) && HasIdentity(u) && HasCoordinates(u) && Coerced(u)
  {
    var c := Converted(p, t);
    ConvertedShape(p, t);
    var d := Deduplicated(c);
    DeduplicatedShape(c);
    var m := Imputed(d);
    ImputedShape(d);
    ImputedCoerced(d);
    var v := Clipped(m);
    ClippedShape(m);
    ClippedCoerced(m);
    WithCoordinatesShape(p, v);
    WithCoordinatesCoerced(p, v);
  }

  lemma CoordinatesNotRanged()
    ensures forall rg :: rg in Ranges ==> rg.column != Latitude && rg.column != Longitude
  {
  }

  /** Adding coordinates keeps the ranged columns in range. */
  lemma WithCoordinatesInRange(p: Platform, t: Table)
    requires WellFormed(t) && HasIdentity(t) && InRange(t)
    ensures InRange(WithCoordinates(p, t))
  {
    var u := WithCoordinates(p, t);
    WithCoordinatesKeepsOthers(p, t);
    forall i, rg | 0 <= i < |u.rows| && rg in Ranges && At(u.rows[i], rg.column).Num?
      ensures rg.lo <= At(u.rows[i], rg.column).v <= rg.hi
    {
      CoordinatesNotRanged();
      WithCoordinatesShape(p, t);
      if rg.column in t.columns {
        assert u.rows[i][rg.column] == t.rows[i][rg.column];
      }
    }
  }

  /** Every number in a ranged column of the cleaned table lies in its range. */
  lemma CleanedInRange(p: Platform, t: Table)
    requires WellFormed(t) && HasIdentity(t)
    ensures InRange(CleanedTable(p, t))
  {
    var c := Converted(p, t);
    ConvertedShape(p, t);
    var d := Deduplicated(c);
    DeduplicatedShape(c);
    var m := Imputed(d);
    ImputedShape(d);
    ClippedShape(m);
    ClippedInRange(m);
    WithCoordinatesInRange(p, Clipped(m));
  }

  /** No cell of the table is missing. */
  ghost predicate Complete(t: Table) {
    forall i, c :: 0 <= i < |t.rows| && c in t.columns ==> !At(t.rows[i], c).Missing?
  }

  lemma ClippedComplete(t: Table)
    requires WellFormed(t) && Complete(t)
    ensures Complete(Clipped(t))
  {
    ClippedKeepsPresent(t);
  }

  /** Added coordinates are numbers, so a complete table stays complete. */
  lemma WithCoordinatesComplete(p: Platform, t: Table)
    requires WellFormed(t) && HasIdentity(t) && Complete(t)
    ensures Complete(WithCoordinates(p, t))
  {
    var u := WithCoordinates(p, t);
    WithCoordinatesShape(p, t);
    WithCoordinatesKeepsOthers(p, t);
    forall i, c | 0 <= i < |u.rows| && c in u.columns ensures !At(u.rows[i], c).Missing? {
      if c != Latitude && c != Longitude {
        assert At(u.rows[i], c) == At(t.rows[i], c);
      }
    }
  }

  /** When every column of the deduplicated table has something to fill its
      gaps with, the table clean leaves behind has no missing cell. */
  lemma CleanedComplete(p: Platform, t: Table)
    requires WellFormed(t) && HasIdentity(t)
    requires forall c :: c in t.columns ==> Imputable(Column(Deduplicated(Converted(p, t)), c))
    ensures Complete(CleanedTable(p, t))
  {
    var c := Converted(p, t);
    ConvertedShape(p, t);
    var d := Deduplicated(c);
    DeduplicatedShape(c);
    var m := Imputed(d);
    ImputedShape(d);
    ImputedComplete(d);
    var v := Clipped(m);
    ClippedShape(m);
    ClippedComplete(m);
    WithCoordinatesComplete(p, v);
  }

  /** When no identity cell of the input is missing, no two rows of the
      cleaned table share (city_name, country). */
  lemma CleanedUniqueWhenIdentityPresent(p: Platform, t: Table)
    requires WellFormed(t) && HasIdentity(t) && IdentityPresent(t)
    ensures UniqueKeys(CleanedTable(p, t).rows, RowKey)
  {
    var c := Converted(p, t);
    ConvertedShape(p, t);
    ConvertedKeepsKeys(p, t);
    SameKeysTransfer(t, c);
    var d := Deduplicated(c);
    DeduplicatedShape(c);
    DeduplicatedProperties(c);
    DeduplicatedIdentityPresent(c);
    var m := Imputed(d);
    ImputedShape(d);
    ImputedKeepsKeys(d);
    SameKeysTransfer(d, m);
    LaterStagesKeepKeys(p, m);
    SameKeysTransfer(m, CleanedTable(p, t));
  }

  /** The report's duplicate count is the number of rows dropped, zero
      exactly when no two input rows share (city_name, country). */
  lemma CleanedReportDuplicates(p: Platform, t: Table)
    requires WellFormed(t) && HasIdentity(t)
    ensures var r := CleanedReport(p, t);
      r.duplicatesRemoved >= 0 &&
      (r.duplicatesRemoved == 0 <==> UniqueKeys(t.rows, RowKey))
  {
    var c := Converted(p, t);
    ConvertedKeepsKeys(p, t);
    SameKeysTransfer(t, c);
    DeduplicatedProperties(c);
  }

  // -----------------------------------------------------------------------
  // Imputation after deduplication can bring a duplicate pair back.

  /** Two rows of France, one without a city name and one named "Unknown". */
  function RepeatedKeyInput(): Table {
    Table({CityName, Country}, [
      map[CityName := Missing, Country := Text("France")],
      map[CityName := Text("Unknown"), Country := Text("France")]])
  }

  lemma RepeatedKeyConverted(p: Platform)
    ensures Converted(p, RepeatedKeyInput()) == RepeatedKeyInput()
  {
    var t := RepeatedKeyInput();
    ConvertedProperties(p, t);
    TableEq(Converted(p, t), t);
  }

  lemma RepeatedKeyDeduplicated()
    ensures Deduplicated(RepeatedKeyInput()) == RepeatedKeyInput()
  {
    var t := RepeatedKeyInput();
    var keep := FirstKeep(t.rows, RowKey);
    assert RowKey(t.rows[0]).0 == Missing && RowKey(t.rows[1]).0 != Missing;
    assert keep(0) && keep(1);
    assert Where(2, keep) == [0, 1];
    assert Select(t.rows, [0, 1]) == t.rows;
  }

  /** Neither conversion nor deduplication changes the example. */
  lemma RepeatedKeyKept(p: Platform)
    ensures Deduplicated(Converted(p, RepeatedKeyInput())) == RepeatedKeyInput()
  {
    RepeatedKeyConverted(p);
    RepeatedKeyDeduplicated();
  }

  /** Imputation names the nameless row "Unknown", as the other row is named. */
  lemma RepeatedKeyImputed()
    ensures var m := Imputed(RepeatedKeyInput());
      |m.rows| == 2 && RowKey(m.rows[0]) == RowKey(m.rows[1])
  {
    var t := RepeatedKeyInput();
    var col := Column(t, CityName);
    assert col[1] == Text("Unknown") && !IsNumeric(col[1]);
    assert FillValue(col) == Some(Text("Unknown"));
    var m := Imputed(t);
    assert m.rows[0] == ImputeRow(t, t.rows[0]) && m.rows[1] == ImputeRow(t, t.rows[1]);
    assert m.rows[0][CityName] == Text("Unknown") == m.rows[1][CityName];
    assert m.rows[0][Country] == Text("France") == m.rows[1][Country];
  }

  /** The example is a well-formed table whose two pairs differ. */
  lemma RepeatedKeyInputValid()
    ensures var t := RepeatedKeyInput();
      WellFormed(t) && HasIdentity(t) && UniqueKeys(t.rows, RowKey)
  {
  }

  /** clean as written keeps both rows (their pairs differ), then fills the
      missing city name with "Unknown": the cleaned table holds the pair
      ("Unknown", "France") twice. */
  lemma CleanedRepeatsKey(p: Platform)
    ensures !UniqueKeys(CleanedTable(p, RepeatedKeyInput()).rows, RowKey)
  {
    var t := RepeatedKeyInput();
    RepeatedKeyInputValid();
    RepeatedKeyKept(p);
    RepeatedKeyImputed();
    var m := Imputed(t);
    assert !UniqueKeys(m.rows, RowKey);
    ImputedShape(t);
    LaterStagesKeepKeys(p, m);
    assert CleanedTable(p, t) == WithCoordinates(p, Clipped(m));
    SameKeysTransfer(m, CleanedTable(p, t));
  }

  /** clean with a second deduplication after imputation: the same stages,
      with drop_duplicates run again once every gap is filled. */
  function CleanedTableRededuplicated(p: Platform, t: Table): (u: Table)
    requires HasIdentity(t)
    ensures u.columns == CleanedTable(p, t).columns
    ensures |u.rows| <= |CleanedTable(p, t).rows|
  {
    WithCoordinates(p, Clipped(Deduplicated(Imputed(Deduplicated(Converted(p, t))))))
  }

  /** With the second deduplication no two cleaned rows share
      (city_name, country), whatever the input. */
  lemma CleanedRededuplicatedUnique(p: Platform, t: Table)
    requires WellFormed(t) && HasIdentity(t)
    ensures UniqueKeys(CleanedTableRededuplicated(p, t).rows, RowKey)
  {
    var c := Converted(p, t);
    ConvertedProperties(p, t);
    var d := Deduplicated(c);
    DeduplicatedShape(c);
    var m := Imputed(d);
    ImputedShape(d);
    var e := Deduplicated(m);
    DeduplicatedShape(m);
    DeduplicatedProperties(m);
    LaterStagesKeepKeys(p, e);
    SameKeysTransfer(e, CleanedTableRededuplicated(p, t));
  }
}
