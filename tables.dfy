/** The tabular data both classes work on: a set of column names and a
    sequence of rows, each row a map from column name to cell. */
module Tables {

  datatype Option<T> = None | Some(value: T)

  /** A query that reads a column the table lacks fails (pandas raises KeyError). */
  datatype Error = MissingColumn(name: string)

  datatype Result<T> = Ok(value: T) | Err(error: Error)

  type Byte = b: int | 0 <= b < 256

  /** A SHA-256 digest is 32 bytes long. */
  type Digest = d: seq<Byte> | |d| == 32 witness seq(32, _ => 0)

  /** Calls into code outside the model: the hash, the string-to-number
      parser behind pd.to_numeric, and the text a float renders to inside
      an f-string. */
  datatype Platform = Platform(
    sha256: string -> Digest,
    parseNumber: string -> Option<real>,
    formatNumber: real -> string)

  /** A cell as pandas holds it: a number, a piece of text, or NaN/None. */
  datatype Cell = Num(v: real) | Text(s: string) | Missing

  type Row = map<string, Cell>

  datatype Table = Table(columns: set<string>, rows: seq<Row>)

  const CityName := "city_name"
  const Country := "country"
  const PopulationDensity := "population_density"
  const AvgIncome := "avg_income"
  const InternetPenetration := "internet_penetration"
  const AvgRent := "avg_rent"
  const AirQualityIndex := "air_quality_index"
  const PublicTransportScore := "public_transport_score"
  const HappinessScore := "happiness_score"
  const GreenSpaceRatio := "green_space_ratio"
  const Latitude := "latitude"
  const Longitude := "longitude"

  /** The eight metric columns. */
  const MetricColumns: seq<string> :=
    [PopulationDensity, AvgIncome, InternetPenetration, AvgRent,
     AirQualityIndex, PublicTransportScore, HappinessScore, GreenSpaceRatio]

  /** The ten columns both classes coerce to numbers. */
  const NumericColumns: seq<string> := MetricColumns + [Latitude, Longitude]

  /** Every row has exactly the table's columns. */
  ghost predicate WellFormed(t: Table) {
    forall i :: 0 <= i < |t.rows| ==> t.rows[i].Keys == t.columns
  }

  /** The table has the identity columns every row is keyed by. */
  predicate HasIdentity(t: Table) {
    CityName in t.columns && Country in t.columns
  }

  predicate IsNumeric(x: Cell) { x.Num? || x.Missing? }

  /** The cell of row r in column c; a row without column c reads as missing. */
  function At(r: Row, c: string): Cell {
    if c in r then r[c] else Missing
  }

  /** Column c of t, top to bottom. */
  function Column(t: Table, c: string): (col: seq<Cell>)
    ensures |col| == |t.rows|
    ensures forall i :: 0 <= i < |t.rows| ==> col[i] == At(t.rows[i], c)
  {
    seq(|t.rows|, i requires 0 <= i < |t.rows| => At(t.rows[i], c))
  }

  /** Every present numeric column holds only numbers and missing cells:
      what pd.to_numeric(errors="coerce") leaves behind. */
  ghost predicate Coerced(t: Table) {
    forall i, c :: 0 <= i < |t.rows| && c in NumericColumns ==> IsNumeric(At(t.rows[i], c))
  }

  /** Two tables are equal when they agree column by column and cell by cell. */
  lemma TableEq(u: Table, v: Table)
    requires u.columns == v.columns && |u.rows| == |v.rows|
    requires forall i :: 0 <= i < |u.rows| ==> u.rows[i].Keys == v.rows[i].Keys
    requires forall i, c :: 0 <= i < |u.rows| && c in u.rows[i] ==> u.rows[i][c] == v.rows[i][c]
    ensures u == v
  {
    forall i | 0 <= i < |u.rows| ensures u.rows[i] == v.rows[i] { }
  }

  /** The first name in cs that is not a column of t, if any. */
  function FirstAbsent(cs: seq<string>, t: Table): (r: Option<string>)
    ensures r.None? <==> forall c :: c in cs ==> c in t.columns
    ensures r.Some? ==> r.value in cs && r.value !in t.columns
  {
    if cs == [] then None
    else if cs[0] !in t.columns then Some(cs[0])
    else FirstAbsent(cs[1..], t)
  }
}
