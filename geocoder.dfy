/** Synthetic coordinates: a point derived from the SHA-256 digest of a
    row's identity, placed inside a fixed bounding box for its region
    (src/clean_data.py:147-181, repeated in src/data_processor.py:24-55). */
module Geocoder {
  import opened Tables

  /** (lat_min, lat_max, lon_min, lon_max) */
  datatype Box = Box(latMin: real, latMax: real, lonMin: real, lonMax: real)

  datatype Point = Point(lat: real, lon: real)

  /** The fallback for any key the table does not list. */
  const GlobalBox := Box(-55.0, 70.0, -130.0, 150.0)

  const ContinentBoxes: map<string, Box> := map[
    "Europe" := Box(35.0, 70.0, -10.0, 40.0),
    "Asia" := Box(5.0, 55.0, 60.0, 140.0),
    "North America" := Box(25.0, 70.0, -130.0, -60.0),
    "South America" := Box(-55.0, 15.0, -80.0, -35.0),
    "Africa" := Box(-35.0, 35.0, -20.0, 50.0),
    "Oceania" := Box(-50.0, 5.0, 110.0, 150.0)
  ]

  predicate Inside(p: Point, b: Box) {
    b.latMin <= p.lat <= b.latMax && b.lonMin <= p.lon <= b.lonMax
  }

  predicate BoxWithin(inner: Box, outer: Box) {
    outer.latMin <= inner.latMin && inner.latMax <= outer.latMax &&
    outer.lonMin <= inner.lonMin && inner.lonMax <= outer.lonMax
  }

  /** boxes.get(continent, fallback): the key is a cell, so a number or a
      missing value never matches and falls back like an unknown name. */
  function ContinentBox(region: Cell): (b: Box)
    ensures b.latMin < b.latMax && b.lonMin < b.lonMax
    ensures b == GlobalBox || b in ContinentBoxes.Values
    ensures BoxWithin(b, GlobalBox)
    ensures (region.Text? && region.s in ContinentBoxes) || b == GlobalBox
    ensures region.Text? && region.s in ContinentBoxes ==> b == ContinentBoxes[region.s]
  {
    if region.Text? && region.s in ContinentBoxes then ContinentBoxes[region.s] else GlobalBox
  }

  function Pow256(k: nat): (p: nat)
    ensures p >= 1
  {
    if k == 0 then 1 else 256 * Pow256(k - 1)
  }

  const TwoTo64: nat := 0x1_0000_0000_0000_0000

  /** int.from_bytes(bs, "big"); it always fits in |bs| bytes. */
  function BigEndian(bs: seq<Byte>): (n: nat)
    ensures n < Pow256(|bs|)
  {
    if bs == [] then 0 else BigEndian(bs[..|bs| - 1]) * 256 + bs[|bs| - 1]
  }

  /** int.from_bytes(bs, "big") / 2**64 for eight bytes: a fraction in [0, 1). */
  function Fraction(bs: seq<Byte>): (f: real)
    requires |bs| == 8
    ensures 0.0 <= f < 1.0
  {
    assert Pow256(8) == TwoTo64;
    BigEndian(bs) as real / TwoTo64 as real
  }

  /** lo + (hi - lo) * f: the affine map of a fraction in [0, 1) into [lo, hi). */
  function Scale(lo: real, hi: real, f: real): (x: real)
    requires lo < hi && 0.0 <= f < 1.0
    ensures lo <= x < hi
  {
    var d := hi - lo;
    var g := 1.0 - f;
    assert d * g > 0.0;
    assert d * g == d * 1.0 - d * f;
    assert d - d * f > 0.0;
    assert d * f >= 0.0;
    lo + d * f
  }

  /** _deterministic_point(seed, continent): the first eight digest bytes pick
      the latitude and the next eight the longitude, each mapped affinely into
      the continent's box. A function of seed and region alone. */
  function DeterministicPoint(p: Platform, seed: string, region: Cell): (pt: Point)
    ensures Inside(pt, ContinentBox(region))
    ensures Inside(pt, GlobalBox)
  {
    var digest := p.sha256(seed);
    var fracLat := Fraction(digest[..8]);
    var fracLon := Fraction(digest[8..16]);
    var b := ContinentBox(region);
    Point(Scale(b.latMin, b.latMax, fracLat), Scale(b.lonMin, b.lonMax, fracLon))
  }

  /** How a cell renders inside an f-string: NaN prints as "nan". */
  function CellText(p: Platform, x: Cell): string {
    match x
    case Text(s) => s
    case Num(v) => p.formatNumber(v)
    case Missing => "nan"
  }

  /** f"{row['city_name']}-{row['country']}" */
  function Seed(p: Platform, r: Row): string {
    CellText(p, At(r, CityName)) + "-" + CellText(p, At(r, Country))
  }

  /** The synthetic point of one row. */
  function RowPoint(p: Platform, r: Row): Point {
    DeterministicPoint(p, Seed(p, r), At(r, Country))
  }

  function WithPoint(p: Platform, r: Row): Row {
    var pt := RowPoint(p, r);
    r[Latitude := Num(pt.lat)][Longitude := Num(pt.lon)]
  }

  predicate HasCoordinates(t: Table) {
    Latitude in t.columns && Longitude in t.columns
  }

  /** ensure_geolocation: when either coordinate column is absent, both are
      (re)written for every row from the row's identity; otherwise the
      table is left as it is. */
  function WithCoordinates(p: Platform, t: Table): (u: Table)
    requires HasCoordinates(t) || HasIdentity(t)
    ensures u.columns == t.columns + {Latitude, Longitude} && |u.rows| == |t.rows|
  {
    if HasCoordinates(t) then t
    else Table(t.columns + {Latitude, Longitude},
               seq(|t.rows|, i requires 0 <= i < |t.rows| => WithPoint(p, t.rows[i])))
  }

  /** Afterwards both coordinate columns exist; when one was absent every row
      carries its own synthetic point, inside the box of its country, and
      every other cell is unchanged; when both were present nothing changes. */
  lemma WithCoordinatesProperties(p: Platform, t: Table)
    requires WellFormed(t) && HasIdentity(t)
    ensures var u := WithCoordinates(p, t);
      && WellFormed(u) && HasCoordinates(u) && HasIdentity(u)
      && u.columns == t.columns + {Latitude, Longitude}
      && |u.rows| == |t.rows|
      && (HasCoordinates(t) ==> u == t)
      && (!HasCoordinates(t) ==> forall i :: 0 <= i < |t.rows| ==>
            && u.rows[i][Latitude] == Num(RowPoint(p, t.rows[i]).lat)
            && u.rows[i][Longitude] == Num(RowPoint(p, t.rows[i]).lon)
            && Inside(RowPoint(p, t.rows[i]), ContinentBox(t.rows[i][Country]))
            && (forall c :: c in t.columns && c != Latitude && c != Longitude ==>
                  u.rows[i][c] == t.rows[i][c]))
  {
  }

  lemma WithCoordinatesShape(p: Platform, t: Table)
    requires WellFormed(t) && HasIdentity(t)
    ensures var u := WithCoordinates(p, t);
      WellFormed(u) && HasCoordinates(u) && HasIdentity(u) &&
      u.columns == t.columns + {Latitude, Longitude} && |u.rows| == |t.rows|
  {
  }

  /** Adding coordinates leaves every other column alone. */
  lemma WithCoordinatesKeepsOthers(p: Platform, t: Table)
    requires WellFormed(t) && HasIdentity(t)
    ensures |WithCoordinates(p, t).rows| == |t.rows|
    ensures forall i, c :: 0 <= i < |t.rows| && c in t.columns && c != Latitude && c != Longitude ==>
      WithCoordinates(p, t).rows[i][c] == t.rows[i][c]
  {
  }

  /** Adding coordinates keeps every numeric column free of text. */
  lemma WithCoordinatesCoerced(p: Platform, t: Table)
    requires WellFormed(t) && HasIdentity(t) && Coerced(t)
    ensures Coerced(WithCoordinates(p, t))
  {
    var u := WithCoordinates(p, t);
    if !HasCoordinates(t) {
      forall i, c | 0 <= i < |u.rows| && c in NumericColumns
        ensures IsNumeric(At(u.rows[i], c))
      {
        if c != Latitude && c != Longitude {
          assert At(u.rows[i], c) == At(t.rows[i], c);
        }
      }
    }
  }
}
