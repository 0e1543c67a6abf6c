// db_cities.py: the projection that wraps western longitudes, the "%dx%d"
// grid key, the worldcities table with its insert-if-absent save, and the two
// loaders that fill it (fill_db from the world cities CSV, fill_db_ru from the
// Russian cities JSON).  The md5 city id is an uninterpreted function given
// as a parameter; file reading, CSV splitting and float parsing are not
// modelled: the loaders take the already parsed rows.

module DbCities {
  import opened Text
  import Geo

  /** The longitude the wrap loop of position_to_point ends with: lng mod 360 for a
      negative lng, lng itself otherwise. */
  function Wrapped(lng: real): (r: real)
    ensures 0.0 <= r
    ensures lng < 0.0 ==> r < 360.0
  {
    if lng >= 0.0 then lng else lng - 360.0 * (lng / 360.0).Floor as real
  }

  /** The loop of position_to_point: add 360 until the longitude is not negative. */
  method WrapLongitude(lng0: real) returns (lng: real)
    ensures lng == Wrapped(lng0)
  {
    lng := lng0;
    ghost var k: int := if lng0 < 0.0 then -(lng0 / 360.0).Floor else 0;
    assert lng0 < 0.0 ==> (k - 1) as real * 360.0 < -lng0 <= k as real * 360.0 by {
      var f := (lng0 / 360.0).Floor;
      assert f as real <= lng0 / 360.0 < f as real + 1.0;
    }
    ghost var n: int := 0;
    while lng < 0.0
      invariant 0 <= n <= k
      invariant lng == lng0 + 360.0 * n as real
      decreases k - n
    {
      lng := lng + 360.0;
      n := n + 1;
    }
    assert lng0 < 0.0 ==> n == k;
  }

  /** The point db_cities.position_to_point returns for a position (lng, lat). */
  function WrappedPoint(q: Geo.Position): Geo.Point {
    Geo.Point(Geo.Trunc(Wrapped(q.lon) * 2.0), Geo.Trunc((q.lat - 90.0) * -2.0))
  }

  /** position_to_point of db_cities.py, with its while loop. */
  method PositionToPoint(position: Geo.Position) returns (p: Geo.Point)
    ensures p == WrappedPoint(position)
  {
    var lng := WrapLongitude(position.lon);
    p := Geo.Point(Geo.Trunc(lng * 2.0), Geo.Trunc((position.lat - 90.0) * -2.0));
  }

  /** A western longitude and the same longitude 360 degrees further east give the same point. */
  lemma WrapIsPeriodic(lng: real, lat: real)
    requires lng < 0.0
    ensures WrappedPoint(Geo.Position(lng, lat)) == WrappedPoint(Geo.Position(lng + 360.0, lat))
  {
    var f := (lng / 360.0).Floor;
    assert f as real <= lng / 360.0 < f as real + 1.0;
    if lng + 360.0 < 0.0 {
      var g := ((lng + 360.0) / 360.0).Floor;
      assert g as real <= lng / 360.0 + 1.0 < g as real + 1.0;
      assert g == f + 1;
    }
    assert Wrapped(lng) == Wrapped(lng + 360.0);
  }

  /** East of Greenwich the two projections of the repository agree. */
  lemma WrappedAgreesWithGeo(q: Geo.Position)
    requires 0.0 <= q.lon
    ensures WrappedPoint(q) == Geo.PositionToPoint(q)
  {
  }

  /** Every position of the globe, whatever its longitude, lands on the 720 x 361 grid. */
  lemma WrappedPointInGrid(q: Geo.Position)
    requires q.lon < 360.0 && -90.0 <= q.lat <= 90.0
    ensures 0 <= WrappedPoint(q).x < Geo.GridWidth
    ensures 0 <= WrappedPoint(q).y < Geo.GridHeight
  {
  }

  /** West of Greenwich the two projections disagree: at 0.7 W db_cities.py gives
      column 718 while geo.py gives column -1 (which Pillow's pixel access reads as
      column 719). */
  lemma ProjectionsDisagreeWest()
    ensures WrappedPoint(Geo.Position(-0.7, 0.0)).x == 718
    ensures Geo.PositionToPoint(Geo.Position(-0.7, 0.0)).x == -1
  {
    assert (-0.7 / 360.0).Floor == -1;
    assert Wrapped(-0.7) == 359.3;
  }

  /** "%dx%d" % point */
  function Key(p: Geo.Point): string {
    IntToString(p.x) + "x" + IntToString(p.y)
  }

  /** The separator of a key follows the numeral it ends. */
  lemma SeparatorAt(a: string, c: string)
    ensures (a + "x" + c)[|a|] == 'x'
    ensures forall k :: 0 <= k < |a| ==> (a + "x" + c)[k] == a[k]
  {
  }

  /** Distinct points have distinct keys. */
  lemma KeyInjective(p: Geo.Point, q: Geo.Point)
    requires Key(p) == Key(q)
    ensures p == q
  {
    var a, b := IntToString(p.x), IntToString(q.x);
    var c, d := IntToString(p.y), IntToString(q.y);
    SeparatorAt(a, c);
    SeparatorAt(b, d);
    if |a| < |b| {
      assert false;
    } else if |b| < |a| {
      assert false;
    }
    assert a == (a + "x" + c)[..|a|] == (b + "x" + d)[..|b|] == b;
    assert c == (a + "x" + c)[|a| + 1..] == (b + "x" + d)[|b| + 1..] == d;
    IntToStringInjective(p.x, q.x);
    IntToStringInjective(p.y, q.y);
  }

  /** xy(lat, lng): note the argument order, the key of the point of (lng, lat). */
  function Xy(lat: real, lng: real): string {
    Key(WrappedPoint(Geo.Position(lng, lat)))
  }

  /** Two coordinates get the same key exactly when they fall in the same grid cell. */
  lemma XySameCell(lat1: real, lng1: real, lat2: real, lng2: real)
    ensures Xy(lat1, lng1) == Xy(lat2, lng2) <==>
            WrappedPoint(Geo.Position(lng1, lat1)) == WrappedPoint(Geo.Position(lng2, lat2))
  {
    if Xy(lat1, lng1) == Xy(lat2, lng2) {
      KeyInjective(WrappedPoint(Geo.Position(lng1, lat1)), WrappedPoint(Geo.Position(lng2, lat2)));
    }
  }

  datatype CityRecord = CityRecord(
    id: string, country: string, latitude: real, longitude: real,
    xy: string, name: string, nameEn: string)

  predicate HasId(rows: seq<CityRecord>, id: string) {
    exists i :: 0 <= i < |rows| && rows[i].id == id
  }

  predicate UniqueIds(rows: seq<CityRecord>) {
    forall i, j :: 0 <= i < j < |rows| ==> rows[i].id != rows[j].id
  }

  /** The table after "INSERT ... WHERE NOT EXISTS (SELECT 1 ... WHERE id = ...)". */
  function Inserted(rows: seq<CityRecord>, city: CityRecord): (r: seq<CityRecord>)
    ensures HasId(r, city.id)
    ensures HasId(rows, city.id) <==> |r| == |rows|
  {
    if HasId(rows, city.id) then rows
    else
      assert (rows + [city])[|rows|] == city;
      rows + [city]
  }

  /** Saving keeps ids unique, keeps every earlier row, and leaves the city's id present. */
  lemma InsertedKeepsIdsUnique(rows: seq<CityRecord>, city: CityRecord)
    requires UniqueIds(rows)
    ensures UniqueIds(Inserted(rows, city))
    ensures HasId(Inserted(rows, city), city.id)
    ensures Inserted(rows, city)[..|rows|] == rows
  {
    var r := Inserted(rows, city);
    if !HasId(rows, city.id) {
      assert r[|rows|].id == city.id;
    }
  }

  /** Saving the same record twice is the same as saving it once. */
  lemma InsertedIdempotent(rows: seq<CityRecord>, city: CityRecord)
    ensures Inserted(Inserted(rows, city), city) == Inserted(rows, city)
  {
    if !HasId(rows, city.id) {
      var r := rows + [city];
      assert r[|rows|].id == city.id;
    }
  }

  /** The worldcities table. */
  class CityTable {
    var rows: seq<CityRecord>

    ghost predicate Valid()
      reads this
    {
      UniqueIds(rows)
    }

    constructor ()
      ensures Valid() && rows == []
    {
      rows := [];
    }

    /** save(city): insert only when no row has the same id. */
    method Save(city: CityRecord)
      requires Valid()
      modifies this
      ensures Valid()
      ensures rows == Inserted(old(rows), city)
      ensures HasId(old(rows), city.id) ==> rows == old(rows)
    {
      InsertedKeepsIdsUnique(rows, city);
      if !HasId(rows, city.id) {
        rows := rows + [city];
      }
    }
  }

  /** The table after saving each record in turn. */
  function InsertAll(rows: seq<CityRecord>, records: seq<CityRecord>): seq<CityRecord> {
    if records == [] then rows
    else Inserted(InsertAll(rows, records[..|records| - 1]), records[|records| - 1])
  }

  lemma InsertAllSnoc(rows: seq<CityRecord>, records: seq<CityRecord>, city: CityRecord)
    ensures InsertAll(rows, records + [city]) == Inserted(InsertAll(rows, records), city)
  {
    assert (records + [city])[..|records|] == records;
  }

  /** One line of the world cities CSV, already split and converted. */
  datatype CsvRow = CsvRow(
    country: string, unused: string, name: string, code: string,
    pop: int, lat: real, lng: real)

  const MinPopulation: int := 50000

  function WorldRecord(row: CsvRow, cityId: (real, real) -> string): CityRecord {
    CityRecord(cityId(row.lat, row.lng), row.country, row.lat, row.lng,
               Xy(row.lat, row.lng), row.name, row.name)
  }

  /** The records fill_db saves, in order: one per row with at least 50000 inhabitants. */
  function WorldRecords(rows: seq<CsvRow>, cityId: (real, real) -> string): (records: seq<CityRecord>)
    ensures |records| <= |rows|
    ensures forall r :: r in records ==>
              r.nameEn == r.name && r.xy == Xy(r.latitude, r.longitude) &&
              r.id == cityId(r.latitude, r.longitude)
    ensures forall r :: r in records ==> exists row :: row in rows && row.pop >= MinPopulation && r == WorldRecord(row, cityId)
    ensures forall row :: row in rows && row.pop >= MinPopulation ==> WorldRecord(row, cityId) in records
  {
    if rows == [] then []
    else
      var last := rows[|rows| - 1];
      assert rows == rows[..|rows| - 1] + [last];
      WorldRecords(rows[..|rows| - 1], cityId) + (if last.pop < MinPopulation then [] else [WorldRecord(last, cityId)])
  }

  /** fill_db: save every sufficiently large city of the CSV. */
  method FillDb(table: CityTable, rows: seq<CsvRow>, cityId: (real, real) -> string)
    requires table.Valid()
    modifies table
    ensures table.Valid()
    ensures table.rows == InsertAll(old(table.rows), WorldRecords(rows, cityId))
  {
    for i := 0 to |rows|
      invariant table.Valid()
      invariant table.rows == InsertAll(old(table.rows), WorldRecords(rows[..i], cityId))
    {
      var row := rows[i];
      assert rows[..i + 1][..i] == rows[..i];
      ghost var done := WorldRecords(rows[..i], cityId);
      if row.pop >= MinPopulation {
        var city := CityRecord(cityId(row.lat, row.lng), row.country, row.lat, row.lng,
                               Xy(row.lat, row.lng), row.name, row.name);
        table.Save(city);
        assert WorldRecords(rows[..i + 1], cityId) == done + [city];
        InsertAllSnoc(old(table.rows), done, city);
        assert table.rows == InsertAll(old(table.rows), done + [city]);
      } else {
        assert WorldRecords(rows[..i + 1], cityId) == done;
      }
    }
    assert rows[..|rows|] == rows;
  }

  /** One entry of the Russian cities JSON. */
  datatype RuCity = RuCity(lat: real, lon: real, nameRu: string, nameEn: string)

  function RuRecord(c: RuCity, cityId: (real, real) -> string): CityRecord {
    CityRecord(cityId(c.lat, c.lon), "ru", c.lat, c.lon, Xy(c.lat, c.lon), c.nameRu, c.nameEn)
  }

  /** The records fill_db_ru saves, in order: every entry, as a Russian city named in Russian. */
  function RuRecords(cities: seq<RuCity>, cityId: (real, real) -> string): (records: seq<CityRecord>)
    ensures |records| == |cities|
    ensures forall k :: 0 <= k < |cities| ==>
              records[k].country == "ru" && records[k].name == cities[k].nameRu &&
              records[k].nameEn == cities[k].nameEn &&
              records[k].xy == Xy(cities[k].lat, cities[k].lon) &&
              records[k].id == cityId(cities[k].lat, cities[k].lon)
  {
    if cities == [] then []
    else RuRecords(cities[..|cities| - 1], cityId) + [RuRecord(cities[|cities| - 1], cityId)]
  }

  /** fill_db_ru: save every city of the Russian list. */
  method FillDbRu(table: CityTable, cities: seq<RuCity>, cityId: (real, real) -> string)
    requires table.Valid()
    modifies table
    ensures table.Valid()
    ensures table.rows == InsertAll(old(table.rows), RuRecords(cities, cityId))
  {
    for i := 0 to |cities|
      invariant table.Valid()
      invariant table.rows == InsertAll(old(table.rows), RuRecords(cities[..i], cityId))
    {
      var c := cities[i];
      assert cities[..i + 1][..i] == cities[..i];
      var city := CityRecord(cityId(c.lat, c.lon), "ru", c.lat, c.lon, Xy(c.lat, c.lon), c.nameRu, c.nameEn);
      table.Save(city);
      InsertAllSnoc(old(table.rows), RuRecords(cities[..i], cityId), city);
    }
    assert cities[..|cities|] == cities;
  }

  /** After a load every record of the batch has a row with its id, and ids stay unique. */
  lemma {:induction false} InsertAllContainsBatch(rows: seq<CityRecord>, records: seq<CityRecord>)
    requires UniqueIds(rows)
    ensures UniqueIds(InsertAll(rows, records))
    ensures forall r :: r in records ==> HasId(InsertAll(rows, records), r.id)
    ensures |rows| <= |InsertAll(rows, records)| && InsertAll(rows, records)[..|rows|] == rows
  {
    if records != [] {
      var init := records[..|records| - 1];
      var last := records[|records| - 1];
      InsertAllContainsBatch(rows, init);
      var before := InsertAll(rows, init);
      InsertedKeepsIdsUnique(before, last);
      var after := InsertAll(rows, records);
      assert after == Inserted(before, last);
      forall r | r in records
        ensures HasId(after, r.id)
      {
        if r != last {
          assert r in init;
          var i :| 0 <= i < |before| && before[i].id == r.id;
          assert after[i] == before[i];
        }
      }
      assert after[..|rows|] == before[..|rows|];
    }
  }
}
