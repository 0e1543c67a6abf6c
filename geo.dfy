// The forecast-grid projection of geo.py: the GFS half-degree grid has its
// origin at 0.0E, 90.0N, 0.5 degree spacing and 720 x 361 points.  Positions
// are (longitude, latitude) in degrees, points are (x, y) pixel indices.
// Python's int() on a float truncates toward zero; Trunc models exactly that.

module Geo {

  datatype Position = Position(lon: real, lat: real)
  datatype Point = Point(x: int, y: int)

  const GridWidth: nat := 720
  const GridHeight: nat := 361

  /** Python int(r) for a float r: truncation toward zero. */
  function Trunc(r: real): (i: int)
    ensures 0.0 <= r ==> 0 <= i && i as real <= r < i as real + 1.0
    ensures r < 0.0 ==> i <= 0 && i as real - 1.0 < r <= i as real
  {
    if r >= 0.0 then r.Floor else -((-r).Floor)
  }

  /** point_to_position: (int(x * .5), int(y * -.5 + 90)). */
  function PointToPosition(p: Point): (q: Position)
    ensures q.lon == q.lon.Floor as real && q.lat == q.lat.Floor as real
    ensures -1.0 < q.lon - p.x as real * 0.5 < 1.0
    ensures -1.0 < q.lat - (p.y as real * -0.5 + 90.0) < 1.0
  {
    Position(Trunc(p.x as real * 0.5) as real, Trunc(p.y as real * -0.5 + 90.0) as real)
  }

  /** position_to_point: (int(lon * 2), int((lat - 90) * -2)); longitude is not wrapped. */
  function PositionToPoint(q: Position): (p: Point)
    ensures -1.0 < p.x as real - q.lon * 2.0 < 1.0
    ensures -1.0 < p.y as real - (q.lat - 90.0) * -2.0 < 1.0
    ensures (0.0 <= q.lon ==> 0 <= p.x) && (q.lon < 0.0 ==> p.x <= 0)
    ensures 0.0 <= q.lon * 2.0 ==> p.x as real <= q.lon * 2.0
    ensures q.lon * 2.0 < 0.0 ==> q.lon * 2.0 <= p.x as real
    ensures 0.0 <= (q.lat - 90.0) * -2.0 ==> p.y as real <= (q.lat - 90.0) * -2.0
    ensures (q.lat - 90.0) * -2.0 < 0.0 ==> (q.lat - 90.0) * -2.0 <= p.y as real
  {
    Point(Trunc(q.lon * 2.0), Trunc((q.lat - 90.0) * -2.0))
  }

  /** Every position of the globe with lon in [0, 360) lands on the 720 x 361 grid. */
  lemma PositionToPointInGrid(q: Position)
    requires 0.0 <= q.lon < 360.0 && -90.0 <= q.lat <= 90.0
    ensures 0 <= PositionToPoint(q).x < GridWidth
    ensures 0 <= PositionToPoint(q).y < GridHeight
  {
  }

  lemma TruncOfInt(i: int)
    ensures Trunc(i as real) == i
  {
  }

  /** Grid points with even coordinates survive a round trip through positions. */
  lemma EvenPointRoundTrip(p: Point)
    requires p.x % 2 == 0 && p.y % 2 == 0
    ensures PositionToPoint(PointToPosition(p)) == p
  {
    var a, b := p.x / 2, p.y / 2;
    assert p.x == 2 * a && p.y == 2 * b;
    assert p.x as real * 0.5 == a as real;
    assert p.y as real * -0.5 + 90.0 == (90 - b) as real;
    TruncOfInt(a);
    TruncOfInt(90 - b);
    var q := PointToPosition(p);
    assert q == Position(a as real, (90 - b) as real);
    assert q.lon * 2.0 == p.x as real;
    assert (q.lat - 90.0) * -2.0 == p.y as real;
    TruncOfInt(p.x);
    TruncOfInt(p.y);
  }

  /** For a non-negative longitude the round trip lands on the whole degree below it. */
  lemma LonRoundTripIsFloor(q: Position)
    requires 0.0 <= q.lon
    ensures PointToPosition(PositionToPoint(q)).lon == q.lon.Floor as real
  {
    var x := PositionToPoint(q).x;
    var f := q.lon.Floor;
    assert x == (q.lon * 2.0).Floor;
    assert 2 * f <= x <= 2 * f + 1 by {
      assert f as real <= q.lon < f as real + 1.0;
    }
    assert Trunc(x as real * 0.5) == f;
  }

  /** On the globe the round trip recovers the latitude to within one degree. */
  lemma LatRoundTripWithinOneDegree(q: Position)
    requires -90.0 <= q.lat <= 90.0
    ensures -1.0 < PointToPosition(PositionToPoint(q)).lat - q.lat < 1.0
  {
    var y := PositionToPoint(q).y;
    assert (y as real) <= (q.lat - 90.0) * -2.0 < y as real + 1.0;
    var m := y as real * -0.5 + 90.0;
    assert q.lat <= m < q.lat + 0.5;
    var k := y / 2;
    if y % 2 == 0 {
      assert m == (90 - k) as real;
      TruncOfInt(90 - k);
    } else {
      assert m == (90 - k) as real - 0.5;
      if m >= 0.0 {
        assert Trunc(m) == 89 - k;
      } else {
        assert Trunc(m) == 90 - k;
      }
    }
  }

  /** Longitudes west of Greenwich are not wrapped: they give a column at or left of 0. */
  lemma WestIsNotWrapped(q: Position)
    requires q.lon < 0.0
    ensures PositionToPoint(q).x <= 0
  {
  }
}
