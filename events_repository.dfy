/** `getEventsNearby` (apps/server/src/modules/events/events.repository.js):
    one SELECT that keeps the events inside a box derived from a radius in
    meters, orders them by squared planar degree distance to the query point
    and keeps at most 100.  A failing query is reported under one fixed
    message. */
module EventsRepository {
  import opened Wrappers
  import opened Sql
  import opened GeoBox

  /** A row of the SELECT list. */
  datatype EventRow = EventRow(
    id: int,
    name: string,
    description: string,
    startTime: string,
    endTime: string,
    latitude: real,
    longitude: real)

  /** Meters in one degree of latitude, as the query writes it. */
  const METERS_PER_LAT_DEGREE: real := 111000.0
  /** The LIMIT of the query. */
  const MAX_RESULTS: nat := 100
  /** The message every query failure is replaced by. */
  const FETCH_ERROR: string := "Failed to fetch nearby events"

  /** The WHERE box for `radius` meters around (lat, lng).  `lngMeters` is
      the value of `111000.0 * COS(RADIANS(lat))`, which the model keeps
      opaque. */
  function SearchBox(lat: real, lng: real, radius: real, lngMeters: real): Box
    requires lngMeters != 0.0
  {
    Around(lat, lng, radius / METERS_PER_LAT_DEGREE, radius / lngMeters)
  }

  /** The ORDER BY key: squared distance in degrees, not a geodesic one. */
  function SquaredDegreeDistance(lat: real, lng: real, row: EventRow): real {
    (lat - row.latitude) * (lat - row.latitude) + (lng - row.longitude) * (lng - row.longitude)
  }

  /** SquaredDegreeDistance from (lat, lng) as a sort key. */
  function ByDistance(lat: real, lng: real): EventRow -> real {
    row => SquaredDegreeDistance(lat, lng, row)
  }

  /** The rows the WHERE clause lets through. */
  function Candidates(lat: real, lng: real, radius: real, lngMeters: real, table: seq<EventRow>): seq<EventRow>
    requires lngMeters != 0.0
  {
    var box := SearchBox(lat, lng, radius, lngMeters);
    Where(table, (row: EventRow) => Contains(box, row.latitude, row.longitude))
  }

  /** What the query returns when it succeeds: WHERE, then ORDER BY, then LIMIT. */
  function NearbyRows(lat: real, lng: real, radius: real, lngMeters: real, table: seq<EventRow>): (r: seq<EventRow>)
    requires lngMeters != 0.0
    ensures |r| <= MAX_RESULTS
    ensures SortedBy(r, ByDistance(lat, lng))
  {
    Limit(OrderBy(Candidates(lat, lng, radius, lngMeters, table), ByDistance(lat, lng)), MAX_RESULTS)
  }

  /** The repository call.  `table` is the events table as the database
      reads it, or the failure of the query; `metersPerLngDegree` gives the
      opaque `111000.0 * COS(RADIANS(lat))`.  A zero factor makes the
      database divide by zero, which fails the query like any other error. */
  function GetEventsNearby(
    lat: real, lng: real, radiusMeters: real,
    metersPerLngDegree: real -> real,
    table: Result<seq<EventRow>, string>): (r: Result<seq<EventRow>, string>)
    ensures r.Failure? <==> table.Failure? || metersPerLngDegree(lat) == 0.0
    ensures r.Failure? ==> r.error == FETCH_ERROR
    ensures r.Success? ==> |r.value| <= MAX_RESULTS
    ensures r.Success? ==> multiset(r.value) <= multiset(table.value)
  {
    if table.Failure? || metersPerLngDegree(lat) == 0.0 then
      Failure(FETCH_ERROR)
    else
      var rows := NearbyRows(lat, lng, radiusMeters, metersPerLngDegree(lat), table.value);
      NearbySubMultiset(lat, lng, radiusMeters, metersPerLngDegree(lat), table.value);
      Success(rows)
  }

  /** Every returned row lies in the inclusive box: latitude within
      radius/111000 degrees and longitude within radius/lngMeters degrees of
      the query point. */
  lemma NearbyWithinBox(lat: real, lng: real, radius: real, lngMeters: real, table: seq<EventRow>)
    requires lngMeters != 0.0
    ensures forall row :: row in NearbyRows(lat, lng, radius, lngMeters, table) ==>
      Contains(SearchBox(lat, lng, radius, lngMeters), row.latitude, row.longitude)
    ensures forall row :: row in NearbyRows(lat, lng, radius, lngMeters, table) ==>
      && lat - radius / 111000.0 <= row.latitude <= lat + radius / 111000.0
      && lng - radius / lngMeters <= row.longitude <= lng + radius / lngMeters
  {
    var c := Candidates(lat, lng, radius, lngMeters, table);
    var s := OrderBy(c, ByDistance(lat, lng));
    forall row | row in NearbyRows(lat, lng, radius, lngMeters, table)
      ensures Contains(SearchBox(lat, lng, radius, lngMeters), row.latitude, row.longitude)
    {
      assert row in s;
      assert row in multiset(c);
    }
  }

  /** The rows come back in non-decreasing squared degree distance. */
  lemma NearbyOrdered(lat: real, lng: real, radius: real, lngMeters: real, table: seq<EventRow>)
    requires lngMeters != 0.0
    ensures SortedBy(NearbyRows(lat, lng, radius, lngMeters, table), ByDistance(lat, lng))
    ensures var r := NearbyRows(lat, lng, radius, lngMeters, table);
      forall i, j :: 0 <= i < j < |r| ==>
        SquaredDegreeDistance(lat, lng, r[i]) <= SquaredDegreeDistance(lat, lng, r[j])
  {
    var s := OrderBy(Candidates(lat, lng, radius, lngMeters, table), ByDistance(lat, lng));
    var r := NearbyRows(lat, lng, radius, lngMeters, table);
    forall i, j | 0 <= i < j < |r|
      ensures ByDistance(lat, lng)(r[i]) <= ByDistance(lat, lng)(r[j])
    {
      assert r[i] == s[i] && r[j] == s[j];
    }
  }

  /** At most 100 rows, and exactly 100 when more rows are in the box. */
  lemma NearbyCount(lat: real, lng: real, radius: real, lngMeters: real, table: seq<EventRow>)
    requires lngMeters != 0.0
    ensures var n := |Candidates(lat, lng, radius, lngMeters, table)|;
      |NearbyRows(lat, lng, radius, lngMeters, table)| == if n <= MAX_RESULTS then n else MAX_RESULTS
  {
    var c := Candidates(lat, lng, radius, lngMeters, table);
    assert |OrderBy(c, ByDistance(lat, lng))| == |c| by {
      assert |multiset(OrderBy(c, ByDistance(lat, lng)))| == |multiset(c)|;
    }
  }

  /** Every returned row is a row of the table, no more often than it occurs there. */
  lemma NearbySubMultiset(lat: real, lng: real, radius: real, lngMeters: real, table: seq<EventRow>)
    requires lngMeters != 0.0
    ensures multiset(NearbyRows(lat, lng, radius, lngMeters, table)) <= multiset(table)
  {
    var c := Candidates(lat, lng, radius, lngMeters, table);
    var s := OrderBy(c, ByDistance(lat, lng));
    var r := NearbyRows(lat, lng, radius, lngMeters, table);
    assert s == r + s[|r|..];
    assert multiset(s) == multiset(r) + multiset(s[|r|..]);
  }

  /** Truncation keeps the closest rows: an in-box row that is left out is at
      least as far as every row returned. */
  lemma NearbyKeepsClosest(lat: real, lng: real, radius: real, lngMeters: real, table: seq<EventRow>)
    requires lngMeters != 0.0
    ensures var r := NearbyRows(lat, lng, radius, lngMeters, table);
      forall x, y :: x in multiset(Candidates(lat, lng, radius, lngMeters, table)) - multiset(r) && y in r ==>
        SquaredDegreeDistance(lat, lng, y) <= SquaredDegreeDistance(lat, lng, x)
  {
    var c := Candidates(lat, lng, radius, lngMeters, table);
    LimitKeepsSmallest(OrderBy(c, ByDistance(lat, lng)), MAX_RESULTS, ByDistance(lat, lng));
  }

  /** With at most 100 rows in the box, all of them are returned. */
  lemma NearbyAllWhenFew(lat: real, lng: real, radius: real, lngMeters: real, table: seq<EventRow>)
    requires lngMeters != 0.0
    requires |Candidates(lat, lng, radius, lngMeters, table)| <= MAX_RESULTS
    ensures multiset(NearbyRows(lat, lng, radius, lngMeters, table)) == multiset(Candidates(lat, lng, radius, lngMeters, table))
  {
    var c := Candidates(lat, lng, radius, lngMeters, table);
    assert |OrderBy(c, ByDistance(lat, lng))| == |c| by {
      assert |multiset(OrderBy(c, ByDistance(lat, lng)))| == |multiset(c)|;
    }
  }

  /** A row of the table inside the box is returned, or 100 closer-or-equal rows are. */
  lemma NearbyNoFalseNegative(lat: real, lng: real, radius: real, lngMeters: real, table: seq<EventRow>, row: EventRow)
    requires lngMeters != 0.0
    requires row in table
    requires Contains(SearchBox(lat, lng, radius, lngMeters), row.latitude, row.longitude)
    ensures var r := NearbyRows(lat, lng, radius, lngMeters, table);
      row in r || (|r| == MAX_RESULTS && forall y :: y in r ==> SquaredDegreeDistance(lat, lng, y) <= SquaredDegreeDistance(lat, lng, row))
  {
    var c := Candidates(lat, lng, radius, lngMeters, table);
    var r := NearbyRows(lat, lng, radius, lngMeters, table);
    assert row in multiset(table);
    assert row in multiset(c);
    if |c| <= MAX_RESULTS {
      NearbyAllWhenFew(lat, lng, radius, lngMeters, table);
      assert row in multiset(r);
    } else if row !in r {
      assert row in multiset(c) - multiset(r);
      NearbyKeepsClosest(lat, lng, radius, lngMeters, table);
      NearbyCount(lat, lng, radius, lngMeters, table);
    }
  }
}
