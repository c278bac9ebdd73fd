/** apps/server/src/modules/venues/venues.repository.js: the `getNearby`
    box and ordering, the `update` statement and the `delete` result. */
module Venues {
  import opened Wrappers
  import opened Sql
  import opened GeoBox
  import opened SqlUpdate

  /** A venue row. */
  datatype Venue = Venue(id: int, name: string, description: string, lat: real, lng: real)

  /** Kilometers in one degree of latitude, as the code writes it. */
  const KM_PER_LAT_DEGREE: real := 111.0
  /** The radius, in kilometers, when the caller passes none. */
  const DEFAULT_RADIUS_KM: real := 10.0
  /** The RETURNING list of `update`. */
  const VENUE_COLUMNS: string := "id, name, description, lat, lng, created_at"

  /** `latDelta` and `lngDelta` of lines 66-67.  `kmPerLngDegree` is the
      opaque `111 * Math.cos(lat * PI / 180)`, never exactly zero for a
      floating-point latitude. */
  function NearbyBox(lat: real, lng: real, radiusKm: Option<real>, kmPerLngDegree: real): (b: Box)
    requires kmPerLngDegree != 0.0
  {
    var r := radiusKm.GetOr(DEFAULT_RADIUS_KM);
    var latDelta := r / KM_PER_LAT_DEGREE;
    var lngDelta := r / kmPerLngDegree;
    Around(lat, lng, latDelta, lngDelta)
  }

  /** `getNearby`: the venues inside the inclusive box, ordered by
      `distance_km`, which the model keeps as an opaque function of the row. */
  function GetNearby(
    table: seq<Venue>, lat: real, lng: real, radiusKm: Option<real>,
    kmPerLngDegree: real, distanceKm: Venue -> real): (r: seq<Venue>)
    requires kmPerLngDegree != 0.0
    ensures SortedBy(r, distanceKm)
    ensures var box := NearbyBox(lat, lng, radiusKm, kmPerLngDegree);
      forall x :: multiset(r)[x] == if Contains(box, x.lat, x.lng) then multiset(table)[x] else 0
  {
    var box := NearbyBox(lat, lng, radiusKm, kmPerLngDegree);
    OrderBy(Where(table, (v: Venue) => Contains(box, v.lat, v.lng)), distanceKm)
  }

  /** Every venue returned lies within radius/111 degrees of latitude and
      radius/kmPerLngDegree degrees of longitude, bounds included, the
      radius being 10 km when none is given; every venue of the table in
      that box is returned. */
  lemma {:induction false} GetNearbyBox(
    table: seq<Venue>, lat: real, lng: real, radiusKm: Option<real>,
    kmPerLngDegree: real, distanceKm: Venue -> real, v: Venue)
    requires kmPerLngDegree != 0.0
    ensures var r := radiusKm.GetOr(10.0);
      v in GetNearby(table, lat, lng, radiusKm, kmPerLngDegree, distanceKm) <==>
        && v in table
        && lat - r / 111.0 <= v.lat <= lat + r / 111.0
        && lng - r / kmPerLngDegree <= v.lng <= lng + r / kmPerLngDegree
  {
    var got := GetNearby(table, lat, lng, radiusKm, kmPerLngDegree, distanceKm);
    assert v in got <==> v in multiset(got);
    assert v in table <==> v in multiset(table);
  }

  /** `update`: the statement and its bound values. */
  method Update(id: SqlValue, updates: seq<(string, SqlValue)>) returns (sql: string, values: seq<SqlValue>)
    ensures sql == UpdateStatement("venues", Assignments(updates), |updates| + 1, VENUE_COLUMNS)
    ensures |values| == |updates| + 1 && values[|updates|] == id
    ensures forall k :: 0 <= k < |updates| ==> values[k] == updates[k].1
  {
    var fields, paramCount;
    fields, values, paramCount := BuildAssignments(updates, id);
    sql := UpdateStatement("venues", fields, paramCount, VENUE_COLUMNS);
  }

  /** `delete(id)`: true when `DELETE ... WHERE id = $1 RETURNING id` gives a row back. */
  function Delete(table: seq<Venue>, id: int): (deleted: bool)
    ensures deleted <==> exists i :: 0 <= i < |table| && table[i].id == id
  {
    WhereNonEmpty(table, (v: Venue) => v.id == id);
    |Where(table, (v: Venue) => v.id == id)| > 0
  }
}
