/** `fetchNearbyEvents` (apps/server/src/modules/events/events.service.js):
    wraps the repository result in the response envelope, or rethrows the
    repository's error unchanged. */
module EventsService {
  import opened Wrappers
  import opened Sql
  import opened GeoBox
  import opened EventsRepository

  datatype Center = Center(latitude: real, longitude: real)

  /** `{ success, count, radius, center, events }`. */
  datatype NearbyResponse = NearbyResponse(
    success: bool,
    count: nat,
    radius: real,
    center: Center,
    events: seq<EventRow>)

  /** The radius used when the caller passes none. */
  const DEFAULT_RADIUS: real := 1000.0

  /** `radius` is None when the argument is undefined. */
  function FetchNearbyEvents(
    lat: real, lng: real, radius: Option<real>,
    metersPerLngDegree: real -> real,
    table: Result<seq<EventRow>, string>): (r: Result<NearbyResponse, string>)
    ensures var used := if radius.None? then DEFAULT_RADIUS else radius.value;
      var repo := GetEventsNearby(lat, lng, used, metersPerLngDegree, table);
      && (r.Success? <==> repo.Success?)
      && (r.Failure? ==> r.error == repo.error)
      && (r.Success? ==> r.value == NearbyResponse(true, |repo.value|, used, Center(lat, lng), repo.value))
  {
    var used := radius.GetOr(DEFAULT_RADIUS);
    match GetEventsNearby(lat, lng, used, metersPerLngDegree, table)
    case Failure(e) => Failure(e)
    case Success(events) =>
      Success(NearbyResponse(
        success := true,
        count := |events|,
        radius := used,
        center := Center(lat, lng),
        events := events))
  }

  /** A successful envelope counts its own events, carries at most 100 of
      them, all in the search box, nearest first; a failed one carries the
      repository's message. */
  lemma {:induction false} ResponseConsistent(
    lat: real, lng: real, radius: Option<real>,
    metersPerLngDegree: real -> real,
    table: Result<seq<EventRow>, string>)
    ensures var r := FetchNearbyEvents(lat, lng, radius, metersPerLngDegree, table);
      && (r.Failure? ==> r.error == FETCH_ERROR)
      && (r.Success? ==>
        && r.value.success
        && r.value.count == |r.value.events| <= MAX_RESULTS
        && r.value.center == Center(lat, lng)
        && r.value.radius == radius.GetOr(DEFAULT_RADIUS)
        && metersPerLngDegree(lat) != 0.0
        && (forall e :: e in r.value.events ==>
              Contains(SearchBox(lat, lng, r.value.radius, metersPerLngDegree(lat)), e.latitude, e.longitude))
        && SortedBy(r.value.events, ByDistance(lat, lng)))
  {
    var r := FetchNearbyEvents(lat, lng, radius, metersPerLngDegree, table);
    if r.Success? {
      var used := radius.GetOr(DEFAULT_RADIUS);
      var m := metersPerLngDegree(lat);
      assert r.value.events == NearbyRows(lat, lng, used, m, table.value);
      NearbyWithinBox(lat, lng, used, m, table.value);
      NearbyOrdered(lat, lng, used, m, table.value);
    }
  }
}
