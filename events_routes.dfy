/** The `GET /` handler of apps/server/src/modules/events/events.routes.js:
    an ordered chain of checks on the query string (presence, numeric,
    latitude range, longitude range, radius), then the service call.
    JavaScript's `parseFloat` and `parseInt(_, 10)` are parameters of the
    model: None stands for NaN. */
module EventsRoutes {
  import opened Wrappers
  import opened GeoBox
  import opened EventsRepository
  import opened EventsService

  const MISSING_PARAMS: string := "Missing required query parameters: lat and lng"
  const NOT_NUMBERS: string := "Invalid lat or lng: must be numbers"
  const BAD_LATITUDE: string := "Invalid latitude: must be between -90 and 90"
  const BAD_LONGITUDE: string := "Invalid longitude: must be between -180 and 180"
  const BAD_RADIUS: string := "Invalid radius: must be a positive number"
  /** The radius, in meters, when the query string gives none. */
  const DEFAULT_SEARCH_RADIUS: int := 1000

  /** The query after every check has passed. */
  datatype NearbyQuery = NearbyQuery(latitude: real, longitude: real, radius: int)

  datatype Body =
    | ErrorBody(error: string)
    | ServerErrorBody(error: string, message: string)
    | NearbyBody(response: NearbyResponse)

  datatype HttpResponse = HttpResponse(status: int, body: Body)

  /** A query parameter that JavaScript treats as false: absent or empty. */
  predicate Falsy(param: Option<string>) {
    param.None? || param.value == ""
  }

  /** The checks of lines 19-56, each one returning early with a 400. */
  function ValidateQuery(
    lat: Option<string>, lng: Option<string>, radius: Option<string>,
    parseFloat: string -> Option<real>, parseInt: string -> Option<int>): (r: Result<NearbyQuery, string>)
    ensures r.Success? <==>
      && !Falsy(lat) && !Falsy(lng)
      && parseFloat(lat.value).Some? && parseFloat(lng.value).Some?
      && -90.0 <= parseFloat(lat.value).value <= 90.0
      && -180.0 <= parseFloat(lng.value).value <= 180.0
      && (Falsy(radius) || (parseInt(radius.value).Some? && parseInt(radius.value).value > 0))
    ensures r.Success? ==> r.value == NearbyQuery(
      parseFloat(lat.value).value,
      parseFloat(lng.value).value,
      if Falsy(radius) then DEFAULT_SEARCH_RADIUS else parseInt(radius.value).value)
    ensures r.Success? ==> r.value.radius > 0
    ensures r.Failure? ==> r.error in {MISSING_PARAMS, NOT_NUMBERS, BAD_LATITUDE, BAD_LONGITUDE, BAD_RADIUS}
  {
    if Falsy(lat) || Falsy(lng) then Failure(MISSING_PARAMS)
    else
      var latitude := parseFloat(lat.value);
      var longitude := parseFloat(lng.value);
      if latitude.None? || longitude.None? then Failure(NOT_NUMBERS)
      else if latitude.value < -90.0 || latitude.value > 90.0 then Failure(BAD_LATITUDE)
      else if longitude.value < -180.0 || longitude.value > 180.0 then Failure(BAD_LONGITUDE)
      else
        var searchRadius := if Falsy(radius) then Some(DEFAULT_SEARCH_RADIUS) else parseInt(radius.value);
        if searchRadius.None? || searchRadius.value <= 0 then Failure(BAD_RADIUS)
        else Success(NearbyQuery(latitude.value, longitude.value, searchRadius.value))
  }

  /** The whole handler: 400 on a failed check, otherwise the service is
      called with the parsed values; 200 with its envelope, or 500 when it
      throws. */
  function GetNearbyEvents(
    lat: Option<string>, lng: Option<string>, radius: Option<string>,
    parseFloat: string -> Option<real>, parseInt: string -> Option<int>,
    metersPerLngDegree: real -> real,
    table: Result<seq<EventRow>, string>): (resp: HttpResponse)
    ensures var v := ValidateQuery(lat, lng, radius, parseFloat, parseInt);
      && (resp.status == 400 <==> v.Failure?)
      && (v.Failure? ==> resp.body == ErrorBody(v.error))
      && (v.Success? ==>
            var s := FetchNearbyEvents(v.value.latitude, v.value.longitude, Some(v.value.radius as real), metersPerLngDegree, table);
            if s.Success? then resp == HttpResponse(200, NearbyBody(s.value))
            else resp == HttpResponse(500, ServerErrorBody(FETCH_ERROR, s.error)))
  {
    match ValidateQuery(lat, lng, radius, parseFloat, parseInt)
    case Failure(msg) => HttpResponse(400, ErrorBody(msg))
    case Success(q) =>
      match FetchNearbyEvents(q.latitude, q.longitude, Some(q.radius as real), metersPerLngDegree, table)
      case Success(response) => HttpResponse(200, NearbyBody(response))
      case Failure(message) => HttpResponse(500, ServerErrorBody(FETCH_ERROR, message))
  }

  /** A missing lat or lng is reported before anything is parsed: the
      answer does not depend on the parsers. */
  lemma MissingBeforeParsing(
    lat: Option<string>, lng: Option<string>, radius: Option<string>,
    parseFloat1: string -> Option<real>, parseInt1: string -> Option<int>,
    parseFloat2: string -> Option<real>, parseInt2: string -> Option<int>)
    requires Falsy(lat) || Falsy(lng)
    ensures ValidateQuery(lat, lng, radius, parseFloat1, parseInt1) == Failure(MISSING_PARAMS)
    ensures ValidateQuery(lat, lng, radius, parseFloat1, parseInt1) == ValidateQuery(lat, lng, radius, parseFloat2, parseInt2)
  {
  }

  /** The first failing check decides the message: each message is given
      exactly when every earlier check passed and its own check failed. */
  lemma FirstFailureDecides(
    lat: Option<string>, lng: Option<string>, radius: Option<string>,
    parseFloat: string -> Option<real>, parseInt: string -> Option<int>)
    ensures var r := ValidateQuery(lat, lng, radius, parseFloat, parseInt);
      var present := !Falsy(lat) && !Falsy(lng);
      var numeric := present && parseFloat(lat.value).Some? && parseFloat(lng.value).Some?;
      var latOk := numeric && -90.0 <= parseFloat(lat.value).value <= 90.0;
      var lngOk := latOk && -180.0 <= parseFloat(lng.value).value <= 180.0;
      && (r == Failure(MISSING_PARAMS) <==> !present)
      && (r == Failure(NOT_NUMBERS) <==> present && !numeric)
      && (r == Failure(BAD_LATITUDE) <==> numeric && !latOk)
      && (r == Failure(BAD_LONGITUDE) <==> latOk && !lngOk)
      && (r == Failure(BAD_RADIUS) <==>
            lngOk && !Falsy(radius) && (parseInt(radius.value).None? || parseInt(radius.value).value <= 0))
  {
  }

  /** Both ends of each coordinate range are accepted; an absent or empty
      radius becomes 1000 meters. */
  lemma BoundsInclusive(
    lat: Option<string>, lng: Option<string>, radius: Option<string>,
    parseFloat: string -> Option<real>, parseInt: string -> Option<int>)
    requires !Falsy(lat) && !Falsy(lng) && Falsy(radius)
    requires parseFloat(lat.value) == Some(-90.0) || parseFloat(lat.value) == Some(90.0)
    requires parseFloat(lng.value) == Some(-180.0) || parseFloat(lng.value) == Some(180.0)
    ensures ValidateQuery(lat, lng, radius, parseFloat, parseInt) ==
      Success(NearbyQuery(parseFloat(lat.value).value, parseFloat(lng.value).value, 1000))
  {
  }

  /** A 200 answer carries the parsed center and radius and at most 100
      events, all inside the search box around that center. */
  lemma {:induction false} OkResponse(
    lat: Option<string>, lng: Option<string>, radius: Option<string>,
    parseFloat: string -> Option<real>, parseInt: string -> Option<int>,
    metersPerLngDegree: real -> real,
    table: Result<seq<EventRow>, string>)
    requires GetNearbyEvents(lat, lng, radius, parseFloat, parseInt, metersPerLngDegree, table).status == 200
    ensures var resp := GetNearbyEvents(lat, lng, radius, parseFloat, parseInt, metersPerLngDegree, table);
      var q := ValidateQuery(lat, lng, radius, parseFloat, parseInt).value;
      && resp.body.NearbyBody?
      && resp.body.response.center == Center(q.latitude, q.longitude)
      && resp.body.response.radius == q.radius as real > 0.0
      && resp.body.response.count == |resp.body.response.events| <= MAX_RESULTS
      && metersPerLngDegree(q.latitude) != 0.0
      && forall e :: e in resp.body.response.events ==>
           Contains(SearchBox(q.latitude, q.longitude, q.radius as real, metersPerLngDegree(q.latitude)), e.latitude, e.longitude)
  {
    var q := ValidateQuery(lat, lng, radius, parseFloat, parseInt).value;
    ResponseConsistent(q.latitude, q.longitude, Some(q.radius as real), metersPerLngDegree, table);
  }
}
