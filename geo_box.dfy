/** The latitude/longitude rectangle both proximity queries filter on:
    two inclusive BETWEEN conditions centred on the query point. */
module GeoBox {
  import opened Sql

  datatype Box = Box(latMin: real, latMax: real, lngMin: real, lngMax: real)

  /** The rectangle `lat ± latDelta`, `lng ± lngDelta`. */
  function Around(lat: real, lng: real, latDelta: real, lngDelta: real): Box {
    Box(lat - latDelta, lat + latDelta, lng - lngDelta, lng + lngDelta)
  }

  /** `latitude BETWEEN latMin AND latMax AND longitude BETWEEN lngMin AND lngMax`. */
  predicate Contains(b: Box, latitude: real, longitude: real) {
    Between(latitude, b.latMin, b.latMax) && Between(longitude, b.lngMin, b.lngMax)
  }
}
