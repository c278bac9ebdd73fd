# Nearby events and aggregation logic of the Umap server, in Dafny

This project models the parts of the Umap server (`apps/server/src/modules`)
that carry logic, and proves properties about them:

- **Nearby-events query** (`events.repository.js`). The one SELECT is modelled by what it declares, applied to the events table given as a sequence of rows. It keeps the rows inside an inclusive latitude/longitude box built from a radius in meters. It orders them by squared distance measured in degrees. It keeps at most 100. Any query failure is reported as "Failed to fetch nearby events".
- **Request handling** (`events.routes.js`, `events.service.js`). The GET handler runs its checks in a fixed order: presence, numeric, latitude range, longitude range, then the radius default and the positivity check. The service builds the response envelope around the repository result.
- **Count aggregation** (`event-reactions.repository.js`, `event-attendance.repository.js`). The loops fold grouped count rows into reaction summaries and into per-event attendance counts. The reaction-type validator is modelled too.
- **Dynamic UPDATE builder** (`venues.repository.js`, `users.repository.js`). A list of (key, value) entries becomes `key = $i` fragments and a values array, with the id bound last to `$(n+1)`.
- **Small results in the same files**: the venue search box, `google_id || null`, `emailExists`, `isCheckedIn` and the boolean results of the deletes.

Module layout: `Wrappers` (Option, Result), `Sql` (the meaning of WHERE, ORDER BY ... ASC, LIMIT, BETWEEN and COUNT over a sequence of rows), `GeoBox` (the two-BETWEEN rectangle), and one module per source file: `EventsRepository`, `EventsService`, `EventsRoutes`, `EventReactions`, `EventAttendance`, `Venues`, `Users`. `SqlUpdate` holds the UPDATE-builder loop that the venue and user repositories both contain.

The repositories keep no state of their own, because the connection pool is global. They are therefore modules of functions, not classes. The loops that fill maps and arrays are methods with loop invariants. Each such method is proved equal to a fold function, and the properties are proved about that function.

The events query ranks rows by planar squared distance in degrees, not by great-circle distance, and rows at equal distance have no tie-break on id. It uses the cosine of the query latitude as it is, with no clamp near the poles. It does not check the coordinates stored in each row, and it does not cap how many rows the box lets through before sorting. Every query failure becomes the same error message. The radius is checked in the route, not in the query, and `parseInt` makes it a whole number of meters.

## Model

| member | source | states |
|---|---|---|
| `Sql.Where` | apps/server/src/modules/events/events.repository.js:20-24 | a WHERE keeps each table row that meets the condition, exactly as often as it occurs, and nothing else |
| `Sql.WhereNonEmpty` | apps/server/src/modules/events/event-reactions.repository.js:181-183 | a WHERE returns at least one row iff some table row meets the condition |
| `Sql.OrderBy` | apps/server/src/modules/events/events.repository.js:25 | ORDER BY ... ASC returns a permutation of its input that is non-decreasing in the key |
| `Sql.InsertSorted` | apps/server/src/modules/events/events.repository.js:25 | inserting one row into a sorted sequence keeps it sorted |
| `Sql.LimitKeepsSmallest` | apps/server/src/modules/events/events.repository.js:25-26 | cutting a sorted sequence drops only rows whose key is at least that of every kept row |
| `EventsRepository.GetEventsNearby` | apps/server/src/modules/events/events.repository.js:10-35 | the call fails iff the query fails (including a zero cosine factor, i.e. division by zero); every failure reads "Failed to fetch nearby events"; a success holds at most 100 rows, all from the table |
| `EventsRepository.NearbyRows` | apps/server/src/modules/events/events.repository.js:11-27 | the rows a successful query returns (WHERE, then ORDER BY, then LIMIT): at most 100, non-decreasing in squared degree distance; the `Nearby*` lemmas below are stated about it |
| `EventsRepository.NearbyWithinBox` | apps/server/src/modules/events/events.repository.js:21-24 | each returned row has `lat - r/111000 <= latitude <= lat + r/111000` and `lng - r/m <= longitude <= lng + r/m` (m is the cosine factor), bounds included |
| `EventsRepository.NearbyOrdered` | apps/server/src/modules/events/events.repository.js:25 | returned rows are non-decreasing in `(lat-latitude)^2 + (lng-longitude)^2` |
| `EventsRepository.NearbyCount` | apps/server/src/modules/events/events.repository.js:26 | the result has min(100, rows in box) rows |
| `EventsRepository.NearbySubMultiset` | apps/server/src/modules/events/events.repository.js:20-26 | the result is a sub-multiset of the table |
| `EventsRepository.NearbyKeepsClosest` | apps/server/src/modules/events/events.repository.js:25-26 | any in-box row left out is at least as far as every row returned |
| `EventsRepository.NearbyAllWhenFew` | apps/server/src/modules/events/events.repository.js:21-26 | with at most 100 rows in the box, the result holds all of them |
| `EventsRepository.NearbyNoFalseNegative` | apps/server/src/modules/events/events.repository.js:21-26 | an in-box table row is returned, or 100 rows at least as close are |
| `EventsService.FetchNearbyEvents` | apps/server/src/modules/events/events.service.js:10-24 | success iff the repository succeeds; `count` is the number of events; the events are the repository's result unchanged; `radius` is echoed or defaults to 1000; `center` is (lat, lng); a repository error is passed on unchanged |
| `EventsService.ResponseConsistent` | apps/server/src/modules/events/events.service.js:12-19 | a successful envelope has `success`, `count == events.length <= 100`, and events that are inside the box and sorted nearest first; a failure carries the repository's message |
| `EventsRoutes.ValidateQuery` | apps/server/src/modules/events/events.routes.js:16-56 | accepted iff lat and lng are present and numeric, latitude is in [-90, 90], longitude is in [-180, 180], and the radius is absent, empty, or parses to a positive integer; the accepted query holds the parsed values, with radius 1000 by default |
| `EventsRoutes.GetNearbyEvents` | apps/server/src/modules/events/events.routes.js:14-69 | status 400 iff validation fails, with the failing check's message; otherwise the service is called with the parsed latitude, longitude and radius, giving 200 with the envelope or 500 with the error |
| `EventsRoutes.MissingBeforeParsing` | apps/server/src/modules/events/events.routes.js:19-23 | a missing or empty lat or lng gives the "Missing required" error whatever the parsers would return |
| `EventsRoutes.FirstFailureDecides` | apps/server/src/modules/events/events.routes.js:19-56 | each error message is returned exactly when all earlier checks passed and its own check failed |
| `EventsRoutes.BoundsInclusive` | apps/server/src/modules/events/events.routes.js:36-50 | latitude ±90 and longitude ±180 are accepted, and an absent or empty radius becomes 1000 |
| `EventsRoutes.OkResponse` | apps/server/src/modules/events/events.routes.js:59-61 | a 200 response carries the parsed center, the positive parsed radius, and at most 100 events, all inside the box around that center |
| `EventReactions.IsValidReaction` | apps/server/src/modules/events/event-reactions.repository.js:224-226 | true exactly for "sad", "neutral", "happy" and "excited" |
| `EventReactions.ZeroSummary` | apps/server/src/modules/events/event-reactions.repository.js:102-108 | the starting summary has the four reactions and `total`, all 0 |
| `EventReactions.Summarize` | apps/server/src/modules/events/event-reactions.repository.js:110-113 | the forEach as a fold, one `Tally` step per row in order; no key of the starting summary is ever removed (a row named `__proto__` only adds to `total`, because JavaScript's inherited setter drops the number) |
| `EventReactions.GetReactionSummary` | apps/server/src/modules/events/event-reactions.repository.js:91-116 | the loop's result is the fold of the rows into the zero summary; the four reactions are always present; with valid reactions, `total` is the sum of the counts and no other key appears |
| `EventReactions.SummaryTotal` | apps/server/src/modules/events/event-reactions.repository.js:110-113 | when no row's reaction is named "total", the final total is the start total plus the sum of the counts |
| `EventReactions.SummaryKeys` | apps/server/src/modules/events/event-reactions.repository.js:102-113 | the summary's reaction keys are the starting keys plus the rows' reactions, except `total` (a field, not an entry) and `__proto__` (whose inherited setter creates no key) |
| `EventReactions.SummaryEntry` | apps/server/src/modules/events/event-reactions.repository.js:111 | a reaction's entry is assigned, not added: it holds the count of its last row, and keeps its starting value (0) when no row names it; `__proto__` always keeps its starting state |
| `EventReactions.ZeroSummaries` | apps/server/src/modules/events/event-reactions.repository.js:137-146 | every requested id, and no other, gets a zeroed summary |
| `EventReactions.SummarizeEvents` | apps/server/src/modules/events/event-reactions.repository.js:148-151 | the per-event forEach as a fold; when it does not throw, it keeps exactly the requested event ids as keys |
| `EventReactions.SummarizeEventsPerEvent` | apps/server/src/modules/events/event-reactions.repository.js:148-151 | the fold throws iff some row's event was not requested; otherwise the keys stay the same and each event's summary is exactly its own rows folded in |
| `EventReactions.GetReactionSummaries` | apps/server/src/modules/events/event-reactions.repository.js:123-154 | a missing or empty id list gives `{}` whatever the rows are; otherwise the loops' result is the per-event fold over zeroed summaries |
| `EventReactions.SummariesTotals` | apps/server/src/modules/events/event-reactions.repository.js:138-151 | when all rows have valid reactions of requested events, every requested id has a summary whose total is the sum of its rows' counts |
| `EventReactions.Delete` | apps/server/src/modules/events/event-reactions.repository.js:180-184 | true iff a reaction with that id existed |
| `EventReactions.DeleteUserReaction` | apps/server/src/modules/events/event-reactions.repository.js:192-200 | true iff the user had a reaction to the event |
| `EventAttendance.CountsOf` | apps/server/src/modules/events/event-attendance.repository.js:125-129 | the keys are exactly the rows' event ids, so events without a row are absent rather than 0 |
| `EventAttendance.CountsOfLastWins` | apps/server/src/modules/events/event-attendance.repository.js:126-128 | each count comes from the last row for that event |
| `EventAttendance.GetAttendanceCounts` | apps/server/src/modules/events/event-attendance.repository.js:115-130 | a missing or empty id list gives `{}`; otherwise the loop's result is the fold of the rows |
| `EventAttendance.IsCheckedIn` | apps/server/src/modules/events/event-attendance.repository.js:45-52 | true iff a check-in of that user to that event exists |
| `EventAttendance.Delete` | apps/server/src/modules/events/event-attendance.repository.js:137-141 | true iff a check-in with that id existed |
| `EventAttendance.DeleteUserEventAttendance` | apps/server/src/modules/events/event-attendance.repository.js:149-153 | true iff the user was checked in to the event |
| `SqlUpdate.BuildAssignments` | apps/server/src/modules/venues/venues.repository.js:99-109 | fragment k is `key_k = $(k+1)` in entry order; `values` holds the n entry values in order and then the id (length n+1); `paramCount` ends at n+1 |
| `SqlUpdate.DecimalRoundTrip` | apps/server/src/modules/venues/venues.repository.js:104-113 | reading back the digits of a `$n` placeholder gives n, so each placeholder names exactly one position in `values` |
| `Venues.GetNearby` | apps/server/src/modules/venues/venues.repository.js:64-90 | the result is a permutation of the table rows inside the box, sorted by `distance_km` |
| `Venues.GetNearbyBox` | apps/server/src/modules/venues/venues.repository.js:64-85 | a venue is returned iff it is in the table and inside `lat ± radiusKm/111` and `lng ± radiusKm/(111 cos lat)`, bounds included, with radiusKm 10 when none is given |
| `Venues.Update` | apps/server/src/modules/venues/venues.repository.js:98-118 | the UPDATE text has the numbered SET list and `WHERE id = $(n+1)`; `values` is the update values followed by the id |
| `Venues.Delete` | apps/server/src/modules/venues/venues.repository.js:125-129 | true iff a venue with that id existed |
| `Users.GoogleIdParam` | apps/server/src/modules/users/users.repository.js:24 | a present, non-empty Google id is passed through; an absent or empty one becomes NULL |
| `Users.CreateParams` | apps/server/src/modules/users/users.repository.js:17-26 | `$1` is the email, `$2` the password hash, and `$3` is NULL exactly when the Google id is absent or empty |
| `Users.Update` | apps/server/src/modules/users/users.repository.js:67-87 | the UPDATE text has the numbered SET list and `WHERE id = $(n+1)`; `values` is the update values followed by the id |
| `Users.Delete` | apps/server/src/modules/users/users.repository.js:94-98 | true iff a user with that id existed |
| `Users.EmailExists` | apps/server/src/modules/users/users.repository.js:122-126 | true iff a user with that email exists |

## Left out

- Query execution, the connection pool and `console.error` logging are not modelled. Each query's answer is taken as given: a table (or grouped rows) as a sequence, or a failure.
- The database may return rows at equal distance in any order. `Sql.OrderBy` fixes one admissible order: ties keep table order. The ordering, box, bound and closest-kept lemmas hold for any order, but the model computes only this one.
- Floating point is not modelled. Coordinates, radii and distances are exact reals, and NaN and Infinity are not represented. `parseFloat` and `parseInt` are parameters that return None for NaN. An infinite `parseFloat` result would fail the range checks in the source anyway. An infinite radius is not covered: `parseInt(radius, 10)` on a digit string of 310 or more characters gives Infinity, which passes the positivity check at events.routes.js:52 and reaches the query, but the model's `parseInt` returns only finite integers.
- A query parameter repeated in the URL (Express then gives an array) is not modelled. Each parameter is one optional string.
- The cosines (`COS(RADIANS($1))` in the events query, `Math.cos` in `getNearby`) and the `acos`-based `distance_km` with its ROUND are opaque parameters. Nothing is proved about trigonometry.
- Venues.GetNearby: requires a non-zero `111 * cos(lat)`. In JavaScript a zero would divide to Infinity, but the cosine of a floating-point latitude is never exactly zero.
- Rows with NULL coordinates are not modelled. Such a row never meets a BETWEEN.
- `parseInt(row.count, 10)` on COUNT(*) is taken as already applied: counts are natural numbers.
- The order of `Object.entries(updates)` is not modelled. JavaScript lists integer-like keys first; the model takes the entries in whatever order it yields.
- The rest of an update is not modelled: running it, returning `rows[0] || null`, and the empty-update case. With no entries, the SET list is empty and the database rejects the statement. Keys are concatenated into the text unchecked, and nothing about that is modelled beyond the text itself.
- The deletes are modelled only by their boolean result. The table's state afterwards is not.
- The remaining CRUD queries of these files are not modelled: create, getById, getAll, getByEmail, getByGoogleId, getUserReaction, getEventReactions, getUserReactions, getEventAttendees, getUserEvents, getAttendanceCount and count. Neither are their ORDER BY created_at DESC and LIMIT/OFFSET pagination. They pass values straight to the database.
- The mobile app (React screens, navigation, the API client and its haversine `calculateDistance`) and the server's startup and Express wiring are not part of this model.
