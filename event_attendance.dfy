/** apps/server/src/modules/events/event-attendance.repository.js: the
    per-event attendance counts, the check-in test and the results of the
    two deletes. */
module EventAttendance {
  import opened Wrappers
  import opened Sql

  /** A row of `SELECT event_id, COUNT(*) ... GROUP BY event_id`, with
      `parseInt(row.count, 10)` applied. */
  datatype EventCount = EventCount(eventId: int, count: nat)

  /** The `counts` object after the forEach of lines 126-128: exactly the
      events that have a row are keys; events without a row are absent
      rather than 0. */
  function CountsOf(rows: seq<EventCount>): (counts: map<int, nat>)
    ensures counts.Keys == set i | 0 <= i < |rows| :: rows[i].eventId
  {
    if rows == [] then map[]
    else
      var init := rows[..|rows| - 1];
      var last := rows[|rows| - 1];
      assert forall i :: 0 <= i < |init| ==> init[i] == rows[i];
      assert (set i | 0 <= i < |rows| :: rows[i].eventId) == (set i | 0 <= i < |init| :: init[i].eventId) + {last.eventId};
      CountsOf(init)[last.eventId := last.count]
  }

  /** A later row for the same event overwrites an earlier one: each count
      is the count of the event's last row. */
  lemma {:induction false} CountsOfLastWins(rows: seq<EventCount>, id: int)
    requires id in CountsOf(rows)
    ensures exists i :: 0 <= i < |rows| && rows[i].eventId == id && CountsOf(rows)[id] == rows[i].count &&
                        (forall j :: i < j < |rows| ==> rows[j].eventId != id)
  {
    var init := rows[..|rows| - 1];
    var last := rows[|rows| - 1];
    if last.eventId == id {
      assert CountsOf(rows)[id] == last.count;
    } else {
      assert CountsOf(rows)[id] == CountsOf(init)[id];
      CountsOfLastWins(init, id);
      var i :| 0 <= i < |init| && init[i].eventId == id && CountsOf(init)[id] == init[i].count &&
               (forall j :: i < j < |init| ==> init[j].eventId != id);
      assert rows[i] == init[i];
      assert forall j :: i < j < |rows| ==> rows[j].eventId != id by {
        forall j | i < j < |rows| ensures rows[j].eventId != id {
          if j < |init| { assert rows[j] == init[j]; }
        }
      }
    }
  }

  /** `getAttendanceCounts` (lines 115-130).  `eventIds` is None when the
      argument is missing; `rows` is what the grouped query returns. */
  method GetAttendanceCounts(eventIds: Option<seq<int>>, rows: seq<EventCount>) returns (counts: map<int, nat>)
    ensures eventIds.None? || eventIds.value == [] ==> counts == map[]
    ensures eventIds.Some? && eventIds.value != [] ==> counts == CountsOf(rows)
  {
    if eventIds.None? || eventIds.value == [] {
      return map[];
    }
    counts := map[];
    var i := 0;
    while i < |rows|
      invariant 0 <= i <= |rows|
      invariant counts == CountsOf(rows[..i])
    {
      assert rows[..i + 1][..i] == rows[..i];
      counts := counts[rows[i].eventId := rows[i].count];
      i := i + 1;
    }
    assert rows[..|rows|] == rows;
  }

  /** A stored check-in: the columns the queries filter on. */
  datatype Attendance = Attendance(id: int, userId: int, eventId: int)

  /** `isCheckedIn`: `COUNT(*) > 0` over the user's check-ins to the event. */
  function IsCheckedIn(table: seq<Attendance>, userId: int, eventId: int): (checkedIn: bool)
    ensures checkedIn <==> exists i :: 0 <= i < |table| && table[i].userId == userId && table[i].eventId == eventId
  {
    WhereNonEmpty(table, (a: Attendance) => a.userId == userId && a.eventId == eventId);
    Count(table, (a: Attendance) => a.userId == userId && a.eventId == eventId) > 0
  }

  /** `delete(id)`: true when `DELETE ... WHERE id = $1 RETURNING id` gives a row back. */
  function Delete(table: seq<Attendance>, id: int): (deleted: bool)
    ensures deleted <==> exists i :: 0 <= i < |table| && table[i].id == id
  {
    WhereNonEmpty(table, (a: Attendance) => a.id == id);
    |Where(table, (a: Attendance) => a.id == id)| > 0
  }

  /** `deleteUserEventAttendance(userId, eventId)`: true when a row comes back. */
  function DeleteUserEventAttendance(table: seq<Attendance>, userId: int, eventId: int): (deleted: bool)
    ensures deleted <==> exists i :: 0 <= i < |table| && table[i].userId == userId && table[i].eventId == eventId
  {
    WhereNonEmpty(table, (a: Attendance) => a.userId == userId && a.eventId == eventId);
    |Where(table, (a: Attendance) => a.userId == userId && a.eventId == eventId)| > 0
  }
}
