/** apps/server/src/modules/events/event-reactions.repository.js: the
    reaction vocabulary, the folding of grouped counts into summaries, and
    the results of the two deletes. */
module EventReactions {
  import opened Wrappers
  import opened Sql

  /** `REACTIONS`, the valid reaction types. */
  const REACTIONS: seq<string> := ["sad", "neutral", "happy", "excited"]

  /** The summary key that holds the sum of the counts. */
  const TOTAL_KEY: string := "total"

  /** The key JavaScript objects inherit an accessor for: assigning a
      number to it calls `Object.prototype`'s setter, which ignores any
      value that is not an object, so no entry is created. */
  const PROTO_KEY: string := "__proto__"

  /** `isValidReaction`: membership in REACTIONS. */
  function IsValidReaction(reaction: string): (valid: bool)
    ensures valid <==> reaction == "sad" || reaction == "neutral" || reaction == "happy" || reaction == "excited"
    ensures valid ==> reaction != TOTAL_KEY && reaction != PROTO_KEY
  {
    reaction in REACTIONS
  }

  /** The summary object: one entry per reaction seen plus `total`.  A
      reaction literally named "total" writes the `total` field itself. */
  datatype Summary = Summary(counts: map<string, int>, total: int)

  /** `{ sad: 0, neutral: 0, happy: 0, excited: 0, total: 0 }`. */
  function ZeroSummary(): (s: Summary)
    ensures s.counts.Keys == set r | r in REACTIONS
    ensures forall r :: r in s.counts ==> s.counts[r] == 0
    ensures s.total == 0
  {
    Summary(map["sad" := 0, "neutral" := 0, "happy" := 0, "excited" := 0], 0)
  }

  /** A row of `GROUP BY reaction`, with `parseInt(row.count, 10)` applied. */
  datatype ReactionCount = ReactionCount(reaction: string, count: nat)

  /** One step of the forEach: the reaction's entry is assigned the row's
      count, then the count is added to `total`. */
  function Tally(s: Summary, reaction: string, count: int): Summary {
    if reaction == TOTAL_KEY then Summary(s.counts, count + count)
    else if reaction == PROTO_KEY then Summary(s.counts, s.total + count)
    else Summary(s.counts[reaction := count], s.total + count)
  }

  /** The summary after folding `rows`, in order, into `start`. */
  function Summarize(start: Summary, rows: seq<ReactionCount>): (s: Summary)
    ensures start.counts.Keys <= s.counts.Keys
  {
    if rows == [] then start
    else
      var last := rows[|rows| - 1];
      Tally(Summarize(start, rows[..|rows| - 1]), last.reaction, last.count)
  }

  /** The sum of the row counts. */
  function SumCounts(rows: seq<ReactionCount>): int {
    if rows == [] then 0 else SumCounts(rows[..|rows| - 1]) + rows[|rows| - 1].count
  }

  /** The count of the last row for `reaction`, if there is one. */
  function LastCount(rows: seq<ReactionCount>, reaction: string): (c: Option<nat>)
    ensures c.None? <==> forall i :: 0 <= i < |rows| ==> rows[i].reaction != reaction
    ensures c.Some? ==> exists i :: 0 <= i < |rows| && rows[i].reaction == reaction && c.value == rows[i].count &&
                                   (forall j :: i < j < |rows| ==> rows[j].reaction != reaction)
  {
    if rows == [] then None
    else if rows[|rows| - 1].reaction == reaction then Some(rows[|rows| - 1].count)
    else LastCount(rows[..|rows| - 1], reaction)
  }

  /** `getReactionSummary`'s loop (lines 102-113). */
  method GetReactionSummary(rows: seq<ReactionCount>) returns (summary: Summary)
    ensures summary == Summarize(ZeroSummary(), rows)
    ensures forall r :: r in REACTIONS ==> r in summary.counts
    ensures (forall i :: 0 <= i < |rows| ==> IsValidReaction(rows[i].reaction)) ==>
      summary.total == SumCounts(rows) && summary.counts.Keys == set r | r in REACTIONS
  {
    summary := ZeroSummary();
    var i := 0;
    while i < |rows|
      invariant 0 <= i <= |rows|
      invariant summary == Summarize(ZeroSummary(), rows[..i])
    {
      assert rows[..i + 1][..i] == rows[..i];
      var row := rows[i];
      if row.reaction == TOTAL_KEY {
        summary := summary.(total := row.count);
      } else if row.reaction == PROTO_KEY {
        // the inherited setter drops the number: no entry
      } else {
        summary := summary.(counts := summary.counts[row.reaction := row.count]);
      }
      summary := summary.(total := summary.total + row.count);
      i := i + 1;
    }
    assert rows[..|rows|] == rows;
    SummaryKeys(ZeroSummary(), rows);
    if forall i :: 0 <= i < |rows| ==> IsValidReaction(rows[i].reaction) {
      SummaryTotal(ZeroSummary(), rows);
    }
  }

  /** When no row names `total`, the folded total is the starting total
      plus the sum of the row counts. */
  lemma {:induction false} SummaryTotal(start: Summary, rows: seq<ReactionCount>)
    requires forall i :: 0 <= i < |rows| ==> rows[i].reaction != TOTAL_KEY
    ensures Summarize(start, rows).total == start.total + SumCounts(rows)
  {
    if rows != [] {
      SummaryTotal(start, rows[..|rows| - 1]);
    }
  }

  /** The entries after folding: the start's keys plus the reactions of
      the rows other than `total` and `__proto__`, and (valid reactions only) exactly the four reactions when
      starting from zero. */
  lemma {:induction false} SummaryKeys(start: Summary, rows: seq<ReactionCount>)
    ensures Summarize(start, rows).counts.Keys ==
      start.counts.Keys + set i | 0 <= i < |rows| && rows[i].reaction != TOTAL_KEY && rows[i].reaction != PROTO_KEY :: rows[i].reaction
    ensures start == ZeroSummary() && (forall i :: 0 <= i < |rows| ==> IsValidReaction(rows[i].reaction)) ==>
      Summarize(start, rows).counts.Keys == set r | r in REACTIONS
  {
    if rows != [] {
      var init := rows[..|rows| - 1];
      SummaryKeys(start, init);
      assert forall i :: 0 <= i < |init| ==> init[i] == rows[i];
      var last := rows[|rows| - 1];
      assert (set i | 0 <= i < |rows| && rows[i].reaction != TOTAL_KEY && rows[i].reaction != PROTO_KEY :: rows[i].reaction) ==
        (set i | 0 <= i < |init| && init[i].reaction != TOTAL_KEY && init[i].reaction != PROTO_KEY :: init[i].reaction) +
        (if last.reaction != TOTAL_KEY && last.reaction != PROTO_KEY then {last.reaction} else {});
    }
  }

  /** A reaction's entry is assigned, not added: it holds the count of the
      last row for that reaction, and keeps its starting value when no row
      names it.  A row for `__proto__` writes no entry, so that one always
      keeps its starting state. */
  lemma {:induction false} SummaryEntry(start: Summary, rows: seq<ReactionCount>, reaction: string)
    requires reaction != TOTAL_KEY
    ensures var m := Summarize(start, rows).counts;
      var c := LastCount(rows, reaction);
      if c.Some? && reaction != PROTO_KEY then reaction in m && m[reaction] == c.value
      else (reaction in m <==> reaction in start.counts) && (reaction in m ==> m[reaction] == start.counts[reaction])
  {
    if rows != [] {
      SummaryEntry(start, rows[..|rows| - 1], reaction);
    }
  }

  /** A row of `GROUP BY event_id, reaction`. */
  datatype EventReactionCount = EventReactionCount(eventId: int, reaction: string, count: nat)

  /** A zeroed summary for each requested id (lines 137-146). */
  function ZeroSummaries(ids: seq<int>): (m: map<int, Summary>)
    ensures m.Keys == set id | id in ids
    ensures forall id :: id in m ==> m[id] == ZeroSummary()
  {
    map id | id in ids :: ZeroSummary()
  }

  /** The fold of lines 148-151.  None when a row's event has no summary:
      JavaScript then throws a TypeError. */
  function SummarizeEvents(start: map<int, Summary>, rows: seq<EventReactionCount>): (r: Option<map<int, Summary>>)
    ensures r.Some? ==> r.value.Keys == start.Keys
  {
    if rows == [] then Some(start)
    else
      var last := rows[|rows| - 1];
      match SummarizeEvents(start, rows[..|rows| - 1])
      case None => None
      case Some(m) =>
        if last.eventId in m then Some(m[last.eventId := Tally(m[last.eventId], last.reaction, last.count)])
        else None
  }

  /** The rows of one event, as single-event rows. */
  function RowsFor(rows: seq<EventReactionCount>, id: int): seq<ReactionCount> {
    if rows == [] then []
    else
      var last := rows[|rows| - 1];
      RowsFor(rows[..|rows| - 1], id) + if last.eventId == id then [ReactionCount(last.reaction, last.count)] else []
  }

  /** The fold throws exactly when some row belongs to an event without a
      summary; otherwise every event keeps its summary, and each summary is
      its own rows folded into it: a row touches only its own event. */
  lemma {:induction false} SummarizeEventsPerEvent(start: map<int, Summary>, rows: seq<EventReactionCount>)
    ensures SummarizeEvents(start, rows).Some? <==> forall i :: 0 <= i < |rows| ==> rows[i].eventId in start
    ensures SummarizeEvents(start, rows).Some? ==>
      var m := SummarizeEvents(start, rows).value;
      m.Keys == start.Keys && forall id :: id in m ==> m[id] == Summarize(start[id], RowsFor(rows, id))
  {
    if rows != [] {
      var init := rows[..|rows| - 1];
      var last := rows[|rows| - 1];
      SummarizeEventsPerEvent(start, init);
      assert forall i :: 0 <= i < |init| ==> init[i] == rows[i];
      if SummarizeEvents(start, init).Some? {
        var m := SummarizeEvents(start, init).value;
        if last.eventId in m {
          var m' := SummarizeEvents(start, rows).value;
          forall id | id in m' ensures m'[id] == Summarize(start[id], RowsFor(rows, id)) {
            var own := RowsFor(init, id);
            if id == last.eventId {
              var ext := own + [ReactionCount(last.reaction, last.count)];
              assert RowsFor(rows, id) == ext;
              assert ext[..|ext| - 1] == own;
            } else {
              assert RowsFor(rows, id) == own;
            }
          }
        }
      }
    }
  }

  /** `getReactionSummaries` (lines 123-154).  `eventIds` is None when the
      argument is missing; `rows` is what the grouped query returns. */
  method GetReactionSummaries(eventIds: Option<seq<int>>, rows: seq<EventReactionCount>)
    returns (summaries: Option<map<int, Summary>>)
    ensures eventIds.None? || eventIds.value == [] ==> summaries == Some(map[])
    ensures eventIds.Some? && eventIds.value != [] ==> summaries == SummarizeEvents(ZeroSummaries(eventIds.value), rows)
  {
    if eventIds.None? || eventIds.value == [] {
      return Some(map[]);
    }
    var ids := eventIds.value;
    var m: map<int, Summary> := map[];
    var i := 0;
    while i < |ids|
      invariant 0 <= i <= |ids|
      invariant m.Keys == set j | 0 <= j < i :: ids[j]
      invariant forall id :: id in m ==> m[id] == ZeroSummary()
    {
      m := m[ids[i] := ZeroSummary()];
      i := i + 1;
    }
    assert m == ZeroSummaries(ids) by {
      assert m.Keys == set id | id in ids by {
        forall id | id in ids ensures id in m {
          var j :| 0 <= j < |ids| && ids[j] == id;
        }
      }
      assert forall id :: id in m ==> m[id] == ZeroSummaries(ids)[id];
    }
    ghost var start := m;
    var k := 0;
    while k < |rows|
      invariant 0 <= k <= |rows|
      invariant SummarizeEvents(start, rows[..k]) == Some(m)
      invariant m.Keys == start.Keys
    {
      assert rows[..k + 1][..k] == rows[..k];
      var row := rows[k];
      if row.eventId !in m {
        SummarizeEventsPerEvent(start, rows);
        return None;
      }
      m := m[row.eventId := Tally(m[row.eventId], row.reaction, row.count)];
      k := k + 1;
    }
    assert rows[..|rows|] == rows;
    summaries := Some(m);
  }

  /** Every requested event gets a summary, and when every row is a valid
      reaction of a requested event, each total is the sum of that event's
      row counts. */
  lemma {:induction false} SummariesTotals(ids: seq<int>, rows: seq<EventReactionCount>)
    requires forall i :: 0 <= i < |rows| ==> rows[i].eventId in ids && IsValidReaction(rows[i].reaction)
    ensures SummarizeEvents(ZeroSummaries(ids), rows).Some?
    ensures var m := SummarizeEvents(ZeroSummaries(ids), rows).value;
      && m.Keys == (set id | id in ids)
      && forall id :: id in m ==> m[id].total == SumCounts(RowsFor(rows, id))
  {
    var start := ZeroSummaries(ids);
    assert forall i :: 0 <= i < |rows| ==> rows[i].eventId in start;
    SummarizeEventsPerEvent(start, rows);
    var m := SummarizeEvents(start, rows).value;
    forall id | id in m ensures m[id].total == SumCounts(RowsFor(rows, id)) {
      assert m[id] == Summarize(ZeroSummary(), RowsFor(rows, id));
      RowsForValid(rows, id);
      SummaryTotal(ZeroSummary(), RowsFor(rows, id));
    }
  }

  /** Projecting rows onto one event keeps only reactions the rows had. */
  lemma {:induction false} RowsForValid(rows: seq<EventReactionCount>, id: int)
    requires forall i :: 0 <= i < |rows| ==> IsValidReaction(rows[i].reaction)
    ensures forall i :: 0 <= i < |RowsFor(rows, id)| ==> RowsFor(rows, id)[i].reaction != TOTAL_KEY
  {
    if rows != [] {
      RowsForValid(rows[..|rows| - 1], id);
      assert forall i :: 0 <= i < |rows| - 1 ==> rows[..|rows| - 1][i] == rows[i];
    }
  }

  /** A stored reaction: the columns the deletes filter on. */
  datatype Reaction = Reaction(id: int, userId: int, eventId: int, reaction: string)

  /** `delete(id)`: true when `DELETE ... WHERE id = $1 RETURNING id` gives a row back. */
  function Delete(table: seq<Reaction>, id: int): (deleted: bool)
    ensures deleted <==> exists i :: 0 <= i < |table| && table[i].id == id
  {
    WhereNonEmpty(table, (r: Reaction) => r.id == id);
    |Where(table, (r: Reaction) => r.id == id)| > 0
  }

  /** `deleteUserReaction(userId, eventId)`: true when a row comes back. */
  function DeleteUserReaction(table: seq<Reaction>, userId: int, eventId: int): (deleted: bool)
    ensures deleted <==> exists i :: 0 <= i < |table| && table[i].userId == userId && table[i].eventId == eventId
  {
    WhereNonEmpty(table, (r: Reaction) => r.userId == userId && r.eventId == eventId);
    |Where(table, (r: Reaction) => r.userId == userId && r.eventId == eventId)| > 0
  }
}
