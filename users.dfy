/** apps/server/src/modules/users/users.repository.js: the parameters of
    `create`, the `update` statement, and the `delete` and `emailExists`
    results. */
module Users {
  import opened Wrappers
  import opened Sql
  import opened SqlUpdate

  /** A user row: the columns the queries filter on. */
  datatype User = User(id: int, email: string, googleId: Option<string>)

  /** The RETURNING list of `update`. */
  const USER_COLUMNS: string := "id, email, google_id, created_at"

  /** `google_id || null`: an absent (undefined or null) or empty id is
      stored as NULL, any other is passed through. */
  function GoogleIdParam(googleId: Option<string>): (p: SqlValue)
    ensures p == SqlNull <==> googleId.None? || googleId.value == ""
    ensures p != SqlNull ==> p == SqlText(googleId.value)
  {
    match googleId
    case Some(g) => if g != "" then SqlText(g) else SqlNull
    case None => SqlNull
  }

  /** The values bound to `$1, $2, $3` by `create`. */
  function CreateParams(email: string, passwordHash: string, googleId: Option<string>): (params: seq<SqlValue>)
    ensures |params| == 3
    ensures params[0] == SqlText(email) && params[1] == SqlText(passwordHash)
    ensures params[2] == SqlNull <==> googleId.None? || googleId.value == ""
  {
    [SqlText(email), SqlText(passwordHash), GoogleIdParam(googleId)]
  }

  /** `update`: the statement and its bound values. */
  method Update(id: SqlValue, updates: seq<(string, SqlValue)>) returns (sql: string, values: seq<SqlValue>)
    ensures sql == UpdateStatement("users", Assignments(updates), |updates| + 1, USER_COLUMNS)
    ensures |values| == |updates| + 1 && values[|updates|] == id
    ensures forall k :: 0 <= k < |updates| ==> values[k] == updates[k].1
  {
    var fields, paramCount;
    fields, values, paramCount := BuildAssignments(updates, id);
    sql := UpdateStatement("users", fields, paramCount, USER_COLUMNS);
  }

  /** `delete(id)`: true when `DELETE ... WHERE id = $1 RETURNING id` gives a row back. */
  function Delete(table: seq<User>, id: int): (deleted: bool)
    ensures deleted <==> exists i :: 0 <= i < |table| && table[i].id == id
  {
    WhereNonEmpty(table, (u: User) => u.id == id);
    |Where(table, (u: User) => u.id == id)| > 0
  }

  /** `emailExists`: `COUNT(*) > 0` over the users with that email. */
  function EmailExists(table: seq<User>, email: string): (found: bool)
    ensures found <==> exists i :: 0 <= i < |table| && table[i].email == email
  {
    WhereNonEmpty(table, (u: User) => u.email == email);
    Count(table, (u: User) => u.email == email) > 0
  }
}
