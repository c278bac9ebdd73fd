/** The dynamic UPDATE builder that venues.repository.js and
    users.repository.js both write out: each (key, value) entry becomes a
    fragment `key = $i` and a bound value, numbered from 1 in entry order,
    and the id is bound last, to `$(n+1)`. */
module SqlUpdate {
  import opened Sql

  /** The decimal digit for d. */
  function DigitChar(d: nat): char
    requires d < 10
  {
    (48 + d) as char
  }

  predicate IsDigits(s: string) {
    forall i :: 0 <= i < |s| ==> '0' <= s[i] <= '9'
  }

  /** How a template literal writes a non-negative integer: its decimal
      digits, most significant first, with no leading zero. */
  function Decimal(n: nat): (s: string)
    ensures |s| > 0 && IsDigits(s)
    ensures n > 0 ==> s[0] != '0'
  {
    if n < 10 then [DigitChar(n)] else Decimal(n / 10) + [DigitChar(n % 10)]
  }

  /** The number a string of decimal digits denotes. */
  function DecimalValue(s: string): nat
    requires IsDigits(s)
  {
    if s == [] then 0
    else 10 * DecimalValue(s[..|s| - 1]) + (s[|s| - 1] as int - 48)
  }

  /** Reading a placeholder's digits back gives the number written, so
      different positions get different placeholders. */
  lemma {:induction false} DecimalRoundTrip(n: nat)
    ensures DecimalValue(Decimal(n)) == n
  {
    if n >= 10 {
      DecimalRoundTrip(n / 10);
      var s := Decimal(n);
      assert s[..|s| - 1] == Decimal(n / 10);
    }
  }

  /** `${key} = $${n}`. */
  function Assignment(key: string, n: nat): string {
    key + " = $" + Decimal(n)
  }

  /** `Array.prototype.join`. */
  function Join(parts: seq<string>, sep: string): string {
    if parts == [] then ""
    else if |parts| == 1 then parts[0]
    else parts[0] + sep + Join(parts[1..], sep)
  }

  /** The fragments for the entries, numbered from 1. */
  function Assignments(entries: seq<(string, SqlValue)>): (fields: seq<string>)
    ensures |fields| == |entries|
  {
    seq(|entries|, k requires 0 <= k < |entries| => Assignment(entries[k].0, k + 1))
  }

  /** The forEach over `Object.entries(updates)` and the final
      `values.push(id)`: fragment k (from 0) is `key_k = $(k+1)` and
      `values[k]` is value_k, so every placeholder names the position of
      its own value; the id sits at position n+1, the number paramCount
      holds for the WHERE clause. */
  method BuildAssignments(entries: seq<(string, SqlValue)>, id: SqlValue)
    returns (fields: seq<string>, values: seq<SqlValue>, paramCount: nat)
    ensures |fields| == |entries| && |values| == |entries| + 1
    ensures forall k :: 0 <= k < |entries| ==> fields[k] == entries[k].0 + " = $" + Decimal(k + 1)
    ensures forall k :: 0 <= k < |entries| ==> values[k] == entries[k].1
    ensures values[|entries|] == id
    ensures paramCount == |entries| + 1
    ensures fields == Assignments(entries)
  {
    fields, values, paramCount := [], [], 1;
    var i := 0;
    while i < |entries|
      invariant 0 <= i <= |entries|
      invariant paramCount == i + 1
      invariant |fields| == i && |values| == i
      invariant forall k :: 0 <= k < i ==> fields[k] == Assignment(entries[k].0, k + 1)
      invariant forall k :: 0 <= k < i ==> values[k] == entries[k].1
    {
      var (key, value) := entries[i];
      fields := fields + [Assignment(key, paramCount)];
      values := values + [value];
      paramCount := paramCount + 1;
      i := i + 1;
    }
    values := values + [id];
  }

  /** The statement text, with the template's line breaks and indentation
      written as single spaces. */
  function UpdateStatement(table: string, fields: seq<string>, paramCount: nat, returning: string): string {
    "UPDATE " + table + " SET " + Join(fields, ", ") + " WHERE id = $" + Decimal(paramCount) + " RETURNING " + returning
  }
}
