/** The declared meaning of the SQL clauses the repositories use, over a
    table given as a sequence of rows: WHERE as a filter, ORDER BY ... ASC as
    a stable sort on a real key, LIMIT as a prefix, BETWEEN as an inclusive
    range test.  Query execution itself belongs to the database. */
module Sql {

  /** A value bound to a `$n` placeholder of a parametrised query. */
  datatype SqlValue = SqlNull | SqlText(text: string) | SqlNumber(number: real)

  /** `x BETWEEN lo AND hi`: inclusive at both ends, and empty when lo > hi
      (the clause is not SYMMETRIC). */
  predicate Between(x: real, lo: real, hi: real) {
    lo <= x <= hi
  }

  /** WHERE: the rows that satisfy `cond`, in table order, each as often as
      it occurs in the table. */
  function Where<T(!new)>(rows: seq<T>, cond: T -> bool): (r: seq<T>)
    ensures forall x :: multiset(r)[x] == if cond(x) then multiset(rows)[x] else 0
    ensures |r| <= |rows|
  {
    if rows == [] then []
    else
      assert rows == [rows[0]] + rows[1..];
      (if cond(rows[0]) then [rows[0]] else []) + Where(rows[1..], cond)
  }

  /** Some row comes back from a WHERE exactly when some table row matches. */
  lemma {:induction false} WhereNonEmpty<T(!new)>(rows: seq<T>, cond: T -> bool)
    ensures |Where(rows, cond)| > 0 <==> exists i :: 0 <= i < |rows| && cond(rows[i])
  {
    var w := Where(rows, cond);
    if |w| > 0 {
      assert multiset(w)[w[0]] > 0;
      assert w[0] in multiset(rows);
      var i :| 0 <= i < |rows| && rows[i] == w[0];
    }
    if i :| 0 <= i < |rows| && cond(rows[i]) {
      assert rows[i] in multiset(rows);
      assert multiset(w)[rows[i]] > 0;
    }
  }

  /** `SELECT COUNT(*) ... WHERE cond`. */
  function Count<T(!new)>(rows: seq<T>, cond: T -> bool): nat {
    |Where(rows, cond)|
  }

  /** Non-decreasing in `key`. */
  predicate SortedBy<T>(s: seq<T>, key: T -> real) {
    forall i, j :: 0 <= i < j < |s| ==> key(s[i]) <= key(s[j])
  }

  /** Puts `x` before the first element whose key is not smaller than its own. */
  function Insert<T(!new)>(x: T, s: seq<T>, key: T -> real): (r: seq<T>)
    ensures |r| == |s| + 1
    ensures multiset(r) == multiset(s) + multiset{x}
  {
    if s == [] || key(x) <= key(s[0]) then
      [x] + s
    else
      assert s == [s[0]] + s[1..];
      [s[0]] + Insert(x, s[1..], key)
  }

  /** Inserting into a sorted sequence keeps it sorted. */
  lemma {:induction false} InsertSorted<T(!new)>(x: T, s: seq<T>, key: T -> real)
    requires SortedBy(s, key)
    ensures SortedBy(Insert(x, s, key), key)
  {
    if s != [] && key(x) > key(s[0]) {
      var tail := s[1..];
      var rest := Insert(x, tail, key);
      InsertSorted(x, tail, key);
      // the head of `rest` is `x` or the second row, both no smaller than the first
      assert key(s[0]) <= key(rest[0]) by {
        if tail != [] && key(x) > key(tail[0]) {
          assert rest[0] == tail[0] == s[1];
        } else {
          assert rest[0] == x;
        }
      }
      var r := [s[0]] + rest;
      forall i, j | 0 <= i < j < |r| ensures key(r[i]) <= key(r[j]) {
        assert r[j] == rest[j - 1];
        if i == 0 {
          assert key(rest[0]) <= key(rest[j - 1]);
        } else {
          assert r[i] == rest[i - 1];
        }
      }
    }
  }

  /** ORDER BY key ASC.  Rows with equal keys keep their table order, which
      is one of the orders the database may return. */
  function OrderBy<T(!new)>(s: seq<T>, key: T -> real): (r: seq<T>)
    ensures multiset(r) == multiset(s)
    ensures SortedBy(r, key)
  {
    if s == [] then []
    else
      assert s == [s[0]] + s[1..];
      InsertSorted(s[0], OrderBy(s[1..], key), key);
      Insert(s[0], OrderBy(s[1..], key), key)
  }

  /** LIMIT n: the first n rows, or all of them when there are fewer. */
  function Limit<T>(s: seq<T>, n: nat): (r: seq<T>)
    ensures |r| == if |s| <= n then |s| else n
    ensures r == s[..|r|]
  {
    if |s| <= n then s else s[..n]
  }

  /** Truncating a sorted sequence drops only rows whose key is at least
      the key of every row it keeps. */
  lemma LimitKeepsSmallest<T(!new)>(s: seq<T>, n: nat, key: T -> real)
    requires SortedBy(s, key)
    ensures forall x, y :: x in multiset(s) - multiset(Limit(s, n)) && y in Limit(s, n) ==> key(y) <= key(x)
  {
    var r := Limit(s, n);
    var rest := s[|r|..];
    assert s == r + rest;
    assert multiset(s) - multiset(r) == multiset(rest);
    forall x, y | x in multiset(s) - multiset(r) && y in r
      ensures key(y) <= key(x)
    {
      assert x in rest;
      var k :| 0 <= k < |rest| && rest[k] == x;
      var j :| 0 <= j < |r| && r[j] == y;
      assert s[j] == y && s[|r| + k] == x;
    }
  }
}
