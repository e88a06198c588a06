/**
 * The database the adapter talks to, reduced to what its statements do to a
 * table held as a sequence of rows in storage order: a SELECT returns the
 * matching rows and the adapter keeps the first, a DELETE keeps the rows that
 * do not match, an UPDATE rewrites the rows that match. A statement that would
 * break one of the table's constraints fails and leaves the table as it was.
 */
module Tables {
  import opened Wrappers

  /** Every error an adapter call can throw. */
  datatype Failure =
    /** A value longer than its varchar column allows. */
    | ValueTooLong
    /** NULL (or an omitted value with no default) for a NOT NULL column. */
    | NotNullViolation(column: string)
    /** A duplicate key on the named unique index. */
    | UniqueViolation(index: string)
    /** `Number(text)` gave no integer the id column accepts. */
    | InvalidInteger(text: string)
    /** An UPDATE whose set clause is empty cannot be built. */
    | NoValuesToSet
    /** The adapter read a property of a row that was not there (a TypeError). */
    | NullDereference

  /** Every two rows, in storage order, are related by `apart`: what a unique index keeps. */
  predicate Pairwise<T>(rows: seq<T>, apart: (T, T) -> bool)
  {
    forall i, j :: 0 <= i < j < |rows| ==> apart(rows[i], rows[j])
  }

  /** The position of the first row satisfying `p`, or `|rows|` when none does. */
  function FirstIndex<T>(rows: seq<T>, p: T -> bool): (k: nat)
    ensures k <= |rows|
    ensures forall j :: 0 <= j < k ==> !p(rows[j])
    ensures k < |rows| ==> p(rows[k])
  {
    if rows == [] || p(rows[0]) then 0 else 1 + FirstIndex(rows[1..], p)
  }

  /** `(await db.select().from(t).where(p))[0] ?? null`. */
  function SelectFirst<T>(rows: seq<T>, p: T -> bool): (r: Option<T>)
    ensures r.None? <==> forall x :: x in rows ==> !p(x)
    ensures r.Some? ==> r.value in rows && p(r.value)
  {
    var k := FirstIndex(rows, p);
    if k < |rows| then Some(rows[k]) else None
  }

  /** Two filters that agree on every row select the same row. */
  lemma {:induction false} FirstIndexAgree<T>(rows: seq<T>, p: T -> bool, q: T -> bool)
    requires forall i :: 0 <= i < |rows| ==> p(rows[i]) == q(rows[i])
    ensures FirstIndex(rows, p) == FirstIndex(rows, q)
  {
    if rows != [] && !p(rows[0]) {
      assert forall i :: 0 <= i < |rows[1..]| ==> rows[1..][i] == rows[i + 1];
      FirstIndexAgree(rows[1..], p, q);
    }
  }

  /** When exactly one row matches, the select returns that row. */
  lemma SelectOnly<T>(rows: seq<T>, p: T -> bool, k: nat)
    requires k < |rows| && p(rows[k])
    requires forall j :: 0 <= j < |rows| && j != k ==> !p(rows[j])
    ensures SelectFirst(rows, p) == Some(rows[k])
  {
  }

  /** `db.delete(t).where(p)`: the rows that do not match, in their order. */
  function DeleteWhere<T(!new)>(rows: seq<T>, p: T -> bool): (r: seq<T>)
    ensures forall x :: x in r <==> x in rows && !p(x)
  {
    if rows == [] then []
    else
      assert rows == [rows[0]] + rows[1..];
      (if p(rows[0]) then [] else [rows[0]]) + DeleteWhere(rows[1..], p)
  }

  /** `db.update(t).set(...).where(p)`: each matching row replaced by `f` of itself. */
  function UpdateWhere<T>(rows: seq<T>, p: T -> bool, f: T -> T): (r: seq<T>)
    ensures |r| == |rows|
    ensures forall i :: 0 <= i < |rows| ==> r[i] == if p(rows[i]) then f(rows[i]) else rows[i]
  {
    seq(|rows|, i requires 0 <= i < |rows| => if p(rows[i]) then f(rows[i]) else rows[i])
  }

  /** A delete cannot break a unique index. */
  lemma {:induction false} DeleteWhereKeepsPairwise<T(!new)>(rows: seq<T>, p: T -> bool, apart: (T, T) -> bool)
    requires Pairwise(rows, apart)
    ensures Pairwise(DeleteWhere(rows, p), apart)
  {
    if rows != [] {
      var rest := rows[1..];
      assert Pairwise(rest, apart) by {
        forall i, j | 0 <= i < j < |rest| ensures apart(rest[i], rest[j]) {
          assert rest[i] == rows[i + 1] && rest[j] == rows[j + 1];
        }
      }
      DeleteWhereKeepsPairwise(rest, p, apart);
      var tail := DeleteWhere(rest, p);
      if !p(rows[0]) {
        var r := [rows[0]] + tail;
        forall i, j | 0 <= i < j < |r| ensures apart(r[i], r[j]) {
          if i == 0 {
            assert r[j] == tail[j - 1];
            assert r[j] in rest;
            var k :| 0 <= k < |rest| && rest[k] == r[j];
            assert apart(rows[0], rows[k + 1]);
          } else {
            assert r[i] == tail[i - 1] && r[j] == tail[j - 1];
          }
        }
        assert DeleteWhere(rows, p) == r;
      } else {
        assert DeleteWhere(rows, p) == tail;
      }
    }
  }

  /** A delete that matches nothing leaves the table as it was. */
  lemma {:induction false} DeleteWhereNoMatch<T(!new)>(rows: seq<T>, p: T -> bool)
    requires forall x :: x in rows ==> !p(x)
    ensures DeleteWhere(rows, p) == rows
  {
    if rows != [] {
      assert rows[0] in rows;
      forall x | x in rows[1..] ensures !p(x) {
        assert x in rows;
      }
      DeleteWhereNoMatch(rows[1..], p);
      assert rows == [rows[0]] + rows[1..];
    }
  }

  /** A delete that matches exactly one row removes that row and nothing else. */
  lemma {:induction false} DeleteWhereOnly<T(!new)>(rows: seq<T>, p: T -> bool, k: nat)
    requires k < |rows| && p(rows[k])
    requires forall j :: 0 <= j < |rows| && j != k ==> !p(rows[j])
    ensures DeleteWhere(rows, p) == rows[..k] + rows[k + 1..]
  {
    var rest := rows[1..];
    if k == 0 {
      forall x | x in rest ensures !p(x) {
        var j :| 0 <= j < |rest| && rest[j] == x;
        assert rows[j + 1] == x;
      }
      DeleteWhereNoMatch(rest, p);
    } else {
      forall j | 0 <= j < |rest| && j != k - 1 ensures !p(rest[j]) {
        assert rest[j] == rows[j + 1];
      }
      DeleteWhereOnly(rest, p, k - 1);
      assert rows[..k] == [rows[0]] + rest[..k - 1];
      assert rows[k + 1..] == rest[k..];
    }
  }

  /** Appending a row keeps a unique index when the new row is apart from every stored one. */
  lemma PairwiseAppend<T>(rows: seq<T>, x: T, apart: (T, T) -> bool)
    requires Pairwise(rows, apart)
    requires forall i :: 0 <= i < |rows| ==> apart(rows[i], x)
    ensures Pairwise(rows + [x], apart)
  {
    var r := rows + [x];
    forall i, j | 0 <= i < j < |r| ensures apart(r[i], r[j]) {
      assert r[i] == rows[i];
    }
  }
}
