/**
 * The `users` table of backend/src/db.ts: its rows, the constraints its schema
 * declares (INTEGER PRIMARY KEY AUTOINCREMENT id, NOT NULL name, NOT NULL
 * UNIQUE email, nullable avatar, created_at defaulting to CURRENT_TIMESTAMP),
 * what the SQL engine does for the statements the controller issues, and
 * `initDB`, which seeds an empty table.
 *
 * The engine is abstract: a table is the sequence of its rows in rowid order
 * plus the AUTOINCREMENT counter (the table's entry in sqlite_sequence).
 */
module Db {
  import opened Maybe

  /** The value of SQLite's DATE(created_at), the text 'YYYY-MM-DD'. */
  datatype Date = Date(year: nat, month: nat, day: nat)

  /** The order of two DATE() texts (four-digit years): year, then month, then day. */
  predicate Before(a: Date, b: Date) {
    || a.year < b.year
    || (a.year == b.year && (a.month < b.month || (a.month == b.month && a.day < b.day)))
  }

  /** A created_at value; CURRENT_TIMESTAMP supplies it when a row is inserted. */
  datatype Timestamp = Timestamp(date: Date, secondOfDay: nat)

  /** DATE(created_at): the calendar day of a timestamp. */
  function DateOf(t: Timestamp): Date {
    t.date
  }

  /** One row of `users`. NOT NULL on name and email is carried by their types. */
  datatype Row = Row(id: int, name: string, email: string, avatar: Option<string>, createdAt: Timestamp)

  /**
   * What the schema guarantees of every state of the table: ids are positive,
   * no larger than the AUTOINCREMENT counter and strictly increasing in rowid
   * order (so unique), and no two rows share an email.
   */
  ghost predicate TableInvariant(rows: seq<Row>, lastId: int) {
    && 0 <= lastId
    && (forall i | 0 <= i < |rows| :: 1 <= rows[i].id <= lastId)
    && (forall i, j | 0 <= i < j < |rows| :: rows[i].id < rows[j].id)
    && (forall i, j | 0 <= i < j < |rows| :: rows[i].email != rows[j].email)
  }

  predicate HasId(rows: seq<Row>, id: int) {
    exists i | 0 <= i < |rows| :: rows[i].id == id
  }

  predicate EmailHeld(rows: seq<Row>, email: string) {
    exists i | 0 <= i < |rows| :: rows[i].email == email
  }

  /** Some row other than the one with `id` holds `email`. */
  predicate EmailHeldByOther(rows: seq<Row>, email: string, id: int) {
    exists i | 0 <= i < |rows| :: rows[i].email == email && rows[i].id != id
  }

  /** SELECT * FROM users WHERE id = ?, as `database.get` returns it: the first matching row. */
  function Lookup(rows: seq<Row>, id: int): (r: Option<Row>)
    ensures r.None? <==> !HasId(rows, id)
    ensures r.Some? ==> r.value in rows && r.value.id == id
  {
    if rows == [] then None
    else if rows[0].id == id then Some(rows[0])
    else Lookup(rows[1..], id)
  }

  /** Under the table invariant the row a lookup finds is the one row with that id. */
  lemma {:induction false} LookupFindsTheRow(rows: seq<Row>, lastId: int, k: nat)
    requires TableInvariant(rows, lastId)
    requires k < |rows|
    ensures Lookup(rows, rows[k].id) == Some(rows[k])
  {
    if k > 0 {
      assert rows[0].id < rows[k].id;
      assert rows[1..][k - 1] == rows[k];
      LookupFindsTheRow(rows[1..], lastId, k - 1);
    }
  }

  // ---------------------------------------------------------------------
  // Constraint failures, as the sqlite3 driver reports them
  // ---------------------------------------------------------------------

  datatype Constraint = NotNull | Unique
  datatype Column = NameColumn | EmailColumn

  /**
   * A failed constraint. The driver reports every one of these with code
   * SQLITE_CONSTRAINT and a message "<kind> constraint failed: users.<column>".
   */
  datatype StoreError = ConstraintFailed(kind: Constraint, column: Column)

  /**
   * The constraint an INSERT INTO users (name, email, avatar) violates, if any:
   * NOT NULL is checked column by column in schema order, then UNIQUE(email).
   */
  function InsertViolation(rows: seq<Row>, name: Option<string>, email: Option<string>): (r: Option<StoreError>)
    ensures r.None? <==> name.Some? && email.Some? && !EmailHeld(rows, email.value)
    ensures r.Some? && r.value.kind == NotNull ==> (r.value.column == NameColumn <==> name.None?)
    ensures r.Some? && r.value.kind == Unique ==> r.value.column == EmailColumn && name.Some? && email.Some?
  {
    if name.None? then Some(ConstraintFailed(NotNull, NameColumn))
    else if email.None? then Some(ConstraintFailed(NotNull, EmailColumn))
    else if EmailHeld(rows, email.value) then Some(ConstraintFailed(Unique, EmailColumn))
    else None
  }

  /**
   * The constraint an UPDATE users SET name = ?, email = ? ... WHERE id = ?
   * violates, if any. Constraints are checked only on the rows the statement
   * changes, so an id that matches no row violates nothing; keeping one's own
   * email is no violation.
   */
  function UpdateViolation(rows: seq<Row>, id: int, name: Option<string>, email: Option<string>): (r: Option<StoreError>)
    ensures !HasId(rows, id) ==> r.None?
    ensures HasId(rows, id) ==> (r.None? <==> name.Some? && email.Some? && !EmailHeldByOther(rows, email.value, id))
    ensures r.Some? && r.value.kind == NotNull ==> (r.value.column == NameColumn <==> name.None?)
    ensures r.Some? && r.value.kind == Unique ==> r.value.column == EmailColumn && name.Some? && email.Some?
  {
    if !HasId(rows, id) then None
    else if name.None? then Some(ConstraintFailed(NotNull, NameColumn))
    else if email.None? then Some(ConstraintFailed(NotNull, EmailColumn))
    else if EmailHeldByOther(rows, email.value, id) then Some(ConstraintFailed(Unique, EmailColumn))
    else None
  }

  // ---------------------------------------------------------------------
  // Row transforms: the effect of UPDATE and DELETE ... WHERE id = ?
  // ---------------------------------------------------------------------

  /**
   * Every row whose id is `id` gets the new name and email, and the new avatar
   * when one is given (`newAvatar == None` leaves the avatar column out of the
   * SET list). The client's optimistic patch is the same transform with no avatar.
   */
  function UpdateWhere(rows: seq<Row>, id: int, name: string, email: string, newAvatar: Option<string>): (r: seq<Row>)
    ensures |r| == |rows|
  {
    if rows == [] then []
    else
      var head := if rows[0].id == id
                  then rows[0].(name := name, email := email,
                                avatar := if newAvatar.Some? then newAvatar else rows[0].avatar)
                  else rows[0];
      [head] + UpdateWhere(rows[1..], id, name, email, newAvatar)
  }

  /** What UPDATE does to each row: matching rows change in name, email and (when given) avatar only. */
  lemma {:induction false} UpdateWhereAt(rows: seq<Row>, id: int, name: string, email: string, newAvatar: Option<string>, k: nat)
    requires k < |rows|
    ensures var r := UpdateWhere(rows, id, name, email, newAvatar)[k];
      && r.id == rows[k].id
      && r.createdAt == rows[k].createdAt
      && (rows[k].id != id ==> r == rows[k])
      && (rows[k].id == id ==> r.name == name && r.email == email)
      && (rows[k].id == id && newAvatar.Some? ==> r.avatar == newAvatar)
      && (newAvatar.None? ==> r.avatar == rows[k].avatar)
  {
    if k > 0 {
      UpdateWhereAt(rows[1..], id, name, email, newAvatar, k - 1);
    }
  }

  /** An update of an id no row has changes nothing. */
  lemma {:induction false} UpdateWhereAbsent(rows: seq<Row>, id: int, name: string, email: string, newAvatar: Option<string>)
    requires !HasId(rows, id)
    ensures UpdateWhere(rows, id, name, email, newAvatar) == rows
  {
    if rows != [] {
      assert rows[0].id != id;
      assert !HasId(rows[1..], id) by {
        forall i | 0 <= i < |rows[1..]| ensures rows[1..][i].id != id {
          assert rows[1..][i] == rows[i + 1];
        }
      }
      UpdateWhereAbsent(rows[1..], id, name, email, newAvatar);
    }
  }

  /** An UPDATE that violates no constraint keeps the table invariant. */
  lemma UpdateWhereKeepsInvariant(rows: seq<Row>, lastId: int, id: int, name: string, email: string, newAvatar: Option<string>)
    requires TableInvariant(rows, lastId)
    requires !EmailHeldByOther(rows, email, id)
    ensures TableInvariant(UpdateWhere(rows, id, name, email, newAvatar), lastId)
  {
    var r := UpdateWhere(rows, id, name, email, newAvatar);
    forall k | 0 <= k < |rows| ensures r[k].id == rows[k].id && (rows[k].id == id ==> r[k].email == email) && (rows[k].id != id ==> r[k] == rows[k]) {
      UpdateWhereAt(rows, id, name, email, newAvatar, k);
    }
    forall i, j | 0 <= i < j < |r| ensures r[i].email != r[j].email {
      if rows[i].id == id {
        assert rows[j].id != id;
      } else if rows[j].id == id {
        assert rows[i].id != id;
      }
    }
  }

  /** DELETE FROM users WHERE id = ?: the rows whose id differs, in their order. */
  function Without(rows: seq<Row>, id: int): (r: seq<Row>)
    ensures |r| <= |rows|
    ensures forall k | 0 <= k < |r| :: r[k].id != id && r[k] in rows
  {
    if rows == [] then []
    else if rows[0].id == id then Without(rows[1..], id)
    else [rows[0]] + Without(rows[1..], id)
  }

  /** Exactly the rows with another id remain. */
  lemma {:induction false} WithoutMembers(rows: seq<Row>, id: int)
    ensures forall r :: r in Without(rows, id) <==> r in rows && r.id != id
  {
    if rows != [] {
      WithoutMembers(rows[1..], id);
      assert rows == [rows[0]] + rows[1..];
    }
  }

  /** Order is kept: deleting from a concatenation deletes from each part. */
  lemma {:induction false} WithoutConcat(a: seq<Row>, b: seq<Row>, id: int)
    ensures Without(a + b, id) == Without(a, id) + Without(b, id)
  {
    if a == [] {
      assert a + b == b;
    } else {
      assert (a + b)[1..] == a[1..] + b;
      WithoutConcat(a[1..], b, id);
    }
  }

  /** Deleting an id no row has changes nothing. */
  lemma {:induction false} WithoutAbsent(rows: seq<Row>, id: int)
    requires !HasId(rows, id)
    ensures Without(rows, id) == rows
  {
    if rows != [] {
      assert rows[0].id != id;
      assert !HasId(rows[1..], id) by {
        forall i | 0 <= i < |rows[1..]| ensures rows[1..][i].id != id {
          assert rows[1..][i] == rows[i + 1];
        }
      }
      WithoutAbsent(rows[1..], id);
      assert rows == [rows[0]] + rows[1..];
    }
  }

  /** Deleting twice is deleting once. */
  lemma WithoutIdempotent(rows: seq<Row>, id: int)
    ensures Without(Without(rows, id), id) == Without(rows, id)
  {
    var r := Without(rows, id);
    WithoutMembers(rows, id);
    assert !HasId(r, id) by {
      forall i | 0 <= i < |r| ensures r[i].id != id {
        assert r[i] in r;
      }
    }
    WithoutAbsent(r, id);
  }

  /** Deleting never adds rows, and removes at least one when some row has the id. */
  lemma {:induction false} WithoutShrinks(rows: seq<Row>, id: int)
    ensures |Without(rows, id)| <= |rows|
    ensures HasId(rows, id) ==> |Without(rows, id)| < |rows|
  {
    if rows != [] {
      WithoutShrinks(rows[1..], id);
      if HasId(rows, id) && rows[0].id != id {
        var i :| 0 <= i < |rows| && rows[i].id == id;
        assert rows[1..][i - 1].id == id;
      }
    }
  }

  /** The table invariant holds of the rows after the first. */
  lemma TailKeepsInvariant(rows: seq<Row>, lastId: int)
    requires TableInvariant(rows, lastId)
    requires rows != []
    ensures TableInvariant(rows[1..], lastId)
    ensures forall r | r in rows[1..] :: rows[0].id < r.id && rows[0].email != r.email
  {
    var tail := rows[1..];
    forall i, j | 0 <= i < j < |tail| ensures tail[i].id < tail[j].id && tail[i].email != tail[j].email {
      assert tail[i] == rows[i + 1] && tail[j] == rows[j + 1];
    }
    forall r | r in tail ensures rows[0].id < r.id && rows[0].email != r.email {
      var m :| 0 <= m < |tail| && tail[m] == r;
      assert tail[m] == rows[m + 1];
    }
  }

  /** A row placed before rows it precedes in id and differs from in email keeps the invariant. */
  lemma ConsKeepsInvariant(row: Row, rows: seq<Row>, lastId: int)
    requires TableInvariant(rows, lastId)
    requires 1 <= row.id <= lastId
    requires forall r | r in rows :: row.id < r.id && row.email != r.email
    ensures TableInvariant([row] + rows, lastId)
  {
    var c := [row] + rows;
    forall i, j | 0 <= i < j < |c| ensures c[i].id < c[j].id && c[i].email != c[j].email {
      assert c[j] == rows[j - 1];
      if i > 0 {
        assert c[i] == rows[i - 1];
      } else {
        assert c[j] in rows;
      }
    }
  }

  /** A DELETE keeps the table invariant. */
  lemma {:induction false} WithoutKeepsInvariant(rows: seq<Row>, lastId: int, id: int)
    requires TableInvariant(rows, lastId)
    ensures TableInvariant(Without(rows, id), lastId)
  {
    if rows != [] {
      TailKeepsInvariant(rows, lastId);
      WithoutKeepsInvariant(rows[1..], lastId, id);
      if rows[0].id != id {
        WithoutMembers(rows[1..], id);
        ConsKeepsInvariant(rows[0], Without(rows[1..], id), lastId);
      }
    }
  }

  /** An INSERT that violates nothing, taking the next AUTOINCREMENT id, keeps the invariant. */
  lemma AppendKeepsInvariant(rows: seq<Row>, lastId: int, row: Row)
    requires TableInvariant(rows, lastId)
    requires row.id == lastId + 1
    requires !EmailHeld(rows, row.email)
    ensures TableInvariant(rows + [row], lastId + 1)
  {
    var r := rows + [row];
    forall i, j | 0 <= i < j < |r| ensures r[i].id < r[j].id && r[i].email != r[j].email {
      if j == |rows| {
        assert r[i] == rows[i];
      } else {
        assert r[i] == rows[i] && r[j] == rows[j];
      }
    }
  }

  // ---------------------------------------------------------------------
  // Seed data and initDB
  // ---------------------------------------------------------------------

  /** The two rows the seed INSERT adds, with the next two AUTOINCREMENT ids. */
  function SeedRows(lastId: int, now: Timestamp): seq<Row> {
    [ Row(lastId + 1, "Admin User", "admin@example.com", None, now),
      Row(lastId + 2, "Test User", "test@example.com", None, now) ]
  }

  /** The seed rows on their own satisfy the table invariant. */
  lemma SeedRowsValid(lastId: int, now: Timestamp)
    requires 0 <= lastId
    ensures TableInvariant(SeedRows(lastId, now), lastId + 2)
  {
    var s := SeedRows(lastId, now);
    assert s[0].email != s[1].email by {
      assert s[0].email[0] == 'a' && s[1].email[0] == 't';
    }
  }

  /** The database connection, holding the one table. */
  class Database {
    var rows: seq<Row>
    /** The AUTOINCREMENT counter: the largest id ever issued. */
    var lastId: int

    ghost predicate Valid()
      reads this
    {
      TableInvariant(rows, lastId)
    }

    /** A new database file: CREATE TABLE IF NOT EXISTS makes the table, empty. */
    constructor ()
      ensures Valid()
      ensures rows == [] && lastId == 0
    {
      rows := [];
      lastId := 0;
    }

    /**
     * initDB: counts the rows and, only when there are none, inserts the two
     * seed rows (avatar NULL) in one statement. On a table with rows it changes
     * nothing, and it always leaves the table non-empty, so running it again
     * changes nothing.
     */
    method InitDB(now: Timestamp)
      requires Valid()
      modifies this
      ensures Valid()
      ensures old(rows) == [] ==> rows == SeedRows(old(lastId), now) && lastId == old(lastId) + 2
      ensures old(rows) != [] ==> rows == old(rows) && lastId == old(lastId)
      ensures rows != []
    {
      var count := |rows|;
      if count == 0 {
        SeedRowsValid(lastId, now);
        rows := SeedRows(lastId, now);
        lastId := lastId + 2;
      }
    }
  }
}
