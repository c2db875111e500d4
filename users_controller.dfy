/**
 * The request handlers of backend/src/controllers/users.controller.ts. Each
 * handler takes the database connection and the parts of the request it reads
 * (path id, the `name` and `email` form fields, which an absent field leaves
 * NULL, and the stored name of an uploaded file), runs its statements against
 * the table and returns the response as a `Reply`, whose variant fixes the
 * HTTP status.
 */
module UsersController {
  import opened Maybe
  import opened Db

  /** A response: status and JSON body. */
  datatype Reply<T> =
    | Ok(body: T)
    | Created(body: T)
    | NotFound(message: string)
    | Conflict(message: string)
    | Failure(message: string)
  {
    function Status(): int {
      match this
      case Ok(_) => 200
      case Created(_) => 201
      case NotFound(_) => 404
      case Conflict(_) => 409
      case Failure(_) => 500
    }
  }

  /** The body createUser answers with: the new id and the stored values (no created_at). */
  datatype CreatedUser = CreatedUser(id: int, name: string, email: string, avatar: Option<string>)

  const UserNotFound := "User not found."
  const DuplicateOnCreate := "User already exists with this email."
  const DuplicateOnUpdate := "Another user already exists with this email."
  const CreateFailed := "Failed to create user."
  const UpdateFailed := "Failed to update user."
  const UserDeleted := "User deleted successfully."
  const UploadsPrefix := "/uploads/"

  /** The avatar column for a request: the public path of the uploaded file, if any. */
  function AvatarPath(file: Option<string>): (r: Option<string>)
    ensures r.Some? <==> file.Some?
    ensures r.Some? ==> |UploadsPrefix| <= |r.value| && r.value[..|UploadsPrefix|] == UploadsPrefix
                        && r.value[|UploadsPrefix|..] == file.value
  {
    if file.Some? then Some(UploadsPrefix + file.value) else None
  }

  // ---------------------------------------------------------------------
  // Mapping a failed statement to a response
  // ---------------------------------------------------------------------

  /**
   * The catch blocks' test `err.code === "SQLITE_CONSTRAINT" &&
   * err.message.includes("users.email")` as written. Every failure the engine
   * raises here has that code, and its message names the column, so the test
   * holds of any constraint failure on email, NOT NULL included.
   */
  predicate IsEmailConflictAsWritten(e: StoreError) {
    e.column == EmailColumn
  }

  /** The catch blocks as written: 409 when the test above holds, 500 otherwise. */
  function ErrorReplyAsWritten<T>(e: StoreError, duplicate: string, failed: string): (r: Reply<T>)
    ensures r == Conflict(duplicate) || r == Failure(failed)
    ensures r.Conflict? <==> e.column == EmailColumn
    ensures e == ConstraintFailed(NotNull, EmailColumn) ==> r == Conflict(duplicate)
    ensures e.column == NameColumn ==> r == Failure(failed)
  {
    if IsEmailConflictAsWritten(e) then Conflict(duplicate) else Failure(failed)
  }

  /** A request with no email field, on a table holding no email at all, is told the email is taken. */
  lemma MissingEmailReportedAsDuplicate(name: string, id: int, now: Timestamp)
    ensures var e := InsertViolation([], Some(name), None);
      e.Some? && ErrorReplyAsWritten<CreatedUser>(e.value, DuplicateOnCreate, CreateFailed) == Conflict(DuplicateOnCreate)
    ensures var rows := [Row(id, name, "a@b.c", None, now)];
      var e := UpdateViolation(rows, id, Some(name), None);
      && !EmailHeldByOther(rows, "a@b.c", id)
      && e.Some? && ErrorReplyAsWritten<Option<Row>>(e.value, DuplicateOnUpdate, UpdateFailed) == Conflict(DuplicateOnUpdate)
  {
    var rows := [Row(id, name, "a@b.c", None, now)];
    assert rows[0].id == id;
  }

  /** The duplicate-email test as intended: only a UNIQUE failure on email is a duplicate. */
  predicate IsEmailConflict(e: StoreError) {
    e.kind == Unique && e.column == EmailColumn
  }

  /** The catch blocks with the intended test; the handlers below use this one. */
  function ErrorReply<T>(e: StoreError, duplicate: string, failed: string): (r: Reply<T>)
    ensures r == Conflict(duplicate) || r == Failure(failed)
    ensures r.Conflict? <==> e == ConstraintFailed(Unique, EmailColumn)
  {
    if IsEmailConflict(e) then Conflict(duplicate) else Failure(failed)
  }

  /**
   * With the intended test, an INSERT or UPDATE is answered 409 exactly when
   * the email it writes is already held by another row, and 500 exactly when a
   * required field is missing.
   */
  lemma ConflictIffEmailTaken(rows: seq<Row>, id: int, name: Option<string>, email: Option<string>)
    ensures var e := InsertViolation(rows, name, email);
      var r := if e.Some? then Some(ErrorReply<CreatedUser>(e.value, DuplicateOnCreate, CreateFailed)) else None;
      && (r.Some? && r.value.Conflict? <==> name.Some? && email.Some? && EmailHeld(rows, email.value))
      && (r.Some? && r.value.Failure? <==> name.None? || email.None?)
    ensures var e := UpdateViolation(rows, id, name, email);
      var r := if e.Some? then Some(ErrorReply<Option<Row>>(e.value, DuplicateOnUpdate, UpdateFailed)) else None;
      && (r.Some? && r.value.Conflict? <==> HasId(rows, id) && name.Some? && email.Some? && EmailHeldByOther(rows, email.value, id))
      && (r.Some? && r.value.Failure? <==> HasId(rows, id) && (name.None? || email.None?))
  {
  }

  // ---------------------------------------------------------------------
  // Handlers
  // ---------------------------------------------------------------------

  /** getUsers: every row, in the table's order. */
  method GetUsers(db: Database) returns (users: seq<Row>)
    ensures users == db.rows
  {
    users := db.rows;
  }

  /** getUser: the row with the id, or 404 "User not found." when there is none. */
  method GetUser(db: Database, id: int) returns (reply: Reply<Row>)
    requires db.Valid()
    ensures reply.Ok? || reply.NotFound?
    ensures reply.NotFound? <==> !HasId(db.rows, id)
    ensures reply.NotFound? ==> reply.message == UserNotFound && reply.Status() == 404
    ensures forall k | 0 <= k < |db.rows| && db.rows[k].id == id :: reply == Ok(db.rows[k])
  {
    var user := Lookup(db.rows, id);
    if user.None? {
      return NotFound(UserNotFound);
    }
    reply := Ok(user.value);
    forall k | 0 <= k < |db.rows| && db.rows[k].id == id ensures reply == Ok(db.rows[k]) {
      LookupFindsTheRow(db.rows, db.lastId, k);
    }
  }

  /**
   * createUser: inserts (name, email, avatar) and answers 201 with the new id
   * and the given values; the avatar is "/uploads/<file>" when a file came with
   * the request and NULL otherwise. The new id is one past the largest id ever
   * issued. A taken email is answered 409 and a missing field 500, and then the
   * table is unchanged.
   */
  method CreateUser(db: Database, name: Option<string>, email: Option<string>, file: Option<string>, now: Timestamp)
    returns (reply: Reply<CreatedUser>)
    requires db.Valid()
    modifies db
    ensures db.Valid()
    ensures reply.Created? || reply.Conflict? || reply.Failure?
    ensures reply.Created? <==> name.Some? && email.Some? && !EmailHeld(old(db.rows), email.value)
    ensures reply.Created? ==>
      var row := Row(old(db.lastId) + 1, name.value, email.value, AvatarPath(file), now);
      && reply.Status() == 201
      && reply.body == CreatedUser(row.id, row.name, row.email, row.avatar)
      && db.rows == old(db.rows) + [row]
      && db.lastId == row.id
      && (forall k | 0 <= k < |old(db.rows)| :: old(db.rows)[k].id < row.id)
    ensures reply.Conflict? <==> name.Some? && email.Some? && EmailHeld(old(db.rows), email.value)
    ensures reply.Conflict? ==> reply.message == DuplicateOnCreate
    ensures reply.Failure? <==> name.None? || email.None?
    ensures reply.Failure? ==> reply.message == CreateFailed
    ensures !reply.Created? ==> db.rows == old(db.rows) && db.lastId == old(db.lastId)
  {
    var avatar := AvatarPath(file);
    var violation := InsertViolation(db.rows, name, email);
    if violation.Some? {
      ConflictIffEmailTaken(db.rows, 0, name, email);
      return ErrorReply(violation.value, DuplicateOnCreate, CreateFailed);
    }
    var row := Row(db.lastId + 1, name.value, email.value, avatar, now);
    AppendKeepsInvariant(db.rows, db.lastId, row);
    db.rows := db.rows + [row];
    db.lastId := row.id;
    reply := Created(CreatedUser(row.id, row.name, row.email, row.avatar));
  }

  /**
   * updateUser: sets name and email of the row with the id, and its avatar
   * only when a file came with the request, then answers with that row read
   * back. An id no row has changes nothing and is answered with an empty body
   * (Ok(None)), not 404. An email held by another row is answered 409 and a
   * missing field 500, and then the table is unchanged.
   */
  method UpdateUser(db: Database, id: int, name: Option<string>, email: Option<string>, file: Option<string>)
    returns (reply: Reply<Option<Row>>)
    requires db.Valid()
    modifies db
    ensures db.Valid() && db.lastId == old(db.lastId)
    ensures reply.Ok? || reply.Conflict? || reply.Failure?
    ensures !HasId(old(db.rows), id) ==> reply == Ok(None) && db.rows == old(db.rows)
    ensures reply.Conflict? <==> HasId(old(db.rows), id) && name.Some? && email.Some? && EmailHeldByOther(old(db.rows), email.value, id)
    ensures reply.Conflict? ==> reply.message == DuplicateOnUpdate
    ensures reply.Failure? <==> HasId(old(db.rows), id) && (name.None? || email.None?)
    ensures reply.Failure? ==> reply.message == UpdateFailed
    ensures !reply.Ok? ==> db.rows == old(db.rows)
    ensures reply.Ok? && HasId(old(db.rows), id) ==>
      && name.Some? && email.Some?
      && db.rows == UpdateWhere(old(db.rows), id, name.value, email.value, AvatarPath(file))
      && forall k | 0 <= k < |old(db.rows)| && old(db.rows)[k].id == id ::
           reply.body == Some(old(db.rows)[k].(name := name.value, email := email.value,
                                               avatar := if file.Some? then AvatarPath(file) else old(db.rows)[k].avatar))
  {
    var avatar := AvatarPath(file);
    var violation := UpdateViolation(db.rows, id, name, email);
    if violation.Some? {
      ConflictIffEmailTaken(db.rows, id, name, email);
      return ErrorReply(violation.value, DuplicateOnUpdate, UpdateFailed);
    }
    if HasId(db.rows, id) {
      // With or without the avatar column in the SET list.
      var before := db.rows;
      UpdateWhereKeepsInvariant(before, db.lastId, id, name.value, email.value, avatar);
      db.rows := UpdateWhere(before, id, name.value, email.value, avatar);
      forall k | 0 <= k < |before| && before[k].id == id
        ensures Lookup(db.rows, id) == Some(before[k].(name := name.value, email := email.value,
                                                      avatar := if file.Some? then avatar else before[k].avatar))
      {
        UpdateWhereAt(before, id, name.value, email.value, avatar, k);
        LookupFindsTheRow(db.rows, db.lastId, k);
      }
    }
    var updated := Lookup(db.rows, id);
    reply := Ok(updated);
  }

  /**
   * deleteUser: removes every row with the id, keeps the others in order, and
   * answers "User deleted successfully." whether or not a row matched, so a
   * second delete of the same id succeeds as well and changes nothing.
   */
  method DeleteUser(db: Database, id: int) returns (reply: Reply<string>)
    requires db.Valid()
    modifies db
    ensures db.Valid()
    ensures reply == Ok(UserDeleted)
    ensures db.rows == Without(old(db.rows), id) && db.lastId == old(db.lastId)
    ensures !HasId(db.rows, id)
    ensures !HasId(old(db.rows), id) ==> db.rows == old(db.rows)
  {
    WithoutKeepsInvariant(db.rows, db.lastId, id);
    WithoutMembers(db.rows, id);
    if !HasId(db.rows, id) {
      WithoutAbsent(db.rows, id);
    }
    db.rows := Without(db.rows, id);
    assert !HasId(db.rows, id) by {
      forall i | 0 <= i < |db.rows| ensures db.rows[i].id != id {
        assert db.rows[i] in db.rows;
      }
    }
    reply := Ok(UserDeleted);
  }

  // ---------------------------------------------------------------------
  // getUserStats: SELECT DATE(created_at), COUNT(*) ... GROUP BY ... ORDER BY ... ASC
  // ---------------------------------------------------------------------

  datatype Bucket = Bucket(date: Date, count: nat)

  /** How many rows were created on day `d`: the reference for each bucket's count. */
  function CountOn(rows: seq<Row>, d: Date): nat {
    if rows == [] then 0
    else (if DateOf(rows[0].createdAt) == d then 1 else 0) + CountOn(rows[1..], d)
  }

  /** Strictly ascending by date, so no date has two buckets. */
  predicate Ascending(bs: seq<Bucket>) {
    forall i, j | 0 <= i < j < |bs| :: Before(bs[i].date, bs[j].date)
  }

  function Dates(bs: seq<Bucket>): set<Date> {
    set i | 0 <= i < |bs| :: bs[i].date
  }

  /** The count a bucket list gives for a date, 0 when it has no bucket for it. */
  function CountIn(bs: seq<Bucket>, d: Date): nat {
    if bs == [] then 0
    else if bs[0].date == d then bs[0].count
    else CountIn(bs[1..], d)
  }

  function Total(bs: seq<Bucket>): nat {
    if bs == [] then 0 else bs[0].count + Total(bs[1..])
  }

  /** One more row on day `d`: increment its bucket, or open one in date order. */
  function AddDate(bs: seq<Bucket>, d: Date): (r: seq<Bucket>)
    ensures |bs| <= |r| <= |bs| + 1
  {
    if bs == [] then [Bucket(d, 1)]
    else if bs[0].date == d then [bs[0].(count := bs[0].count + 1)] + bs[1..]
    else if Before(d, bs[0].date) then [Bucket(d, 1)] + bs
    else [bs[0]] + AddDate(bs[1..], d)
  }

  /** The grouped, counted and ordered result of the stats query. */
  function GrowthStats(rows: seq<Row>): (r: seq<Bucket>)
    ensures |r| <= |rows|
    ensures r == [] <==> rows == []
  {
    if rows == [] then [] else AddDate(GrowthStats(rows[1..]), DateOf(rows[0].createdAt))
  }

  lemma BeforeTotal(a: Date, b: Date)
    ensures a == b || Before(a, b) || Before(b, a)
    ensures !(Before(a, b) && Before(b, a))
    ensures !Before(a, a)
  {
  }

  lemma BeforeTransitive(a: Date, b: Date, c: Date)
    requires Before(a, b) && Before(b, c)
    ensures Before(a, c)
  {
  }

  lemma AscendingTail(bs: seq<Bucket>)
    requires Ascending(bs) && bs != []
    ensures Ascending(bs[1..])
    ensures forall x | x in Dates(bs[1..]) :: Before(bs[0].date, x)
  {
    forall x | x in Dates(bs[1..]) ensures Before(bs[0].date, x) {
      var i :| 0 <= i < |bs[1..]| && bs[1..][i].date == x;
      assert bs[1..][i] == bs[i + 1];
    }
  }

  lemma DatesCons(b: Bucket, bs: seq<Bucket>)
    ensures Dates([b] + bs) == {b.date} + Dates(bs)
  {
    var c := [b] + bs;
    forall x | x in Dates(c) ensures x in {b.date} + Dates(bs) {
      var i :| 0 <= i < |c| && c[i].date == x;
      if i > 0 {
        assert c[i] == bs[i - 1];
      }
    }
    forall x | x in Dates(bs) ensures x in Dates(c) {
      var i :| 0 <= i < |bs| && bs[i].date == x;
      assert c[i + 1] == bs[i];
    }
    assert c[0] == b;
  }

  lemma AscendingCons(b: Bucket, bs: seq<Bucket>)
    requires Ascending(bs)
    requires forall x | x in Dates(bs) :: Before(b.date, x)
    ensures Ascending([b] + bs)
  {
    var c := [b] + bs;
    forall i, j | 0 <= i < j < |c| ensures Before(c[i].date, c[j].date) {
      assert c[j] == bs[j - 1];
      if i > 0 {
        assert c[i] == bs[i - 1];
      } else {
        assert bs[j - 1].date in Dates(bs);
      }
    }
  }

  /** Adding one day keeps the list ascending and positive, and adds one to that day only. */
  lemma {:induction false} AddDateCorrect(bs: seq<Bucket>, d: Date)
    requires Ascending(bs)
    ensures Ascending(AddDate(bs, d))
    ensures Dates(AddDate(bs, d)) == Dates(bs) + {d}
    ensures forall x :: CountIn(AddDate(bs, d), x) == CountIn(bs, x) + (if x == d then 1 else 0)
    ensures Total(AddDate(bs, d)) == Total(bs) + 1
    ensures (forall i | 0 <= i < |bs| :: bs[i].count > 0) ==>
              forall i | 0 <= i < |AddDate(bs, d)| :: AddDate(bs, d)[i].count > 0
  {
    var r := AddDate(bs, d);
    if bs == [] {
      assert Dates(r) == {d} by { DatesCons(Bucket(d, 1), []); }
    } else {
      var b := bs[0];
      AscendingTail(bs);
      assert bs == [b] + bs[1..];
      DatesCons(b, bs[1..]);
      if b.date == d {
        DatesCons(b.(count := b.count + 1), bs[1..]);
        AscendingCons(b.(count := b.count + 1), bs[1..]);
        assert r[1..] == bs[1..];
      } else if Before(d, b.date) {
        DatesCons(Bucket(d, 1), bs);
        forall x | x in Dates(bs) ensures Before(d, x) {
          if x != b.date {
            assert x in Dates(bs[1..]);
            BeforeTransitive(d, b.date, x);
          }
        }
        AscendingCons(Bucket(d, 1), bs);
        assert r[1..] == bs;
        forall x ensures CountIn(r, x) == CountIn(bs, x) + (if x == d then 1 else 0) {
          if x == d {
            BeforeTotal(d, d);
            assert d !in Dates(bs);
            CountInAbsent(bs, d);
          }
        }
      } else {
        BeforeTotal(d, b.date);
        var rest := AddDate(bs[1..], d);
        AddDateCorrect(bs[1..], d);
        DatesCons(b, rest);
        AscendingCons(b, rest);
        assert r == [b] + rest;
        assert r[1..] == rest;
      }
    }
  }

  lemma {:induction false} CountInAbsent(bs: seq<Bucket>, d: Date)
    requires d !in Dates(bs)
    ensures CountIn(bs, d) == 0
  {
    if bs != [] {
      assert bs[0].date in Dates(bs);
      assert Dates(bs[1..]) <= Dates(bs) by {
        forall x | x in Dates(bs[1..]) ensures x in Dates(bs) {
          var i :| 0 <= i < |bs[1..]| && bs[1..][i].date == x;
          assert bs[1..][i] == bs[i + 1];
        }
      }
      CountInAbsent(bs[1..], d);
    }
  }

  /** In an ascending list a date's count is the count of its one bucket. */
  lemma {:induction false} CountInAt(bs: seq<Bucket>, k: nat)
    requires Ascending(bs) && k < |bs|
    ensures CountIn(bs, bs[k].date) == bs[k].count
  {
    if k > 0 {
      BeforeTotal(bs[0].date, bs[k].date);
      AscendingTail(bs);
      assert bs[1..][k - 1] == bs[k];
      CountInAt(bs[1..], k - 1);
    }
  }

  /**
   * The stats query yields exactly one bucket per distinct creation day,
   * strictly ascending by day, each counting the rows created that day (so
   * positive), and the counts sum to the number of rows.
   */
  lemma {:induction false} GrowthStatsCorrect(rows: seq<Row>)
    ensures var bs := GrowthStats(rows);
      && Ascending(bs)
      && Dates(bs) == (set k | 0 <= k < |rows| :: DateOf(rows[k].createdAt))
      && (forall x :: CountIn(bs, x) == CountOn(rows, x))
      && (forall i | 0 <= i < |bs| :: bs[i].count > 0)
      && Total(bs) == |rows|
  {
    if rows != [] {
      GrowthStatsCorrect(rows[1..]);
      AddDateCorrect(GrowthStats(rows[1..]), DateOf(rows[0].createdAt));
      var all := set k | 0 <= k < |rows| :: DateOf(rows[k].createdAt);
      var tail := set k | 0 <= k < |rows[1..]| :: DateOf(rows[1..][k].createdAt);
      assert all == tail + {DateOf(rows[0].createdAt)} by {
        forall x | x in all ensures x in tail + {DateOf(rows[0].createdAt)} {
          var k :| 0 <= k < |rows| && DateOf(rows[k].createdAt) == x;
          if k > 0 {
            assert rows[1..][k - 1] == rows[k];
          }
        }
        forall x | x in tail ensures x in all {
          var k :| 0 <= k < |rows[1..]| && DateOf(rows[1..][k].createdAt) == x;
          assert rows[1..][k] == rows[k + 1];
        }
      }
    } else {
      assert Dates([]) == {};
    }
  }

  /** The example of the stats endpoint: two rows on 2024-01-01 and one on 2024-01-02. */
  lemma GrowthStatsExample(name: string)
    ensures var d1, d2 := Date(2024, 1, 1), Date(2024, 1, 2);
      var rows := [ Row(1, name, "a@x.com", None, Timestamp(d1, 10)),
                    Row(2, name, "b@x.com", None, Timestamp(d2, 20)),
                    Row(3, name, "c@x.com", None, Timestamp(d1, 30)) ];
      GrowthStats(rows) == [Bucket(d1, 2), Bucket(d2, 1)]
  {
    var d1, d2 := Date(2024, 1, 1), Date(2024, 1, 2);
    var rows := [ Row(1, name, "a@x.com", None, Timestamp(d1, 10)),
                  Row(2, name, "b@x.com", None, Timestamp(d2, 20)),
                  Row(3, name, "c@x.com", None, Timestamp(d1, 30)) ];
    assert GrowthStats(rows[2..]) == [Bucket(d1, 1)];
    assert GrowthStats(rows[1..]) == AddDate([Bucket(d1, 1)], d2);
    assert AddDate([Bucket(d1, 1)], d2) == [Bucket(d1, 1)] + AddDate([], d2);
  }

  /**
   * getUserStats: one bucket per distinct creation day, strictly ascending,
   * each with the positive number of rows created that day, counts summing to
   * the number of rows.
   */
  method GetUserStats(db: Database) returns (buckets: seq<Bucket>)
    ensures Ascending(buckets)
    ensures forall i | 0 <= i < |buckets| :: 0 < buckets[i].count == CountOn(db.rows, buckets[i].date)
    ensures forall k | 0 <= k < |db.rows| :: DateOf(db.rows[k].createdAt) in Dates(buckets)
    ensures forall x | x in Dates(buckets) :: CountOn(db.rows, x) > 0
    ensures Total(buckets) == |db.rows|
  {
    buckets := GrowthStats(db.rows);
    GrowthStatsCorrect(db.rows);
    forall i | 0 <= i < |buckets| ensures 0 < buckets[i].count == CountOn(db.rows, buckets[i].date) {
      CountInAt(buckets, i);
    }
    forall x | x in Dates(buckets) ensures CountOn(db.rows, x) > 0 {
      var i :| 0 <= i < |buckets| && buckets[i].date == x;
      CountInAt(buckets, i);
    }
  }
}
