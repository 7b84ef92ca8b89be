/**
 * The `Items` table of the app's SQLite database and the statements the
 * screens issue against it, with SQLite's semantics for each statement.
 *
 *   Items(id INTEGER PRIMARY KEY AUTOINCREMENT, name TEXT,
 *         expiry_date TIMESTAMP, photo_base64 TEXT DEFAULT NULL, size DECIMAL)
 *
 * Rows are kept in rowid order. AUTOINCREMENT keeps the largest id ever
 * handed out in the `sqlite_sequence` table; a new row gets one more than
 * that, so ids are never reused while the table exists.
 */
module Store {
  import opened Wrappers
  import opened Dates

  /** The largest rowid SQLite can hand out (2^63 - 1); AUTOINCREMENT fails with SQLITE_FULL after it. */
  const MaxRowId: int := 0x7FFF_FFFF_FFFF_FFFF

  /** One row of `Items`; `photoBase64` is None for SQL NULL. */
  datatype Row = Row(id: int, name: string, expiryDate: string, photoBase64: Option<string>, size: int)

  /** How a statement ended: success, "no such table: Items", SQLITE_FULL, or no database to run it on. */
  datatype Status = Ok | NoSuchTable | Full | Unavailable

  predicate IdsAscending(rows: seq<Row>) {
    forall i, j :: 0 <= i < j < |rows| ==> rows[i].id < rows[j].id
  }

  predicate HasId(rows: seq<Row>, id: int) {
    exists i :: 0 <= i < |rows| && rows[i].id == id
  }

  // ---------------------------------------------------------------------
  // SELECT * FROM Items ORDER BY expiry_date ASC LIMIT offset, limit

  /** Every stored quantity is at least 1: a quantity that reaches 0 deletes the row instead. */
  predicate SizesPositive(rows: seq<Row>) {
    forall i :: 0 <= i < |rows| ==> rows[i].size >= 1
  }

  predicate SortedByExpiry(rows: seq<Row>) {
    forall i, j :: 0 <= i < j < |rows| ==> LexLe(rows[i].expiryDate, rows[j].expiryDate)
  }

  /** Places `x` before the first row that does not expire earlier than it. */
  function InsertByExpiry(x: Row, s: seq<Row>): (r: seq<Row>)
    requires SortedByExpiry(s)
    ensures |r| == |s| + 1
    ensures multiset(r) == multiset(s) + multiset{x}
    ensures SortedByExpiry(r)
  {
    if s == [] then [x]
    else if LexLe(x.expiryDate, s[0].expiryDate) then
      InsertedBeforeHead(x, s);
      [x] + s
    else
      var rest := InsertByExpiry(x, s[1..]);
      assert s == [s[0]] + s[1..];
      LexLeTotal(x.expiryDate, s[0].expiryDate);
      HeadBeforeRest(s[0], rest, s[1..], x);
      [s[0]] + rest
  }

  lemma InsertedBeforeHead(x: Row, s: seq<Row>)
    requires SortedByExpiry(s) && s != [] && LexLe(x.expiryDate, s[0].expiryDate)
    ensures SortedByExpiry([x] + s)
  {
    forall j | 0 < j < |s| + 1
      ensures LexLe(x.expiryDate, ([x] + s)[j].expiryDate)
    {
      if j > 1 { LexLeTransitive(x.expiryDate, s[0].expiryDate, s[j - 1].expiryDate); }
    }
  }

  lemma HeadBeforeRest(h: Row, rest: seq<Row>, tail: seq<Row>, x: Row)
    requires SortedByExpiry(rest) && SortedByExpiry([h] + tail)
    requires multiset(rest) == multiset(tail) + multiset{x}
    requires LexLe(h.expiryDate, x.expiryDate)
    ensures SortedByExpiry([h] + rest)
  {
    forall j | 0 <= j < |rest|
      ensures LexLe(h.expiryDate, rest[j].expiryDate)
    {
      assert rest[j] in multiset(rest);
      assert ([h] + tail)[0] == h;
      if rest[j] != x {
        assert rest[j] in multiset(tail);
        var k :| 0 <= k < |tail| && tail[k] == rest[j];
        assert ([h] + tail)[k + 1] == tail[k];
      }
    }
  }

  /** The row order of `ORDER BY expiry_date ASC`; rows with equal dates keep their rowid order. */
  function OrderByExpiry(rows: seq<Row>): (r: seq<Row>)
    ensures |r| == |rows|
    ensures multiset(r) == multiset(rows)
    ensures SortedByExpiry(r)
  {
    if rows == [] then []
    else
      assert rows == [rows[0]] + rows[1..];
      InsertByExpiry(rows[0], OrderByExpiry(rows[1..]))
  }

  /**
   * `LIMIT offset, limit`: skip `offset` rows, then keep at most `limit`.
   * A negative offset counts as zero and a negative limit means no limit.
   */
  function Window<T>(s: seq<T>, offset: int, limit: int): (r: seq<T>)
    ensures limit >= 0 ==> |r| <= limit
    ensures r == [] <==> (if offset < 0 then 0 else offset) >= |s| || limit == 0
    ensures forall k :: 0 <= k < |r| ==>
              (if offset < 0 then 0 else offset) + k < |s| && r[k] == s[(if offset < 0 then 0 else offset) + k]
    ensures limit >= 0 && 0 <= offset && offset + limit <= |s| ==> |r| == limit
    ensures var start := if offset < 0 then 0 else offset;
            |r| == if start >= |s| then 0
                   else if limit < 0 || start + limit > |s| then |s| - start
                   else limit
  {
    var start := if offset < 0 then 0 else if offset > |s| then |s| else offset;
    var end := if limit < 0 || start + limit > |s| then |s| else start + limit;
    s[start..end]
  }

  // ---------------------------------------------------------------------
  // DELETE FROM Items WHERE id = ?  and  UPDATE Items SET size = ? WHERE id = ?

  /** The rows `DELETE ... WHERE id = ?` keeps, in their order. */
  function DeleteWhereId(rows: seq<Row>, id: int): (r: seq<Row>)
    ensures |r| <= |rows|
    ensures forall x :: x in r <==> x in rows && x.id != id
  {
    if rows == [] then []
    else (if rows[0].id == id then [] else [rows[0]]) + DeleteWhereId(rows[1..], id)
  }

  /** The table after `UPDATE Items SET size = ? WHERE id = ?`. */
  function SetSizeWhereId(rows: seq<Row>, id: int, size: int): (r: seq<Row>)
    ensures |r| == |rows|
    ensures forall i :: 0 <= i < |rows| ==>
              r[i] == if rows[i].id == id then rows[i].(size := size) else rows[i]
  {
    if rows == [] then []
    else [if rows[0].id == id then rows[0].(size := size) else rows[0]] + SetSizeWhereId(rows[1..], id, size)
  }

  lemma {:induction false} DeleteAbsent(rows: seq<Row>, id: int)
    requires !HasId(rows, id)
    ensures DeleteWhereId(rows, id) == rows
  {
    if rows != [] {
      assert rows[0].id != id;
      assert !HasId(rows[1..], id) by {
        forall i | 0 <= i < |rows| - 1 ensures rows[1..][i].id != id { assert rows[1..][i] == rows[i + 1]; }
      }
      DeleteAbsent(rows[1..], id);
      assert rows == [rows[0]] + rows[1..];
    }
  }

  lemma {:induction false} DeletePresent(rows: seq<Row>, id: int)
    requires IdsAscending(rows) && HasId(rows, id)
    ensures |DeleteWhereId(rows, id)| == |rows| - 1
  {
    var tail := rows[1..];
    if rows[0].id == id {
      assert !HasId(tail, id) by {
        forall i | 0 <= i < |tail| ensures tail[i].id != id { assert rows[i + 1] == tail[i]; }
      }
      DeleteAbsent(tail, id);
    } else {
      var i :| 0 <= i < |rows| && rows[i].id == id;
      assert tail[i - 1].id == id;
      DeletePresent(tail, id);
    }
  }

  lemma {:induction false} DeleteAscending(rows: seq<Row>, id: int)
    requires IdsAscending(rows)
    ensures IdsAscending(DeleteWhereId(rows, id))
  {
    if rows != [] {
      var tail := rows[1..];
      DeleteAscending(tail, id);
      var rest := DeleteWhereId(tail, id);
      if rows[0].id != id {
        var r := DeleteWhereId(rows, id);
        assert r == [rows[0]] + rest;
        forall j | 0 < j < |r| ensures rows[0].id < r[j].id {
          assert r[j] in rest;
          var k :| 0 <= k < |tail| && tail[k] == r[j];
          assert rows[k + 1] == tail[k];
        }
      }
    }
  }

  /** With unique ids, deleting by id removes one row when the id is present and nothing otherwise. */
  lemma DeleteWhereIdCount(rows: seq<Row>, id: int)
    requires IdsAscending(rows)
    ensures HasId(rows, id) ==> |DeleteWhereId(rows, id)| == |rows| - 1
    ensures !HasId(rows, id) ==> DeleteWhereId(rows, id) == rows
    ensures !HasId(DeleteWhereId(rows, id), id)
    ensures IdsAscending(DeleteWhereId(rows, id))
  {
    if HasId(rows, id) { DeletePresent(rows, id); } else { DeleteAbsent(rows, id); }
    DeleteAscending(rows, id);
    var r := DeleteWhereId(rows, id);
    assert forall i :: 0 <= i < |r| ==> r[i] in r;
  }

  // ---------------------------------------------------------------------
  // The database connection

  class Database {
    /** Whether the database file could be opened; when it could not, every transaction fails. */
    const available: bool
    /** Whether the `Items` table exists. */
    var hasTable: bool
    /** The table's rows in rowid order. */
    var rows: seq<Row>
    /** The `sqlite_sequence` entry for `Items`: the largest id handed out (0 when absent). */
    var sequence: int
    /** Every id handed out since the table was created. */
    ghost var issued: set<int>

    ghost predicate Valid()
      reads this
    {
      && 0 <= sequence <= MaxRowId
      && IdsAscending(rows)
      && (forall i :: 0 <= i < |rows| ==> rows[i].id in issued)
      && (forall id :: id in issued ==> 1 <= id <= sequence)
      && (!hasTable ==> rows == [] && sequence == 0 && issued == {})
    }

    /** `SQLite.openDatabase("mydb.db")` on a fresh install: no tables yet. */
    constructor (available: bool)
      ensures Valid() && this.available == available
      ensures !hasTable && rows == [] && sequence == 0 && issued == {}
    {
      this.available := available;
      hasTable := false;
      rows := [];
      sequence := 0;
      issued := {};
    }

    /** `CREATE TABLE IF NOT EXISTS Items (...)`: creates an empty table, or does nothing when it exists. */
    method CreateTableIfNotExists() returns (st: Status)
      requires Valid()
      modifies this
      ensures Valid()
      ensures st == (if available then Ok else Unavailable)
      ensures hasTable == (old(hasTable) || available)
      ensures rows == old(rows) && sequence == old(sequence) && issued == old(issued)
    {
      if !available { return Unavailable; }
      hasTable := true;
      st := Ok;
    }

    /** `DROP TABLE IF EXISTS Items`: removes the table and its `sqlite_sequence` entry. */
    method DropTableIfExists() returns (st: Status)
      requires Valid()
      modifies this
      ensures Valid()
      ensures st == (if available then Ok else Unavailable)
      ensures st == Ok ==> !hasTable && rows == [] && sequence == 0 && issued == {}
      ensures st != Ok ==> hasTable == old(hasTable) && rows == old(rows) && sequence == old(sequence) && issued == old(issued)
    {
      if !available { return Unavailable; }
      hasTable, rows, sequence := false, [], 0;
      issued := {};
      st := Ok;
    }

    /**
     * `INSERT INTO Items (name, expiry_date, photo_base64, size) VALUES (...)`
     * when `photo` is Some, and `INSERT INTO Items (name, expiry_date, size)`,
     * which leaves `photo_base64` at its default NULL, when it is None.
     */
    method Insert(name: string, expiryDate: string, photo: Option<string>, size: int) returns (st: Status, id: int)
      requires Valid()
      modifies this
      ensures Valid()
      ensures st == (if !available then Unavailable else if !old(hasTable) then NoSuchTable
                     else if old(sequence) == MaxRowId then Full else Ok)
      ensures st == Ok ==>
                && id == old(sequence) + 1
                && (forall a :: a in old(issued) ==> a < id)
                && rows == old(rows) + [Row(id, name, expiryDate, photo, size)]
                && sequence == id && issued == old(issued) + {id}
      ensures st != Ok ==> rows == old(rows) && sequence == old(sequence) && issued == old(issued)
      ensures hasTable == old(hasTable)
    {
      id := 0;
      if !available { return Unavailable, id; }
      if !hasTable { return NoSuchTable, id; }
      if sequence == MaxRowId { return Full, id; }
      id := sequence + 1;
      rows := rows + [Row(id, name, expiryDate, photo, size)];
      sequence := id;
      issued := issued + {id};
      st := Ok;
    }

    /** `SELECT * FROM Items ORDER BY expiry_date ASC LIMIT offset, limit`. */
    method SelectByExpiry(offset: int, limit: int) returns (st: Status, result: seq<Row>)
      requires Valid()
      ensures st == (if !available then Unavailable else if !hasTable then NoSuchTable else Ok)
      ensures st == Ok ==> result == Window(OrderByExpiry(rows), offset, limit)
      ensures st != Ok ==> result == []
    {
      if !available { return Unavailable, []; }
      if !hasTable { return NoSuchTable, []; }
      result := Window(OrderByExpiry(rows), offset, limit);
      st := Ok;
    }

    /** `SELECT COUNT(*) as total FROM Items`. */
    method CountAll() returns (st: Status, total: int)
      requires Valid()
      ensures st == (if !available then Unavailable else if !hasTable then NoSuchTable else Ok)
      ensures total == if st == Ok then |rows| else 0
    {
      if !available { return Unavailable, 0; }
      if !hasTable { return NoSuchTable, 0; }
      st, total := Ok, |rows|;
    }

    /** `UPDATE Items SET size = ? WHERE id = ?`; `affected` is `rowsAffected`. */
    method UpdateSize(id: int, size: int) returns (st: Status, affected: nat)
      requires Valid()
      modifies this
      ensures Valid()
      ensures st == (if !available then Unavailable else if !hasTable then NoSuchTable else Ok)
      ensures rows == (if st == Ok then SetSizeWhereId(old(rows), id, size) else old(rows))
      ensures affected == (if st == Ok && HasId(old(rows), id) then 1 else 0)
      ensures hasTable == old(hasTable) && sequence == old(sequence) && issued == old(issued)
    {
      if !available { return Unavailable, 0; }
      if !hasTable { return NoSuchTable, 0; }
      affected := if HasId(rows, id) then 1 else 0;
      var updated := SetSizeWhereId(rows, id, size);
      assert forall i :: 0 <= i < |rows| ==> updated[i].id == rows[i].id;
      rows := updated;
      st := Ok;
    }

    /** `DELETE FROM Items WHERE id = ?`; `affected` is `rowsAffected`. */
    method DeleteById(id: int) returns (st: Status, affected: nat)
      requires Valid()
      modifies this
      ensures Valid()
      ensures st == (if !available then Unavailable else if !hasTable then NoSuchTable else Ok)
      ensures rows == (if st == Ok then DeleteWhereId(old(rows), id) else old(rows))
      ensures affected == (if st == Ok && HasId(old(rows), id) then 1 else 0)
      ensures hasTable == old(hasTable) && sequence == old(sequence) && issued == old(issued)
    {
      if !available { return Unavailable, 0; }
      if !hasTable { return NoSuchTable, 0; }
      affected := if HasId(rows, id) then 1 else 0;
      DeleteWhereIdCount(rows, id);
      var kept := DeleteWhereId(rows, id);
      assert forall i :: 0 <= i < |kept| ==> kept[i] in rows;
      rows := kept;
      st := Ok;
    }

    /** `DELETE FROM Items`: empties the table; the AUTOINCREMENT counter is kept. */
    method DeleteAll() returns (st: Status)
      requires Valid()
      modifies this
      ensures Valid()
      ensures st == (if !available then Unavailable else if !hasTable then NoSuchTable else Ok)
      ensures rows == (if st == Ok then [] else old(rows))
      ensures hasTable == old(hasTable) && sequence == old(sequence) && issued == old(issued)
    {
      if !available { return Unavailable; }
      if !hasTable { return NoSuchTable; }
      rows := [];
      st := Ok;
    }
  }
}
