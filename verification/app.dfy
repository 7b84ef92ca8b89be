/**
 * The schema bootstrap in App.js: `createTable` runs on start-up and
 * `resetTable` drops the table and, once the drop has succeeded, creates it
 * again.
 */
module App {
  import opened Store

  /**
   * `createTable`: the table exists afterwards, and an existing table keeps
   * its rows and counter, so a second call changes nothing the first did not.
   */
  method CreateTable(db: Database)
    requires db.Valid()
    modifies db
    ensures db.Valid()
    ensures db.hasTable == (old(db.hasTable) || db.available)
    ensures db.rows == old(db.rows) && db.sequence == old(db.sequence) && db.issued == old(db.issued)
    ensures db.available && !old(db.hasTable) ==> db.rows == [] && db.sequence == 0
  {
    var _ := db.CreateTableIfNotExists();
  }

  /** `resetTable`: whatever was stored, an available database ends with an empty table whose ids restart at 1. */
  method ResetTable(db: Database)
    requires db.Valid()
    modifies db
    ensures db.Valid()
    ensures db.available ==> db.hasTable && db.rows == [] && db.sequence == 0 && db.issued == {}
    ensures !db.available ==> db.hasTable == old(db.hasTable) && db.rows == old(db.rows) && db.sequence == old(db.sequence)
  {
    var st := db.DropTableIfExists();
    if st == Ok {
      CreateTable(db);
    }
  }
}
