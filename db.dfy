/**
 The database behind the application: whether the `tasks` table exists yet, its
 rows, and the AUTOINCREMENT counter SQLite keeps for it. `InitDb` ensures the
 schema and seeds two example tasks into an empty table.
 */
module Db {
  import opened Store

  class Connection {
    /** The `tasks` table has been created in the database file. */
    var hasTable: bool
    /** The rows of the `tasks` table. */
    var tasks: Table
    /** The table's entry in `sqlite_sequence`: the largest id ever handed out. */
    var lastId: nat

    /** Every id in use was handed out by AUTOINCREMENT, so it lies in 1..lastId;
        before the schema exists there are no rows and no counter. */
    ghost predicate Valid()
      reads this
    {
      && (!hasTable ==> tasks == map[] && lastId == 0)
      && forall id :: id in tasks ==> 1 <= id <= lastId
    }

    /** A database file in which the schema has not been created yet. */
    constructor ()
      ensures Valid() && !hasTable && tasks == map[] && lastId == 0
    {
      hasTable := false;
      tasks := map[];
      lastId := 0;
    }

    /** `CREATE TABLE IF NOT EXISTS tasks (...)`: creates an empty table when there
        is none and leaves an existing table and its rows exactly as they were. */
    method EnsureSchema()
      requires Valid()
      modifies this
      ensures Valid() && hasTable
      ensures tasks == old(tasks) && lastId == old(lastId)
    {
      if !hasTable {
        hasTable := true;
        tasks := map[];
        lastId := 0;
      }
    }

    /** `INSERT INTO tasks (...)` under `id INTEGER PRIMARY KEY AUTOINCREMENT`: the
        new row gets an id one above every id ever handed out, so it is fresh and
        larger than every id in the table; no existing row changes. */
    method Insert(task: Task) returns (id: int)
      requires Valid() && hasTable
      modifies this
      ensures Valid() && hasTable
      ensures id == old(lastId) + 1 && lastId == id
      ensures id !in old(tasks) && forall k :: k in old(tasks) ==> k < id
      ensures tasks == old(tasks)[id := task]
    {
      id := lastId + 1;
      tasks := tasks[id := task];
      lastId := id;
    }
  }

  /** The first example task seeded into an empty table. */
  function WelcomeTask(createdAt: string): Task {
    Task("Welcome task", Some("This is a sample task. Edit or delete it."), Some("onboarding"), None, "todo", createdAt)
  }

  /** The second example task seeded into an empty table. */
  function ReadmeTask(createdAt: string): Task {
    Task("Fix README", Some("Improve README to make it comprehensive."), Some("docs"), None, "doing", createdAt)
  }

  /** Ensures the schema, then seeds the two example tasks when the table holds no
      rows. A table that already has rows is left exactly as it was, so a second
      run changes nothing; afterwards the table is never empty. The two clock
      readings stand for `datetime('now')` at each insert. */
  method InitDb(db: Connection, welcomeAt: string, readmeAt: string)
    requires db.Valid()
    modifies db
    ensures db.Valid() && db.hasTable && |db.tasks| > 0
    ensures old(db.hasTable) && |old(db.tasks)| > 0 ==>
      db.tasks == old(db.tasks) && db.lastId == old(db.lastId)
    ensures !(old(db.hasTable) && |old(db.tasks)| > 0) ==>
      && db.lastId == old(db.lastId) + 2
      && db.tasks == map[old(db.lastId) + 1 := WelcomeTask(welcomeAt), old(db.lastId) + 2 := ReadmeTask(readmeAt)]
  {
    db.EnsureSchema();
    var count := |db.tasks|;
    if count == 0 {
      var welcomeId := db.Insert(WelcomeTask(welcomeAt));
      var readmeId := db.Insert(ReadmeTask(readmeAt));
    }
  }
}
