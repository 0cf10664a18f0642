/**
 Properties that span several calls against one database, shown as client code
 whose postconditions follow from the repository's contracts alone.
 */
module Scenarios {
  import opened Store
  import opened Db
  import opened Models

  /** Ids returned by successive creates are distinct and strictly increasing,
      even when a row was deleted in between. */
  method CreateDeleteCreate(db: Connection, at1: string, at2: string, title: string)
    returns (first: int, second: int)
    requires db.Valid() && db.hasTable
    modifies db
    ensures first < second
    ensures Get(db.tasks, first) == None
    ensures Get(db.tasks, second) == Some(Row(second, Task(title, None, None, None, "todo", at2)))
  {
    first := Create(db, at1, title);
    Delete(db, first);
    second := Create(db, at2, title);
  }

  /** Three cycle steps on a task whose status is todo, doing or done give back
      exactly the table they started from. */
  method CycleThreeTimes(db: Connection, id: int)
    requires db.Valid() && db.hasTable
    requires id in db.tasks && db.tasks[id].status in StatusOrder
    modifies db
    ensures db.tasks == old(db.tasks) && db.lastId == old(db.lastId)
  {
    ghost var start := db.tasks[id];
    NextStatusCycle(start.status);
    CycleStatus(db, id);
    CycleStatus(db, id);
    CycleStatus(db, id);
    assert db.tasks[id] == start;
  }

  /** A freshly created task steps todo, doing, done and back to todo. */
  method CycleFreshTask(db: Connection, at: string, title: string) returns (id: int, seen: seq<string>)
    requires db.Valid() && db.hasTable
    modifies db
    ensures seen == ["todo", "doing", "done", "todo"]
  {
    NextStatusCases("todo");
    NextStatusCases("doing");
    NextStatusCases("done");
    id := Create(db, at, title);
    seen := [db.tasks[id].status];
    CycleStatus(db, id);
    seen := seen + [db.tasks[id].status];
    CycleStatus(db, id);
    seen := seen + [db.tasks[id].status];
    CycleStatus(db, id);
    seen := seen + [db.tasks[id].status];
  }

  /** Running the bootstrap twice leaves the same table as running it once. */
  method InitDbTwice(db: Connection, at1: string, at2: string, at3: string, at4: string)
    requires db.Valid()
    modifies db
    ensures db.Valid() && db.hasTable && |db.tasks| > 0
    ensures old(db.hasTable) && |old(db.tasks)| > 0 ==>
      db.tasks == old(db.tasks) && db.lastId == old(db.lastId)
    ensures !(old(db.hasTable) && |old(db.tasks)| > 0) ==>
      && db.lastId == old(db.lastId) + 2
      && db.tasks == map[old(db.lastId) + 1 := WelcomeTask(at1), old(db.lastId) + 2 := ReadmeTask(at2)]
  {
    InitDb(db, at1, at2);
    ghost var once := db.tasks;
    ghost var onceId := db.lastId;
    InitDb(db, at3, at4);
    assert db.tasks == once && db.lastId == onceId;
  }
}
