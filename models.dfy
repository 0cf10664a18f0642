/**
 The task repository: every query and statement the application runs against the
 `tasks` table. Read-only queries are functions of the table's contents; the
 statements that write are methods on the database connection.
 */
module Models {
  import opened Store
  import opened Ordering
  import opened Db

  // ---------------------------------------------------------------------------
  // get

  /** `SELECT * FROM tasks WHERE id = ?`: the row with that primary key, or
      nothing when there is none. */
  function Get(t: Table, id: int): (r: Option<Row>)
    ensures r.Some? <==> id in t
    ensures r.Some? ==> r.value.id == id && r.value.task == t[id]
  {
    if id in t then Some(Row(id, t[id])) else None
  }

  // ---------------------------------------------------------------------------
  // get_all: the table scan, the WHERE clause and the ORDER BY

  /** A filter argument constrains the query only when it is truthy: a missing
      filter and an empty string both impose nothing. */
  predicate Active(filter: Option<string>) {
    filter.Some? && filter.value != ""
  }

  /** The WHERE clause: `status = ?` and `tag = ?`, each only when its filter is
      active, joined by AND. A NULL tag equals nothing. */
  predicate Matches(task: Task, status: Option<string>, tag: Option<string>) {
    && (Active(status) ==> task.status == status.value)
    && (Active(tag) ==> task.tag == Some(tag.value))
  }

  predicate IdsIncreasing(s: seq<Row>) {
    forall i, j :: 0 <= i < j < |s| ==> s[i].id < s[j].id
  }

  predicate DistinctIds(s: seq<Row>) {
    forall i, j :: 0 <= i < j < |s| ==> s[i].id != s[j].id
  }

  /** k is the smallest of ids. */
  predicate IsLeast(k: int, ids: set<int>) {
    k in ids && forall j :: j in ids ==> k <= j
  }

  lemma {:induction false} MinimumExists(ids: set<int>)
    requires ids != {}
    ensures exists k :: IsLeast(k, ids)
    decreases ids
  {
    assert exists x :: x in ids by {
      if forall x :: x !in ids {
        assert false;
      }
    }
    var x :| x in ids;
    var rest := ids - {x};
    if rest == {} {
      forall j | j in ids ensures x <= j {
        assert j !in rest;
      }
      assert IsLeast(x, ids);
    } else {
      MinimumExists(rest);
      var m :| IsLeast(m, rest);
      var k := if x < m then x else m;
      forall j | j in ids ensures k <= j {
        if j != x { assert j in rest; }
      }
      assert IsLeast(k, ids);
    }
  }

  /** The rows whose ids are in `ids`, in primary-key order. */
  function Scan(t: Table, ids: set<int>): (r: seq<Row>)
    requires ids <= t.Keys
    ensures forall x :: x in r <==> x.id in ids && x.task == t[x.id]
    ensures IdsIncreasing(r)
    decreases ids
  {
    if ids == {} then []
    else
      MinimumExists(ids);
      var k :| IsLeast(k, ids);
      [Row(k, t[k])] + Scan(t, ids - {k})
  }

  /** The rows of s that satisfy the WHERE clause, in their original order. */
  function Where(s: seq<Row>, status: Option<string>, tag: Option<string>): (r: seq<Row>)
    ensures forall x :: x in r <==> x in s && Matches(x.task, status, tag)
    ensures IdsIncreasing(s) ==> IdsIncreasing(r)
    decreases |s|
  {
    if s == [] then []
    else if Matches(s[0].task, status, tag) then [s[0]] + Where(s[1..], status, tag)
    else Where(s[1..], status, tag)
  }

  /** x may go in front of the sorted sequence s when it may come before s's
      first element. */
  lemma PrependLeast(x: Row, s: seq<Row>)
    requires SortedByKey(s) && s != [] && KeyLe(x.task, s[0].task)
    ensures SortedByKey([x] + s)
  {
    forall i, j | 0 <= i < j < |[x] + s|
      ensures KeyLe(([x] + s)[i].task, ([x] + s)[j].task)
    {
      if i == 0 && j > 1 {
        KeyLeTransitive(x.task, s[0].task, s[j - 1].task);
      }
    }
  }

  /** s's first element may go in front of rest when rest is sorted and holds x and
      the rest of s, and x may not come before s's first element. */
  lemma PrependHead(s: seq<Row>, x: Row, rest: seq<Row>)
    requires SortedByKey(s) && s != [] && KeyLe(s[0].task, x.task)
    requires SortedByKey(rest) && multiset(rest) == multiset(s[1..]) + multiset{x}
    ensures SortedByKey([s[0]] + rest)
    ensures multiset([s[0]] + rest) == multiset(s) + multiset{x}
  {
    forall j | 0 <= j < |rest| ensures KeyLe(s[0].task, rest[j].task) {
      assert rest[j] in multiset(rest);
      if rest[j] != x {
        assert rest[j] in s[1..];
        var k :| 0 <= k < |s[1..]| && s[1..][k] == rest[j];
        assert s[k + 1] == rest[j];
      }
    }
    forall i, j | 0 <= i < j < |[s[0]] + rest|
      ensures KeyLe(([s[0]] + rest)[i].task, ([s[0]] + rest)[j].task)
    {
      if i == 0 {
        assert ([s[0]] + rest)[j] == rest[j - 1];
      }
    }
    assert s == [s[0]] + s[1..];
  }

  /** Puts x into the sorted sequence s at a place where it keeps s sorted. */
  function InsertByKey(x: Row, s: seq<Row>): (r: seq<Row>)
    requires SortedByKey(s)
    ensures SortedByKey(r)
    ensures multiset(r) == multiset(s) + multiset{x}
    decreases |s|
  {
    if s == [] then [x]
    else if KeyLe(x.task, s[0].task) then
      PrependLeast(x, s);
      assert s == [s[0]] + s[1..];
      [x] + s
    else
      var rest := InsertByKey(x, s[1..]);
      KeyLeTotal(x.task, s[0].task);
      PrependHead(s, x, rest);
      [s[0]] + rest
  }

  /** `ORDER BY <status rank>, due_date IS NULL, due_date`: a rearrangement of s
      sorted by the listing key. Rows that tie on the key are in no promised order. */
  function OrderBy(s: seq<Row>): (r: seq<Row>)
    ensures SortedByKey(r)
    ensures multiset(r) == multiset(s)
    decreases |s|
  {
    if s == [] then []
    else
      assert s == [s[0]] + s[1..];
      InsertByKey(s[0], OrderBy(s[1..]))
  }

  predicate NoDuplicates(s: seq<Row>) {
    forall i, j :: 0 <= i < j < |s| ==> s[i] != s[j]
  }

  /** A sequence has no duplicates exactly when its multiset holds nothing twice. */
  lemma {:induction false} NoDuplicatesCount(s: seq<Row>)
    ensures NoDuplicates(s) <==> forall x :: multiset(s)[x] <= 1
    decreases |s|
  {
    if s != [] {
      var a, t := s[0], s[1..];
      assert s == [a] + t;
      NoDuplicatesCount(t);
      if NoDuplicates(s) {
        assert NoDuplicates(t) by {
          forall i, j | 0 <= i < j < |t| ensures t[i] != t[j] {
            assert t[i] == s[i + 1] && t[j] == s[j + 1];
          }
        }
        assert a !in t;
        forall x ensures multiset(s)[x] <= 1 {
          assert multiset(s)[x] == multiset(t)[x] + (if x == a then 1 else 0);
        }
      }
      if forall x :: multiset(s)[x] <= 1 {
        forall x ensures multiset(t)[x] <= 1 {
          assert multiset(s)[x] == multiset(t)[x] + (if x == a then 1 else 0);
        }
        assert multiset(t)[a] == 0 by {
          assert multiset(s)[a] == multiset(t)[a] + 1;
        }
        forall i, j | 0 <= i < j < |s| ensures s[i] != s[j] {
          if i == 0 {
            assert s[j] == t[j - 1] && s[j] in t;
          } else {
            assert s[i] == t[i - 1] && s[j] == t[j - 1];
          }
        }
      }
    }
  }

  /** The task listing: every row that satisfies both active filters, each exactly
      once and nothing else, sorted by status rank (todo, doing, then everything
      else), then rows with a due date before rows without one, then due date. */
  function GetAll(t: Table, status: Option<string>, tag: Option<string>): (r: seq<Row>)
    ensures forall x :: x in r <==> x.id in t && x.task == t[x.id] && Matches(x.task, status, tag)
    ensures DistinctIds(r)
    ensures SortedByKey(r)
  {
    var matching := Where(Scan(t, t.Keys), status, tag);
    var r := OrderBy(matching);
    assert forall x :: x in r <==> x in matching by {
      forall x ensures x in r <==> x in matching {
        assert x in r <==> x in multiset(r);
      }
    }
    NoDuplicatesCount(matching);
    NoDuplicatesCount(r);
    assert DistinctIds(r) by {
      forall i, j | 0 <= i < j < |r| ensures r[i].id != r[j].id {
        assert r[i] in r && r[j] in r;
      }
    }
    r
  }

  /** A sequence of rows with distinct ids drawn from ids is no longer than ids. */
  lemma {:induction false} DistinctIdsLength(s: seq<Row>, ids: set<int>)
    requires DistinctIds(s)
    requires forall x :: x in s ==> x.id in ids
    ensures |s| <= |ids|
    decreases |s|
  {
    if s != [] {
      var rest := s[1..];
      assert DistinctIds(rest) by {
        forall i, j | 0 <= i < j < |rest| ensures rest[i].id != rest[j].id {
          assert rest[i] == s[i + 1] && rest[j] == s[j + 1];
        }
      }
      forall x | x in rest ensures x.id in ids - {s[0].id} {
        var k :| 0 <= k < |rest| && rest[k] == x;
        assert s[k + 1] == x;
      }
      DistinctIdsLength(rest, ids - {s[0].id});
    }
  }

  /** Any listing of a table holding exactly A (done, due 2024-01-01), B (todo, no
      due date) and C (doing, due 2023-05-05) that has the three properties GetAll
      promises is B, C, A: status rank decides before due dates are looked at. */
  lemma ListingOfThree(a: Task, b: Task, c: Task, r: seq<Row>)
    requires a.status == "done" && a.dueDate == Some("2024-01-01")
    requires b.status == "todo" && b.dueDate == None
    requires c.status == "doing" && c.dueDate == Some("2023-05-05")
    requires forall x :: x in r <==> x == Row(1, a) || x == Row(2, b) || x == Row(3, c)
    requires DistinctIds(r) && SortedByKey(r)
    ensures r == [Row(2, b), Row(3, c), Row(1, a)]
  {
    var ra, rb, rc := Row(1, a), Row(2, b), Row(3, c);
    assert ra in r && rb in r && rc in r;
    var ia :| 0 <= ia < |r| && r[ia] == ra;
    var ib :| 0 <= ib < |r| && r[ib] == rb;
    var ic :| 0 <= ic < |r| && r[ic] == rc;
    assert !KeyLe(a, b) && !KeyLe(a, c) && !KeyLe(c, b);
    assert ib < ic < ia;
    DistinctIdsLength(r, {1, 2, 3});
  }

  /** The unfiltered listing of a table holding exactly A, B and C above is B, C, A. */
  lemma ListingExample(t: Table, a: Task, b: Task, c: Task)
    requires a.status == "done" && a.dueDate == Some("2024-01-01")
    requires b.status == "todo" && b.dueDate == None
    requires c.status == "doing" && c.dueDate == Some("2023-05-05")
    requires t.Keys == {1, 2, 3} && t[1] == a && t[2] == b && t[3] == c
    ensures GetAll(t, None, None) == [Row(2, b), Row(3, c), Row(1, a)]
  {
    var r := GetAll(t, None, None);
    forall x ensures x in r <==> x == Row(1, a) || x == Row(2, b) || x == Row(3, c) {
      assert x in r <==> x.id in t && x.task == t[x.id];
    }
    ListingOfThree(a, b, c, r);
  }

  // ---------------------------------------------------------------------------
  // create, update, delete

  /** `INSERT INTO tasks (title, description, tag, due_date, status)`: adds exactly
      one row carrying the supplied values (status "todo" unless given); its id was
      never used before and is larger than every id in the table; no other row
      changes. `createdAt` is the clock reading the store records for the row. */
  method Create(db: Connection, createdAt: string, title: string, description: Option<string> := None,
                tag: Option<string> := None, dueDate: Option<string> := None, status: string := "todo")
    returns (id: int)
    requires db.Valid() && db.hasTable
    modifies db
    ensures db.Valid() && db.hasTable
    ensures id !in old(db.tasks) && id > old(db.lastId) && db.lastId == id
    ensures forall k :: k in old(db.tasks) ==> k < id
    ensures db.tasks == old(db.tasks)[id := Task(title, description, tag, dueDate, status, createdAt)]
    ensures Get(db.tasks, id) == Some(Row(id, Task(title, description, tag, dueDate, status, createdAt)))
  {
    id := db.Insert(Task(title, description, tag, dueDate, status, createdAt));
  }

  /** `UPDATE tasks SET title, description, tag, due_date, status WHERE id = ?`:
      overwrites the five editable columns of row id, keeping its id and creation
      time; no other row changes; a missing id changes nothing. */
  method Update(db: Connection, id: int, title: string, description: Option<string> := None,
                tag: Option<string> := None, dueDate: Option<string> := None, status: string := "todo")
    requires db.Valid() && db.hasTable
    modifies db
    ensures db.Valid() && db.hasTable && db.lastId == old(db.lastId)
    ensures id in old(db.tasks) ==>
      db.tasks == old(db.tasks)[id := Task(title, description, tag, dueDate, status, old(db.tasks)[id].createdAt)]
    ensures id !in old(db.tasks) ==> db.tasks == old(db.tasks)
  {
    if id in db.tasks {
      db.tasks := db.tasks[id := Task(title, description, tag, dueDate, status, db.tasks[id].createdAt)];
    }
  }

  /** `DELETE FROM tasks WHERE id = ?`: row id is gone, so a later get finds
      nothing; every other row stays; a missing id changes nothing. The id is not
      handed out again. */
  method Delete(db: Connection, id: int)
    requires db.Valid() && db.hasTable
    modifies db
    ensures db.Valid() && db.hasTable && db.lastId == old(db.lastId)
    ensures db.tasks == old(db.tasks) - {id}
    ensures Get(db.tasks, id) == None
    ensures forall k :: k != id ==> Get(db.tasks, k) == Get(old(db.tasks), k)
  {
    db.tasks := db.tasks - {id};
  }

  // ---------------------------------------------------------------------------
  // cycle_status

  /** The cycle order. */
  const StatusOrder: seq<string> := ["todo", "doing", "done"]

  /** `list.index`: the first position holding s, or None where Python raises
      ValueError. */
  function IndexOf(order: seq<string>, s: string): (r: Option<nat>)
    ensures r.None? <==> s !in order
    ensures r.Some? ==> r.value < |order| && order[r.value] == s
    ensures r.Some? ==> forall j :: 0 <= j < r.value ==> order[j] != s
    decreases |order|
  {
    if order == [] then None
    else if order[0] == s then Some(0)
    else
      match IndexOf(order[1..], s)
      case None => None
      case Some(i) => Some(i + 1)
  }

  /** The status after one cycle step: the position of the current status in the
      cycle (0 when it is not there) advanced by one, wrapping around. */
  function NextStatus(current: string): string {
    var idx := match IndexOf(StatusOrder, current) case Some(i) => i case None => 0;
    StatusOrder[(idx + 1) % |StatusOrder|]
  }

  /** todo -> doing -> done -> todo, and any other status -> doing. */
  lemma NextStatusCases(s: string)
    ensures s == "todo" ==> NextStatus(s) == "doing"
    ensures s == "doing" ==> NextStatus(s) == "done"
    ensures s == "done" ==> NextStatus(s) == "todo"
    ensures s !in StatusOrder ==> NextStatus(s) == "doing"
  {
    if s !in StatusOrder {
      assert IndexOf(StatusOrder, s) == None;
    } else {
      assert IndexOf(StatusOrder, "todo") == Some(0);
      assert IndexOf(StatusOrder, "doing") == Some(1);
      assert IndexOf(StatusOrder, "done") == Some(2);
    }
  }

  /** Cycling always lands on one of the three canonical statuses, and three steps
      bring a canonical status back to itself. */
  lemma NextStatusCycle(s: string)
    ensures NextStatus(s) in StatusOrder
    ensures s in StatusOrder ==> NextStatus(NextStatus(NextStatus(s))) == s
  {
    NextStatusCases(s);
    NextStatusCases("todo");
    NextStatusCases("doing");
    NextStatusCases("done");
  }

  /** Reads the status of row id and writes back the next status in the cycle;
      nothing else in the row or the table changes; a missing id changes nothing.
      The read and the write are one atomic step here. */
  method CycleStatus(db: Connection, id: int)
    requires db.Valid() && db.hasTable
    modifies db
    ensures db.Valid() && db.hasTable && db.lastId == old(db.lastId)
    ensures id !in old(db.tasks) ==> db.tasks == old(db.tasks)
    ensures id in old(db.tasks) ==>
      db.tasks == old(db.tasks)[id := old(db.tasks)[id].(status := NextStatus(old(db.tasks)[id].status))]
  {
    var row := Get(db.tasks, id);
    if row.None? {
      return;
    }
    var current := row.value.task.status;
    var next := NextStatus(current);
    db.tasks := db.tasks[id := row.value.task.(status := next)];
  }

  // ---------------------------------------------------------------------------
  // get_all_tags

  /** `SELECT DISTINCT tag ... WHERE tag IS NOT NULL`, keeping only truthy tags: the
      non-empty tags of s, each once, in order of first appearance. */
  function DistinctTags(s: seq<Row>): (r: seq<string>)
    ensures forall tag :: tag in r <==> tag != "" && exists i :: 0 <= i < |s| && s[i].task.tag == Some(tag)
    ensures forall i, j :: 0 <= i < j < |r| ==> r[i] != r[j]
    decreases |s|
  {
    if s == [] then []
    else
      var init := s[..|s| - 1];
      var rest := DistinctTags(init);
      var last := s[|s| - 1].task.tag;
      assert forall i :: 0 <= i < |init| ==> init[i] == s[i];
      if last.Some? && last.value != "" && last.value !in rest then rest + [last.value] else rest
  }

  /** Every non-empty tag some row carries, each exactly once, and nothing else. */
  function GetAllTags(t: Table): (r: seq<string>)
    ensures forall tag :: tag in r <==> tag != "" && exists id :: id in t && t[id].tag == Some(tag)
    ensures forall i, j :: 0 <= i < j < |r| ==> r[i] != r[j]
  {
    var rows := Scan(t, t.Keys);
    var r := DistinctTags(rows);
    assert forall tag :: (exists i :: 0 <= i < |rows| && rows[i].task.tag == Some(tag)) <==>
                         (exists id :: id in t && t[id].tag == Some(tag)) by {
      forall tag ensures (exists i :: 0 <= i < |rows| && rows[i].task.tag == Some(tag)) <==>
                         (exists id :: id in t && t[id].tag == Some(tag))
      {
        if id :| id in t && t[id].tag == Some(tag) {
          assert Row(id, t[id]) in rows;
          var i :| 0 <= i < |rows| && rows[i] == Row(id, t[id]);
        }
        if i :| 0 <= i < |rows| && rows[i].task.tag == Some(tag) {
          assert rows[i] in rows;
        }
      }
    }
    r
  }
}
