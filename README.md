# TaskBoard task repository, modelled in Dafny

TaskBoard is a single-user task tracker. Its data layer keeps tasks in one SQLite
table, `tasks`, and exposes a handful of queries and statements: fetch one task,
list tasks with optional status and tag filters in a fixed order, create, update,
delete, cycle a task's status, and list the tags in use. At start-up a bootstrap
step creates the table if it is missing and seeds two example tasks into an empty
table.

This project models that data layer and proves what it promises.

- `store.dfy` (module `Store`): a task, a row (task plus primary key), the table
  as a map from id to task, and the conversion of a row to a column-keyed mapping.
- `ordering.dfy` (module `Ordering`): the listing order. It compares status rank
  first (`todo` 0, `doing` 1, anything else 2). Then a row with a due date comes
  before a row without one. Then due dates compare as text under SQLite's BINARY
  collation. The order is proved total and transitive.
- `db.dfy` (module `Db`): class `Connection`, the database file. It records whether
  the table exists, its rows, and the AUTOINCREMENT counter (`sqlite_sequence`). It
  has schema creation, row insertion and the `InitDb` bootstrap.
- `models.dfy` (module `Models`): the repository. Queries are functions of the
  table's contents. Statements that write are methods that take the connection,
  as the source's static methods take `db`.
- `scenarios.dfy` (module `Scenarios`): client code. It shows properties that span
  several calls, using only the contracts above.

Modelling choices:

- Status is the raw stored string, not an enumeration. The edit form passes
  whatever it receives, so values other than todo/doing/done can be stored. Such
  values rank 2 in the listing (tied with `done`), and cycling one gives `doing`.
- A filter is `Option<string>`. As in Python's `if status:`, `None` and `""` both
  mean "no filter".
- `get_all` is modelled in three steps: a scan in primary-key order, the WHERE
  clause, and the ORDER BY. Its contract says the result holds every matching row
  exactly once and nothing else, sorted by the key. Rows that tie on the key are
  in no promised order.
- Queries return `Row` values. `RowToDict` models `row_to_dict`, and a lemma shows
  that the conversion loses nothing.
- `created_at` comes from the clock. Each insert takes that reading as a string
  parameter and stores it unchanged.
- An unrecognised status ranks 2 (`ELSE 2`, models.py:55), tied with `done`; it
  does not sort after it.
- The schema comment (db.py:26) calls status one of todo/doing/done, but the column
  stores any string; the model follows the column.

## Model

| member | source | states |
|---|---|---|
| `Store.RowToDict` | models.py:14-22 | no row gives no mapping; a row gives a mapping whose keys are exactly the seven columns, with its id and status |
| `Store.RowDictRoundTrip` | models.py:20-22 | reading the mapping back gives the same row: the conversion loses no column |
| `Ordering.TextLeReflexive` | models.py:55 | every due date compares equal to itself under the text order |
| `Ordering.TextLeTotal` | models.py:55 | any two due-date strings are ordered one way or the other |
| `Ordering.TextLeAntisymmetric` | models.py:55 | two strings ordered both ways are equal |
| `Ordering.TextLeTransitive` | models.py:55 | the text order on due dates is transitive |
| `Ordering.KeyLeTotal` | models.py:54-55 | any two rows are ordered one way or the other by (status rank, due date present, due date) |
| `Ordering.KeyLeTransitive` | models.py:54-55 | the listing order is transitive |
| `Ordering.KeyTie` | models.py:54-55 | two rows tie exactly when they have the same status rank and the same due date (both absent or equal) |
| `Db.Connection.constructor` | db.py:65 | a database file in which the table does not exist yet holds no rows and has no counter |
| `Db.Connection.EnsureSchema` | db.py:64-67 | afterwards the table exists; its rows and its AUTOINCREMENT counter are exactly as before |
| `Db.Connection.Insert` | db.py:21 | the new id is one above the largest id ever handed out, so it is fresh and above every id in the table; only that row is added |
| `Db.InitDb` | db.py:64-84 | the table exists and is non-empty afterwards; a non-empty table is unchanged; an empty one gets exactly the two seed tasks (Welcome task/onboarding/todo and Fix README/docs/doing, no due date) under the next two ids |
| `Models.Get` | models.py:24-31 | a row is returned exactly when the id is in the table, and it is that id's row |
| `Models.Scan` | models.py:57-58 | the rows with the given ids, each exactly once, in ascending id order |
| `Models.Where` | models.py:44-52 | a row is kept exactly when it satisfies every active filter (exact status equality, exact tag equality, AND); ascending ids stay ascending |
| `Models.InsertByKey` | models.py:55 | inserting into a sorted list keeps it sorted and adds exactly that row |
| `Models.OrderBy` | models.py:54-55 | the result is sorted by the listing key and is a permutation of the input |
| `Models.GetAll` | models.py:33-59 | every table row that satisfies both active filters appears, nothing else appears, no id appears twice, and the result is sorted by status rank, then due date present, then due date |
| `Models.ListingOfThree` | models.py:54-55 | for A (done, 2024-01-01), B (todo, no date) and C (doing, 2023-05-05), the only listing with those properties is B, C, A |
| `Models.ListingExample` | models.py:33-59 | the unfiltered listing of a table holding exactly A, B and C is B, C, A |
| `Models.Create` | models.py:61-72 | exactly one row is added, with the supplied fields (status `todo` unless given); its id was not in use and is above every earlier id and the counter; a get of it returns those fields |
| `Models.Update` | models.py:74-83 | row id gets the five supplied fields and keeps its creation time; no other row changes; a missing id changes nothing |
| `Models.Delete` | models.py:85-91 | row id is removed, so a get of it returns nothing; every other row is unchanged; a missing id changes nothing; the counter keeps the id from being reused |
| `Models.IndexOf` | models.py:105-108 | the first position holding the value, or none exactly when the value is absent (where Python raises ValueError) |
| `Models.NextStatusCases` | models.py:104-109 | todo goes to doing, doing to done, done to todo, and any other status to doing |
| `Models.NextStatusCycle` | models.py:104-109 | a cycle step always gives one of the three canonical statuses; three steps bring a canonical status back to itself |
| `Models.CycleStatus` | models.py:93-111 | only the status of row id changes, to the next status in the cycle; a missing id changes nothing |
| `Models.DistinctTags` | models.py:118-120 | every non-empty tag of the rows appears exactly once, and nothing else |
| `Models.GetAllTags` | models.py:113-120 | every non-empty tag some row carries appears exactly once, and nothing else does (no NULL or empty tag) |
| `Scenarios.CreateDeleteCreate` | models.py:61-91 | ids from successive creates increase even across a delete; the deleted row is gone and the new one has the supplied fields |
| `Scenarios.CycleThreeTimes` | models.py:104-111 | three cycle steps on a task with a canonical status give back the original table |
| `Scenarios.CycleFreshTask` | models.py:104-111 | a freshly created task goes todo, doing, done, todo |
| `Scenarios.InitDbTwice` | db.py:64-84 | running the bootstrap twice gives the same table and counter as running it once |

## Left out

- The HTTP layer in app.py: routes, templates, flash messages, redirects, form parsing. The form's trimming and its mapping of empty strings to `None` happen before the repository is called.
- `get_db` and `close_db` (db.py:32-52), and registering the teardown hook (db.py:86-89). These manage per-request connections, which is framework plumbing.
- SQLite I/O: connecting, executing, committing, the database path and directory creation. The store is an in-memory map inside `Connection`.
- Storage errors (I/O failure, disk full, a locked database). The source passes them to the caller unchanged. The model has no failing store.
- The clock: `datetime('now')` becomes a string parameter of each insert.
- Concurrency: `cycle_status` reads and then writes. Two concurrent calls can lose an update. The model treats each call as one atomic step.
- Calendar validity of `due_date`. The code never checks it, and due dates are compared only as text.
- The NOT NULL constraint on `title` and `status`. The model's parameters are strings, so it has no NULL to reject.
- Models.Get: an id outside SQLite's 64-bit INTEGER range (such as 2^64) makes the source raise OverflowError when it binds the parameter; in the model such an id is simply absent and the result is None.
- Models.Update: an id outside SQLite's 64-bit INTEGER range makes the source raise OverflowError; in the model such an id is absent and nothing changes.
- Models.Delete: an id outside SQLite's 64-bit INTEGER range makes the source raise OverflowError; in the model such an id is absent and nothing changes.
- Models.CycleStatus: an id outside SQLite's 64-bit INTEGER range makes the source raise OverflowError; in the model such an id is absent and nothing changes.
- Models.Create: does not model SQLite's "database or disk is full" error once the counter reaches 2^63-1. Ids are unbounded integers.
- A repository operation called before the table exists raises "no such table" in the source. The model's writing operations require the table, which the application creates at start-up.
- Models.GetAll: SQLite fixes no order among rows that tie on the key. The model's sort breaks ties in one particular way, but its contract promises no tie order.
- Models.GetAllTags: the source returns a list in the order SQLite's DISTINCT produces. The model returns tags in order of first appearance in an id-ordered scan, and its contract promises no order.
