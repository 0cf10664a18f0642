/**
 The data model of the `tasks` table: one stored task, the row a query hands back
 (the task together with its primary key), the table itself, and the plain
 column-keyed mapping a row is turned into for the templates.
 */
module Store {

  datatype Option<+T> = None | Some(value: T)

  /** One stored task. `status` is the raw text the caller supplied: the table does
      not restrict it to todo/doing/done. `createdAt` is set once by the store from
      the clock and is treated here as an opaque string. */
  datatype Task = Task(
    title: string,
    description: Option<string>,
    tag: Option<string>,
    dueDate: Option<string>,
    status: string,
    createdAt: string)

  /** A row as a query returns it: the primary key and the stored columns. */
  datatype Row = Row(id: int, task: Task)

  /** The contents of the `tasks` table, keyed by primary key. */
  type Table = map<int, Task>

  /** A column value as the database driver hands it back. */
  datatype Value = Int(i: int) | Text(s: string) | Null

  /** The seven columns of the `tasks` table. */
  const Columns: set<string> :=
    {"id", "title", "description", "tag", "due_date", "status", "created_at"}

  function TextOrNull(v: Option<string>): Value {
    match v
    case None => Null
    case Some(s) => Text(s)
  }

  function OptionOfText(v: Value): Option<Option<string>> {
    match v
    case Null => Some(None)
    case Text(s) => Some(Some(s))
    case Int(_) => None
  }

  /** The row as a mapping from column name to value; no row gives no mapping. */
  function RowToDict(row: Option<Row>): (d: Option<map<string, Value>>)
    ensures d.Some? <==> row.Some?
    ensures d.Some? ==> d.value.Keys == Columns
    ensures d.Some? ==> d.value["id"] == Int(row.value.id) && d.value["status"] == Text(row.value.task.status)
  {
    match row
    case None => None
    case Some(r) =>
      Some(map[
        "id" := Int(r.id),
        "title" := Text(r.task.title),
        "description" := TextOrNull(r.task.description),
        "tag" := TextOrNull(r.task.tag),
        "due_date" := TextOrNull(r.task.dueDate),
        "status" := Text(r.task.status),
        "created_at" := Text(r.task.createdAt)])
  }

  /** Reads a row back from a column-keyed mapping; None when the mapping does not
      have the shape of a `tasks` row. */
  function DictToRow(d: map<string, Value>): Option<Row> {
    if d.Keys != Columns then None
    else if !d["id"].Int? || !d["title"].Text? || !d["status"].Text? || !d["created_at"].Text? then None
    else
      match (OptionOfText(d["description"]), OptionOfText(d["tag"]), OptionOfText(d["due_date"]))
      case (Some(desc), Some(tag), Some(due)) =>
        Some(Row(d["id"].i, Task(d["title"].s, desc, tag, due, d["status"].s, d["created_at"].s)))
      case _ => None
  }

  /** The conversion loses nothing: every column of the row can be read back. */
  lemma RowDictRoundTrip(r: Row)
    ensures RowToDict(Some(r)).Some?
    ensures DictToRow(RowToDict(Some(r)).value) == Some(r)
  {
    var d := RowToDict(Some(r)).value;
    assert OptionOfText(d["description"]) == Some(r.task.description);
    assert OptionOfText(d["tag"]) == Some(r.task.tag);
    assert OptionOfText(d["due_date"]) == Some(r.task.dueDate);
  }
}
