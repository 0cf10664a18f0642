/**
 The order in which the task list is returned: status rank first (todo, then
 doing, then everything else), then tasks with a due date before tasks without
 one, then due dates compared as text.
 */
module Ordering {
  import opened Store

  /** SQLite's BINARY collation on TEXT: compare character by character, and a
      proper prefix comes first. (Comparing code points in order is the same as
      comparing their UTF-8 encodings byte by byte.) */
  predicate TextLe(a: string, b: string)
    decreases |a|
  {
    if a == [] then true
    else if b == [] then false
    else if a[0] != b[0] then a[0] < b[0]
    else TextLe(a[1..], b[1..])
  }

  lemma {:induction false} TextLeReflexive(a: string)
    ensures TextLe(a, a)
    decreases |a|
  {
    if a != [] {
      TextLeReflexive(a[1..]);
    }
  }

  lemma {:induction false} TextLeTotal(a: string, b: string)
    ensures TextLe(a, b) || TextLe(b, a)
    decreases |a|
  {
    if a != [] && b != [] && a[0] == b[0] {
      TextLeTotal(a[1..], b[1..]);
    }
  }

  lemma {:induction false} TextLeAntisymmetric(a: string, b: string)
    requires TextLe(a, b) && TextLe(b, a)
    ensures a == b
    decreases |a|
  {
    if a != [] && b != [] {
      TextLeAntisymmetric(a[1..], b[1..]);
      assert a == [a[0]] + a[1..];
      assert b == [b[0]] + b[1..];
    }
  }

  lemma {:induction false} TextLeTransitive(a: string, b: string, c: string)
    requires TextLe(a, b) && TextLe(b, c)
    ensures TextLe(a, c)
    decreases |a|
  {
    if a != [] && b != [] && c != [] && a[0] == b[0] && b[0] == c[0] {
      TextLeTransitive(a[1..], b[1..], c[1..]);
    }
  }

  /** `CASE status WHEN 'todo' THEN 0 WHEN 'doing' THEN 1 ELSE 2 END`: any status
      other than todo and doing, `done` or not, has rank 2. */
  function StatusRank(status: string): nat {
    if status == "todo" then 0
    else if status == "doing" then 1
    else 2
  }

  /** `due_date IS NULL, due_date`: present dates first, ascending as text; absent
      dates last, all equal to each other. */
  predicate DueLe(x: Option<string>, y: Option<string>) {
    match (x, y)
    case (Some(a), Some(b)) => TextLe(a, b)
    case (Some(_), None) => true
    case (None, Some(_)) => false
    case (None, None) => true
  }

  /** x may come before y in the listing. */
  predicate KeyLe(x: Task, y: Task) {
    StatusRank(x.status) < StatusRank(y.status) ||
    (StatusRank(x.status) == StatusRank(y.status) && DueLe(x.dueDate, y.dueDate))
  }

  /** Every pair of rows is ordered one way or the other. */
  lemma KeyLeTotal(x: Task, y: Task)
    ensures KeyLe(x, y) || KeyLe(y, x)
  {
    if x.dueDate.Some? && y.dueDate.Some? {
      TextLeTotal(x.dueDate.value, y.dueDate.value);
    }
  }

  lemma KeyLeTransitive(x: Task, y: Task, z: Task)
    requires KeyLe(x, y) && KeyLe(y, z)
    ensures KeyLe(x, z)
  {
    if StatusRank(x.status) == StatusRank(y.status) == StatusRank(z.status)
      && x.dueDate.Some? && y.dueDate.Some? && z.dueDate.Some?
    {
      TextLeTransitive(x.dueDate.value, y.dueDate.value, z.dueDate.value);
    }
  }

  /** Two rows are tied exactly when they have the same rank and the same due date
      (both absent, or both present and equal). */
  lemma KeyTie(x: Task, y: Task)
    ensures KeyLe(x, y) && KeyLe(y, x) <==>
      StatusRank(x.status) == StatusRank(y.status) && x.dueDate == y.dueDate
  {
    if x.dueDate.Some? && y.dueDate.Some? {
      if KeyLe(x, y) && KeyLe(y, x) {
        TextLeAntisymmetric(x.dueDate.value, y.dueDate.value);
      }
      TextLeReflexive(x.dueDate.value);
    }
  }

  /** The rows of s appear in listing order. */
  predicate SortedByKey(s: seq<Row>) {
    forall i, j :: 0 <= i < j < |s| ==> KeyLe(s[i].task, s[j].task)
  }
}
