/**
  `csvData` (src/App.jsx, lines 78-84): the rows handed to the CSV export,
  one per task in list order. The field names of `Row` are the column
  headers the export writes.
 */
module Csv {
  import Tasks
  import TaskList

  datatype Row = Row(Text: string, Priority: Tasks.Priority, Date: Tasks.Option<string>, Category: Tasks.Category, Done: bool)

  /** `tasks.map(...)`: one row per task, in list order, carrying every field but the id. */
  function Rows(tasks: seq<Tasks.Task>): (r: seq<Row>)
    ensures |r| == |tasks|
    ensures forall k :: 0 <= k < |r| ==>
              && r[k].Text == tasks[k].text && r[k].Priority == tasks[k].prio
              && r[k].Date == tasks[k].date && r[k].Category == tasks[k].cat
              && r[k].Done == tasks[k].completed
  {
    if tasks == [] then [] else [RowOf(tasks[0])] + Rows(tasks[1..])
  }

  /** The row of one task. */
  function RowOf(t: Tasks.Task): Row
  {
    Row(t.text, t.prio, t.date, t.cat, t.completed)
  }

  /** `x` and `y` agree on every field except, possibly, the id. */
  predicate SameButId(x: Tasks.Task, y: Tasks.Task)
  {
    x.text == y.text && x.prio == y.prio && x.date == y.date && x.cat == y.cat && x.completed == y.completed
  }

  /** Two lists export the same rows exactly when they agree on everything but the ids. */
  lemma RowsForgetOnlyIds(a: seq<Tasks.Task>, b: seq<Tasks.Task>)
    ensures Rows(a) == Rows(b) <==> |a| == |b| && forall k :: 0 <= k < |a| ==> SameButId(a[k], b[k])
  {
    var ra, rb := Rows(a), Rows(b);
    if ra == rb {
      forall k | 0 <= k < |a| ensures SameButId(a[k], b[k]) {
        assert ra[k] == rb[k];
      }
    }
    if |a| == |b| && forall k :: 0 <= k < |a| ==> SameButId(a[k], b[k]) {
      forall k | 0 <= k < |a| ensures ra[k] == rb[k] {
        assert SameButId(a[k], b[k]);
      }
      assert ra == rb;
    }
  }

  /** After a successful add, the export gains the new task's row in front. */
  lemma RowsAfterAdd(tasks: seq<Tasks.Task>, id: int, text: string, prio: Tasks.Priority, date: string, cat: Tasks.Category)
    requires !Tasks.IsBlank(text)
    ensures Rows(TaskList.Add(tasks, id, text, prio, date, cat))
              == [Row(text, prio, if date == "" then Tasks.None else Tasks.Some(date), cat, false)] + Rows(tasks)
  {
    var r := TaskList.Add(tasks, id, text, prio, date, cat);
    assert r[1..] == tasks;
  }

  /** After a toggle, the export changes only in the Done column of the rows whose task carries the id. */
  lemma RowsAfterToggle(tasks: seq<Tasks.Task>, id: int)
    ensures |Rows(TaskList.Toggle(tasks, id))| == |Rows(tasks)|
    ensures forall k :: 0 <= k < |tasks| ==>
              Rows(TaskList.Toggle(tasks, id))[k]
                == Rows(tasks)[k].(Done := Rows(tasks)[k].Done != (tasks[k].id == id))
  {
  }
}
