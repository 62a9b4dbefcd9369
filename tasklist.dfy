/**
  The operations the event handlers of src/App.jsx apply to the task list:
  the filter views, add, toggle, delete and "Clear Done". Each builds a new
  list from the old one, as the handlers do with `map`, `filter` and spread.
 */
module TaskList {
  import opened Tasks
  import opened Seqs

  /** The keys of `FILTERS`; `Accepts` is the predicate each key names. */
  datatype Filter = All | Active | Completed {
    predicate Accepts(t: Task)
    {
      match this
      case All => true
      case Active => !t.completed
      case Completed => t.completed
    }
  }

  /** `tasks.filter(FILTERS[filter])`: the list the user sees. */
  function View(tasks: seq<Task>, f: Filter): (r: seq<Task>)
    ensures |r| <= |tasks|
    ensures forall t :: t in r <==> t in tasks && f.Accepts(t)
  {
    KeepMembers(tasks, (t: Task) => f.Accepts(t));
    Keep(tasks, (t: Task) => f.Accepts(t))
  }

  /** The All view is the whole list. */
  lemma ViewAllIsWholeList(tasks: seq<Task>)
    ensures View(tasks, All) == tasks
  {
    KeepIdentityIff(tasks, (t: Task) => All.Accepts(t));
  }

  /**
    The Active and Completed views share no task and together hold every task
    of the list, each as often as it occurs there.
   */
  lemma ActiveCompletedPartition(tasks: seq<Task>)
    ensures multiset(View(tasks, Active)) + multiset(View(tasks, Completed)) == multiset(tasks)
    ensures |View(tasks, Active)| + |View(tasks, Completed)| == |tasks|
    ensures forall t :: !(t in View(tasks, Active) && t in View(tasks, Completed))
  {
    KeepPartition(tasks, (t: Task) => Active.Accepts(t), (t: Task) => Completed.Accepts(t));
  }

  /** The set of ids carried by the tasks of `tasks`. */
  function IdSet(tasks: seq<Task>): set<int>
  {
    set t | t in tasks :: t.id
  }

  /**
    As sets of ids, the Active and Completed views cover the All view; they are
    disjoint when the ids of the list are unique (two tasks that share an id
    may fall one in each view).
   */
  lemma ActiveCompletedIds(tasks: seq<Task>)
    ensures IdSet(View(tasks, Active)) + IdSet(View(tasks, Completed)) == IdSet(View(tasks, All))
    ensures UniqueIds(tasks) ==> IdSet(View(tasks, Active)) !! IdSet(View(tasks, Completed))
  {
    ViewAllIsWholeList(tasks);
    var a, c := View(tasks, Active), View(tasks, Completed);
    forall id | id in IdSet(tasks) ensures id in IdSet(a) + IdSet(c) {
      var t :| t in tasks && t.id == id;
      if t.completed { assert t in c; } else { assert t in a; }
    }
  }

  /** The task `add` builds from the form fields; `date || null` turns an empty date into None. */
  function NewTask(id: int, text: string, prio: Priority, date: string, cat: Category): Task
  {
    Task(id, text, prio, if date == "" then None else Some(date), cat, false)
  }

  /**
    `add`: blank text leaves the list as it is; otherwise the new task is
    prepended and the old list follows it unchanged. The text is stored as
    entered, not trimmed.
   */
  function Add(tasks: seq<Task>, id: int, text: string, prio: Priority, date: string, cat: Category): (r: seq<Task>)
    ensures IsBlank(text) ==> r == tasks
    ensures !IsBlank(text) ==>
              && |r| == |tasks| + 1 && r[1..] == tasks
              && r[0].id == id && r[0].text == text && r[0].prio == prio && r[0].cat == cat
              && !r[0].completed
              && (date == "" ==> r[0].date == None)
              && (date != "" ==> r[0].date == Some(date))
  {
    if Trim(text) == "" then tasks else [NewTask(id, text, prio, date, cat)] + tasks
  }

  /** A fresh id keeps the ids of the list unique. */
  lemma AddKeepsIdsUnique(tasks: seq<Task>, id: int, text: string, prio: Priority, date: string, cat: Category)
    requires UniqueIds(tasks) && !HasId(tasks, id)
    ensures UniqueIds(Add(tasks, id, text, prio, date, cat))
  {
    var r := Add(tasks, id, text, prio, date, cat);
    if !IsBlank(text) {
      forall i, j | 0 <= i < j < |r| ensures r[i].id != r[j].id {
        assert r[j] == tasks[j - 1];
        if i > 0 { assert r[i] == tasks[i - 1]; }
      }
    }
  }

  /** The fields of one press of "Add Task". */
  datatype AddRequest = AddRequest(id: int, text: string, prio: Priority, date: string, cat: Category)

  /** The list after the presses of `reqs`, first to last. */
  function AddAll(tasks: seq<Task>, reqs: seq<AddRequest>): seq<Task>
    decreases |reqs|
  {
    if reqs == [] then tasks
    else
      var q := reqs[0];
      AddAll(Add(tasks, q.id, q.text, q.prio, q.date, q.cat), reqs[1..])
  }

  /** How many of `reqs` carry text that is not blank. */
  function CountNonBlank(reqs: seq<AddRequest>): nat
  {
    if reqs == [] then 0 else (if IsBlank(reqs[0].text) then 0 else 1) + CountNonBlank(reqs[1..])
  }

  /** After a run of adds, the list has grown by the number of adds with non-blank text. */
  lemma {:induction false} AddAllLength(tasks: seq<Task>, reqs: seq<AddRequest>)
    ensures |AddAll(tasks, reqs)| == |tasks| + CountNonBlank(reqs)
    decreases |reqs|
  {
    if reqs != [] {
      var q := reqs[0];
      AddAllLength(Add(tasks, q.id, q.text, q.prio, q.date, q.cat), reqs[1..]);
    }
  }

  /** `{ ...x, completed: !x.completed }` when `x` carries `id`, `x` itself otherwise. */
  function ToggleOne(x: Task, id: int): Task
  {
    if x.id == id then x.(completed := !x.completed) else x
  }

  /**
    The checkbox handler: every task carrying `id` has its completed flag
    flipped; all other tasks, all other fields and the order stay as they were.
   */
  function Toggle(tasks: seq<Task>, id: int): (r: seq<Task>)
    ensures |r| == |tasks|
    ensures forall k :: 0 <= k < |r| ==>
              && r[k].(completed := tasks[k].completed) == tasks[k]
              && (r[k].completed <==> (tasks[k].completed != (tasks[k].id == id)))
  {
    if tasks == [] then [] else [ToggleOne(tasks[0], id)] + Toggle(tasks[1..], id)
  }

  /** Toggling the same id twice restores the list. */
  lemma {:induction false} ToggleTwice(tasks: seq<Task>, id: int)
    ensures Toggle(Toggle(tasks, id), id) == tasks
  {
    if tasks != [] {
      var r := Toggle(tasks, id);
      assert r[0] == ToggleOne(tasks[0], id) && r[1..] == Toggle(tasks[1..], id);
      ToggleTwice(tasks[1..], id);
      assert Toggle(r, id) == [ToggleOne(r[0], id)] + Toggle(r[1..], id);
    }
  }

  /** A toggle changes the list exactly when some task carries the id. */
  lemma ToggleChangesIffPresent(tasks: seq<Task>, id: int)
    ensures Toggle(tasks, id) == tasks <==> !HasId(tasks, id)
  {
    var r := Toggle(tasks, id);
    if HasId(tasks, id) {
      var k :| 0 <= k < |tasks| && tasks[k].id == id;
      assert r[k].completed != tasks[k].completed;
    } else {
      forall k | 0 <= k < |tasks| ensures r[k] == tasks[k] {
        assert tasks[k].id != id;
      }
    }
  }

  /** With unique ids, a toggle flips the one task carrying the id and nothing else. */
  lemma ToggleUnique(tasks: seq<Task>, k: nat)
    requires UniqueIds(tasks) && k < |tasks|
    ensures Toggle(tasks, tasks[k].id) == tasks[k := tasks[k].(completed := !tasks[k].completed)]
    ensures UniqueIds(Toggle(tasks, tasks[k].id))
  {
    var id := tasks[k].id;
    var r := Toggle(tasks, id);
    var e := tasks[k := tasks[k].(completed := !tasks[k].completed)];
    forall m | 0 <= m < |tasks| ensures r[m] == e[m] {
      if m < k {
        assert tasks[m].id != id;
      } else if m > k {
        assert tasks[k].id != tasks[m].id;
      }
    }
    assert r == e;
    forall i, j | 0 <= i < j < |r| ensures r[i].id != r[j].id {
      assert r[i].id == tasks[i].id && r[j].id == tasks[j].id;
    }
  }

  /** The delete button: `tasks.filter((x) => x.id !== id)`. */
  function Delete(tasks: seq<Task>, id: int): (r: seq<Task>)
    ensures |r| <= |tasks|
    ensures forall t :: t in r <==> t in tasks && t.id != id
  {
    KeepMembers(tasks, (x: Task) => x.id != id);
    Keep(tasks, (x: Task) => x.id != id)
  }

  /** A second delete of the same id changes nothing. */
  lemma DeleteTwice(tasks: seq<Task>, id: int)
    ensures Delete(Delete(tasks, id), id) == Delete(tasks, id)
  {
    KeepIdempotent(tasks, (x: Task) => x.id != id);
  }

  /** A delete changes the list exactly when some task carries the id. */
  lemma DeleteChangesIffPresent(tasks: seq<Task>, id: int)
    ensures Delete(tasks, id) == tasks <==> !HasId(tasks, id)
  {
    KeepIdentityIff(tasks, (x: Task) => x.id != id);
  }

  /** With unique ids, a delete removes the one task carrying the id, and the ids stay unique. */
  lemma DeleteUnique(tasks: seq<Task>, k: nat)
    requires UniqueIds(tasks) && k < |tasks|
    ensures Delete(tasks, tasks[k].id) == Remove(tasks, k)
    ensures UniqueIds(Delete(tasks, tasks[k].id))
  {
    var id := tasks[k].id;
    forall m | 0 <= m < |tasks| && m != k ensures tasks[m].id != id {
      if m < k { assert tasks[m].id != tasks[k].id; } else { assert tasks[k].id != tasks[m].id; }
    }
    KeepDropsOne(tasks, (x: Task) => x.id != id, k);
    var r := Remove(tasks, k);
    forall i, j | 0 <= i < j < |r| ensures r[i].id != r[j].id {
      var i', j' := if i < k then i else i + 1, if j < k then j else j + 1;
      assert r[i] == tasks[i'] && r[j] == tasks[j'];
    }
  }

  /** "Clear Done": `tasks.filter((t) => !t.completed)`. */
  function ClearDone(tasks: seq<Task>): (r: seq<Task>)
    ensures |r| <= |tasks|
    ensures forall t :: t in r <==> t in tasks && !t.completed
  {
    KeepMembers(tasks, (t: Task) => !t.completed);
    Keep(tasks, (t: Task) => !t.completed)
  }

  /** "Clear Done" leaves exactly the Active view. */
  lemma ClearDoneIsActiveView(tasks: seq<Task>)
    ensures ClearDone(tasks) == View(tasks, Active)
  {
    KeepExt(tasks, (t: Task) => !t.completed, (t: Task) => Active.Accepts(t));
  }

  /** A second "Clear Done" changes nothing. */
  lemma ClearDoneTwice(tasks: seq<Task>)
    ensures ClearDone(ClearDone(tasks)) == ClearDone(tasks)
  {
    KeepIdempotent(tasks, (t: Task) => !t.completed);
  }

  /** Any filter of a list with unique ids has unique ids. */
  lemma {:induction false} KeepKeepsIdsUnique(tasks: seq<Task>, p: Task -> bool)
    requires UniqueIds(tasks)
    ensures UniqueIds(Keep(tasks, p))
  {
    if tasks != [] {
      var rest := tasks[1..];
      assert UniqueIds(rest) by {
        forall i, j | 0 <= i < j < |rest| ensures rest[i].id != rest[j].id {
          assert rest[i] == tasks[i + 1] && rest[j] == tasks[j + 1];
        }
      }
      KeepKeepsIdsUnique(rest, p);
      if p(tasks[0]) {
        var r := Keep(tasks, p);
        var kr := Keep(rest, p);
        assert r == [tasks[0]] + kr;
        KeepMembers(rest, p);
        forall i, j | 0 <= i < j < |r| ensures r[i].id != r[j].id {
          if i == 0 {
            assert r[j] == kr[j - 1] && r[j] in rest;
            var m :| 0 <= m < |rest| && rest[m] == r[j];
            assert rest[m] == tasks[m + 1];
          } else {
            assert r[i] == kr[i - 1] && r[j] == kr[j - 1];
          }
        }
      }
    }
  }

  /** "Clear Done" and every filter view keep the ids of a list unique. */
  lemma ClearDoneAndViewsKeepIdsUnique(tasks: seq<Task>, f: Filter)
    requires UniqueIds(tasks)
    ensures UniqueIds(ClearDone(tasks)) && UniqueIds(View(tasks, f))
  {
    KeepKeepsIdsUnique(tasks, (t: Task) => !t.completed);
    KeepKeepsIdsUnique(tasks, (t: Task) => f.Accepts(t));
  }

  /**
    Adding "Buy milk" (High, no date, Errand) to an empty list, ticking it and
    pressing "Clear Done" ends with an empty list.
   */
  lemma BuyMilkScenario(id: int)
    ensures Add([], id, "Buy milk", High, "", Errand) == [Task(id, "Buy milk", High, None, Errand, false)]
    ensures Toggle(Add([], id, "Buy milk", High, "", Errand), id) == [Task(id, "Buy milk", High, None, Errand, true)]
    ensures ClearDone(Toggle(Add([], id, "Buy milk", High, "", Errand), id)) == []
  {
    assert !IsJsWhitespace("Buy milk"[0]);
    var one := Add([], id, "Buy milk", High, "", Errand);
    assert one == [Task(id, "Buy milk", High, None, Errand, false)];
    var toggled := Toggle(one, id);
    assert toggled[0] == Task(id, "Buy milk", High, None, Errand, true);
    assert toggled == [toggled[0]];
  }
}
