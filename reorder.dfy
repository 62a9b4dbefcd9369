/**
  `onDragEnd` (src/App.jsx, lines 62-67): the drop handler copies the task
  list with `Array.from`, takes the dragged task out with one `splice` and
  puts it back with another, then publishes the copy.
 */
module Reorder {
  import opened Tasks
  import opened Seqs
  import opened TaskList

  /** What the drag-and-drop library hands to the handler; no destination means the drop fell outside the list. */
  datatype DropResult = DropResult(source: nat, destination: Option<nat>)

  /**
    `a.splice(i, 1)` on the first `len` cells of `a`: the cells after `i`
    shift one to the left, the removed element is returned.
   */
  method RemoveAt<T>(a: array<T>, len: nat, i: nat) returns (x: T)
    requires len <= a.Length && i < len
    modifies a
    ensures x == old(a[i])
    ensures a[..len - 1] == Remove(old(a[..len]), i)
    ensures a[len - 1..] == old(a[len - 1..])
  {
    x := a[i];
    var k := i;
    while k < len - 1
      invariant i <= k <= len - 1
      invariant forall m :: 0 <= m < i ==> a[m] == old(a[m])
      invariant forall m :: i <= m < k ==> a[m] == old(a[m + 1])
      invariant forall m :: k <= m < a.Length ==> a[m] == old(a[m])
    {
      a[k] := a[k + 1];
      k := k + 1;
    }
    ShiftedLeft(old(a[..len]), a[..len - 1], i);
  }

  /** A sequence that agrees with `Remove(s, i)` index by index is that sequence. */
  lemma ShiftedLeft<T>(s: seq<T>, t: seq<T>, i: nat)
    requires i < |s| && |t| == |s| - 1
    requires forall m :: 0 <= m < i ==> t[m] == s[m]
    requires forall m :: i <= m < |t| ==> t[m] == s[m + 1]
    ensures t == Remove(s, i)
  {
  }

  /**
    `a.splice(i, 0, x)` on the first `len` cells of `a`: the cells from `i`
    on shift one to the right and `x` is stored at `i`.
   */
  method InsertAt<T>(a: array<T>, len: nat, i: nat, x: T)
    requires len < a.Length && i <= len
    modifies a
    ensures a[..len + 1] == Insert(old(a[..len]), i, x)
    ensures a[len + 1..] == old(a[len + 1..])
  {
    var k := len;
    while k > i
      invariant i <= k <= len
      invariant forall m :: 0 <= m < k ==> a[m] == old(a[m])
      invariant forall m :: k < m <= len ==> a[m] == old(a[m - 1])
      invariant forall m :: len < m < a.Length ==> a[m] == old(a[m])
    {
      a[k] := a[k - 1];
      k := k - 1;
    }
    a[i] := x;
    ShiftedRight(old(a[..len]), a[..len + 1], i, x);
  }

  /** A sequence that agrees with `Insert(s, i, x)` index by index is that sequence. */
  lemma ShiftedRight<T>(s: seq<T>, t: seq<T>, i: nat, x: T)
    requires i <= |s| && |t| == |s| + 1
    requires forall m :: 0 <= m < i ==> t[m] == s[m]
    requires t[i] == x
    requires forall m :: i < m < |t| ==> t[m] == s[m - 1]
    ensures t == Insert(s, i, x)
  {
  }

  /**
    The drop handler as written. With no destination the list stays as it
    is; otherwise the task at index `source` is moved to index `destination`
    of the full list. The drag library only reports indices of the shown
    list, which is never longer than the full list (`TaskList.View`), so both
    indices are in range.
   */
  method DragEnd(tasks: seq<Task>, result: DropResult) returns (items: seq<Task>)
    requires result.destination.Some? ==> result.source < |tasks| && result.destination.value < |tasks|
    ensures result.destination.None? ==> items == tasks
    ensures result.destination.Some? ==> items == Moved(tasks, result.source, result.destination.value)
  {
    match result.destination
    case None =>
      items := tasks;
    case Some(dst) =>
      var a := new Task[|tasks|](k requires 0 <= k < |tasks| => tasks[k]);
      assert a[..] == tasks;
      var n := a.Length;
      var r := RemoveAt(a, n, result.source);
      ghost var rest := a[..n - 1];
      assert rest == Remove(tasks, result.source) && r == tasks[result.source];
      InsertAt(a, n - 1, dst, r);
      assert a[..] == a[..n] == Insert(rest, dst, r);
      items := a[..];
  }

  /** A drop keeps the length and the tasks of the list, and the moved task lands at the destination. */
  lemma DragEndKeepsTasks(tasks: seq<Task>, source: nat, destination: nat)
    requires source < |tasks| && destination < |tasks|
    ensures |Moved(tasks, source, destination)| == |tasks|
    ensures multiset(Moved(tasks, source, destination)) == multiset(tasks)
    ensures Moved(tasks, source, destination)[destination] == tasks[source]
    ensures Remove(Moved(tasks, source, destination), destination) == Remove(tasks, source)
    ensures Moved(Moved(tasks, source, destination), destination, source) == tasks
  {
    MovedKeepsOthersInOrder(tasks, source, destination);
    MovedInverse(tasks, source, destination);
  }

  /** A drop keeps the ids of the list unique. */
  lemma DragEndKeepsIdsUnique(tasks: seq<Task>, source: nat, destination: nat)
    requires source < |tasks| && destination < |tasks| && UniqueIds(tasks)
    ensures UniqueIds(Moved(tasks, source, destination))
  {
    var r := Remove(tasks, source);
    var x := tasks[source];
    assert UniqueIds(r) by {
      forall i, j | 0 <= i < j < |r| ensures r[i].id != r[j].id {
        var i', j' := if i < source then i else i + 1, if j < source then j else j + 1;
        assert r[i] == tasks[i'] && r[j] == tasks[j'];
      }
    }
    assert forall m :: 0 <= m < |r| ==> r[m].id != x.id by {
      forall m | 0 <= m < |r| ensures r[m].id != x.id {
        var m' := if m < source then m else m + 1;
        assert r[m] == tasks[m'];
        if m' < source { assert tasks[m'].id != tasks[source].id; }
        else { assert tasks[source].id != tasks[m'].id; }
      }
    }
    var s := Moved(tasks, source, destination);
    forall i, j | 0 <= i < j < |s| ensures s[i].id != s[j].id {
      if i != destination && j != destination {
        var i', j' := if i < destination then i else i - 1, if j < destination then j else j - 1;
        assert s[i] == r[i'] && s[j] == r[j'];
      } else if i == destination {
        assert s[j] == r[j - 1];
      } else {
        assert s[i] == r[i];
      }
    }
  }

  /** Moving index 0 to index 1 swaps the first two elements. */
  lemma MoveFirstToSecond<T>(s: seq<T>)
    requires |s| >= 2
    ensures Moved(s, 0, 1) == [s[1], s[0]] + s[2..]
  {
    assert Remove(s, 0) == s[1..];
    var r := Moved(s, 0, 1);
    var e := [s[1], s[0]] + s[2..];
    forall m | 0 <= m < |s| ensures r[m] == e[m] {
      if m >= 2 { assert r[m] == s[1..][m - 1]; }
    }
  }

  /** Over `[a, b, c]` with only `a` rejected, the move 0 to 1 leaves the filtered order as it was. */
  lemma KeepAfterFirstMove<T(!new)>(a: T, b: T, c: T, p: T -> bool)
    requires !p(a) && p(b) && p(c)
    ensures Keep(Moved([a, b, c], 0, 1), p) == [b, c]
  {
    MoveFirstToSecond([a, b, c]);
    assert [a, b, c][2..] == [c];
    KeepOfThree(b, a, c, p);
  }

  /** Over `[a, b, c]` with only `a` rejected, the filtered sequence is `[b, c]`, and the move 0 to 1 on it swaps them. */
  lemma MoveOfKeep<T(!new)>(a: T, b: T, c: T, p: T -> bool)
    requires !p(a) && p(b) && p(c)
    ensures Keep([a, b, c], p) == [b, c]
    ensures Moved([b, c], 0, 1) == [c, b]
  {
    KeepOfThree(a, b, c, p);
    MoveFirstToSecond([b, c]);
    assert [b, c][2..] == [];
  }

  /**
    With the Active filter, dragging the first shown task onto the second
    leaves the shown order as it was: the indices are applied to the full
    list, where index 0 is a hidden completed task. The drag asked for the
    two shown tasks to swap.
   */
  lemma FilteredDragDiverges(a: Task, b: Task, c: Task)
    requires a.completed && !b.completed && !c.completed && b != c
    ensures View([a, b, c], Active) == [b, c]
    ensures View(Moved([a, b, c], 0, 1), Active) == [b, c]
    ensures Moved(View([a, b, c], Active), 0, 1) == [c, b]
    ensures View(Moved([a, b, c], 0, 1), Active) != Moved(View([a, b, c], Active), 0, 1)
  {
    var p := (t: Task) => Active.Accepts(t);
    KeepAfterFirstMove(a, b, c, p);
    MoveOfKeep(a, b, c, p);
    assert [b, c][0] != [c, b][0];
  }

  /**
    The drop handler as evidently intended: the two indices are positions in
    the shown list, so they are first mapped to the positions of those tasks
    in the full list. The shown list then changes exactly as the drag asked,
    no task is lost or duplicated, and under the All filter this is the
    handler as written.
   */
  function DragEndInView(tasks: seq<Task>, f: Filter, source: nat, destination: nat): (r: seq<Task>)
    requires source < |View(tasks, f)| && destination < |View(tasks, f)|
    ensures |r| == |tasks| && multiset(r) == multiset(tasks)
    ensures View(r, f) == Moved(View(tasks, f), source, destination)
    ensures f == All ==> r == Moved(tasks, source, destination)
  {
    MoveAtViewPositions(tasks, f, source, destination);
    Moved(tasks, ViewPositions(tasks, f)[source], ViewPositions(tasks, f)[destination])
  }

  /** The index in the full list of each task of the view. */
  function ViewPositions(tasks: seq<Task>, f: Filter): seq<nat>
  {
    Positions(tasks, (t: Task) => f.Accepts(t))
  }

  /**
    Moving the task at view position `source` to the full-list index of the
    task at view position `destination` moves it from `source` to
    `destination` in the view; under All the view positions are the indices
    themselves.
   */
  lemma MoveAtViewPositions(tasks: seq<Task>, f: Filter, source: nat, destination: nat)
    requires source < |View(tasks, f)| && destination < |View(tasks, f)|
    ensures |ViewPositions(tasks, f)| == |View(tasks, f)|
    ensures ViewPositions(tasks, f)[source] < |tasks| && ViewPositions(tasks, f)[destination] < |tasks|
    ensures View(Moved(tasks, ViewPositions(tasks, f)[source], ViewPositions(tasks, f)[destination]), f)
              == Moved(View(tasks, f), source, destination)
    ensures f == All ==> ViewPositions(tasks, f)[source] == source && ViewPositions(tasks, f)[destination] == destination
  {
    KeepOfMoveAtPositions(tasks, (t: Task) => f.Accepts(t), source, destination);
    if f == All {
      ViewPositionsOfAll(tasks, source);
      ViewPositionsOfAll(tasks, destination);
    }
  }

  /** Under All, the task at view position `k` is the task at index `k`. */
  lemma ViewPositionsOfAll(tasks: seq<Task>, k: nat)
    requires k < |tasks|
    ensures |ViewPositions(tasks, All)| == |tasks| && ViewPositions(tasks, All)[k] == k
  {
    PositionsOfAll(tasks, (t: Task) => All.Accepts(t), k);
  }
}
