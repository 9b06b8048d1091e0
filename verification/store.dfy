/**
 * The two commands that change the list: adding a task typed into the form
 * and deleting a task by id. Both are pure functions from the old collection
 * to the new one; saving and re-rendering are composed in `Session`.
 */
module Store {
  import opened Text
  import opened Tasks

  /** Adding either refuses empty text or yields the grown collection. */
  datatype AddOutcome = EmptyText | Added(tasks: seq<Task>)

  /**
   * The add command: `input` is the raw text of the text box, `date` the date
   * picker's value and `id` the clock reading that becomes the new id.
   */
  function AddTask(tasks: seq<Task>, input: string, date: string, id: int): (r: AddOutcome)
    ensures r.EmptyText? <==> AllWhitespace(input)
    ensures r.Added? ==> |r.tasks| == |tasks| + 1 && r.tasks[..|tasks|] == tasks
    ensures r.Added? ==> r.tasks[|tasks|] == Task(id, Trim(input), date)
    ensures r.Added? ==> r.tasks[|tasks|].text != [] && Tight(r.tasks[|tasks|].text)
  {
    var text := Trim(input);
    if text == "" then EmptyText else Added(tasks + [Task(id, text, date)])
  }

  /** How many tasks of the collection carry `id`. */
  function IdCount(tasks: seq<Task>, id: int): (n: nat)
    ensures n <= |tasks|
    ensures n == 0 <==> !HasId(tasks, id)
  {
    if tasks == [] then 0
    else
      var init, last := tasks[..|tasks| - 1], tasks[|tasks| - 1];
      assert forall i :: 0 <= i < |init| ==> init[i] == tasks[i];
      IdCount(init, id) + (if last.id == id then 1 else 0)
  }

  /** The delete command: keep exactly the tasks whose id differs from `id`. */
  function DeleteTask(tasks: seq<Task>, id: int): (r: seq<Task>)
    ensures |r| + IdCount(tasks, id) == |tasks|
    ensures forall i :: 0 <= i < |r| ==> r[i].id != id
    ensures multiset(r) <= multiset(tasks)
    ensures !HasId(tasks, id) ==> r == tasks
  {
    if tasks == [] then []
    else
      var init, last := tasks[..|tasks| - 1], tasks[|tasks| - 1];
      assert tasks == init + [last];
      DeleteTask(init, id) + (if last.id == id then [] else [last])
  }

  /** The tasks `DeleteTask` keeps from a single task. */
  function Kept(t: Task, id: int): seq<Task> {
    if t.id == id then [] else [t]
  }

  /**
   * Deleting keeps the other tasks in their original relative order: it works
   * piecewise on any split of the collection, task by task.
   */
  lemma {:induction false} DeleteDistributes(a: seq<Task>, b: seq<Task>, id: int)
    ensures DeleteTask(a + b, id) == DeleteTask(a, id) + DeleteTask(b, id)
    decreases |b|
  {
    if b == [] {
      assert a + b == a;
    } else {
      var b', x := b[..|b| - 1], b[|b| - 1];
      assert (a + b)[..|a + b| - 1] == a + b';
      assert (a + b)[|a + b| - 1] == x;
      DeleteDistributes(a, b', id);
    }
  }

  /** Deleting from a single task drops it exactly when it carries the id. */
  lemma DeleteSingle(t: Task, id: int)
    ensures DeleteTask([t], id) == Kept(t, id)
  {
    assert [t][..0] == [];
  }

  /** A task survives deletion exactly when it was present under another id. */
  lemma DeleteMembers(tasks: seq<Task>, id: int, t: Task)
    ensures t in DeleteTask(tasks, id) <==> t in tasks && t.id != id
  {
    var r := DeleteTask(tasks, id);
    if t in r {
      assert t in multiset(r);
    }
    if t in tasks && t.id != id {
      var i :| 0 <= i < |tasks| && tasks[i] == t;
      assert tasks == tasks[..i] + [t] + tasks[i + 1..];
      DeleteDistributes(tasks[..i] + [t], tasks[i + 1..], id);
      DeleteDistributes(tasks[..i], [t], id);
      DeleteSingle(t, id);
    }
  }

  /** Deleting twice is deleting once. */
  lemma DeleteIdempotent(tasks: seq<Task>, id: int)
    ensures DeleteTask(DeleteTask(tasks, id), id) == DeleteTask(tasks, id)
  {
  }

  /** With unique ids, a present id removes exactly one task and an absent one removes none. */
  lemma {:induction false} DeleteRemovesOne(tasks: seq<Task>, id: int)
    requires UniqueIds(tasks)
    ensures |DeleteTask(tasks, id)| == if HasId(tasks, id) then |tasks| - 1 else |tasks|
    decreases |tasks|
  {
    if tasks != [] {
      var init, last := tasks[..|tasks| - 1], tasks[|tasks| - 1];
      assert UniqueIds(init);
      DeleteRemovesOne(init, id);
      if last.id == id {
        assert !HasId(init, id);
      }
    }
  }

  /** Deleting keeps dates well formed and ids unique. */
  lemma DeletePreserves(tasks: seq<Task>, id: int)
    ensures DatesOk(tasks) ==> DatesOk(DeleteTask(tasks, id))
    ensures UniqueIds(tasks) ==> UniqueIds(DeleteTask(tasks, id))
  {
    var r := DeleteTask(tasks, id);
    if DatesOk(tasks) {
      forall k | 0 <= k < |r|
        ensures DateFieldOk(r[k].date)
      {
        assert r[k] in multiset(tasks);
      }
    }
    if UniqueIds(tasks) {
      DeleteKeepsUniqueIds(tasks, id);
    }
  }

  lemma {:induction false} DeleteKeepsUniqueIds(tasks: seq<Task>, id: int)
    requires UniqueIds(tasks)
    ensures UniqueIds(DeleteTask(tasks, id))
    decreases |tasks|
  {
    if tasks != [] {
      var init, last := tasks[..|tasks| - 1], tasks[|tasks| - 1];
      assert UniqueIds(init);
      DeleteKeepsUniqueIds(init, id);
      var r0 := DeleteTask(init, id);
      if last.id != id {
        assert DeleteTask(tasks, id) == r0 + [last];
        forall k | 0 <= k < |r0|
          ensures r0[k].id != last.id
        {
          assert r0[k] in multiset(init);
        }
      }
    }
  }

  /** Adding keeps dates well formed, and keeps ids unique when the new id is fresh. */
  lemma AddPreserves(tasks: seq<Task>, input: string, date: string, id: int)
    requires AddTask(tasks, input, date, id).Added?
    ensures DatesOk(tasks) && DateFieldOk(date) ==> DatesOk(AddTask(tasks, input, date, id).tasks)
    ensures UniqueIds(tasks) && !HasId(tasks, id) ==> UniqueIds(AddTask(tasks, input, date, id).tasks)
  {
  }

  /** Deleting the task just added, under a fresh id, restores the collection. */
  lemma AddThenDelete(tasks: seq<Task>, input: string, date: string, id: int)
    requires !HasId(tasks, id)
    requires AddTask(tasks, input, date, id).Added?
    ensures DeleteTask(AddTask(tasks, input, date, id).tasks, id) == tasks
  {
    var added := AddTask(tasks, input, date, id).tasks;
    assert added[..|added| - 1] == tasks;
  }

  /** Deleting removes every copy of a task under `id` and leaves every other task's count alone. */
  lemma {:induction false} DeleteCounts(tasks: seq<Task>, id: int, t: Task)
    ensures multiset(DeleteTask(tasks, id))[t] == if t.id == id then 0 else multiset(tasks)[t]
    decreases |tasks|
  {
    if tasks != [] {
      var init, last := tasks[..|tasks| - 1], tasks[|tasks| - 1];
      assert tasks == init + [last];
      DeleteCounts(init, id, t);
    }
  }

  /** Deleting from two arrangements of the same tasks leaves the same tasks. */
  lemma DeleteRespectsPermutation(a: seq<Task>, b: seq<Task>, id: int)
    requires multiset(a) == multiset(b)
    ensures multiset(DeleteTask(a, id)) == multiset(DeleteTask(b, id))
  {
    forall t: Task
      ensures multiset(DeleteTask(a, id))[t] == multiset(DeleteTask(b, id))[t]
    {
      DeleteCounts(a, id, t);
      DeleteCounts(b, id, t);
    }
  }
}
