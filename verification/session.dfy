/**
 * The page's handlers, composed from the pieces in the order the page runs
 * them: opening the page loads and sorts; the add button trims, appends,
 * saves, sorts and confirms; a delete button filters, saves, sorts and
 * confirms. Saving happens before sorting, so storage holds the collection in
 * the order it had before the re-render, while memory holds it sorted.
 */
module Session {
  import opened Wrappers
  import opened Text
  import opened Tasks
  import opened Store
  import opened Ordering
  import opened Persistence

  /** The collection held in memory and what storage holds. */
  datatype Page = Page(tasks: seq<Task>, slot: Slot)

  /** A handler's outcome: the new page and the notices flashed, in order. */
  datatype Step = Step(page: Page, notices: seq<Notice>)

  /** A readable stored collection has well-formed dates. */
  predicate SlotDatesOk(slot: Slot) {
    slot.Some? && slot.value.Success? ==> DatesOk(slot.value.value)
  }

  /** A readable stored collection has unique ids. */
  predicate SlotIdsUnique(slot: Slot) {
    slot.Some? && slot.value.Success? ==> UniqueIds(slot.value.value)
  }

  /** What holds of the page between events: well-formed dates, unique ids, display order. */
  predicate Inv(p: Page) {
    DatesOk(p.tasks) && UniqueIds(p.tasks) && Sorted(p.tasks)
  }

  /** Page load: read storage, then sort for display. Storage is only read. */
  function Open(slot: Slot): (r: Step)
    requires SlotDatesOk(slot)
    ensures r.page.slot == slot
    ensures slot.Some? && slot.value.Success? ==> multiset(r.page.tasks) == multiset(slot.value.value)
    ensures !(slot.Some? && slot.value.Success?) ==> r.page.tasks == []
    ensures r.notices == (if slot.Some? && slot.value.Failure? then [LoadFailed] else [])
    ensures DatesOk(r.page.tasks) && Sorted(r.page.tasks)
  {
    var loaded := Load(slot);
    Step(Page(Sort(loaded.tasks), slot), loaded.notices)
  }

  /**
   * The add button, with `input` the text box, `date` the date picker and
   * `now` the clock reading used as the new id. Blank text only flashes a
   * prompt; otherwise the task is appended, the appended collection saved,
   * memory sorted, and the addition confirmed.
   */
  function Submit(p: Page, input: string, date: string, now: int, writable: bool): (r: Step)
    requires DatesOk(p.tasks) && DateFieldOk(date)
    ensures AllWhitespace(input) ==> r == Step(p, [EnterATask])
    ensures !AllWhitespace(input) ==>
      multiset(r.page.tasks) == multiset(p.tasks) + multiset{Task(now, Trim(input), date)}
    ensures !AllWhitespace(input) ==> Sorted(r.page.tasks)
    ensures !AllWhitespace(input) && writable ==>
      r.page.slot == Some(Success(p.tasks + [Task(now, Trim(input), date)])) && r.notices == [TaskAdded]
    ensures !AllWhitespace(input) && !writable ==>
      r.page.slot == p.slot && r.notices == [SaveFailed, TaskAdded]
    ensures DatesOk(r.page.tasks)
  {
    match AddTask(p.tasks, input, date, now)
    case EmptyText => Step(p, [EnterATask])
    case Added(ts) =>
      AddPreserves(p.tasks, input, date, now);
      var saved := Save(p.slot, ts, writable);
      Step(Page(Sort(ts), saved.slot), saved.notices + [TaskAdded])
  }

  /**
   * A delete button: the tasks under `id` are filtered out, the remainder is
   * saved in its current order, memory is re-sorted, and the deletion is
   * confirmed, whether or not any task carried the id.
   */
  function Remove(p: Page, id: int, writable: bool): (r: Step)
    requires DatesOk(p.tasks)
    ensures multiset(r.page.tasks) == multiset(DeleteTask(p.tasks, id))
    ensures forall t :: t in r.page.tasks <==> t in p.tasks && t.id != id
    ensures |r.page.tasks| + IdCount(p.tasks, id) == |p.tasks|
    ensures Sorted(r.page.tasks)
    ensures writable ==> r.page.slot == Some(Success(DeleteTask(p.tasks, id))) && r.notices == [TaskDeleted]
    ensures !writable ==> r.page.slot == p.slot && r.notices == [SaveFailed, TaskDeleted]
    ensures DatesOk(r.page.tasks)
  {
    var ts := DeleteTask(p.tasks, id);
    DeletePreserves(p.tasks, id);
    forall t ensures t in Sort(ts) <==> t in p.tasks && t.id != id {
      DeleteMembers(p.tasks, id, t);
      assert t in Sort(ts) <==> t in multiset(Sort(ts));
    }
    var saved := Save(p.slot, ts, writable);
    Step(Page(Sort(ts), saved.slot), saved.notices + [TaskDeleted])
  }

  /** Opening the page establishes the invariant when the stored ids are unique. */
  lemma OpenEstablishes(slot: Slot)
    requires SlotDatesOk(slot) && SlotIdsUnique(slot)
    ensures Inv(Open(slot).page)
  {
    var loaded := Load(slot);
    SameTasksSameFacts(loaded.tasks, Open(slot).page.tasks);
  }

  /** Adding under a fresh id preserves the invariant. */
  lemma SubmitPreserves(p: Page, input: string, date: string, now: int, writable: bool)
    requires Inv(p) && DateFieldOk(date) && !HasId(p.tasks, now)
    ensures Inv(Submit(p, input, date, now, writable).page)
  {
    var r := AddTask(p.tasks, input, date, now);
    if r.Added? {
      AddPreserves(p.tasks, input, date, now);
      SameTasksSameFacts(r.tasks, Sort(r.tasks));
    }
  }

  /** Deleting preserves the invariant. */
  lemma RemovePreserves(p: Page, id: int, writable: bool)
    requires Inv(p)
    ensures Inv(Remove(p, id, writable).page)
  {
    var ts := DeleteTask(p.tasks, id);
    DeletePreserves(p.tasks, id);
    SameTasksSameFacts(ts, Sort(ts));
  }

  /**
   * After a successful add, reloading the page shows exactly what memory
   * holds. Storage keeps the collection in its pre-sort order, but the reload
   * sorts that same stored list, just as the handler sorted it into memory.
   */
  lemma ReloadAfterSubmit(p: Page, input: string, date: string, now: int)
    requires DatesOk(p.tasks) && DateFieldOk(date)
    ensures SlotDatesOk(Submit(p, input, date, now, true).page.slot) || AllWhitespace(input)
    ensures !AllWhitespace(input) ==>
      Open(Submit(p, input, date, now, true).page.slot).page.tasks == Submit(p, input, date, now, true).page.tasks
  {
    var r := AddTask(p.tasks, input, date, now);
    if r.Added? {
      AddPreserves(p.tasks, input, date, now);
    }
  }

  /** After a successful delete, reloading the page shows exactly what memory holds. */
  lemma ReloadAfterRemove(p: Page, id: int)
    requires DatesOk(p.tasks)
    ensures SlotDatesOk(Remove(p, id, true).page.slot)
    ensures Open(Remove(p, id, true).page.slot).page.tasks == Remove(p, id, true).page.tasks
  {
    var ts := DeleteTask(p.tasks, id);
    DeletePreserves(p.tasks, id);
  }

  /** Pressing delete for the same id a second time leaves the list as the first press did. */
  lemma RemoveTwice(p: Page, id: int, writable: bool)
    requires Inv(p)
    ensures Remove(Remove(p, id, writable).page, id, writable).page.tasks == Remove(p, id, writable).page.tasks
  {
    var q := Remove(p, id, writable).page;
    RemovePreserves(p, id, writable);
    assert !HasId(q.tasks, id);
    SortOfSorted(q.tasks);
  }

  /** Deleting the task just added restores the list as it was before the add. */
  lemma SubmitThenRemove(p: Page, input: string, date: string, now: int, writable: bool)
    requires Inv(p) && DateFieldOk(date) && !HasId(p.tasks, now) && !AllWhitespace(input)
    ensures Remove(Submit(p, input, date, now, writable).page, now, writable).page.tasks == p.tasks
  {
    var ts := AddTask(p.tasks, input, date, now).tasks;
    AddPreserves(p.tasks, input, date, now);
    var shown := Sort(ts);
    AddThenDelete(p.tasks, input, date, now);
    DeleteRespectsPermutation(shown, ts, now);
    var left := DeleteTask(shown, now);
    DeletePreserves(shown, now);
    SortDependsOnlyOnContents(p.tasks, left);
    SortOfSorted(p.tasks);
  }
}
