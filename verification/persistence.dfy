/**
 * Keeping the collection in browser storage under the key `tasks`, and the
 * short messages the page shows the user.
 *
 * The stored string and its JSON encoding are abstracted into a `Slot`: no
 * usable value (the key is absent or holds the empty string), a value that
 * cannot be read back as a list of tasks, or the list it decodes to.
 */
module Persistence {
  import opened Wrappers
  import opened Tasks

  /** What reading the storage key yields once decoded. */
  type Slot = Option<Result<seq<Task>>>

  /** The messages the page flashes, one per call of its message routine. */
  datatype Notice = EnterATask | TaskAdded | TaskDeleted | SaveFailed | LoadFailed

  /** The text shown for each notice. */
  function Message(n: Notice): (m: string)
    ensures (n == SaveFailed || n == LoadFailed) <==> "Error " <= m
  {
    match n
    case EnterATask => var m := "Por favor, introduce una tarea."; assert m[..6][0] == 'P'; m
    case TaskAdded => var m := "Tarea a\U{00F1}adida."; assert m[..6][0] == 'T'; m
    case TaskDeleted => var m := "Tarea eliminada."; assert m[..6][0] == 'T'; m
    case SaveFailed =>
      var m := "Error " + "al guardar tareas. El almacenamiento puede estar lleno o deshabilitado.";
      assert m[..6] == "Error ";
      m
    case LoadFailed =>
      var m := "Error " + "al cargar tareas. Es posible que los datos est\U{00E9}n corruptos.";
      assert m[..6] == "Error ";
      m
  }

  /** Distinct notices show distinct texts, so the text tells the user which event happened. */
  lemma MessagesDistinct(n: Notice, n': Notice)
    requires n != n'
    ensures Message(n) != Message(n')
  {
  }

  /** The collection a load starts from, and the notices it raised. */
  datatype Loaded = Loaded(tasks: seq<Task>, notices: seq<Notice>)

  /**
   * Reading the stored collection: an absent or empty value starts an empty
   * list silently; a value that cannot be read as a list starts an empty list
   * and reports the corruption; otherwise the decoded list is used.
   */
  function Load(slot: Slot): (r: Loaded)
    ensures slot.Some? && slot.value.Success? ==> r.tasks == slot.value.value
    ensures !(slot.Some? && slot.value.Success?) ==> r.tasks == []
    ensures r.notices == [LoadFailed] <==> slot.Some? && slot.value.Failure?
    ensures r.notices == [] <==> !(slot.Some? && slot.value.Failure?)
  {
    match slot
    case None => Loaded([], [])
    case Some(Failure(_)) => Loaded([], [LoadFailed])
    case Some(Success(ts)) => Loaded(ts, [])
  }

  /** The slot after a save attempt, and the notices it raised. */
  datatype Saved = Saved(slot: Slot, notices: seq<Notice>)

  /**
   * Writing the collection: when storage accepts the write the slot holds the
   * collection; when it refuses (full or disabled), the previous value is
   * left in place and the failure is reported.
   */
  function Save(slot: Slot, tasks: seq<Task>, writable: bool): (r: Saved)
    ensures writable ==> r.notices == [] && Load(r.slot) == Loaded(tasks, [])
    ensures !writable ==> r.slot == slot && r.notices == [SaveFailed]
  {
    if writable then Saved(Some(Success(tasks)), []) else Saved(slot, [SaveFailed])
  }
}
