/**
 * The add/edit task form: its initial field values, the submit rule
 * (a name that is not blank and a date are required) and the store call a
 * submit makes. Dates are opaque strings here; a picked date is `Some`,
 * a cleared date picker `None`.
 */
module TaskFormView {
  import opened Wrappers
  import opened JsString
  import opened Palette
  import opened TaskModel
  import opened StoreIds
  import opened TasksProvider

  datatype FormFields = FormFields(name: string, description: string, date: Option<string>,
                                   priority: Priority, color: string)

  /** What an accepted submit asks of the store. */
  datatype StoreCall = UpdateCall(task: Task) | AddCall(draft: TaskDraft)

  /**
   * The form's starting values: a new task starts empty, due `now`, with
   * medium priority and the default colour; an edited task starts from its
   * own values, except that an empty date or colour falls back like a new one.
   */
  function InitialFields(task: Option<Task>, now: string): (f: FormFields)
    ensures task.None? ==> f == FormFields("", "", Some(now), Medium, Colors[0])
    ensures task.Some? ==>
      f.name == task.value.name && f.description == task.value.description
      && f.priority == task.value.priority
      && f.date == Some(if task.value.date != "" then task.value.date else now)
      && f.color == OrDefault(task.value.color)
    ensures f.date.Some? && f.color != ""
  {
    match task
    case None => FormFields("", "", Some(now), Medium, Colors[0])
    case Some(t) =>
      FormFields(t.name,
                 t.description,
                 Some(if t.date != "" then t.date else now),
                 t.priority,
                 OrDefault(t.color))
  }

  /**
   * `handleSubmit`'s decision: nothing when the name is blank or there is
   * no date; otherwise the form's fields, with the name as typed, go to
   * `updateTask` (keeping the edited task's id and completion) or to `addTask`.
   */
  function Submission(f: FormFields, task: Option<Task>): (r: Option<StoreCall>)
    ensures r.None? <==> IsBlank(f.name) || f.date.None?
    ensures r.Some? && task.Some? ==>
      r.value.UpdateCall? && r.value.task.id == task.value.id
      && r.value.task.completed == task.value.completed
      && DraftOf(r.value.task) == TaskDraft(f.name, f.description, f.date.value, f.priority, f.color)
    ensures r.Some? && task.None? ==>
      r.value == AddCall(TaskDraft(f.name, f.description, f.date.value, f.priority, f.color))
  {
    TrimEmptyIffBlank(f.name);
    if Trim(f.name) == "" || f.date.None? then None
    else
      var data := TaskDraft(f.name, f.description, f.date.value, f.priority, f.color);
      match task
      case Some(t) =>
        Some(UpdateCall(Task(t.id, data.name, data.description, data.date, data.priority, data.color, t.completed)))
      case None => Some(AddCall(data))
  }

  /**
   * Saving an edit of a task that is in the category replaces exactly that
   * task, in place: same position, same id, same completion, the form's fields.
   */
  lemma EditReplacesInPlace(cats: seq<Category>, cid: string, k: nat, j: nat, f: FormFields, t: Task)
    requires UniqueIds(cats)
    requires k < |cats| && cats[k].id == cid && j < |cats[k].tasks| && cats[k].tasks[j] == t
    requires Submission(f, Some(t)).Some?
    ensures var r := UpdateTaskIn(cats, cid, Submission(f, Some(t)).value.task);
      |r[k].tasks| == |cats[k].tasks|
      && r[k].tasks[j].id == t.id && r[k].tasks[j].completed == t.completed
      && DraftOf(r[k].tasks[j]) == TaskDraft(f.name, f.description, f.date.value, f.priority, f.color)
      && forall m :: 0 <= m < |cats[k].tasks| && m != j ==> r[k].tasks[m] == cats[k].tasks[m]
  {
    UniqueIdsTasks(cats, k);
    var ts := cats[k].tasks;
    forall m | 0 <= m < |ts| && m != j ensures ts[m].id != t.id {
      assert TaskIds(ts)[m] == ts[m].id && TaskIds(ts)[j] == ts[j].id;
    }
  }

  class TaskForm {
    const categoryId: string
    const task: Option<Task>
    var name: string
    var description: string
    var date: Option<string>
    var priority: Priority
    var color: string
    /** How often the form has called `onClose`. */
    var closeCount: nat

    function Fields(): FormFields
      reads this
    {
      FormFields(name, description, date, priority, color)
    }

    /** The form opened for a category, on an existing task or on none; `now` is today's date. */
    constructor (categoryId: string, task: Option<Task>, now: string)
      ensures this.categoryId == categoryId && this.task == task
      ensures Fields() == InitialFields(task, now) && closeCount == 0
    {
      this.categoryId := categoryId;
      this.task := task;
      var f := InitialFields(task, now);
      name := f.name;
      description := f.description;
      date := f.date;
      priority := f.priority;
      color := f.color;
      closeCount := 0;
    }

    method SetName(text: string)
      modifies this`name
      ensures name == text
    {
      name := text;
    }

    method SetDescription(text: string)
      modifies this`description
      ensures description == text
    {
      description := text;
    }

    /** The calendar: picking a day gives `Some`, clearing the selection `None`. */
    method SetDate(day: Option<string>)
      modifies this`date
      ensures date == day
    {
      date := day;
    }

    method SetPriority(p: Priority)
      modifies this`priority
      ensures priority == p
    {
      priority := p;
    }

    method SetColor(c: string)
      modifies this`color
      ensures color == c
    {
      color := c;
    }

    /** The close button calls `onClose` without saving. */
    method Close()
      modifies this`closeCount
      ensures closeCount == old(closeCount) + 1
    {
      closeCount := closeCount + 1;
    }

    /**
     * `handleSubmit`: a rejected submit does nothing at all; an accepted one
     * makes its one store call and then calls `onClose` once.
     */
    method HandleSubmit(store: TaskStore, freshId: string)
      requires FreshId(store.categories, freshId)
      modifies this`closeCount, store
      ensures Submission(Fields(), task).None? ==> unchanged(store) && closeCount == old(closeCount)
      ensures Submission(Fields(), task).Some? ==> closeCount == old(closeCount) + 1
      ensures Submission(Fields(), task).Some? && task.Some? ==>
        store.categories == UpdateTaskIn(old(store.categories), categoryId, Submission(Fields(), task).value.task)
      ensures Submission(Fields(), task).Some? && task.None? ==>
        store.categories == AppendTask(old(store.categories), categoryId, Submission(Fields(), task).value.draft, freshId)
      ensures store.activeCategory == old(store.activeCategory)
      ensures store.showCongratulations == old(store.showCongratulations)
      ensures old(store.Valid()) ==> store.Valid()
    {
      var call := Submission(Fields(), task);
      if call.Some? {
        if call.value.UpdateCall? {
          store.UpdateTask(categoryId, call.value.task);
        } else {
          store.AddTask(categoryId, call.value.draft, freshId);
        }
        closeCount := closeCount + 1;
      }
    }
  }
}
