/**
 * The category/task tree of the to-do store and the new trees its
 * operations compute from the old one. Every operation of the store that
 * changes the tree replaces the whole `categories` array by an append, an
 * `Array.map` or an `Array.filter` of the old one; these are those appends,
 * maps and filters.
 */
module TaskModel {
  import opened Wrappers
  import opened Seqs

  datatype Priority = Low | Medium | High

  datatype Task = Task(id: string, name: string, description: string, date: string,
                       priority: Priority, color: string, completed: bool)

  /** `Omit<Task, "id" | "completed">`: the fields a caller supplies for a new task. */
  datatype TaskDraft = TaskDraft(name: string, description: string, date: string,
                                 priority: Priority, color: string)

  datatype Category = Category(id: string, name: string, color: string, tasks: seq<Task>)

  /** The fields of `t` a caller can choose. */
  function DraftOf(t: Task): TaskDraft {
    TaskDraft(t.name, t.description, t.date, t.priority, t.color)
  }

  /** `{ ...task, id: uuidv4(), completed: false }` with the generated id passed in. */
  function NewTask(d: TaskDraft, id: string): (t: Task)
    ensures t.id == id && !t.completed && DraftOf(t) == d
  {
    Task(id, d.name, d.description, d.date, d.priority, d.color, false)
  }

  function CategoryIds(cats: seq<Category>): (r: seq<string>)
    ensures |r| == |cats| && forall i :: 0 <= i < |cats| ==> r[i] == cats[i].id
  {
    Map(cats, (c: Category) => c.id)
  }

  /** No two categories share an id. */
  predicate CategoryIdsDistinct(cats: seq<Category>) {
    Distinct(CategoryIds(cats))
  }

  /** Distinct category ids, position by position. */
  lemma CategoryIdsDistinctAt(cats: seq<Category>)
    requires CategoryIdsDistinct(cats)
    ensures forall i, j :: 0 <= i < j < |cats| ==> cats[i].id != cats[j].id
  {
    forall i, j | 0 <= i < j < |cats| ensures cats[i].id != cats[j].id {
      assert CategoryIds(cats)[i] == cats[i].id && CategoryIds(cats)[j] == cats[j].id;
    }
  }

  /** `activeCategory` is null or names a category that exists. */
  predicate ActiveResolves(cats: seq<Category>, active: Option<string>) {
    active.Some? ==> active.value in CategoryIds(cats)
  }

  // ---------------------------------------------------------------- addCategory

  /** `[...categories, newCategory]`. */
  function AppendCategory(cats: seq<Category>, id: string, name: string, color: string): (r: seq<Category>)
    ensures |r| == |cats| + 1 && r[..|cats|] == cats
    ensures r[|cats|].id == id && r[|cats|].name == name && r[|cats|].color == color
    ensures r[|cats|].tasks == []
  {
    cats + [Category(id, name, color, [])]
  }

  // ------------------------------------------------------------- updateCategory

  /** `categories.map(c => c.id === id ? { ...c, name, color } : c)`. */
  function RenameCategory(cats: seq<Category>, id: string, name: string, color: string): (r: seq<Category>)
    ensures |r| == |cats|
    ensures forall i :: 0 <= i < |cats| ==> r[i].id == cats[i].id && r[i].tasks == cats[i].tasks
    ensures forall i :: 0 <= i < |cats| && cats[i].id == id ==> r[i].name == name && r[i].color == color
    ensures forall i :: 0 <= i < |cats| && cats[i].id != id ==> r[i] == cats[i]
  {
    Map(cats, (c: Category) => if c.id == id then c.(name := name, color := color) else c)
  }

  lemma RenameUnknownIsNoop(cats: seq<Category>, id: string, name: string, color: string)
    requires id !in CategoryIds(cats)
    ensures RenameCategory(cats, id, name, color) == cats
  {
    var r := RenameCategory(cats, id, name, color);
    forall i | 0 <= i < |cats| ensures r[i] == cats[i] {
      assert CategoryIds(cats)[i] == cats[i].id;
    }
  }

  // ------------------------------------------------------------- deleteCategory

  /** `categories.filter(c => c.id !== id)`. */
  function RemoveCategory(cats: seq<Category>, id: string): (r: seq<Category>)
    ensures forall c :: c in r ==> c in cats && c.id != id
    ensures forall c :: c in cats && c.id != id ==> c in r
    ensures forall c :: c in cats ==> multiset(r)[c] == if c.id != id then multiset(cats)[c] else 0
    ensures IsSubsequence(r, cats)
    ensures id !in CategoryIds(r)
  {
    var r := Filter(cats, (c: Category) => c.id != id);
    forall c | c in cats && c.id != id ensures c in r {
      assert multiset(r)[c] == multiset(cats)[c];
    }
    r
  }

  /** Deleting an id no category has changes nothing. */
  lemma RemoveUnknownCategoryIsNoop(cats: seq<Category>, id: string)
    requires id !in CategoryIds(cats)
    ensures RemoveCategory(cats, id) == cats
  {
    forall i | 0 <= i < |cats| ensures cats[i].id != id {
      assert CategoryIds(cats)[i] == cats[i].id;
    }
    FilterAll(cats, (c: Category) => c.id != id);
  }

  /**
   * The first category of `cats` whose id is not `id`, which is the head of
   * what `RemoveCategory` leaves.
   */
  lemma RemoveCategoryHead(cats: seq<Category>, id: string)
    ensures RemoveCategory(cats, id) == [] <==> forall i :: 0 <= i < |cats| ==> cats[i].id == id
    ensures RemoveCategory(cats, id) != [] ==>
      exists k :: 0 <= k < |cats| && cats[k] == RemoveCategory(cats, id)[0]
                  && cats[k].id != id && forall j :: 0 <= j < k ==> cats[j].id == id
  {
    var keep := (c: Category) => c.id != id;
    assert RemoveCategory(cats, id) == Filter(cats, keep);
    FilterHead(cats, keep);
  }

  /**
   * The active category after `deleteCategory(id)`: when the deleted id was
   * active, the first remaining category, or null when none remain;
   * otherwise unchanged.
   */
  function ActiveAfterDelete(cats: seq<Category>, active: Option<string>, id: string): (r: Option<string>)
    ensures active != Some(id) ==> r == active
    ensures active == Some(id) ==> (r == None <==> forall i :: 0 <= i < |cats| ==> cats[i].id == id)
    ensures active == Some(id) && r.Some? ==>
      exists k :: 0 <= k < |cats| && cats[k].id == r.value && r.value != id
                  && forall j :: 0 <= j < k ==> cats[j].id == id
  {
    if active == Some(id) then
      var remaining := RemoveCategory(cats, id);
      RemoveCategoryHead(cats, id);
      if |remaining| > 0 then Some(remaining[0].id) else None
    else active
  }

  /** Deleting a category never leaves `activeCategory` pointing at a missing category. */
  lemma DeleteKeepsActiveResolved(cats: seq<Category>, active: Option<string>, id: string)
    requires ActiveResolves(cats, active)
    ensures ActiveResolves(RemoveCategory(cats, id), ActiveAfterDelete(cats, active, id))
  {
    var r := RemoveCategory(cats, id);
    var a := ActiveAfterDelete(cats, active, id);
    if a.Some? {
      if active == Some(id) {
        RemoveCategoryHead(cats, id);
        assert r[0] in r;
        assert CategoryIds(r)[0] == r[0].id;
      } else {
        var k :| 0 <= k < |cats| && CategoryIds(cats)[k] == a.value;
        assert cats[k] in r;
        var m :| 0 <= m < |r| && r[m] == cats[k];
        assert CategoryIds(r)[m] == a.value;
      }
    }
  }

  /**
   * Deleting an id no category has, while the cursor holds that id, keeps the
   * tree but still moves the cursor: to the first category, or to null when
   * there is none.
   */
  lemma DeleteUnknownActiveMovesCursor(cats: seq<Category>, id: string)
    requires id !in CategoryIds(cats)
    ensures RemoveCategory(cats, id) == cats
    ensures ActiveAfterDelete(cats, Some(id), id) == if cats == [] then None else Some(cats[0].id)
  {
    RemoveUnknownCategoryIsNoop(cats, id);
  }

  // -------------------------------------------------------------------- addTask

  /** `categories.map(c => c.id === cid ? { ...c, tasks: [...c.tasks, newTask] } : c)`. */
  function AppendTask(cats: seq<Category>, cid: string, d: TaskDraft, tid: string): (r: seq<Category>)
    ensures |r| == |cats|
    ensures forall i :: 0 <= i < |cats| ==>
      r[i].id == cats[i].id && r[i].name == cats[i].name && r[i].color == cats[i].color
    ensures forall i :: 0 <= i < |cats| && cats[i].id == cid ==>
      |r[i].tasks| == |cats[i].tasks| + 1 && r[i].tasks[..|cats[i].tasks|] == cats[i].tasks
      && r[i].tasks[|cats[i].tasks|] == NewTask(d, tid)
    ensures forall i :: 0 <= i < |cats| && cats[i].id != cid ==> r[i] == cats[i]
  {
    Map(cats, (c: Category) => if c.id == cid then c.(tasks := c.tasks + [NewTask(d, tid)]) else c)
  }

  lemma AppendTaskUnknownIsNoop(cats: seq<Category>, cid: string, d: TaskDraft, tid: string)
    requires cid !in CategoryIds(cats)
    ensures AppendTask(cats, cid, d, tid) == cats
  {
    var r := AppendTask(cats, cid, d, tid);
    forall i | 0 <= i < |cats| ensures r[i] == cats[i] {
      assert CategoryIds(cats)[i] == cats[i].id;
    }
  }

  // ----------------------------------------------------------------- updateTask

  /** `tasks.map(x => x.id === t.id ? t : x)`. */
  function ReplaceTasks(ts: seq<Task>, t: Task): (r: seq<Task>)
    ensures |r| == |ts|
    ensures forall i :: 0 <= i < |ts| ==> r[i].id == ts[i].id
    ensures forall i :: 0 <= i < |ts| && ts[i].id == t.id ==> r[i] == t
    ensures forall i :: 0 <= i < |ts| && ts[i].id != t.id ==> r[i] == ts[i]
  {
    Map(ts, (x: Task) => if x.id == t.id then t else x)
  }

  /** updateTask: `ReplaceTasks` inside the category named `cid` only. */
  function UpdateTaskIn(cats: seq<Category>, cid: string, t: Task): (r: seq<Category>)
    ensures |r| == |cats|
    ensures forall i :: 0 <= i < |cats| && cats[i].id == cid ==>
      r[i] == cats[i].(tasks := ReplaceTasks(cats[i].tasks, t))
    ensures forall i :: 0 <= i < |cats| && cats[i].id != cid ==> r[i] == cats[i]
  {
    Map(cats, (c: Category) => if c.id == cid then c.(tasks := ReplaceTasks(c.tasks, t)) else c)
  }

  /** An update whose task id matches no task, or whose category is unknown, changes nothing. */
  lemma UpdateUnknownIsNoop(cats: seq<Category>, cid: string, t: Task)
    requires forall i, j :: 0 <= i < |cats| && cats[i].id == cid && 0 <= j < |cats[i].tasks|
               ==> cats[i].tasks[j].id != t.id
    ensures UpdateTaskIn(cats, cid, t) == cats
  {
    var r := UpdateTaskIn(cats, cid, t);
    forall i | 0 <= i < |cats| ensures r[i] == cats[i] {
      if cats[i].id == cid {
        assert ReplaceTasks(cats[i].tasks, t) == cats[i].tasks;
      }
    }
  }

  // ----------------------------------------------------------------- deleteTask

  /** `tasks.filter(x => x.id !== tid)`. */
  function RemoveTasks(ts: seq<Task>, tid: string): (r: seq<Task>)
    ensures forall x :: x in r ==> x in ts && x.id != tid
    ensures forall x :: x in ts && x.id != tid ==> x in r
    ensures forall x :: x in ts ==> multiset(r)[x] == if x.id != tid then multiset(ts)[x] else 0
    ensures IsSubsequence(r, ts)
  {
    var r := Filter(ts, (x: Task) => x.id != tid);
    forall x | x in ts && x.id != tid ensures x in r {
      assert multiset(r)[x] == multiset(ts)[x];
    }
    r
  }

  /** deleteTask: `RemoveTasks` inside the category named `cid` only. */
  function DeleteTaskIn(cats: seq<Category>, cid: string, tid: string): (r: seq<Category>)
    ensures |r| == |cats|
    ensures forall i :: 0 <= i < |cats| && cats[i].id == cid ==>
      r[i] == cats[i].(tasks := RemoveTasks(cats[i].tasks, tid))
    ensures forall i :: 0 <= i < |cats| && cats[i].id != cid ==> r[i] == cats[i]
  {
    Map(cats, (c: Category) => if c.id == cid then c.(tasks := RemoveTasks(c.tasks, tid)) else c)
  }

  /** A delete whose task id matches no task of the category, or whose category is unknown, changes nothing. */
  lemma DeleteUnknownIsNoop(cats: seq<Category>, cid: string, tid: string)
    requires forall i, j :: 0 <= i < |cats| && cats[i].id == cid && 0 <= j < |cats[i].tasks|
               ==> cats[i].tasks[j].id != tid
    ensures DeleteTaskIn(cats, cid, tid) == cats
  {
    var r := DeleteTaskIn(cats, cid, tid);
    forall i | 0 <= i < |cats| ensures r[i] == cats[i] {
      if cats[i].id == cid {
        FilterAll(cats[i].tasks, (x: Task) => x.id != tid);
      }
    }
  }

  // ------------------------------------------------------- toggleTaskCompletion

  /** `tasks.map(x => x.id === tid ? { ...x, completed: !x.completed } : x)`. */
  function ToggleTasks(ts: seq<Task>, tid: string): (r: seq<Task>)
    ensures |r| == |ts|
    ensures forall i :: 0 <= i < |ts| ==> r[i].(completed := ts[i].completed) == ts[i]
    ensures forall i :: 0 <= i < |ts| ==> (r[i].completed <==> (ts[i].completed != (ts[i].id == tid)))
  {
    Map(ts, (x: Task) => if x.id == tid then x.(completed := !x.completed) else x)
  }

  /** The toggle's effect on the tree: `ToggleTasks` inside the category named `cid` only. */
  function ToggleIn(cats: seq<Category>, cid: string, tid: string): (r: seq<Category>)
    ensures |r| == |cats|
    ensures forall i :: 0 <= i < |cats| && cats[i].id == cid ==>
      r[i] == cats[i].(tasks := ToggleTasks(cats[i].tasks, tid))
    ensures forall i :: 0 <= i < |cats| && cats[i].id != cid ==> r[i] == cats[i]
  {
    Map(cats, (c: Category) => if c.id == cid then c.(tasks := ToggleTasks(c.tasks, tid)) else c)
  }

  /** The toggle keeps every category where it was, under its id. */
  lemma ToggleKeepsCategoryIds(cats: seq<Category>, cid: string, tid: string)
    ensures CategoryIds(ToggleIn(cats, cid, tid)) == CategoryIds(cats)
  {
  }

  /** `tasks.filter(t => t.completed)`: the completed tasks, in order. */
  function CompletedOnly(ts: seq<Task>): (r: seq<Task>)
    ensures |r| <= |ts|
    ensures |r| == |ts| <==> forall i :: 0 <= i < |ts| ==> ts[i].completed
    ensures forall t :: t in r ==> t in ts && t.completed
    ensures forall t :: t in ts ==> multiset(r)[t] == if t.completed then multiset(ts)[t] else 0
    ensures IsSubsequence(r, ts)
  {
    FilterLength(ts, (t: Task) => t.completed);
    Filter(ts, (t: Task) => t.completed)
  }

  /** `tasks.length > 0 && tasks.every(t => t.completed)`. */
  function AllCompleted(ts: seq<Task>): (b: bool)
    ensures b <==> ts != [] && forall t :: t in ts ==> t.completed
  {
    |ts| > 0 && forall i :: 0 <= i < |ts| ==> ts[i].completed
  }

  /** `every` agrees with the counter: all done exactly when the completed filter loses nothing. */
  lemma AllCompletedIsFullCounter(ts: seq<Task>)
    ensures AllCompleted(ts) <==> |ts| > 0 && |CompletedOnly(ts)| == |ts|
  {
  }

  /**
   * The value the local `allCompleted` holds once the map is done: it is
   * written for every category whose id matches, so the last match decides;
   * with no match it keeps its initial `false`.
   */
  function ToggleSignal(cats: seq<Category>, cid: string, tid: string): (b: bool)
    ensures b ==> exists k :: 0 <= k < |cats| && cats[k].id == cid
                              && AllCompleted(ToggleTasks(cats[k].tasks, tid))
  {
    if cats == [] then false
    else if cats[|cats| - 1].id == cid then AllCompleted(ToggleTasks(cats[|cats| - 1].tasks, tid))
    else
      var prefix := cats[..|cats| - 1];
      assert forall k :: 0 <= k < |prefix| ==> prefix[k] == cats[k];
      ToggleSignal(prefix, cid, tid)
  }

  /** The category that decides the signal is the last one with the id. */
  predicate DecidesSignal(cats: seq<Category>, cid: string, tid: string, k: int)
  {
    0 <= k < |cats| && cats[k].id == cid && AllCompleted(ToggleTasks(cats[k].tasks, tid))
    && forall j :: k < j < |cats| ==> cats[j].id != cid
  }

  /**
   * The signal is raised exactly when some category with the id is the last
   * one with it and is non-empty and fully completed after the toggle.
   */
  lemma {:induction false} ToggleSignalIsLastMatch(cats: seq<Category>, cid: string, tid: string)
    ensures ToggleSignal(cats, cid, tid) <==> exists k :: DecidesSignal(cats, cid, tid, k)
  {
    if cats != [] {
      var n := |cats| - 1;
      var prefix := cats[..n];
      if cats[n].id == cid {
        if ToggleSignal(cats, cid, tid) {
          assert DecidesSignal(cats, cid, tid, n);
        } else {
          assert !DecidesSignal(cats, cid, tid, n);
          forall k | 0 <= k < n ensures !DecidesSignal(cats, cid, tid, k) {
            assert cats[n].id == cid;
          }
        }
      } else {
        ToggleSignalIsLastMatch(prefix, cid, tid);
        forall k ensures DecidesSignal(cats, cid, tid, k) <==> DecidesSignal(prefix, cid, tid, k) {
          DecidesSignalInPrefix(cats, cid, tid, k);
        }
      }
    }
  }

  /** A last category with another id decides nothing: the deciding category is in the prefix. */
  lemma DecidesSignalInPrefix(cats: seq<Category>, cid: string, tid: string, k: int)
    requires cats != [] && cats[|cats| - 1].id != cid
    ensures DecidesSignal(cats, cid, tid, k) <==> DecidesSignal(cats[..|cats| - 1], cid, tid, k)
  {
    var prefix := cats[..|cats| - 1];
    if 0 <= k < |prefix| {
      assert prefix[k] == cats[k];
      assert (forall j :: k < j < |cats| ==> cats[j].id != cid)
         <==> (forall j :: k < j < |prefix| ==> prefix[j].id != cid);
    }
  }

  /** One more category seen by the toggle's walk: how the new tree and the signal grow. */
  lemma ToggleStep(prefix: seq<Category>, c: Category, cid: string, tid: string)
    ensures ToggleIn(prefix + [c], cid, tid)
      == ToggleIn(prefix, cid, tid) + [if c.id == cid then c.(tasks := ToggleTasks(c.tasks, tid)) else c]
    ensures ToggleSignal(prefix + [c], cid, tid)
      == if c.id == cid then AllCompleted(ToggleTasks(c.tasks, tid)) else ToggleSignal(prefix, cid, tid)
  {
    assert (prefix + [c])[..|prefix|] == prefix;
  }

  lemma {:induction false} ToggleTasksTwice(ts: seq<Task>, tid: string)
    ensures ToggleTasks(ToggleTasks(ts, tid), tid) == ts
  {
    var once := ToggleTasks(ts, tid);
    var twice := ToggleTasks(once, tid);
    forall i | 0 <= i < |ts| ensures twice[i] == ts[i] {
      assert twice[i].(completed := once[i].completed) == once[i];
      assert once[i].(completed := ts[i].completed) == ts[i];
    }
  }

  /** Toggling the same task twice restores the whole tree. */
  lemma {:induction false} ToggleTwiceRestores(cats: seq<Category>, cid: string, tid: string)
    ensures ToggleIn(ToggleIn(cats, cid, tid), cid, tid) == cats
  {
    var once := ToggleIn(cats, cid, tid);
    var twice := ToggleIn(once, cid, tid);
    forall i | 0 <= i < |cats| ensures twice[i] == cats[i] {
      if cats[i].id == cid {
        ToggleTasksTwice(cats[i].tasks, tid);
      }
    }
  }

  /**
   * With distinct category ids, the flag the toggle raises is exactly "the
   * toggled category's tasks, after the toggle, are non-empty and all completed".
   */
  lemma ToggleSignalIsTargetState(cats: seq<Category>, cid: string, tid: string, k: nat)
    requires CategoryIdsDistinct(cats)
    requires k < |cats| && cats[k].id == cid
    ensures ToggleSignal(cats, cid, tid) <==> AllCompleted(ToggleIn(cats, cid, tid)[k].tasks)
  {
    ToggleSignalIsLastMatch(cats, cid, tid);
    CategoryIdsDistinctAt(cats);
    if AllCompleted(ToggleTasks(cats[k].tasks, tid)) {
      assert DecidesSignal(cats, cid, tid, k);
    }
  }

  /** A toggle naming no category never raises the flag. */
  lemma {:induction false} ToggleSignalUnknownCategory(cats: seq<Category>, cid: string, tid: string)
    requires forall i :: 0 <= i < |cats| ==> cats[i].id != cid
    ensures !ToggleSignal(cats, cid, tid)
  {
    if cats != [] {
      var n := |cats| - 1;
      ToggleSignalUnknownCategory(cats[..n], cid, tid);
    }
  }

  /** A toggle in a category without tasks never raises the flag. */
  lemma ToggleEmptyCategoryNoSignal(cats: seq<Category>, cid: string, tid: string, k: nat)
    requires CategoryIdsDistinct(cats)
    requires k < |cats| && cats[k].id == cid && cats[k].tasks == []
    ensures !ToggleSignal(cats, cid, tid)
  {
    ToggleSignalIsTargetState(cats, cid, tid, k);
  }

  /**
   * The signal depends on the whole category, not on the task toggled: a
   * toggle whose task id matches nothing still raises it when every task of
   * the category is already completed.
   */
  lemma ToggleUnknownTaskStillSignals(cats: seq<Category>, cid: string, tid: string, k: nat)
    requires CategoryIdsDistinct(cats)
    requires k < |cats| && cats[k].id == cid
    requires forall j :: 0 <= j < |cats[k].tasks| ==> cats[k].tasks[j].id != tid
    ensures ToggleIn(cats, cid, tid) == cats
    ensures ToggleSignal(cats, cid, tid) <==> AllCompleted(cats[k].tasks)
  {
    var r := ToggleIn(cats, cid, tid);
    CategoryIdsDistinctAt(cats);
    forall i | 0 <= i < |cats| ensures r[i] == cats[i] {
      if cats[i].id == cid {
        var ts := cats[i].tasks;
        assert i == k;
        forall j | 0 <= j < |ts| ensures ToggleTasks(ts, tid)[j] == ts[j] {
          assert ToggleTasks(ts, tid)[j].(completed := ts[j].completed) == ts[j];
        }
      }
    }
    ToggleSignalIsTargetState(cats, cid, tid, k);
  }
}
