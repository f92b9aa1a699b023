/**
 * Identifier uniqueness across the whole store. Every id in the tree
 * (category ids and task ids together) occurs once; each operation keeps
 * that true as long as the ids it generates are fresh.
 */
module StoreIds {
  import opened Seqs
  import opened TaskModel

  function TaskIds(ts: seq<Task>): (r: seq<string>)
    ensures |r| == |ts| && forall i :: 0 <= i < |ts| ==> r[i] == ts[i].id
  {
    Map(ts, (t: Task) => t.id)
  }

  /** Every id in the tree, category by category: its own id, then its tasks' ids. */
  function Ids(cats: seq<Category>): seq<string>
  {
    if cats == [] then [] else [cats[0].id] + TaskIds(cats[0].tasks) + Ids(cats[1..])
  }

  /** The store invariant: no id occurs twice anywhere in the tree. */
  predicate UniqueIds(cats: seq<Category>) {
    Distinct(Ids(cats))
  }

  /** An id the generator may hand out: used nowhere in the tree. */
  predicate FreshId(cats: seq<Category>, id: string) {
    id !in Ids(cats)
  }

  lemma {:induction false} IdsAppend(cats: seq<Category>, c: Category)
    ensures Ids(cats + [c]) == Ids(cats) + [c.id] + TaskIds(c.tasks)
  {
    if cats != [] {
      assert (cats + [c])[1..] == cats[1..] + [c];
      IdsAppend(cats[1..], c);
    } else {
      assert [c][1..] == [];
    }
  }

  /** Every category id and every task id of the tree is in `Ids`. */
  lemma {:induction false} IdsContain(cats: seq<Category>, i: nat)
    requires i < |cats|
    ensures cats[i].id in Ids(cats)
    ensures forall x :: x in TaskIds(cats[i].tasks) ==> x in Ids(cats)
  {
    if i > 0 {
      IdsContain(cats[1..], i - 1);
    }
  }

  /** Unique ids imply distinct category ids. */
  lemma {:induction false} UniqueIdsCategories(cats: seq<Category>)
    requires UniqueIds(cats)
    ensures CategoryIdsDistinct(cats)
  {
    if cats != [] {
      var head := [cats[0].id] + TaskIds(cats[0].tasks);
      DistinctConcat(head, Ids(cats[1..]));
      UniqueIdsCategories(cats[1..]);
      forall j | 0 < j < |cats| ensures cats[0].id != cats[j].id {
        IdsContain(cats[1..], j - 1);
        assert cats[0].id in head;
      }
      CategoryIdsDistinctAt(cats[1..]);
      forall i, j | 0 <= i < j < |cats| ensures cats[i].id != cats[j].id {
        if i > 0 {
          assert cats[i] == cats[1..][i - 1] && cats[j] == cats[1..][j - 1];
        }
      }
      forall i, j | 0 <= i < j < |cats| ensures CategoryIds(cats)[i] != CategoryIds(cats)[j] {
        assert CategoryIds(cats)[i] == cats[i].id && CategoryIds(cats)[j] == cats[j].id;
      }
    }
  }

  /** Unique ids imply distinct task ids inside every category. */
  lemma {:induction false} UniqueIdsTasks(cats: seq<Category>, i: nat)
    requires UniqueIds(cats) && i < |cats|
    ensures Distinct(TaskIds(cats[i].tasks))
  {
    var head := [cats[0].id] + TaskIds(cats[0].tasks);
    DistinctConcat(head, Ids(cats[1..]));
    if i == 0 {
      DistinctConcat([cats[0].id], TaskIds(cats[0].tasks));
    } else {
      UniqueIdsTasks(cats[1..], i - 1);
    }
  }

  /**
   * A per-category rewrite that keeps the category id, and whose task ids
   * are a duplicate-free selection of the old ones, keeps the tree's ids unique.
   */
  lemma {:induction false} MapKeepsUnique(cats: seq<Category>, f: Category -> Category)
    requires forall i :: 0 <= i < |cats| ==> f(cats[i]).id == cats[i].id
    requires forall i :: 0 <= i < |cats| ==>
      forall x :: x in TaskIds(f(cats[i]).tasks) ==> x in TaskIds(cats[i].tasks)
    requires forall i :: 0 <= i < |cats| ==>
      Distinct(TaskIds(cats[i].tasks)) ==> Distinct(TaskIds(f(cats[i]).tasks))
    ensures forall x :: x in Ids(Map(cats, f)) ==> x in Ids(cats)
    ensures UniqueIds(cats) ==> UniqueIds(Map(cats, f))
  {
    if cats != [] {
      var c, c' := cats[0], f(cats[0]);
      var r := Map(cats, f);
      assert r[0] == c' && r[1..] == Map(cats[1..], f);
      MapKeepsUnique(cats[1..], f);
      var head, head' := [c.id] + TaskIds(c.tasks), [c'.id] + TaskIds(c'.tasks);
      assert Ids(r) == head' + Ids(r[1..]);
      assert forall x :: x in head' ==> x in head;
      if UniqueIds(cats) {
        DistinctConcat(head, Ids(cats[1..]));
        DistinctConcat([c.id], TaskIds(c.tasks));
        DistinctConcat([c'.id], TaskIds(c'.tasks));
        DistinctConcat(head', Ids(r[1..]));
      }
    }
  }

  lemma {:induction false} FilterKeepsUnique(cats: seq<Category>, keep: Category -> bool)
    ensures forall x :: x in Ids(Filter(cats, keep)) ==> x in Ids(cats)
    ensures UniqueIds(cats) ==> UniqueIds(Filter(cats, keep))
  {
    if cats != [] {
      var c := cats[0];
      var head := [c.id] + TaskIds(c.tasks);
      var rest := Filter(cats[1..], keep);
      FilterKeepsUnique(cats[1..], keep);
      if UniqueIds(cats) {
        DistinctConcat(head, Ids(cats[1..]));
      }
      if keep(c) {
        assert Filter(cats, keep) == [c] + rest;
        assert ([c] + rest)[1..] == rest;
        assert Ids(Filter(cats, keep)) == head + Ids(rest);
        if UniqueIds(cats) {
          DistinctConcat(head, Ids(rest));
        }
      } else {
        assert Filter(cats, keep) == rest;
      }
    }
  }

  lemma RemoveTasksKeepsUnique(ts: seq<Task>, tid: string)
    ensures forall x :: x in TaskIds(RemoveTasks(ts, tid)) ==> x in TaskIds(ts)
    ensures Distinct(TaskIds(ts)) ==> Distinct(TaskIds(RemoveTasks(ts, tid)))
  {
    var r := RemoveTasks(ts, tid);
    forall x | x in TaskIds(r) ensures x in TaskIds(ts) {
      SubsequenceIds(r, ts, x);
    }
    if Distinct(TaskIds(ts)) {
      DistinctIdsDistinctTasks(ts);
      SubsequenceDistinct(r, ts);
      forall i, j | 0 <= i < j < |r| ensures TaskIds(r)[i] != TaskIds(r)[j] {
        assert r[i] in r && r[j] in r;
        if r[i].id == r[j].id {
          SameIdSameTask(ts, r[i], r[j]);
        }
      }
    }
  }

  /** An id of a subsequence of a task list is an id of the list. */
  lemma SubsequenceIds(r: seq<Task>, ts: seq<Task>, x: string)
    requires IsSubsequence(r, ts) && x in TaskIds(r)
    ensures x in TaskIds(ts)
  {
    var k :| 0 <= k < |r| && TaskIds(r)[k] == x;
    SubsequenceMembers(r, ts);
    assert r[k] in ts;
    var m :| 0 <= m < |ts| && ts[m] == r[k];
    assert TaskIds(ts)[m] == x;
  }

  /** Tasks with distinct ids are distinct tasks. */
  lemma DistinctIdsDistinctTasks(ts: seq<Task>)
    requires Distinct(TaskIds(ts))
    ensures Distinct(ts)
  {
    forall a, b | 0 <= a < b < |ts| ensures ts[a] != ts[b] {
      assert TaskIds(ts)[a] == ts[a].id && TaskIds(ts)[b] == ts[b].id;
    }
  }

  /** Within a task list with distinct ids, the id determines the task. */
  lemma SameIdSameTask(ts: seq<Task>, x: Task, y: Task)
    requires Distinct(TaskIds(ts)) && x in ts && y in ts && x.id == y.id
    ensures x == y
  {
    var a :| 0 <= a < |ts| && ts[a] == x;
    var b :| 0 <= b < |ts| && ts[b] == y;
    assert TaskIds(ts)[a] == TaskIds(ts)[b];
  }

  // ---------------------------------------------------------------- per operation

  lemma AddCategoryKeepsUnique(cats: seq<Category>, id: string, name: string, color: string)
    requires UniqueIds(cats) && FreshId(cats, id)
    ensures UniqueIds(AppendCategory(cats, id, name, color))
  {
    var c := Category(id, name, color, []);
    IdsAppend(cats, c);
    assert TaskIds(c.tasks) == [];
    DistinctConcat(Ids(cats), [id]);
    assert Ids(cats) + [id] + [] == Ids(cats) + [id];
  }

  lemma RenameCategoryKeepsUnique(cats: seq<Category>, id: string, name: string, color: string)
    requires UniqueIds(cats)
    ensures UniqueIds(RenameCategory(cats, id, name, color))
  {
    var f := (c: Category) => if c.id == id then c.(name := name, color := color) else c;
    MapKeepsUnique(cats, f);
    assert RenameCategory(cats, id, name, color) == Map(cats, f);
  }

  lemma RemoveCategoryKeepsUnique(cats: seq<Category>, id: string)
    requires UniqueIds(cats)
    ensures UniqueIds(RemoveCategory(cats, id))
  {
    var keep := (c: Category) => c.id != id;
    FilterKeepsUnique(cats, keep);
    assert RemoveCategory(cats, id) == Filter(cats, keep);
  }

  lemma UpdateTaskKeepsUnique(cats: seq<Category>, cid: string, t: Task)
    requires UniqueIds(cats)
    ensures UniqueIds(UpdateTaskIn(cats, cid, t))
  {
    var f := (c: Category) => if c.id == cid then c.(tasks := ReplaceTasks(c.tasks, t)) else c;
    forall i | 0 <= i < |cats| ensures TaskIds(f(cats[i]).tasks) == TaskIds(cats[i].tasks) {
    }
    MapKeepsUnique(cats, f);
    assert UpdateTaskIn(cats, cid, t) == Map(cats, f);
  }

  lemma DeleteTaskKeepsUnique(cats: seq<Category>, cid: string, tid: string)
    requires UniqueIds(cats)
    ensures UniqueIds(DeleteTaskIn(cats, cid, tid))
  {
    var f := (c: Category) => if c.id == cid then c.(tasks := RemoveTasks(c.tasks, tid)) else c;
    forall i | 0 <= i < |cats|
      ensures forall x :: x in TaskIds(f(cats[i]).tasks) ==> x in TaskIds(cats[i].tasks)
      ensures Distinct(TaskIds(cats[i].tasks)) ==> Distinct(TaskIds(f(cats[i]).tasks))
    {
      RemoveTasksKeepsUnique(cats[i].tasks, tid);
    }
    MapKeepsUnique(cats, f);
    assert DeleteTaskIn(cats, cid, tid) == Map(cats, f);
  }

  lemma ToggleKeepsUnique(cats: seq<Category>, cid: string, tid: string)
    ensures UniqueIds(cats) ==> UniqueIds(ToggleIn(cats, cid, tid))
  {
    var f := (c: Category) => if c.id == cid then c.(tasks := ToggleTasks(c.tasks, tid)) else c;
    forall i | 0 <= i < |cats| ensures TaskIds(f(cats[i]).tasks) == TaskIds(cats[i].tasks) {
      var ts := cats[i].tasks;
      forall j | 0 <= j < |ts| ensures ToggleTasks(ts, tid)[j].id == ts[j].id {
        assert ToggleTasks(ts, tid)[j].(completed := ts[j].completed) == ts[j];
      }
    }
    MapKeepsUnique(cats, f);
    assert ToggleIn(cats, cid, tid) == Map(cats, f);
  }

  /** A new task with a fresh id keeps the tree's ids unique. */
  lemma {:induction false} AddTaskKeepsUnique(cats: seq<Category>, cid: string, d: TaskDraft, tid: string)
    requires UniqueIds(cats) && FreshId(cats, tid)
    ensures forall x :: x in Ids(AppendTask(cats, cid, d, tid)) ==> x in Ids(cats) || x == tid
    ensures UniqueIds(AppendTask(cats, cid, d, tid))
  {
    if cats != [] {
      var c := cats[0];
      var r := AppendTask(cats, cid, d, tid);
      var head := [c.id] + TaskIds(c.tasks);
      assert r[1..] == AppendTask(cats[1..], cid, d, tid);
      DistinctConcat(head, Ids(cats[1..]));
      assert FreshId(cats[1..], tid);
      AddTaskKeepsUnique(cats[1..], cid, d, tid);
      assert Ids(r) == [r[0].id] + TaskIds(r[0].tasks) + Ids(r[1..]);
      if c.id == cid {
        var head' := head + [tid];
        assert TaskIds(r[0].tasks) == TaskIds(c.tasks) + [tid];
        assert [r[0].id] + TaskIds(r[0].tasks) == head';
        // the category id is unique, so no later category receives the task
        assert cid !in Ids(cats[1..]);
        forall i | 0 <= i < |cats[1..]| ensures cats[1..][i].id != cid {
          IdsContain(cats[1..], i);
        }
        AppendTaskUnknownIsNoop(cats[1..], cid, d, tid);
        DistinctConcat(head, [tid]);
        DistinctConcat(head', Ids(cats[1..]));
      } else {
        assert r[0] == c;
        DistinctConcat(head, Ids(r[1..]));
      }
    }
  }
}
