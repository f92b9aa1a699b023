/**
 * The task store: the three pieces of state the provider holds
 * (`categories`, `activeCategory`, `showCongratulations`) and the
 * operations that replace them. Each operation computes the new tree with
 * the functions of TaskModel; the generated id of a new category or task
 * is an argument that must be fresh.
 */
module TasksProvider {
  import opened Wrappers
  import opened Seqs
  import opened TaskModel
  import opened StoreIds

  class TaskStore {
    var categories: seq<Category>
    var activeCategory: Option<string>
    var showCongratulations: bool

    /** What the store keeps true: ids unique in the tree, the active category never dangling. */
    ghost predicate Valid()
      reads this
    {
      UniqueIds(categories) && ActiveResolves(categories, activeCategory)
    }

    /** The initial state: no categories, nothing active, no celebration pending. */
    constructor ()
      ensures categories == [] && activeCategory == None && !showCongratulations
      ensures Valid()
    {
      categories := [];
      activeCategory := None;
      showCongratulations := false;
    }

    /** `setActiveCategory`: no check that the id exists. */
    method SetActiveCategory(id: Option<string>)
      modifies this
      ensures activeCategory == id
      ensures categories == old(categories) && showCongratulations == old(showCongratulations)
      ensures old(UniqueIds(categories)) && ActiveResolves(categories, id) ==> Valid()
    {
      activeCategory := id;
    }

    /** `setShowCongratulations`, which the view uses to dismiss the celebration. */
    method SetShowCongratulations(show: bool)
      modifies this
      ensures showCongratulations == show
      ensures categories == old(categories) && activeCategory == old(activeCategory)
    {
      showCongratulations := show;
    }

    /** `addCategory`: append a new empty category and make it the active one. */
    method AddCategory(name: string, color: string, freshId: string)
      requires FreshId(categories, freshId)
      modifies this
      ensures categories == AppendCategory(old(categories), freshId, name, color)
      ensures activeCategory == Some(freshId)
      ensures showCongratulations == old(showCongratulations)
      ensures old(Valid()) ==> Valid()
    {
      if Valid() {
        AddCategoryKeepsUnique(categories, freshId, name, color);
      }
      categories := AppendCategory(categories, freshId, name, color);
      activeCategory := Some(freshId);
      assert CategoryIds(categories)[|categories| - 1] == freshId;
    }

    /** `updateCategory`: new name and colour for the category with that id. */
    method UpdateCategory(id: string, name: string, color: string)
      modifies this
      ensures categories == RenameCategory(old(categories), id, name, color)
      ensures activeCategory == old(activeCategory)
      ensures showCongratulations == old(showCongratulations)
      ensures old(Valid()) ==> Valid()
    {
      if Valid() {
        RenameCategoryKeepsUnique(categories, id, name, color);
      }
      var oldIds := CategoryIds(categories);
      categories := RenameCategory(categories, id, name, color);
      assert CategoryIds(categories) == oldIds;
    }

    /** `deleteCategory`: drop the category and its tasks; move the cursor off it if it was active. */
    method DeleteCategory(id: string)
      modifies this
      ensures categories == RemoveCategory(old(categories), id)
      ensures activeCategory == ActiveAfterDelete(old(categories), old(activeCategory), id)
      ensures showCongratulations == old(showCongratulations)
      ensures old(Valid()) ==> Valid()
    {
      if Valid() {
        RemoveCategoryKeepsUnique(categories, id);
        DeleteKeepsActiveResolved(categories, activeCategory, id);
      }
      var remaining := RemoveCategory(categories, id);
      var newActive := activeCategory;
      if activeCategory == Some(id) {
        newActive := if |remaining| > 0 then Some(remaining[0].id) else None;
      }
      categories := remaining;
      activeCategory := newActive;
    }

    /** `addTask`: append a new, not yet completed task to the category with that id. */
    method AddTask(categoryId: string, draft: TaskDraft, freshId: string)
      requires FreshId(categories, freshId)
      modifies this
      ensures categories == AppendTask(old(categories), categoryId, draft, freshId)
      ensures activeCategory == old(activeCategory)
      ensures showCongratulations == old(showCongratulations)
      ensures old(Valid()) ==> Valid()
    {
      if Valid() {
        AddTaskKeepsUnique(categories, categoryId, draft, freshId);
      }
      var oldIds := CategoryIds(categories);
      categories := AppendTask(categories, categoryId, draft, freshId);
      assert CategoryIds(categories) == oldIds;
    }

    /** `updateTask`: put `task` in place of every task with its id, in that category only. */
    method UpdateTask(categoryId: string, task: Task)
      modifies this
      ensures categories == UpdateTaskIn(old(categories), categoryId, task)
      ensures activeCategory == old(activeCategory)
      ensures showCongratulations == old(showCongratulations)
      ensures old(Valid()) ==> Valid()
    {
      if Valid() {
        UpdateTaskKeepsUnique(categories, categoryId, task);
      }
      var oldIds := CategoryIds(categories);
      categories := UpdateTaskIn(categories, categoryId, task);
      assert CategoryIds(categories) == oldIds;
    }

    /** `deleteTask`: drop the tasks with that id from that category only. */
    method DeleteTask(categoryId: string, taskId: string)
      modifies this
      ensures categories == DeleteTaskIn(old(categories), categoryId, taskId)
      ensures activeCategory == old(activeCategory)
      ensures showCongratulations == old(showCongratulations)
      ensures old(Valid()) ==> Valid()
    {
      if Valid() {
        DeleteTaskKeepsUnique(categories, categoryId, taskId);
      }
      var oldIds := CategoryIds(categories);
      categories := DeleteTaskIn(categories, categoryId, taskId);
      assert CategoryIds(categories) == oldIds;
    }

    /**
     * `toggleTaskCompletion`: flip one task's `completed`, and raise
     * `showCongratulations` when the walk over the categories found the
     * toggled category non-empty and fully completed. The flag is never
     * lowered here.
     */
    method ToggleTaskCompletion(categoryId: string, taskId: string)
      modifies this`categories, this`showCongratulations
      ensures categories == ToggleIn(old(categories), categoryId, taskId)
      ensures showCongratulations == (old(showCongratulations) || ToggleSignal(old(categories), categoryId, taskId))
      ensures activeCategory == old(activeCategory)
      ensures old(Valid()) ==> Valid()
      ensures old(Valid()) ==> forall k :: 0 <= k < |categories| && categories[k].id == categoryId ==>
        (showCongratulations <==> old(showCongratulations) || AllCompleted(categories[k].tasks))
    {
      if Valid() {
        UniqueIdsCategories(categories);
        forall k | 0 <= k < |categories| && categories[k].id == categoryId {
          ToggleSignalIsTargetState(categories, categoryId, taskId, k);
        }
      }
      var updated, allCompleted := ToggleWalk(categories, categoryId, taskId);
      ToggleKeepsUnique(categories, categoryId, taskId);
      ToggleKeepsCategoryIds(categories, categoryId, taskId);
      categories := updated;
      if allCompleted {
        showCongratulations := true;
      }
    }
  }

  /**
   * The `categories.map` callback of `toggleTaskCompletion`, run over every
   * category in order: it toggles the task in each category with the id and
   * overwrites `allCompleted` with that category's new state, so the last
   * matching category decides.
   */
  method ToggleWalk(categories: seq<Category>, categoryId: string, taskId: string)
    returns (updated: seq<Category>, allCompleted: bool)
    ensures updated == ToggleIn(categories, categoryId, taskId)
    ensures allCompleted == ToggleSignal(categories, categoryId, taskId)
  {
    allCompleted := false;
    updated := [];
    var i := 0;
    while i < |categories|
      invariant 0 <= i <= |categories|
      invariant updated == ToggleIn(categories[..i], categoryId, taskId)
      invariant allCompleted == ToggleSignal(categories[..i], categoryId, taskId)
    {
      var category := categories[i];
      assert categories[..i + 1] == categories[..i] + [category];
      ToggleStep(categories[..i], category, categoryId, taskId);
      if category.id == categoryId {
        var updatedTasks := ToggleTasks(category.tasks, taskId);
        allCompleted := AllCompleted(updatedTasks);
        updated := updated + [category.(tasks := updatedTasks)];
      } else {
        updated := updated + [category];
      }
      i := i + 1;
    }
    assert categories[..i] == categories;
  }
}
