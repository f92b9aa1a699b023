# To-do store: a verified model

This project models the state store of a browser to-do application and the
three view components that validate input in front of it.

Users sort tasks into named, coloured categories. A **task** has an id, name,
description, due date, priority (low, medium or high), colour and a `completed`
flag. A **category** has an id, name, colour and an ordered list of tasks. The
**store** holds three things:

- `categories`, the ordered category tree;
- `activeCategory`, the id of the category on screen, or null;
- `showCongratulations`, the flag that opens the "all tasks done" celebration.

Every store operation that changes the tree replaces it whole with an append,
a `map` or a `filter` of the old one; the two setters replace the cursor or the
flag. Toggling a task also checks whether that category is now non-empty
and fully completed, and if so raises the flag.

Layout, one module per concern:

| file | module | models |
|---|---|---|
| `wrappers.dfy` | `Wrappers` | `Option`, for `T \| null` and `T \| undefined` |
| `seqs.dfy` | `Seqs` | `Array.prototype.map` and `filter` as recursive functions, plus subsequence and duplicate-freedom facts |
| `js_string.dfy` | `JsString` | `String.prototype.trim`, with the ECMAScript white-space set |
| `palette.dfy` | `Palette` | the seven-colour palette and the `x \|\| COLORS[0]` fallback |
| `task_model.dfy` | `TaskModel` | the data model and the new tree each store operation computes |
| `store_ids.dfy` | `StoreIds` | the invariant that no id occurs twice in the tree, proved for every operation |
| `tasks_provider.dfy` | `TasksProvider` | class `TaskStore`: the three state variables and the operations that replace them |
| `sidebar.dfy` | `SidebarView` | class `Sidebar`: the add and rename panels and their guards |
| `task_form.dfy` | `TaskFormView` | the task form's initial values, its submit rule, and class `TaskForm` |
| `tasks_area.dfy` | `TasksAreaView` | which category is shown, and its completed/total counter |

Behaviour worth knowing, as the code has it:

- The store checks nothing. Blank names are rejected only by the sidebar and
  the task form. Unknown category or task ids leave the tree unchanged, but
  `deleteCategory` still moves a cursor that holds the unknown id to the first
  remaining category (components/tasks-provider.tsx:89-91).
- `updateTask` replaces every task with the given id, whole. It does not check
  that such a task exists.
- The celebration flag follows the category that was toggled, not the active
  one. The check runs on every toggle, including one whose task id matches
  nothing. Only the view lowers the flag. Adding or deleting a task never
  lowers it.
- The `allCompleted` variable is written once for every category whose id
  matches, so with duplicate category ids the last match decides.
  `ToggleSignal` models exactly this. Under the unique-ids invariant it equals
  the toggled category's post-toggle state.
- The add panel and the rename panel of the sidebar share `editingColor`.
  Start a rename, cancel it, then add a category without picking a colour: the
  new category takes the renamed category's colour, not the default.
- A task's stored name is the untrimmed input. Trimming only decides whether a
  submit is accepted. Category names are stored trimmed.

## Model

| member | source | states |
|---|---|---|
| `Seqs.Map` | components/tasks-provider.tsx:84 | the result has the input's length and, at each position, the callback applied to that element |
| `Seqs.Filter` | components/tasks-provider.tsx:88 | the result keeps exactly the wanted elements, each as often as in the input, in the input's order |
| `Seqs.FilterLength` | components/tasks-area.tsx:20 | a filter never lengthens the input, and keeps its length exactly when every element is wanted |
| `Seqs.FilterAll` | components/tasks-provider.tsx:129 | a filter that wants every element returns its input unchanged |
| `Seqs.FilterHead` | components/tasks-provider.tsx:90-91 | a filter is empty iff nothing is wanted; otherwise its head is the first wanted element of the input |
| `Seqs.SubsequenceDistinct` | components/tasks-provider.tsx:129 | leaving elements out of a duplicate-free sequence cannot create a duplicate |
| `Seqs.DistinctConcat` | components/tasks-provider.tsx:79 | a concatenation is duplicate-free iff both parts are and they share no element |
| `JsString.TrimStart` | components/sidebar.tsx:30 | the result is a suffix of the input, the cut-off prefix is all white space, and the result does not start with white space |
| `JsString.TrimEnd` | components/sidebar.tsx:30 | the result is a prefix of the input, the cut-off suffix is all white space, and the result does not end with white space |
| `JsString.Trim` | components/sidebar.tsx:30 | trim never lengthens the string, and its result neither starts nor ends with white space |
| `JsString.TrimIsSlice` | components/sidebar.tsx:31 | trim returns a contiguous piece of the input, and only white space is cut on either side |
| `JsString.TrimEmptyIffBlank` | components/sidebar.tsx:30 | the guard `if (x.trim())` fails exactly when every character of `x` is white space |
| `JsString.TrimIdempotent` | components/sidebar.tsx:45-46 | trimming an already trimmed name changes nothing |
| `Palette.OrDefault` | components/sidebar.tsx:31 | the colour is never empty: the given colour if non-empty, else `COLORS[0]` |
| `TaskModel.NewTask` | components/tasks-provider.tsx:101 | a new task has the generated id, `completed == false`, and exactly the caller's other fields |
| `TaskModel.CategoryIds` | components/tasks-provider.tsx:84 | the ids of the categories, position by position |
| `TaskModel.AppendCategory` | components/tasks-provider.tsx:72-79 | exactly one category is appended at the end, with the given id, name and colour and no tasks; the earlier categories are unchanged and in order |
| `TaskModel.RenameCategory` | components/tasks-provider.tsx:83-85 | length and order are kept, ids and tasks are never changed, matching categories get the new name and colour, and all others are unchanged |
| `TaskModel.RenameUnknownIsNoop` | components/tasks-provider.tsx:84 | with an unknown id the tree is unchanged |
| `TaskModel.RemoveCategory` | components/tasks-provider.tsx:87-88 | every category with the id is gone, with its tasks; every other category stays, as often as before, in the original order |
| `TaskModel.RemoveUnknownCategoryIsNoop` | components/tasks-provider.tsx:88 | deleting an id no category has leaves the tree unchanged |
| `TaskModel.RemoveCategoryHead` | components/tasks-provider.tsx:90-91 | the remaining list is empty iff every category had the id; otherwise its head is the first category with another id |
| `TaskModel.ActiveAfterDelete` | components/tasks-provider.tsx:89-92 | deleting the active category moves the cursor to the first category with another id, or to null if none; any other cursor is unchanged |
| `TaskModel.DeleteKeepsActiveResolved` | components/tasks-provider.tsx:87-92 | if the cursor named an existing category before a delete, it is null or names an existing category after it |
| `TaskModel.DeleteUnknownActiveMovesCursor` | components/tasks-provider.tsx:87-92 | deleting an id no category has leaves the tree equal, yet a cursor holding that id moves to the first category, or to null when there are none |
| `TaskModel.AppendTask` | components/tasks-provider.tsx:95-107 | the named category gets one new task at the end and keeps its existing tasks; every category keeps its id, name and colour; other categories are unchanged |
| `TaskModel.AppendTaskUnknownIsNoop` | components/tasks-provider.tsx:97-104 | adding a task to an unknown category changes nothing |
| `TaskModel.ReplaceTasks` | components/tasks-provider.tsx:115 | every task with the supplied id is replaced whole, in place; the others are unchanged; ids and length are kept |
| `TaskModel.UpdateTaskIn` | components/tasks-provider.tsx:109-121 | the replacement happens inside the named category only; every other category is unchanged |
| `TaskModel.UpdateUnknownIsNoop` | components/tasks-provider.tsx:109-121 | if no task of the named category has the id, the tree is unchanged |
| `TaskModel.RemoveTasks` | components/tasks-provider.tsx:129 | exactly the tasks with the id are removed; every other task stays, as often as before, in order |
| `TaskModel.DeleteTaskIn` | components/tasks-provider.tsx:123-135 | the removal happens inside the named category only; every other category is unchanged |
| `TaskModel.DeleteUnknownIsNoop` | components/tasks-provider.tsx:123-135 | if no task of the named category has the id, or the category is unknown, the tree is unchanged |
| `TaskModel.ToggleTasks` | components/tasks-provider.tsx:143-145 | `completed` is negated exactly on the tasks with the id; no other field of any task changes |
| `TaskModel.ToggleIn` | components/tasks-provider.tsx:140-157 | the toggle happens inside the named category only; every other category is unchanged |
| `TaskModel.ToggleKeepsCategoryIds` | components/tasks-provider.tsx:140-157 | a toggle keeps every category id in its place |
| `TaskModel.CompletedOnly` | components/tasks-area.tsx:20 | `tasks.filter(t => t.completed)`: every completed task is kept as often as it occurs and every other one dropped, in order; so never longer than the list, and as long exactly when every task is completed |
| `TaskModel.AllCompleted` | components/tasks-provider.tsx:148 | `length > 0 && every(completed)`: the list is non-empty and every task in it is completed |
| `TaskModel.AllCompletedIsFullCounter` | components/tasks-provider.tsx:148 | all completed exactly when the list is non-empty and its completed filter loses nothing |
| `TaskModel.ToggleSignal` | components/tasks-provider.tsx:138-148 | the final `allCompleted` is true only if some category with the id is non-empty and fully completed after the toggle |
| `TaskModel.ToggleSignalIsLastMatch` | components/tasks-provider.tsx:138-148 | the final `allCompleted` is true exactly when the last category with the id is non-empty and fully completed after the toggle; with no such category it stays false |
| `TaskModel.DecidesSignalInPrefix` | components/tasks-provider.tsx:141-155 | a category with another id does not write `allCompleted`, so the deciding category lies among the earlier ones |
| `TaskModel.ToggleStep` | components/tasks-provider.tsx:141-156 | how the new tree and `allCompleted` grow as the map visits one more category |
| `TaskModel.ToggleTasksTwice` | components/tasks-provider.tsx:143-145 | toggling the same task id twice restores the task list |
| `TaskModel.ToggleTwiceRestores` | components/tasks-provider.tsx:137-157 | toggling the same task twice restores the whole tree |
| `TaskModel.ToggleSignalIsTargetState` | components/tasks-provider.tsx:137-163 | with distinct category ids, the toggle raises the flag iff the toggled category's tasks are non-empty and all completed after the toggle |
| `TaskModel.ToggleSignalUnknownCategory` | components/tasks-provider.tsx:138 | a toggle naming no category never raises the flag |
| `TaskModel.ToggleEmptyCategoryNoSignal` | components/tasks-provider.tsx:148 | a toggle in a category with no tasks never raises the flag |
| `TaskModel.ToggleUnknownTaskStillSignals` | components/tasks-provider.tsx:143-148 | a toggle whose task id matches nothing leaves the tree unchanged, yet raises the flag iff the category is non-empty and all completed |
| `StoreIds.TaskIds` | components/tasks-provider.tsx:115 | the ids of the tasks, position by position |
| `StoreIds.UniqueIdsCategories` | components/tasks-provider.tsx:84 | unique ids in the tree imply distinct category ids |
| `StoreIds.UniqueIdsTasks` | components/tasks-provider.tsx:115 | unique ids in the tree imply distinct task ids within each category |
| `StoreIds.AddCategoryKeepsUnique` | components/tasks-provider.tsx:72-81 | adding a category with a fresh id keeps every id unique |
| `StoreIds.RenameCategoryKeepsUnique` | components/tasks-provider.tsx:83-85 | renaming keeps every id unique |
| `StoreIds.RemoveCategoryKeepsUnique` | components/tasks-provider.tsx:87-88 | deleting a category keeps every id unique |
| `StoreIds.AddTaskKeepsUnique` | components/tasks-provider.tsx:95-107 | adding a task with a fresh id keeps every id unique, and introduces no id but that one |
| `StoreIds.UpdateTaskKeepsUnique` | components/tasks-provider.tsx:109-121 | replacing tasks by id keeps every id unique |
| `StoreIds.DeleteTaskKeepsUnique` | components/tasks-provider.tsx:123-135 | deleting tasks keeps every id unique |
| `StoreIds.ToggleKeepsUnique` | components/tasks-provider.tsx:137-157 | toggling keeps every id unique |
| `TasksProvider.TaskStore.constructor` | components/tasks-provider.tsx:43-45 | the store starts with no categories, a null cursor and the flag off, satisfying the invariant |
| `TasksProvider.TaskStore.SetActiveCategory` | components/tasks-provider.tsx:44 | only the cursor changes, with no check that the id exists; the invariant holds iff the id resolves |
| `TasksProvider.TaskStore.SetShowCongratulations` | components/tasks-provider.tsx:45 | only the flag changes |
| `TasksProvider.TaskStore.AddCategory` | components/tasks-provider.tsx:72-81 | the tree becomes `AppendCategory` of the old tree, the new id becomes active, the flag is kept, and the invariant is preserved |
| `TasksProvider.TaskStore.UpdateCategory` | components/tasks-provider.tsx:83-85 | the tree becomes `RenameCategory` of the old tree; the cursor and flag are kept; the invariant is preserved |
| `TasksProvider.TaskStore.DeleteCategory` | components/tasks-provider.tsx:87-93 | the tree becomes `RemoveCategory` of the old tree, the cursor becomes `ActiveAfterDelete`, and the invariant is preserved |
| `TasksProvider.TaskStore.AddTask` | components/tasks-provider.tsx:95-107 | the tree becomes `AppendTask` of the old tree with the fresh id; the cursor and flag are kept; the invariant is preserved |
| `TasksProvider.TaskStore.UpdateTask` | components/tasks-provider.tsx:109-121 | the tree becomes `UpdateTaskIn` of the old tree; the cursor and flag are kept; the invariant is preserved |
| `TasksProvider.TaskStore.DeleteTask` | components/tasks-provider.tsx:123-135 | the tree becomes `DeleteTaskIn` of the old tree; the cursor and flag are kept; the invariant is preserved |
| `TasksProvider.TaskStore.ToggleTaskCompletion` | components/tasks-provider.tsx:137-163 | the tree becomes `ToggleIn` of the old tree; the flag becomes old flag or `ToggleSignal`, so it is never lowered; the cursor is kept; the invariant is preserved; and from a valid store the flag is set exactly when it was already set or the toggled category is now non-empty and fully completed |
| `TasksProvider.ToggleWalk` | components/tasks-provider.tsx:138-157 | the loop over the categories yields exactly the toggled tree `ToggleIn` and an `allCompleted` equal to `ToggleSignal`, the state of the last category with the id |
| `SidebarView.Sidebar.constructor` | components/sidebar.tsx:13-17 | the panels start closed, with empty input, no colour and no category being edited |
| `SidebarView.Sidebar.OpenAdd` | components/sidebar.tsx:99 | the add panel opens |
| `SidebarView.Sidebar.CancelAdd` | components/sidebar.tsx:83 | the add panel closes; the typed name is kept |
| `SidebarView.Sidebar.TypeNewCategory` | components/sidebar.tsx:59 | the new-category input holds what was typed |
| `SidebarView.Sidebar.TypeEditingName` | components/sidebar.tsx:114 | the rename input holds what was typed |
| `SidebarView.Sidebar.PickColor` | components/sidebar.tsx:75 | the picked swatch becomes `editingColor`, which both panels share |
| `SidebarView.Sidebar.HandleAddCategory` | components/sidebar.tsx:29-36 | when the name is not blank: one category is added with the trimmed name and the picked or default colour, then the input and colour are cleared and the panel closes. A blank name changes nothing anywhere |
| `SidebarView.Sidebar.StartEditing` | components/sidebar.tsx:38-42 | the editing id, name and colour become exactly the given ones |
| `SidebarView.Sidebar.EditCategory` | components/sidebar.tsx:176-179 | editing a listed category copies its id and name, and its colour or the default |
| `SidebarView.Sidebar.CancelEditing` | components/sidebar.tsx:137 | the rename panel closes |
| `SidebarView.Sidebar.HandleUpdateCategory` | components/sidebar.tsx:44-49 | when a category is being edited and the name is not blank: that category is renamed to the trimmed name with the editing colour, and the panel closes. Otherwise nothing changes anywhere |
| `SidebarView.Sidebar.SelectCategory` | components/sidebar.tsx:159 | clicking a listed category makes it active, and the cursor then resolves; the tree and the flag are unchanged |
| `SidebarView.Sidebar.DeleteCategory` | components/sidebar.tsx:187-190 | the delete button deletes that listed category through the store; the cursor moves as `ActiveAfterDelete` says and the flag is unchanged |
| `TaskFormView.InitialFields` | components/task-form.tsx:38-42 | a new task starts with empty name and description, today's date, medium priority and `COLORS[0]`; an edited task starts from its own values, with the same fallbacks for an empty date or colour |
| `TaskFormView.Submission` | components/task-form.tsx:44-61 | a submit is rejected iff the name is blank or there is no date. An edit keeps the task's id and completion and takes every other field, name untrimmed, from the form. A new task passes exactly name, description, date, priority and colour |
| `TaskFormView.EditReplacesInPlace` | components/task-form.tsx:57-58 | saving an edit of a task in the category changes exactly that task, in its position, keeping its id and completion |
| `TaskFormView.TaskForm.constructor` | components/task-form.tsx:38-42 | the form's fields start as `InitialFields` |
| `TaskFormView.TaskForm.SetName` | components/task-form.tsx:95 | the name field holds what was typed |
| `TaskFormView.TaskForm.SetDescription` | components/task-form.tsx:106 | the description field holds what was typed |
| `TaskFormView.TaskForm.SetDate` | components/task-form.tsx:128 | the date field holds the picked day, or nothing when the selection is cleared |
| `TaskFormView.TaskForm.SetPriority` | components/task-form.tsx:134 | the priority field holds the chosen priority |
| `TaskFormView.TaskForm.SetColor` | components/task-form.tsx:175 | the colour field holds the picked swatch |
| `TaskFormView.TaskForm.Close` | components/task-form.tsx:83 | the close button calls `onClose` once, without saving |
| `TaskFormView.TaskForm.HandleSubmit` | components/task-form.tsx:44-64 | a rejected submit changes nothing and does not close. An accepted one makes the one store call that `Submission` names and calls `onClose` exactly once |
| `TasksAreaView.FindActive` | components/tasks-area.tsx:16 | no category is found iff the cursor is null or matches no category id; a found category is in the tree and has the cursor's id |
| `TasksAreaView.FindActiveIsFirst` | components/tasks-area.tsx:16 | the found category is the first one with the cursor's id |
| `TasksAreaView.TotalTasks` | components/tasks-area.tsx:19 | 0 when no category is shown; otherwise the task count of the category `find` returns, the first with the active id |
| `TasksAreaView.CompletedTasks` | components/tasks-area.tsx:20 | 0 when no category is shown; otherwise the number of completed tasks of the category `find` returns; never more than the total |
| `TasksAreaView.CounterBounds` | components/tasks-area.tsx:19-20 | completed equals total exactly when every task of the shown category is completed (0/0 when none is shown) |
| `TasksAreaView.CounterAgreesWithSignal` | components/tasks-area.tsx:19-20 | after a toggle in an existing category, the flag is raised iff that category's counter then reads n/n with n > 0 |
| `TasksAreaView.ShownIsToggled` | components/tasks-area.tsx:16 | with distinct category ids, after a toggle `find` on the toggled id returns the toggled category |

## Left out

- TaskModel.AppendTask: gives the one generated id to every category with the
  named id. The source calls `uuidv4()` once per matching category (line 101),
  so with duplicate category ids it would create different task ids. The
  unique-ids invariant that every store operation preserves rules this case
  out.
- Persistence (components/tasks-provider.tsx:47-70) is not modelled. This is
  loading and saving through `localStorage` with `JSON.parse`/`JSON.stringify`.
  It is browser I/O and a library serializer. The code writes `activeCategory`
  back only when it is non-null (line 67). A corrupt saved tree makes
  `JSON.parse` throw, so it is not a soft reset.
- The store invariant (`TasksProvider.TaskStore.Valid`, with `ActiveResolves`)
  is established by the constructor only. After a reload, the saved cursor can
  name a category that no longer exists (components/tasks-provider.tsx:56-57
  restore it, and line 67 never overwrites it with null after the last
  category is deleted), so the model does not guarantee `ActiveResolves` for a
  reloaded store.
- `uuidv4` is not modelled. Each generated id is an argument and must be
  fresh, meaning it occurs nowhere in the tree (`StoreIds.FreshId`).
- TasksProvider.TaskStore.AddCategory and TasksProvider.TaskStore.AddTask
  require `FreshId`, which the source gets from uuid generation rather than
  from a check.
- The React context, hooks and the throw in `useTasks`
  (components/tasks-provider.tsx:187-193) are framework plumbing.
- Batched React state updates are not modelled. Each store operation computes
  from the `categories` captured at render time. The model applies operations
  one after another, as separate events do.
- Dates are opaque strings. `new Date()` is the `now` argument of
  `TaskFormView.InitialFields`. `new Date(task.date).toISOString()` is taken as
  the identity, so an unparsable stored date, on which `toISOString` throws, is
  not modelled. `date-fns` formatting is left out.
- TaskFormView.TaskForm.HandleSubmit: its contract does not state that
  `onClose` comes after the store call. The body makes the calls in that
  order, but the model has no observer that could tell the difference.
- Rendering and JSX are not modelled. This includes components/task-card.tsx,
  which only forwards toggle and delete clicks to the store and maps priority
  to a CSS class. It also includes the congratulations modal, whose close
  calls `setShowCongratulations(false)`; that setter is
  `TasksProvider.TaskStore.SetShowCongratulations`.
- Decorative and static components have no store logic, so they are not
  modelled: the animated background, confetti, congratulations animation,
  theme toggle, header and app layout. They use canvas drawing, timers,
  `Math.random` and floating point.
