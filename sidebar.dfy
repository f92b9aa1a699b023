/**
 * The category sidebar: its local editing state and the handlers that
 * validate user input before calling the store. Names are trimmed and must
 * not be blank; a new category without a picked colour gets the default.
 */
module SidebarView {
  import opened Wrappers
  import opened JsString
  import opened Palette
  import opened TaskModel
  import opened StoreIds
  import opened TasksProvider

  /** JavaScript truthiness of a `string | null`: null and "" are false. */
  predicate Truthy(s: Option<string>) {
    s.Some? && s.value != ""
  }

  class Sidebar {
    var newCategory: string
    var isAdding: bool
    var editingId: Option<string>
    var editingName: string
    var editingColor: string

    constructor ()
      ensures newCategory == "" && !isAdding && editingId == None
      ensures editingName == "" && editingColor == ""
    {
      newCategory := "";
      isAdding := false;
      editingId := None;
      editingName := "";
      editingColor := "";
    }

    /** The "Add Category" button opens the input. */
    method OpenAdd()
      modifies this`isAdding
      ensures isAdding
    {
      isAdding := true;
    }

    /** The "Cancel" button of the add panel closes it and keeps what was typed. */
    method CancelAdd()
      modifies this`isAdding
      ensures !isAdding
    {
      isAdding := false;
    }

    /** Typing in the new-category input. */
    method TypeNewCategory(text: string)
      modifies this`newCategory
      ensures newCategory == text
    {
      newCategory := text;
    }

    /** Typing in the rename input. */
    method TypeEditingName(text: string)
      modifies this`editingName
      ensures editingName == text
    {
      editingName := text;
    }

    /** A colour swatch; the add panel and the rename panel share `editingColor`. */
    method PickColor(color: string)
      modifies this`editingColor
      ensures editingColor == color
    {
      editingColor := color;
    }

    /**
     * `handleAddCategory`: when the typed name is not blank, add a category
     * with the trimmed name and the picked colour (the default if none was
     * picked), then clear the input and the colour and close the panel.
     * A blank name changes nothing.
     */
    method HandleAddCategory(store: TaskStore, freshId: string)
      requires FreshId(store.categories, freshId)
      modifies this, store
      ensures !IsBlank(old(newCategory)) ==>
        store.categories == AppendCategory(old(store.categories), freshId, Trim(old(newCategory)), OrDefault(old(editingColor)))
        && store.activeCategory == Some(freshId)
        && store.showCongratulations == old(store.showCongratulations)
        && newCategory == "" && editingColor == "" && !isAdding
        && editingId == old(editingId) && editingName == old(editingName)
      ensures IsBlank(old(newCategory)) ==> unchanged(this) && unchanged(store)
      ensures old(store.Valid()) ==> store.Valid()
    {
      TrimEmptyIffBlank(newCategory);
      if Trim(newCategory) != "" {
        store.AddCategory(Trim(newCategory), OrDefault(editingColor), freshId);
        newCategory := "";
        editingColor := "";
        isAdding := false;
      }
    }

    /** `startEditing`: open the rename panel on a category, with its name and colour. */
    method StartEditing(id: string, name: string, color: string)
      modifies this`editingId, this`editingName, this`editingColor
      ensures editingId == Some(id) && editingName == name && editingColor == color
    {
      editingId := Some(id);
      editingName := name;
      editingColor := color;
    }

    /** The edit button of a listed category, which falls back to the default colour. */
    method EditCategory(category: Category)
      modifies this`editingId, this`editingName, this`editingColor
      ensures editingId == Some(category.id) && editingName == category.name
      ensures editingColor == OrDefault(category.color)
    {
      StartEditing(category.id, category.name, OrDefault(category.color));
    }

    /** The "Cancel" button of the rename panel. */
    method CancelEditing()
      modifies this`editingId
      ensures editingId == None
    {
      editingId := None;
    }

    /**
     * `handleUpdateCategory`: when a category is being edited and the typed
     * name is not blank, rename it to the trimmed name with the picked
     * colour and close the rename panel. Otherwise nothing changes.
     */
    method HandleUpdateCategory(store: TaskStore)
      modifies this, store
      ensures Truthy(old(editingId)) && !IsBlank(old(editingName)) ==>
        store.categories == RenameCategory(old(store.categories), old(editingId).value, Trim(old(editingName)), old(editingColor))
        && store.activeCategory == old(store.activeCategory)
        && store.showCongratulations == old(store.showCongratulations)
        && editingId == None
        && editingName == old(editingName) && editingColor == old(editingColor)
        && newCategory == old(newCategory) && isAdding == old(isAdding)
      ensures !(Truthy(old(editingId)) && !IsBlank(old(editingName))) ==> unchanged(this) && unchanged(store)
      ensures old(store.Valid()) ==> store.Valid()
    {
      TrimEmptyIffBlank(editingName);
      if Truthy(editingId) && Trim(editingName) != "" {
        store.UpdateCategory(editingId.value, Trim(editingName), editingColor);
        editingId := None;
      }
    }

    /** Clicking a listed category makes it the active one; it always exists. */
    method SelectCategory(store: TaskStore, k: nat)
      requires k < |store.categories|
      modifies store
      ensures store.activeCategory == Some(old(store.categories)[k].id)
      ensures store.categories == old(store.categories)
      ensures store.showCongratulations == old(store.showCongratulations)
      ensures old(store.Valid()) ==> store.Valid()
    {
      assert CategoryIds(store.categories)[k] == store.categories[k].id;
      store.SetActiveCategory(Some(store.categories[k].id));
    }

    /** The delete button of a listed category. */
    method DeleteCategory(store: TaskStore, k: nat)
      requires k < |store.categories|
      modifies store
      ensures store.categories == RemoveCategory(old(store.categories), old(store.categories)[k].id)
      ensures store.activeCategory == ActiveAfterDelete(old(store.categories), old(store.activeCategory), old(store.categories)[k].id)
      ensures store.showCongratulations == old(store.showCongratulations)
      ensures old(store.Valid()) ==> store.Valid()
    {
      store.DeleteCategory(store.categories[k].id);
    }
  }
}
