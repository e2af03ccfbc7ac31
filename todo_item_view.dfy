/** One row of the item list: a two-state machine (viewing or editing)
    over the edited text, wired to the store's item actions. */
module TodoItemView {
  import opened Types
  import opened JsString
  import opened Store

  class TodoItemView {
    const store: TodoStore
    const listId: string
    var item: TodoItem          // the current `item` prop
    var isEditing: bool
    var editedContent: string

    constructor (store: TodoStore, listId: string, item: TodoItem)
      ensures this.store == store && this.listId == listId && this.item == item
      ensures !isEditing && editedContent == item.content
    {
      this.store := store;
      this.listId := listId;
      this.item := item;
      isEditing := false;
      editedContent := item.content;
    }

    /** A re-render with the same key passes a new `item` prop and keeps the
        component state. */
    method ReceiveItem(newItem: TodoItem)
      requires newItem.id == item.id
      modifies this`item
      ensures item == newItem
    {
      item := newItem;
    }

    method HandleToggle()
      modifies store`lists, store`currentList
      ensures store.lists == EditLists(old(store.lists), listId, EditItemWhere(item.id, Toggle))
      ensures store.currentList == EditCurrent(old(store.currentList), listId, EditItemWhere(item.id, Toggle))
      ensures old(store.Valid()) ==> store.Valid()
    {
      store.ToggleTodoItem(listId, item.id);
    }

    method HandleEdit()
      modifies this`isEditing
      ensures isEditing
    {
      isEditing := true;
    }

    method HandleCancel()
      modifies this`isEditing, this`editedContent
      ensures !isEditing && editedContent == item.content
    {
      isEditing := false;
      editedContent := item.content;
    }

    /** Blank text is refused and editing goes on; any other text, untrimmed,
        replaces the item's content and editing ends. */
    method HandleSave()
      modifies this`isEditing, store`lists, store`currentList
      ensures IsBlank(editedContent) ==>
        isEditing == old(isEditing) && store.lists == old(store.lists)
        && store.currentList == old(store.currentList)
      ensures !IsBlank(editedContent) ==>
        && !isEditing
        && store.lists == EditLists(old(store.lists), listId, EditItemWhere(item.id, SetContent(editedContent)))
        && store.currentList == EditCurrent(old(store.currentList), listId, EditItemWhere(item.id, SetContent(editedContent)))
      ensures old(store.Valid()) ==> store.Valid()
    {
      if !IsBlank(editedContent) {
        store.UpdateTodoItem(listId, item.id, editedContent);
        isEditing := false;
      }
    }

    /** Enter saves, Escape cancels, every other key does nothing. */
    method HandleKeyDown(key: string)
      modifies this`isEditing, this`editedContent, store`lists, store`currentList
      ensures key == "Enter" ==>
        && editedContent == old(editedContent)
        && (IsBlank(editedContent) ==>
              isEditing == old(isEditing) && store.lists == old(store.lists)
              && store.currentList == old(store.currentList))
        && (!IsBlank(editedContent) ==>
              && !isEditing
              && store.lists == EditLists(old(store.lists), listId, EditItemWhere(item.id, SetContent(editedContent)))
              && store.currentList == EditCurrent(old(store.currentList), listId, EditItemWhere(item.id, SetContent(editedContent))))
      ensures key == "Escape" ==>
        !isEditing && editedContent == item.content
        && store.lists == old(store.lists) && store.currentList == old(store.currentList)
      ensures key != "Enter" && key != "Escape" ==>
        isEditing == old(isEditing) && editedContent == old(editedContent)
        && store.lists == old(store.lists) && store.currentList == old(store.currentList)
      ensures old(store.Valid()) ==> store.Valid()
    {
      if key == "Enter" {
        HandleSave();
      } else if key == "Escape" {
        HandleCancel();
      }
    }

    method HandleDelete()
      modifies store`lists, store`currentList
      ensures store.lists == EditLists(old(store.lists), listId, RemoveItem(item.id))
      ensures store.currentList == EditCurrent(old(store.currentList), listId, RemoveItem(item.id))
      ensures old(store.Valid()) ==> store.Valid()
    {
      store.DeleteTodoItem(listId, item.id);
    }
  }
}
