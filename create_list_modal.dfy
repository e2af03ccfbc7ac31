/** The "create a new todo list" dialog: its form state and `handleSubmit`. */
module CreateListModal {
  import opened Types
  import opened JsString
  import opened Store

  class CreateListModal {
    const store: TodoStore
    var title: string
    var description: string
    var isPublic: bool
    var closeCount: nat               // how often `onClose` was called
    var navigatedTo: Option<string>   // the last `navigate` target

    constructor (store: TodoStore)
      ensures this.store == store
      ensures title == "" && description == "" && !isPublic
      ensures closeCount == 0 && navigatedTo == None
    {
      this.store := store;
      title := "";
      description := "";
      isPublic := false;
      closeCount := 0;
      navigatedTo := None;
    }

    /** `handleSubmit`; `newId` and `now` stand for `uuidv4()` and the clock. */
    method HandleSubmit(newId: string, now: Timestamp)
      requires forall k :: 0 <= k < |store.lists| ==> store.lists[k].id != newId
      modifies this, store`lists, store`currentList
      ensures IsBlank(old(title)) ==>
        && title == old(title) && description == old(description) && isPublic == old(isPublic)
        && closeCount == old(closeCount) && navigatedTo == old(navigatedTo)
        && store.lists == old(store.lists) && store.currentList == old(store.currentList)
      ensures !IsBlank(old(title)) ==>
        var created := TodoList(newId, old(title), old(description), old(isPublic), [], now, store.currentUser.id, []);
        && store.lists == old(store.lists) + [created]
        && store.currentList == Some(created)
        && closeCount == old(closeCount) + 1
        && title == "" && description == "" && !isPublic
        && navigatedTo == Some("/list/" + newId)
      ensures old(store.Valid()) ==> store.Valid()
    {
      if IsBlank(title) {
        return;
      }
      var newList := store.CreateList(title, description, isPublic, newId, now);
      closeCount := closeCount + 1;
      title := "";
      description := "";
      isPublic := false;
      navigatedTo := Some("/list/" + newList.id);
    }
  }
}
