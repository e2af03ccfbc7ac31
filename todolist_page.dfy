/** The page that shows one list: the items under the completion filter,
    the completed and total counts, and the handlers that guard the store
    against blank item content and blank titles. */
module TodoListPage {
  import opened Types
  import opened JsString
  import Seqs
  import opened Store

  /** The predicate `filteredTodos` passes to `filter` for each choice. */
  function Shows(filter: FilterOption): TodoItem -> bool
  {
    match filter
    case All => (i: TodoItem) => true
    case Active => (i: TodoItem) => !i.completed
    case Completed => (i: TodoItem) => i.completed
  }

  /** `filteredTodos`: the items the chosen tab shows, in their order. */
  function FilteredTodos(items: seq<TodoItem>, filter: FilterOption): (r: seq<TodoItem>)
    ensures Seqs.Subseq(r, items)
    ensures filter == FilterOption.All ==> r == items
    ensures filter == Active ==> forall i :: i in r <==> i in items && !i.completed
    ensures filter == Completed ==> forall i :: i in r <==> i in items && i.completed
  {
    Seqs.Filter(items, Shows(filter))
  }

  function CompletedCount(items: seq<TodoItem>): (n: nat)
    ensures n <= |items|
    ensures (forall k :: 0 <= k < |items| ==> !items[k].completed) ==> n == 0
  {
    |FilteredTodos(items, Completed)|
  }

  function TotalCount(items: seq<TodoItem>): nat
  {
    |items|
  }

  /** The `active` and `completed` tabs split the items between them, so
      the completed count never exceeds the total and "remaining" is the
      number of active items. */
  lemma TabsPartitionItems(items: seq<TodoItem>)
    ensures |FilteredTodos(items, Active)| + |FilteredTodos(items, Completed)| == TotalCount(items)
    ensures CompletedCount(items) <= TotalCount(items)
    ensures TotalCount(items) - CompletedCount(items) == |FilteredTodos(items, Active)|
  {
    Seqs.FilterSplit(items, Shows(FilterOption.All), Shows(Completed), Shows(Active));
  }

  /** `completionPercentage`: `Math.round(completed / total * 100)`, or 0
      for an empty list, on exact rationals; the percentage is the integer
      nearest to the exact one, halves rounded up. */
  function CompletionPercentage(completed: nat, total: nat): (p: nat)
    ensures total == 0 ==> p == 0
    ensures total > 0 ==> 200 * completed - total < 2 * p * total <= 200 * completed + total
    ensures completed <= total ==> p <= 100
    ensures 0 < total && completed == total ==> p == 100
  {
    if total == 0 then 0
    else
      RoundHalfUp(completed, total);
      (200 * completed + total) / (2 * total)
  }

  lemma RoundHalfUp(c: nat, t: nat)
    requires t > 0
    ensures var q := (200 * c + t) / (2 * t);
      && 200 * c - t < 2 * q * t <= 200 * c + t
      && (c <= t ==> q <= 100)
      && (c == t ==> q == 100)
  {
    var q := (200 * c + t) / (2 * t);
    RoundedQuotient(200 * c + t, 2 * t, q);
    if c <= t {
      assert 2 * t * q < 2 * t * 101;
      LessTimes(q, 101, 2 * t);
    }
    if c == t {
      assert 2 * t * 99 < 2 * t * q;
      LessTimes(99, q, 2 * t);
    }
  }

  lemma RoundedQuotient(a: nat, b: nat, q: nat)
    requires b > 0 && q == a / b
    ensures b * q <= a < b * q + b
  {
  }

  lemma LessTimes(x: int, y: int, m: int)
    requires m > 0 && m * x < m * y
    ensures x < y
  {
  }

  /** The page's component state; the handlers exist only while the store
      has a current list (the page renders "not found" otherwise). */
  class TodoListPage {
    const store: TodoStore
    var newTodoContent: string
    var isEditing: bool
    var editedTitle: string
    var editedDescription: string
    var navigatedTo: Option<string>

    constructor (store: TodoStore)
      ensures this.store == store
      ensures newTodoContent == "" && !isEditing && editedTitle == "" && editedDescription == ""
      ensures navigatedTo == None
    {
      this.store := store;
      newTodoContent := "";
      isEditing := false;
      editedTitle := "";
      editedDescription := "";
      navigatedTo := None;
    }

    /** The mount effect: a non-empty route id selects its list. */
    method Mount(id: Option<string>)
      modifies store`currentList
      ensures id.Some? && id.value != "" ==> store.currentList == SelectList(store.lists, id)
      ensures id.None? || id == Some("") ==> store.currentList == old(store.currentList)
      ensures old(store.Valid()) ==> store.Valid()
    {
      if id.Some? && id.value != "" {
        store.SetCurrentList(id);
      }
    }

    /** The clean-up of the effect: leaving the page clears the selection. */
    method Unmount()
      modifies store`currentList
      ensures store.currentList == None
      ensures old(store.Valid()) ==> store.Valid()
    {
      store.SetCurrentList(None);
    }

    /** `handleAddTodo`; `newItemId` and `now` stand for `uuidv4()` and the clock. */
    method HandleAddTodo(newItemId: string, now: Timestamp)
      requires store.currentList.Some?
      requires forall k :: 0 <= k < |store.lists| ==> forall i :: i in store.lists[k].items ==> i.id != newItemId
      modifies this`newTodoContent, store`lists, store`currentList
      ensures IsBlank(old(newTodoContent)) ==>
        newTodoContent == old(newTodoContent) && store.lists == old(store.lists)
        && store.currentList == old(store.currentList)
      ensures !IsBlank(old(newTodoContent)) ==>
        var e := AppendItem(TodoItem(newItemId, old(newTodoContent), false, now));
        && newTodoContent == ""
        && store.lists == EditLists(old(store.lists), old(store.currentList).value.id, e)
        && store.currentList == EditCurrent(old(store.currentList), old(store.currentList).value.id, e)
      ensures old(store.Valid()) ==> store.Valid()
    {
      if IsBlank(newTodoContent) {
        return;
      }
      store.AddTodoItem(store.currentList.value.id, newTodoContent, newItemId, now);
      newTodoContent := "";
    }

    method HandleDeleteList()
      requires store.currentList.Some?
      modifies this`navigatedTo, store`lists, store`currentList
      ensures store.lists == WithoutList(old(store.lists), old(store.currentList).value.id)
      ensures store.currentList == None
      ensures navigatedTo == Some("/dashboard")
      ensures old(store.Valid()) ==> store.Valid()
    {
      store.DeleteList(store.currentList.value.id);
      navigatedTo := Some("/dashboard");
    }

    /** `handleTogglePublic`: with the mirror invariant the current list
        ends up with the opposite visibility. */
    method HandleTogglePublic()
      requires store.currentList.Some?
      modifies store`lists, store`currentList
      ensures var cur := old(store.currentList).value;
        && store.lists == EditLists(old(store.lists), cur.id, MergeFields(ListUpdate(None, None, Some(!cur.isPublic))))
        && store.currentList == Some(cur.(isPublic := !cur.isPublic))
      ensures old(store.Valid()) ==> store.Valid()
    {
      var cur := store.currentList.value;
      store.UpdateList(cur.id, ListUpdate(None, None, Some(!cur.isPublic)));
    }

    method HandleEditList()
      requires store.currentList.Some?
      modifies this`editedTitle, this`editedDescription, this`isEditing
      ensures editedTitle == store.currentList.value.title
      ensures editedDescription == store.currentList.value.description
      ensures isEditing
    {
      editedTitle := store.currentList.value.title;
      editedDescription := store.currentList.value.description;
      isEditing := true;
    }

    /** `handleSaveEdit`: a blank title changes nothing and stays in edit
        mode; otherwise the title and the description go to the store. */
    method HandleSaveEdit()
      requires store.currentList.Some?
      modifies this`isEditing, store`lists, store`currentList
      ensures IsBlank(editedTitle) ==>
        isEditing == old(isEditing) && store.lists == old(store.lists)
        && store.currentList == old(store.currentList)
      ensures !IsBlank(editedTitle) ==>
        var e := MergeFields(ListUpdate(Some(editedTitle), Some(editedDescription), None));
        && !isEditing
        && store.lists == EditLists(old(store.lists), old(store.currentList).value.id, e)
        && store.currentList == EditCurrent(old(store.currentList), old(store.currentList).value.id, e)
      ensures old(store.Valid()) ==> store.Valid()
    {
      if IsBlank(editedTitle) {
        return;
      }
      store.UpdateList(store.currentList.value.id, ListUpdate(Some(editedTitle), Some(editedDescription), None));
      isEditing := false;
    }

    method HandleCancelEdit()
      modifies this`isEditing
      ensures !isEditing
    {
      isEditing := false;
    }
  }

  /** Two public toggles from the list page restore the store: with unique
      ids the list with the current id is the current copy, and its
      visibility is set to the opposite and back. */
  lemma TogglePublicTwiceRestores(lists: seq<TodoList>, cur: TodoList)
    requires Mirrors(lists, Some(cur))
    ensures var e1 := MergeFields(ListUpdate(None, None, Some(!cur.isPublic)));
      var cur1 := cur.(isPublic := !cur.isPublic);
      var e2 := MergeFields(ListUpdate(None, None, Some(!cur1.isPublic)));
      && EditCurrent(Some(cur), cur.id, e1) == Some(cur1)
      && EditLists(EditLists(lists, cur.id, e1), cur.id, e2) == lists
      && EditCurrent(Some(cur1), cur.id, e2) == Some(cur)
  {
    var e1 := MergeFields(ListUpdate(None, None, Some(!cur.isPublic)));
    var cur1 := cur.(isPublic := !cur.isPublic);
    var e2 := MergeFields(ListUpdate(None, None, Some(!cur1.isPublic)));
    var r := EditLists(EditLists(lists, cur.id, e1), cur.id, e2);
    FindUnique(lists, cur);
    forall k | 0 <= k < |lists| ensures r[k] == lists[k] {
      if lists[k].id == cur.id {
        FindUnique(lists, lists[k]);
      }
    }
  }
}
