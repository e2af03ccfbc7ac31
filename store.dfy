/** The todo store: every list with its items and shares, a mirrored copy
    of the list being viewed, the signed-in user and the view preferences.

    Each action builds the new field values with `map`, `filter` and object
    spread; those builders are the pure functions below, and the class
    `TodoStore` assigns their results to its fields. */
module Store {
  import opened Types
  import Seqs

  /** The fixed signed-in user. */
  const CurrentUser := User("1", "John Doe", "john@example.com")

  /** The directory of users a list can be shared with. */
  const MockUsers: seq<User> := [
    User("2", "Jane Smith", "jane@example.com"),
    User("3", "Bob Johnson", "bob@example.com"),
    User("4", "Alice Williams", "alice@example.com")
  ]

  /** The lists a fresh store starts with; `now` is the load time. */
  function DefaultLists(now: Timestamp): (r: seq<TodoList>)
    ensures |r| == 2 && r[0].id != r[1].id
    ensures forall k :: 0 <= k < |r| ==> r[k].ownerId == CurrentUser.id && r[k].createdAt == now
    ensures !r[0].isPublic && r[0].sharedWith == [] && |r[0].items| == 3
    ensures r[1].isPublic && r[1].sharedWith == [MockUsers[0].id] && |r[1].items| == 1
  {
    [ TodoList("1", "Getting Started",
        "Welcome to TodoSphere! Here are some tasks to get you started.", false,
        [ TodoItem("101", "Create your first todo list", false, now),
          TodoItem("102", "Add some todo items", false, now),
          TodoItem("103", "Share your list with others", false, now) ],
        now, "1", []),
      TodoList("2", "Public Example",
        "This is a public todo list that anyone can view.", true,
        [ TodoItem("201", "This is visible to everyone", true, now) ],
        now, "1", ["2"]) ]
  }

  // ---------------------------------------------------------------------
  // Lookup

  /** The index of the first list with id `id`, or `|lists|` when none has it. */
  function FirstIndex(lists: seq<TodoList>, id: string): (k: nat)
    ensures k <= |lists|
    ensures forall j :: 0 <= j < k ==> lists[j].id != id
    ensures k < |lists| ==> lists[k].id == id
  {
    if lists == [] || lists[0].id == id then 0 else 1 + FirstIndex(lists[1..], id)
  }

  /** `lists.find(l => l.id === id)`, with `undefined` as `None`. */
  function Find(lists: seq<TodoList>, id: string): (r: Option<TodoList>)
    ensures r.None? <==> forall k :: 0 <= k < |lists| ==> lists[k].id != id
    ensures r.Some? ==> r.value in lists && r.value.id == id
    ensures r.Some? ==> exists k :: 0 <= k < |lists| && lists[k] == r.value && forall j :: 0 <= j < k ==> lists[j].id != id
  {
    var k := FirstIndex(lists, id);
    if k < |lists| then Some(lists[k]) else None
  }

  /** The list `setCurrentList(listId)` selects: none for `null` and for the
      empty string (both falsy), else the first list with that id, if any. */
  function SelectList(lists: seq<TodoList>, listId: Option<string>): (r: Option<TodoList>)
    ensures listId == None || listId == Some("") ==> r == None
    ensures r.Some? ==> r.value in lists && Some(r.value.id) == listId
    ensures listId.Some? && listId.value != "" ==> (r.None? <==> forall k :: 0 <= k < |lists| ==> lists[k].id != listId.value)
    ensures r.Some? ==> exists k :: 0 <= k < |lists| && lists[k] == r.value && forall j :: 0 <= j < k ==> lists[j].id != listId.value
  {
    match listId
    case None => None
    case Some(id) => if id == "" then None else Find(lists, id)
  }

  /** `FirstIndex` looks only at the ids. */
  lemma {:induction false} FirstIndexOnlyIds(a: seq<TodoList>, b: seq<TodoList>, id: string)
    requires |a| == |b|
    requires forall k :: 0 <= k < |a| ==> a[k].id == b[k].id
    ensures FirstIndex(a, id) == FirstIndex(b, id)
  {
    if a != [] && a[0].id != id {
      FirstIndexOnlyIds(a[1..], b[1..], id);
    }
  }

  // ---------------------------------------------------------------------
  // The edits the actions apply to one list

  /** `{ ...list, ...updates }`. */
  function Merge(l: TodoList, u: ListUpdate): (r: TodoList)
    ensures r.title == (if u.title.Some? then u.title.value else l.title)
    ensures r.description == (if u.description.Some? then u.description.value else l.description)
    ensures r.isPublic == (if u.isPublic.Some? then u.isPublic.value else l.isPublic)
    ensures r.id == l.id && r.items == l.items && r.createdAt == l.createdAt
    ensures r.ownerId == l.ownerId && r.sharedWith == l.sharedWith
  {
    var l1 := if u.title.Some? then l.(title := u.title.value) else l;
    var l2 := if u.description.Some? then l1.(description := u.description.value) else l1;
    if u.isPublic.Some? then l2.(isPublic := u.isPublic.value) else l2
  }

  datatype ItemEdit = Toggle | SetContent(content: string)

  function EditItem(i: TodoItem, e: ItemEdit): (r: TodoItem)
    ensures r.id == i.id && r.createdAt == i.createdAt
  {
    match e
    case Toggle => i.(completed := !i.completed)
    case SetContent(c) => i.(content := c)
  }

  /** `items.map(item => item.id === itemId ? edited : item)`. */
  function EditItems(items: seq<TodoItem>, itemId: string, e: ItemEdit): (r: seq<TodoItem>)
    ensures |r| == |items|
    ensures forall k :: 0 <= k < |items| ==>
      r[k] == if items[k].id == itemId then EditItem(items[k], e) else items[k]
  {
    if items == [] then []
    else [if items[0].id == itemId then EditItem(items[0], e) else items[0]]
         + EditItems(items[1..], itemId, e)
  }

  /** `items.filter(item => item.id !== itemId)`. */
  function WithoutItem(items: seq<TodoItem>, itemId: string): (r: seq<TodoItem>)
    ensures Seqs.Subseq(r, items)
    ensures forall i :: i in r <==> i in items && i.id != itemId
  {
    Seqs.Filter(items, (i: TodoItem) => i.id != itemId)
  }

  /** `sharedWith.includes(userId) ? sharedWith : [...sharedWith, userId]`. */
  function WithShare(sharedWith: seq<string>, userId: string): (r: seq<string>)
    ensures userId in r
    ensures forall x :: x in r <==> x in sharedWith || x == userId
    ensures multiset(r)[userId] == if userId in sharedWith then multiset(sharedWith)[userId] else 1
  {
    if userId in sharedWith then sharedWith else sharedWith + [userId]
  }

  /** `sharedWith.filter(id => id !== userId)`. */
  function WithoutShare(sharedWith: seq<string>, userId: string): (r: seq<string>)
    ensures userId !in r && |r| <= |sharedWith|
    ensures forall x :: x in r <==> x in sharedWith && x != userId
  {
    Seqs.Filter(sharedWith, (x: string) => x != userId)
  }

  /** What an action does to a list whose id matches. */
  datatype ListEdit =
    | MergeFields(updates: ListUpdate)             // updateList
    | AppendItem(item: TodoItem)                   // addTodoItem
    | EditItemWhere(itemId: string, edit: ItemEdit) // toggleTodoItem, updateTodoItem
    | RemoveItem(itemId: string)                   // deleteTodoItem
    | AddShare(userId: string)                     // shareList
    | RemoveShare(userId: string)                  // removeSharedUser

  function ApplyEdit(l: TodoList, e: ListEdit): (r: TodoList)
    ensures r.id == l.id && r.createdAt == l.createdAt && r.ownerId == l.ownerId
    ensures !e.MergeFields? ==> r.title == l.title && r.description == l.description && r.isPublic == l.isPublic
    ensures e.MergeFields? || e.AddShare? || e.RemoveShare? ==> r.items == l.items
    ensures !e.AddShare? && !e.RemoveShare? ==> r.sharedWith == l.sharedWith
  {
    match e
    case MergeFields(u) => Merge(l, u)
    case AppendItem(item) => l.(items := l.items + [item])
    case EditItemWhere(itemId, ie) => l.(items := EditItems(l.items, itemId, ie))
    case RemoveItem(itemId) => l.(items := WithoutItem(l.items, itemId))
    case AddShare(u) => l.(sharedWith := WithShare(l.sharedWith, u))
    case RemoveShare(u) => l.(sharedWith := WithoutShare(l.sharedWith, u))
  }

  /** `lists.map(list => list.id === listId ? edited : list)`. */
  function EditLists(lists: seq<TodoList>, listId: string, e: ListEdit): (r: seq<TodoList>)
    ensures |r| == |lists|
    ensures forall k :: 0 <= k < |lists| ==>
      r[k] == if lists[k].id == listId then ApplyEdit(lists[k], e) else lists[k]
  {
    if lists == [] then []
    else [if lists[0].id == listId then ApplyEdit(lists[0], e) else lists[0]]
         + EditLists(lists[1..], listId, e)
  }

  /** `currentList?.id === listId ? edited : currentList`. */
  function EditCurrent(cur: Option<TodoList>, listId: string, e: ListEdit): (r: Option<TodoList>)
    ensures r.None? <==> cur.None?
    ensures r.Some? ==> r.value.id == cur.value.id
  {
    if cur.Some? && cur.value.id == listId then Some(ApplyEdit(cur.value, e)) else cur
  }

  /** `lists.filter(list => list.id !== listId)`. */
  function WithoutList(lists: seq<TodoList>, listId: string): (r: seq<TodoList>)
    ensures Seqs.Subseq(r, lists)
    ensures forall l :: l in r <==> l in lists && l.id != listId
    ensures forall k :: 0 <= k < |r| ==> r[k].id != listId
  {
    Seqs.Filter(lists, (l: TodoList) => l.id != listId)
  }

  /** `currentList?.id === listId ? null : currentList`. */
  function ClearIfDeleted(cur: Option<TodoList>, listId: string): (r: Option<TodoList>)
    ensures r.None? <==> cur.None? || cur.value.id == listId
    ensures r.Some? ==> r == cur
  {
    if cur.Some? && cur.value.id == listId then None else cur
  }

  // ---------------------------------------------------------------------
  // Properties of the actions

  /** Looking up a list after an edit finds the edited version of what was
      found before. */
  lemma FindAfterEdit(lists: seq<TodoList>, listId: string, e: ListEdit, id: string)
    ensures Find(EditLists(lists, listId, e), id) == EditCurrent(Find(lists, id), listId, e)
  {
    var r := EditLists(lists, listId, e);
    FirstIndexOnlyIds(r, lists, id);
    var k := FirstIndex(lists, id);
    if k < |lists| {
      assert r[k] == if lists[k].id == listId then ApplyEdit(lists[k], e) else lists[k];
    }
  }

  /** `updateList` merges into exactly the lists with the id and leaves the
      others and the number of lists alone. */
  lemma UpdateListMerges(lists: seq<TodoList>, listId: string, u: ListUpdate)
    ensures |EditLists(lists, listId, MergeFields(u))| == |lists|
    ensures forall k :: 0 <= k < |lists| && lists[k].id == listId ==>
      EditLists(lists, listId, MergeFields(u))[k] == Merge(lists[k], u)
    ensures forall k :: 0 <= k < |lists| && lists[k].id != listId ==>
      EditLists(lists, listId, MergeFields(u))[k] == lists[k]
  {
  }

  /** An edit addressed to an id no list has changes nothing. */
  lemma {:induction false} EditUnknownListIsNoop(lists: seq<TodoList>, listId: string, e: ListEdit)
    requires forall k :: 0 <= k < |lists| ==> lists[k].id != listId
    ensures EditLists(lists, listId, e) == lists
  {
    if lists != [] {
      EditUnknownListIsNoop(lists[1..], listId, e);
      assert lists == [lists[0]] + lists[1..];
    }
  }

  /** `deleteList` keeps exactly the lists with another id, each as often as
      before and in the same order. */
  lemma DeleteListKeepsOthers(lists: seq<TodoList>, listId: string, l: TodoList)
    ensures l in WithoutList(lists, listId) <==> l in lists && l.id != listId
    ensures Seqs.Subseq(WithoutList(lists, listId), lists)
    ensures multiset(WithoutList(lists, listId))[l] == if l.id == listId then 0 else multiset(lists)[l]
  {
    Seqs.FilterMultiset(lists, (x: TodoList) => x.id != listId, l);
  }

  lemma WithoutItemAppend(items: seq<TodoItem>, x: TodoItem, itemId: string)
    ensures WithoutItem(items + [x], itemId) == WithoutItem(items, itemId) + (if x.id != itemId then [x] else [])
  {
    Seqs.FilterAppend(items, x, (i: TodoItem) => i.id != itemId);
  }

  /** `addTodoItem` on the store: looking the list up afterwards finds it
      with the item at the end of its items and every other field as it was;
      every list with another id stays as it was. */
  lemma AddItemAppends(lists: seq<TodoList>, listId: string, l: TodoList, item: TodoItem)
    requires Find(lists, listId) == Some(l)
    ensures Find(EditLists(lists, listId, AppendItem(item)), listId) == Some(l.(items := l.items + [item]))
    ensures forall k :: 0 <= k < |lists| && lists[k].id != listId ==>
      EditLists(lists, listId, AppendItem(item))[k] == lists[k]
  {
    FindAfterEdit(lists, listId, AppendItem(item), listId);
  }

  /** Adding an item with a fresh id and then deleting that id gives the
      list back. */
  lemma AddThenDeleteItem(l: TodoList, item: TodoItem)
    requires forall i :: i in l.items ==> i.id != item.id
    ensures ApplyEdit(ApplyEdit(l, AppendItem(item)), RemoveItem(item.id)) == l
  {
    WithoutItemAppend(l.items, item, item.id);
  }

  /** The same round trip on the whole store: every list and the current
      copy come back, provided the item id is fresh in the addressed lists. */
  lemma AddThenDeleteItemRestores(lists: seq<TodoList>, cur: Option<TodoList>, listId: string, item: TodoItem)
    requires forall k :: 0 <= k < |lists| && lists[k].id == listId ==>
      forall i :: i in lists[k].items ==> i.id != item.id
    requires cur.Some? && cur.value.id == listId ==> forall i :: i in cur.value.items ==> i.id != item.id
    ensures EditLists(EditLists(lists, listId, AppendItem(item)), listId, RemoveItem(item.id)) == lists
    ensures EditCurrent(EditCurrent(cur, listId, AppendItem(item)), listId, RemoveItem(item.id)) == cur
  {
    var r := EditLists(EditLists(lists, listId, AppendItem(item)), listId, RemoveItem(item.id));
    forall k | 0 <= k < |lists| ensures r[k] == lists[k] {
      if lists[k].id == listId {
        AddThenDeleteItem(lists[k], item);
      }
    }
    if cur.Some? && cur.value.id == listId {
      AddThenDeleteItem(cur.value, item);
    }
  }

  /** Toggling an item twice restores the list exactly. */
  lemma ToggleTwice(l: TodoList, itemId: string)
    ensures ApplyEdit(ApplyEdit(l, EditItemWhere(itemId, Toggle)), EditItemWhere(itemId, Toggle)) == l
  {
    var once := EditItems(l.items, itemId, Toggle);
    var twice := EditItems(once, itemId, Toggle);
    assert forall k :: 0 <= k < |l.items| ==> twice[k] == l.items[k];
  }

  /** ... and so does the same pair of `toggleTodoItem` calls on the store. */
  lemma ToggleTwiceRestores(lists: seq<TodoList>, cur: Option<TodoList>, listId: string, itemId: string)
    ensures EditLists(EditLists(lists, listId, EditItemWhere(itemId, Toggle)), listId, EditItemWhere(itemId, Toggle)) == lists
    ensures EditCurrent(EditCurrent(cur, listId, EditItemWhere(itemId, Toggle)), listId, EditItemWhere(itemId, Toggle)) == cur
  {
    var r := EditLists(EditLists(lists, listId, EditItemWhere(itemId, Toggle)), listId, EditItemWhere(itemId, Toggle));
    forall k | 0 <= k < |lists| ensures r[k] == lists[k] {
      if lists[k].id == listId {
        ToggleTwice(lists[k], itemId);
      }
    }
    if cur.Some? && cur.value.id == listId {
      ToggleTwice(cur.value, itemId);
    }
  }

  /** `toggleTodoItem` flips `completed` of the matching items and changes
      nothing else; `updateTodoItem` replaces only their `content`. */
  lemma EditItemsChangesOneField(items: seq<TodoItem>, itemId: string, content: string)
    ensures var t := EditItems(items, itemId, Toggle);
      forall k :: 0 <= k < |items| ==>
        t[k].id == items[k].id && t[k].content == items[k].content && t[k].createdAt == items[k].createdAt
        && t[k].completed == (if items[k].id == itemId then !items[k].completed else items[k].completed)
    ensures var u := EditItems(items, itemId, SetContent(content));
      forall k :: 0 <= k < |items| ==>
        u[k].id == items[k].id && u[k].completed == items[k].completed && u[k].createdAt == items[k].createdAt
        && u[k].content == (if items[k].id == itemId then content else items[k].content)
  {
  }

  /** `shareList` is idempotent, never leaves the user out and never adds a
      second copy of the user. */
  lemma ShareListIdempotent(sharedWith: seq<string>, userId: string)
    ensures WithShare(WithShare(sharedWith, userId), userId) == WithShare(sharedWith, userId)
    ensures userId !in sharedWith ==> multiset(WithShare(WithShare(sharedWith, userId), userId))[userId] == 1
  {
  }

  ghost predicate NoDuplicates(s: seq<string>)
  {
    forall i, j :: 0 <= i < j < |s| ==> s[i] != s[j]
  }

  /** Sharing keeps a duplicate-free share list duplicate-free. */
  lemma ShareKeepsNoDuplicates(sharedWith: seq<string>, userId: string)
    requires NoDuplicates(sharedWith)
    ensures NoDuplicates(WithShare(sharedWith, userId))
  {
  }

  /** `removeSharedUser` removes every occurrence of the user, keeps every
      other user as often as before, and changes nothing when the user is
      absent. */
  lemma RemoveSharedUserRemovesAll(sharedWith: seq<string>, userId: string, x: string)
    ensures userId !in WithoutShare(sharedWith, userId)
    ensures x != userId ==> multiset(WithoutShare(sharedWith, userId))[x] == multiset(sharedWith)[x]
    ensures userId !in sharedWith ==> WithoutShare(sharedWith, userId) == sharedWith
  {
    Seqs.FilterMultiset(sharedWith, (y: string) => y != userId, x);
  }

  /** Nothing stops the owner of a list from being shared with. */
  lemma ShareAcceptsOwner(l: TodoList)
    requires l.ownerId !in l.sharedWith
    ensures ApplyEdit(l, AddShare(l.ownerId)).sharedWith == l.sharedWith + [l.ownerId]
  {
  }

  /** Sharing with a user who had no access and removing them again gives
      the share list back. */
  lemma ShareThenRemove(sharedWith: seq<string>, userId: string)
    requires userId !in sharedWith
    ensures WithoutShare(WithShare(sharedWith, userId), userId) == sharedWith
  {
    Seqs.FilterAppend(sharedWith, userId, (x: string) => x != userId);
  }

  // ---------------------------------------------------------------------
  // The mirror invariant

  ghost predicate UniqueIds(lists: seq<TodoList>)
  {
    forall i, j :: 0 <= i < j < |lists| ==> lists[i].id != lists[j].id
  }

  /** The current list is absent or equal to the list with its id. */
  ghost predicate Mirrors(lists: seq<TodoList>, cur: Option<TodoList>)
  {
    UniqueIds(lists) && (cur.Some? ==> Find(lists, cur.value.id) == cur)
  }

  /** With unique ids, a list is what `Find` gives for its id exactly when
      it is one of the lists. */
  lemma FindUnique(lists: seq<TodoList>, l: TodoList)
    requires UniqueIds(lists)
    ensures Find(lists, l.id) == Some(l) <==> l in lists
  {
    if l in lists {
      var k :| 0 <= k < |lists| && lists[k] == l;
      assert FirstIndex(lists, l.id) == k;
    }
  }

  lemma {:induction false} UniqueIdsWithoutList(lists: seq<TodoList>, listId: string)
    requires UniqueIds(lists)
    ensures UniqueIds(WithoutList(lists, listId))
  {
    if lists != [] {
      UniqueIdsWithoutList(lists[1..], listId);
      var rest := WithoutList(lists[1..], listId);
      if lists[0].id != listId {
        forall y | y in rest ensures y.id != lists[0].id {
          var j :| 0 <= j < |lists[1..]| && lists[1..][j] == y;
          assert lists[j + 1] == y;
        }
        UniqueIdsCons(lists[0], rest);
      }
    }
  }

  /** A list whose id no other has keeps the ids unique in front. */
  lemma UniqueIdsCons(x: TodoList, rest: seq<TodoList>)
    requires UniqueIds(rest)
    requires forall y :: y in rest ==> y.id != x.id
    ensures UniqueIds([x] + rest)
  {
    var r := [x] + rest;
    forall i, j | 0 <= i < j < |r| ensures r[i].id != r[j].id {
      assert r[j] == rest[j - 1];
      if i > 0 {
        assert r[i] == rest[i - 1];
      }
    }
  }

  lemma SelectKeepsMirror(lists: seq<TodoList>, cur: Option<TodoList>, listId: Option<string>)
    requires Mirrors(lists, cur)
    ensures Mirrors(lists, SelectList(lists, listId))
  {
    var r := SelectList(lists, listId);
    if r.Some? {
      FindUnique(lists, r.value);
    }
  }

  lemma CreateKeepsMirror(lists: seq<TodoList>, cur: Option<TodoList>, newList: TodoList)
    requires Mirrors(lists, cur)
    requires forall k :: 0 <= k < |lists| ==> lists[k].id != newList.id
    ensures Mirrors(lists + [newList], Some(newList))
  {
    FindUnique(lists + [newList], newList);
  }

  lemma EditKeepsMirror(lists: seq<TodoList>, cur: Option<TodoList>, listId: string, e: ListEdit)
    requires Mirrors(lists, cur)
    ensures Mirrors(EditLists(lists, listId, e), EditCurrent(cur, listId, e))
  {
    if cur.Some? {
      FindAfterEdit(lists, listId, e, cur.value.id);
    }
  }

  lemma DeleteKeepsMirror(lists: seq<TodoList>, cur: Option<TodoList>, listId: string)
    requires Mirrors(lists, cur)
    ensures Mirrors(WithoutList(lists, listId), ClearIfDeleted(cur, listId))
  {
    UniqueIdsWithoutList(lists, listId);
    var c := ClearIfDeleted(cur, listId);
    if c.Some? {
      FindUnique(lists, c.value);
      FindUnique(WithoutList(lists, listId), c.value);
    }
  }

  /** With the mirror invariant, an action addressed to an unknown list id
      changes neither the lists nor the current copy. */
  lemma UnknownListIdIsNoop(lists: seq<TodoList>, cur: Option<TodoList>, listId: string, e: ListEdit)
    requires Mirrors(lists, cur)
    requires Find(lists, listId).None?
    ensures EditLists(lists, listId, e) == lists
    ensures EditCurrent(cur, listId, e) == cur
    ensures WithoutList(lists, listId) == lists
    ensures ClearIfDeleted(cur, listId) == cur
  {
    EditUnknownListIsNoop(lists, listId, e);
  }

  // ---------------------------------------------------------------------
  // The store object

  class TodoStore {
    var lists: seq<TodoList>
    var currentList: Option<TodoList>
    const currentUser: User
    var filter: FilterOption
    var sort: SortOption
    var visibility: VisibilityOption
    var searchQuery: string

    ghost predicate Valid()
      reads this
    {
      Mirrors(lists, currentList)
    }

    /** The initial state; `now` is the time the default lists are built. */
    constructor (now: Timestamp)
      ensures lists == DefaultLists(now) && currentList == None && currentUser == CurrentUser
      ensures filter == FilterOption.All && sort == Newest
      ensures visibility == VisibilityOption.All && searchQuery == ""
      ensures Valid()
    {
      lists := DefaultLists(now);
      currentList := None;
      currentUser := CurrentUser;
      filter := FilterOption.All;
      sort := Newest;
      visibility := VisibilityOption.All;
      searchQuery := "";
    }

    method SetCurrentList(listId: Option<string>)
      modifies this`currentList
      ensures currentList == SelectList(lists, listId)
      ensures old(Valid()) ==> Valid()
    {
      ghost var cur := currentList;
      currentList := SelectList(lists, listId);
      if Mirrors(lists, cur) {
        SelectKeepsMirror(lists, cur, listId);
      }
    }

    /** `newId` stands for `uuidv4()` and `now` for the clock. */
    method CreateList(title: string, description: string, isPublic: bool, newId: string, now: Timestamp)
      returns (newList: TodoList)
      requires forall k :: 0 <= k < |lists| ==> lists[k].id != newId
      modifies this`lists, this`currentList
      ensures newList.id == newId && newList.title == title && newList.description == description
      ensures newList.isPublic == isPublic && newList.items == [] && newList.sharedWith == []
      ensures newList.ownerId == currentUser.id && newList.createdAt == now
      ensures lists == old(lists) + [newList]
      ensures currentList == Some(newList)
      ensures old(Valid()) ==> Valid()
    {
      newList := TodoList(newId, title, description, isPublic, [], now, currentUser.id, []);
      if Valid() {
        CreateKeepsMirror(lists, currentList, newList);
      }
      lists := lists + [newList];
      currentList := Some(newList);
    }

    method UpdateList(listId: string, updates: ListUpdate)
      modifies this`lists, this`currentList
      ensures lists == EditLists(old(lists), listId, MergeFields(updates))
      ensures currentList == EditCurrent(old(currentList), listId, MergeFields(updates))
      ensures old(Valid()) ==> Valid()
    {
      Apply(listId, MergeFields(updates));
    }

    method DeleteList(listId: string)
      modifies this`lists, this`currentList
      ensures lists == WithoutList(old(lists), listId)
      ensures currentList == ClearIfDeleted(old(currentList), listId)
      ensures old(Valid()) ==> Valid()
    {
      if Valid() {
        DeleteKeepsMirror(lists, currentList, listId);
      }
      lists := WithoutList(lists, listId);
      currentList := ClearIfDeleted(currentList, listId);
    }

    /** `newItemId` stands for `uuidv4()` and `now` for the clock. */
    method AddTodoItem(listId: string, content: string, newItemId: string, now: Timestamp)
      requires forall k :: 0 <= k < |lists| ==> forall i :: i in lists[k].items ==> i.id != newItemId
      modifies this`lists, this`currentList
      ensures lists == EditLists(old(lists), listId, AppendItem(TodoItem(newItemId, content, false, now)))
      ensures currentList == EditCurrent(old(currentList), listId, AppendItem(TodoItem(newItemId, content, false, now)))
      ensures old(Valid()) ==> Valid()
    {
      Apply(listId, AppendItem(TodoItem(newItemId, content, false, now)));
    }

    method ToggleTodoItem(listId: string, itemId: string)
      modifies this`lists, this`currentList
      ensures lists == EditLists(old(lists), listId, EditItemWhere(itemId, Toggle))
      ensures currentList == EditCurrent(old(currentList), listId, EditItemWhere(itemId, Toggle))
      ensures old(Valid()) ==> Valid()
    {
      Apply(listId, EditItemWhere(itemId, Toggle));
    }

    method UpdateTodoItem(listId: string, itemId: string, content: string)
      modifies this`lists, this`currentList
      ensures lists == EditLists(old(lists), listId, EditItemWhere(itemId, SetContent(content)))
      ensures currentList == EditCurrent(old(currentList), listId, EditItemWhere(itemId, SetContent(content)))
      ensures old(Valid()) ==> Valid()
    {
      Apply(listId, EditItemWhere(itemId, SetContent(content)));
    }

    method DeleteTodoItem(listId: string, itemId: string)
      modifies this`lists, this`currentList
      ensures lists == EditLists(old(lists), listId, RemoveItem(itemId))
      ensures currentList == EditCurrent(old(currentList), listId, RemoveItem(itemId))
      ensures old(Valid()) ==> Valid()
    {
      Apply(listId, RemoveItem(itemId));
    }

    method ShareList(listId: string, userId: string)
      modifies this`lists, this`currentList
      ensures lists == EditLists(old(lists), listId, AddShare(userId))
      ensures currentList == EditCurrent(old(currentList), listId, AddShare(userId))
      ensures old(Valid()) ==> Valid()
    {
      Apply(listId, AddShare(userId));
    }

    method RemoveSharedUser(listId: string, userId: string)
      modifies this`lists, this`currentList
      ensures lists == EditLists(old(lists), listId, RemoveShare(userId))
      ensures currentList == EditCurrent(old(currentList), listId, RemoveShare(userId))
      ensures old(Valid()) ==> Valid()
    {
      Apply(listId, RemoveShare(userId));
    }

    /** The common `set(...)` of the actions that edit the lists with an id
        and the current copy alike. */
    method Apply(listId: string, e: ListEdit)
      modifies this`lists, this`currentList
      ensures lists == EditLists(old(lists), listId, e)
      ensures currentList == EditCurrent(old(currentList), listId, e)
      ensures old(Valid()) ==> Valid()
    {
      if Valid() {
        EditKeepsMirror(lists, currentList, listId, e);
      }
      lists := EditLists(lists, listId, e);
      currentList := EditCurrent(currentList, listId, e);
    }

    method SetFilter(f: FilterOption)
      modifies this`filter
      ensures filter == f
      ensures old(Valid()) ==> Valid()
    {
      filter := f;
    }

    method SetSort(s: SortOption)
      modifies this`sort
      ensures sort == s
      ensures old(Valid()) ==> Valid()
    {
      sort := s;
    }

    method SetVisibility(v: VisibilityOption)
      modifies this`visibility
      ensures visibility == v
      ensures old(Valid()) ==> Valid()
    {
      visibility := v;
    }

    method SetSearchQuery(q: string)
      modifies this`searchQuery
      ensures searchQuery == q
      ensures old(Valid()) ==> Valid()
    {
      searchQuery := q;
    }
  }
}
