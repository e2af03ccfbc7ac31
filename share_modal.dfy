/** The share dialog of one list: the user search, the add/remove toggle of
    each user, the public switch, and the initials on each avatar. */
module ShareModal {
  import opened Types
  import opened JsString
  import Seqs
  import opened Store

  /** The lower-cased query occurs in the lower-cased name or email. */
  predicate MatchesUser(u: User, query: string)
  {
    Includes(Lower(u.name), Lower(query)) || Includes(Lower(u.email), Lower(query))
  }

  function FindsUser(query: string): User -> bool
  {
    (u: User) => MatchesUser(u, query)
  }

  /** `filteredUsers`: the users of the directory the search matches, in
      directory order; the empty query keeps them all. */
  function FilteredUsers(users: seq<User>, query: string): (r: seq<User>)
    ensures Seqs.Subseq(r, users)
    ensures forall u :: u in r <==> u in users && MatchesUser(u, query)
    ensures query == "" ==> r == users
  {
    Seqs.Filter(users, FindsUser(query))
  }

  /** A user matches exactly when the lower-cased query is a substring of the
      lower-cased name or email. */
  lemma UserMatchIsSubstring(u: User, query: string)
    ensures MatchesUser(u, query) <==>
      (exists i :: OccursAt(Lower(u.name), Lower(query), i)) ||
      (exists i :: OccursAt(Lower(u.email), Lower(query), i))
  {
    IncludesIffOccurs(Lower(u.name), Lower(query));
    IncludesIffOccurs(Lower(u.email), Lower(query));
  }

  /** `parts.map(n => n[0]).join('')`: `n[0]` of an empty part is
      `undefined`, which `join` writes as nothing. */
  function FirstChars(parts: seq<string>): (r: string)
    ensures |r| <= |parts|
    ensures (forall k :: 0 <= k < |parts| ==> parts[k] != "") ==> |r| == |parts|
  {
    if parts == [] then ""
    else (if parts[0] == "" then "" else [parts[0][0]]) + FirstChars(parts[1..])
  }

  /** The avatar text `user.name.split(' ').map(n => n[0]).join('')`. */
  function AvatarInitials(name: string): string
  {
    FirstChars(Split(name, {' '}))
  }

  /** The characters of `s` that begin a word: not a space, and first or
      after a space (`atStart` says whether `s` itself begins a word). */
  function WordStarts(s: string, atStart: bool): string
  {
    if s == [] then ""
    else if s[0] == ' ' then WordStarts(s[1..], true)
    else (if atStart then [s[0]] else "") + WordStarts(s[1..], false)
  }

  lemma {:induction false} FirstCharsOfSplit(s: string)
    ensures FirstChars(Split(s, {' '})) == WordStarts(s, true)
    ensures FirstChars(Split(s, {' '})[1..]) == WordStarts(s, false)
  {
    if s != [] {
      FirstCharsOfSplit(s[1..]);
      var rest := Split(s[1..], {' '});
      if s[0] == ' ' {
        assert Split(s, {' '}) == [""] + rest;
        assert ([""] + rest)[1..] == rest;
      } else {
        assert Split(s, {' '}) == [[s[0]] + rest[0]] + rest[1..];
        assert ([[s[0]] + rest[0]] + rest[1..])[1..] == rest[1..];
      }
    }
  }

  /** The avatar shows the first character of each space-separated word of
      the name, in order. */
  lemma AvatarInitialsAreWordStarts(name: string)
    ensures AvatarInitials(name) == WordStarts(name, true)
    ensures forall c :: c in AvatarInitials(name) ==> c in name && c != ' '
  {
    FirstCharsOfSplit(name);
    WordStartsFromName(name, true);
  }

  lemma {:induction false} WordStartsFromName(s: string, atStart: bool)
    ensures forall c :: c in WordStarts(s, atStart) ==> c in s && c != ' '
  {
    if s != [] {
      WordStartsFromName(s[1..], s[0] == ' ');
      WordStartsFromName(s[1..], false);
    }
  }

  /** What clicking a user's button asks of the store: remove the user when
      `sharedWith` includes them, share with them otherwise. */
  function ClickEdit(l: TodoList, userId: string): ListEdit
  {
    if userId in l.sharedWith then RemoveShare(userId) else AddShare(userId)
  }

  /** A click flips whether the user has access to the list. */
  lemma ClickFlipsAccess(lists: seq<TodoList>, listId: string, userId: string)
    requires Find(lists, listId).Some?
    ensures var after := EditLists(lists, listId, ClickEdit(Find(lists, listId).value, userId));
      && Find(after, listId).Some?
      && (userId in Find(after, listId).value.sharedWith <==> userId !in Find(lists, listId).value.sharedWith)
  {
    var l := Find(lists, listId).value;
    FindAfterEdit(lists, listId, ClickEdit(l, userId), listId);
    ClickFlipsListAccess(l, userId);
  }

  /** The same flip on the list itself. */
  lemma ClickFlipsListAccess(l: TodoList, userId: string)
    ensures userId in ApplyEdit(l, ClickEdit(l, userId)).sharedWith <==> userId !in l.sharedWith
  {
    if userId in l.sharedWith {
      RemoveSharedUserRemovesAll(l.sharedWith, userId, userId);
    }
  }

  /** Two clicks on the same user restore their access; starting without
      access, they restore the list exactly. */
  lemma ClickTwiceRestores(lists: seq<TodoList>, listId: string, userId: string)
    requires Find(lists, listId).Some?
    ensures var once := EditLists(lists, listId, ClickEdit(Find(lists, listId).value, userId));
      && Find(once, listId).Some?
      && var twice := EditLists(once, listId, ClickEdit(Find(once, listId).value, userId));
      && Find(twice, listId).Some?
      && (userId in Find(twice, listId).value.sharedWith <==> userId in Find(lists, listId).value.sharedWith)
      && (userId !in Find(lists, listId).value.sharedWith ==> Find(twice, listId) == Find(lists, listId))
  {
    var l := Find(lists, listId).value;
    ClickFlipsAccess(lists, listId, userId);
    var once := EditLists(lists, listId, ClickEdit(l, userId));
    ClickFlipsAccess(once, listId, userId);
    if userId !in l.sharedWith {
      assert ClickEdit(Find(once, listId).value, userId) == RemoveShare(userId);
      ShareThenRemoveRestores(lists, listId, userId);
    }
  }

  /** Sharing a list with a user who had no access and removing them again
      gives the list back. */
  lemma ShareThenRemoveRestores(lists: seq<TodoList>, listId: string, userId: string)
    requires Find(lists, listId).Some? && userId !in Find(lists, listId).value.sharedWith
    ensures Find(EditLists(EditLists(lists, listId, AddShare(userId)), listId, RemoveShare(userId)), listId)
         == Find(lists, listId)
  {
    var l := Find(lists, listId).value;
    var once := EditLists(lists, listId, AddShare(userId));
    FindAfterEdit(lists, listId, AddShare(userId), listId);
    assert Find(once, listId) == Some(ApplyEdit(l, AddShare(userId)));
    FindAfterEdit(once, listId, RemoveShare(userId), listId);
    ShareThenRemoveList(l, userId);
  }

  lemma ShareThenRemoveList(l: TodoList, userId: string)
    requires userId !in l.sharedWith
    ensures ApplyEdit(ApplyEdit(l, AddShare(userId)), RemoveShare(userId)) == l
  {
    ShareThenRemove(l.sharedWith, userId);
  }

  /** The "N people have access" count. */
  function AccessCount(l: TodoList): nat
  {
    |l.sharedWith|
  }

  lemma {:induction false} WithoutShareLength(sharedWith: seq<string>, userId: string)
    ensures |WithoutShare(sharedWith, userId)| == |sharedWith| - multiset(sharedWith)[userId]
  {
    if sharedWith != [] {
      WithoutShareLength(sharedWith[1..], userId);
      assert sharedWith == [sharedWith[0]] + sharedWith[1..];
    }
  }

  /** A click on a user without access adds one to the count; a click on a
      user with access takes away every copy of them. */
  lemma ClickChangesAccessCount(l: TodoList, userId: string)
    ensures var after := ApplyEdit(l, ClickEdit(l, userId));
      && (userId !in l.sharedWith ==> AccessCount(after) == AccessCount(l) + 1)
      && (userId in l.sharedWith ==> AccessCount(after) == AccessCount(l) - multiset(l.sharedWith)[userId])
      && (userId in l.sharedWith && NoDuplicates(l.sharedWith) ==> AccessCount(after) == AccessCount(l) - 1)
  {
    WithoutShareLength(l.sharedWith, userId);
    if userId in l.sharedWith && NoDuplicates(l.sharedWith) {
      OnceWithoutDuplicates(l.sharedWith, userId);
    }
  }

  lemma {:induction false} OnceWithoutDuplicates(s: seq<string>, x: string)
    requires NoDuplicates(s) && x in s
    ensures multiset(s)[x] == 1
  {
    assert s == [s[0]] + s[1..];
    if s[0] == x {
      assert x !in s[1..];
    } else {
      OnceWithoutDuplicates(s[1..], x);
    }
  }

  /** The dialog's own state; it renders nothing, and so offers no handler,
      unless the store has a list with the dialog's id. */
  class ShareModal {
    const store: TodoStore
    const listId: string
    var searchQuery: string

    constructor (store: TodoStore, listId: string)
      ensures this.store == store && this.listId == listId && searchQuery == ""
    {
      this.store := store;
      this.listId := listId;
      searchQuery := "";
    }

    /** The users listed under the search box. */
    function ShownUsers(): (r: seq<User>)
      reads this
      ensures forall u :: u in r ==> u in MockUsers && u != CurrentUser
      ensures searchQuery == "" ==> r == MockUsers
    {
      FilteredUsers(MockUsers, searchQuery)
    }

    method HandleTogglePublic()
      requires Find(store.lists, listId).Some?
      modifies store`lists, store`currentList
      ensures var l := old(Find(store.lists, listId)).value;
        var e := MergeFields(ListUpdate(None, None, Some(!l.isPublic)));
        && store.lists == EditLists(old(store.lists), listId, e)
        && store.currentList == EditCurrent(old(store.currentList), listId, e)
        && Find(store.lists, listId) == Some(l.(isPublic := !l.isPublic))
      ensures old(store.Valid()) ==> store.Valid()
    {
      var l := Find(store.lists, listId).value;
      FindAfterEdit(store.lists, listId, MergeFields(ListUpdate(None, None, Some(!l.isPublic))), listId);
      store.UpdateList(l.id, ListUpdate(None, None, Some(!l.isPublic)));
    }

    method HandleShareWithUser(userId: string)
      requires Find(store.lists, listId).Some?
      modifies store`lists, store`currentList
      ensures store.lists == EditLists(old(store.lists), listId, AddShare(userId))
      ensures store.currentList == EditCurrent(old(store.currentList), listId, AddShare(userId))
      ensures old(store.Valid()) ==> store.Valid()
    {
      store.ShareList(listId, userId);
    }

    method HandleRemoveUser(userId: string)
      requires Find(store.lists, listId).Some?
      modifies store`lists, store`currentList
      ensures store.lists == EditLists(old(store.lists), listId, RemoveShare(userId))
      ensures store.currentList == EditCurrent(old(store.currentList), listId, RemoveShare(userId))
      ensures old(store.Valid()) ==> store.Valid()
    {
      store.RemoveSharedUser(listId, userId);
    }

    /** The add/remove button of one user. */
    method ClickUser(userId: string)
      requires Find(store.lists, listId).Some?
      modifies store`lists, store`currentList
      ensures store.lists == EditLists(old(store.lists), listId, ClickEdit(old(Find(store.lists, listId)).value, userId))
      ensures store.currentList == EditCurrent(old(store.currentList), listId, ClickEdit(old(Find(store.lists, listId)).value, userId))
      ensures Find(store.lists, listId).Some?
      ensures userId in Find(store.lists, listId).value.sharedWith <==>
              userId !in old(Find(store.lists, listId)).value.sharedWith
      ensures old(store.Valid()) ==> store.Valid()
    {
      var l := Find(store.lists, listId).value;
      ClickFlipsAccess(store.lists, listId, userId);
      var isShared := userId in l.sharedWith;
      if isShared {
        HandleRemoveUser(userId);
      } else {
        HandleShareWithUser(userId);
      }
    }
  }
}
