# TodoSphere store and views in Dafny

A model of the client-side core of TodoSphere, a todo-list application:

- the zustand store that holds every todo list, a mirrored copy of the
  list being viewed (`currentList`), the signed-in user and the view
  preferences, with its fourteen actions;
- the derived views of the dashboard (search, visibility filter, sort,
  completed counts) and of the list page (completion tabs, counts,
  percentage);
- the small state machines of the list page, the item row, the
  create-list dialog and the share dialog, wired to the store;
- the string helpers of the user menu (email initials, shortened email).

Layout, one module per source file plus two helper modules:

| file | module | models |
|---|---|---|
| `seqs.dfy` | `Seqs` | `Array.prototype.filter`, stable `sort` with a comparator |
| `jsstring.dfy` | `JsString` | `toLowerCase`/`toUpperCase` (ASCII), `trim`, `includes`, `split`, `slice` |
| `types.dfy` | `Types` | the entities of `src/lib/types.ts` |
| `store.dfy` | `Store` | `src/lib/store.ts` |
| `dashboard.dfy` | `Dashboard` | `src/pages/Dashboard.tsx` |
| `todolist_page.dfy` | `TodoListPage` | `src/pages/TodoList.tsx` |
| `todo_item_view.dfy` | `TodoItemView` | `src/components/TodoItem.tsx` |
| `create_list_modal.dfy` | `CreateListModal` | `src/components/CreateListModal.tsx` |
| `share_modal.dfy` | `ShareModal` | `src/components/ShareModal.tsx` |
| `user_menu.dfy` | `UserMenu` | `src/components/UserMenu.tsx` |

The store is a class, `Store.TodoStore`, whose fields are the store's state.
Each action is a method that changes only the fields it names in its
`modifies` clause, at field granularity. The new field values are built
by pure functions, and the methods ensure their new state equals those
functions. The functions have the same names as the spread, `map` and
`filter` expressions of the source: `Merge`, `EditItems`, `EditLists`,
`EditCurrent`, `WithoutList`, `ClearIfDeleted`, `WithShare` and
`WithoutShare`. The properties of the actions are lemmas about these
functions.

The mirror invariant, `Store.Mirrors`, says:

- list ids are unique;
- `currentList` is absent or equal to the list with its id.

Each action method of the store, the four view-preference setters
included, ensures `old(Valid()) ==> Valid()`. The invariant is not required
of callers, because the source does not demand it.

Oracles are parameters:

- `uuidv4()` is `newId` or `newItemId`, with the precondition that the id
  is not in use;
- the clock is an integer `now`;
- `localeCompare` is a relation `titleLeq`, required to be a total
  preorder.

Component handlers that navigate record the target in a `navigatedTo`
field. `onClose` is counted in `closeCount`.

## Model

| member | source | states |
|---|---|---|
| Seqs.Filter | src/pages/Dashboard.tsx:75-86 | `filter` keeps exactly the elements satisfying the predicate. The result is an order-preserving subsequence, no longer than the input, and equals the input when every element passes. |
| Seqs.FilterSplit | src/pages/TodoList.tsx:147-151 | Two disjoint predicates whose union is a third split the third's filter result by length. |
| Seqs.FilterMultiset | src/lib/store.ts:143 | Filtering keeps each passing element exactly as often as before and drops every failing one. |
| Seqs.FilterAppend | src/lib/store.ts:227 | Filtering a sequence with one more element at the end is the old result, plus that element when it passes. |
| Seqs.SortBy | src/pages/Dashboard.tsx:88-99 | Sorting a copy with a consistent comparator gives a permutation of the input, sorted by the comparator's "not after" relation. |
| Seqs.Insert | src/pages/Dashboard.tsx:88-99 | Inserting into a sorted sequence keeps it sorted and adds exactly that element. |
| JsString.Lower | src/pages/Dashboard.tsx:76-77 | `toLowerCase` keeps the length, leaves no upper-case ASCII letter, and changes each character only within its case pair. |
| JsString.Upper | src/components/UserMenu.tsx:49-52 | `toUpperCase` keeps the length, leaves no lower-case ASCII letter, and changes each character only within its case pair. |
| JsString.IsWhitespace | src/pages/TodoList.tsx:103 | The WhiteSpace and LineTerminator code points of ECMAScript that `trim` removes; what `trim` does with them is stated by `JsString.TrimStart`, `JsString.TrimEnd` and `JsString.TrimKeepsStretch`. |
| JsString.TrimStart | src/pages/TodoList.tsx:103 | The result is a suffix of the input that does not start with whitespace (or is empty), and every character cut off before it is whitespace. |
| JsString.TrimEnd | src/pages/TodoList.tsx:103 | The result is a prefix of the input that does not end with whitespace (or is empty), and every character cut off after it is whitespace. |
| JsString.Trim | src/pages/TodoList.tsx:103 | `trim` is the start trim followed by the end trim; its contract is stated by `JsString.TrimKeepsStretch`. |
| JsString.TrimKeepsStretch | src/pages/TodoList.tsx:103 | `trim` keeps one unbroken stretch of the input, character for character, and everything before and after that stretch is whitespace. |
| JsString.IsBlank | src/pages/TodoList.tsx:103 | `!s.trim()`, the blank-input test; characterised by `JsString.BlankIffAllWhitespace`. |
| JsString.BlankIffAllWhitespace | src/pages/TodoList.tsx:103 | `!s.trim()` holds exactly when every character of `s` is white space or a line terminator. |
| JsString.Includes | src/pages/Dashboard.tsx:76-77 | `includes` holds for a prefix of the string, and only for a query no longer than the string. |
| JsString.IncludesIffOccurs | src/pages/Dashboard.tsx:76-77 | `includes` holds exactly when the query occurs at some index. |
| JsString.IncludesEmpty | src/pages/Dashboard.tsx:76-77 | Every string includes the empty string. |
| JsString.FirstSep | src/components/UserMenu.tsx:47 | The index of the first separator: no separator before it, and a separator at it unless it is the length. |
| JsString.Split | src/components/UserMenu.tsx:47 | `split` yields at least one part. |
| JsString.SplitAtFirst | src/components/UserMenu.tsx:47 | `split` cuts at the first separator: the first part is the text before the first separator, and the rest is the split of what follows. With no separator, the whole string is the only part. |
| JsString.SplitPartsHaveNoSep | src/components/UserMenu.tsx:47 | No part of a split contains a separator. |
| JsString.Take | src/components/UserMenu.tsx:49 | `slice(0, n)` is the prefix of length `n`, or the whole string when it is shorter. |
| Store.DefaultLists | src/lib/store.ts:47-94 | The two starting lists have distinct ids, belong to the fixed user and carry the load time. The first is private, unshared and has three items. The second is public, shared with user `2` and has one item. |
| Store.FirstIndex | src/lib/store.ts:108 | The index of the first list with the id, or the length when no list has it. |
| Store.Find | src/lib/store.ts:108 | `find` is absent exactly when no list has the id. Otherwise it is the first list of the collection with that id. |
| Store.SelectList | src/lib/store.ts:107-110 | `null` and the empty id select nothing. Any other id selects the first list with that id, and selects nothing exactly when no list has it. |
| Store.FirstIndexOnlyIds | src/lib/store.ts:108 | Lookup depends only on the ids. |
| Store.Merge | src/lib/store.ts:133 | `{...list, ...updates}` takes each given field from the update and every other field from the list. |
| Store.EditItem | src/lib/store.ts:175 | An item edit keeps the item's id and creation time. |
| Store.EditItems | src/lib/store.ts:173-177 | The item `map` keeps the length; it edits exactly the items with the id and keeps the others. |
| Store.WithoutItem | src/lib/store.ts:227 | The item `filter` keeps an order-preserving subsequence holding exactly the items with another id. |
| Store.WithShare | src/lib/store.ts:246-248 | After sharing, the user is in `sharedWith`. Nobody else is added. The user occurs once if they were absent, as often as before otherwise. |
| Store.WithoutShare | src/lib/store.ts:269 | The share `filter` keeps exactly the other users, never longer than before, and the user is gone. |
| Store.ApplyEdit | src/lib/store.ts:130-280 | Every action keeps id, creation time and owner. Only `updateList` touches title, description and visibility. Only the share actions touch `sharedWith`. Those two kinds keep the items. |
| Store.EditLists | src/lib/store.ts:132-134 | The list `map` keeps the length, edits exactly the lists with the id and keeps the others. |
| Store.EditCurrent | src/lib/store.ts:135-137 | The mirror edit keeps `currentList` absent or present and keeps its id. |
| Store.WithoutList | src/lib/store.ts:143 | The list `filter` keeps an order-preserving subsequence holding exactly the lists with another id; no list with the id is left. |
| Store.ClearIfDeleted | src/lib/store.ts:144 | `currentList` becomes null exactly when it was null or had the deleted id; otherwise it is unchanged. |
| Store.FindAfterEdit | src/lib/store.ts:130-139 | Looking a list up after an edit finds the edited version of what was found before. |
| Store.UpdateListMerges | src/lib/store.ts:130-139 | `updateList` merges into exactly the lists with the id; the length and every other list are unchanged. |
| Store.EditUnknownListIsNoop | src/lib/store.ts:130-280 | An action addressed to an id no list has leaves `lists` unchanged. |
| Store.DeleteListKeepsOthers | src/lib/store.ts:141-146 | `deleteList` keeps exactly the lists with another id, in order, each as often as before. |
| Store.WithoutItemAppend | src/lib/store.ts:227 | Deleting an item id from items with one more at the end filters the old items and keeps the new one unless it has the id. |
| Store.AddItemAppends | src/lib/store.ts:148-165 | After `addTodoItem`, looking the list up by its id finds it with the item at the end of its items and every other field unchanged. Every list with another id stays as it was. |
| Store.AddThenDeleteItem | src/lib/store.ts:148-238 | Adding an item with a fresh id and deleting that id gives the list back. |
| Store.AddThenDeleteItemRestores | src/lib/store.ts:148-238 | The same round trip on the store restores every list and the current copy. |
| Store.ToggleTwice | src/lib/store.ts:167-192 | Toggling an item twice restores the list. |
| Store.ToggleTwiceRestores | src/lib/store.ts:167-192 | Two `toggleTodoItem` calls with the same ids restore every list and the current copy. |
| Store.EditItemsChangesOneField | src/lib/store.ts:167-219 | Toggling flips only `completed` of the matching items. `updateTodoItem` replaces only their `content`. Ids and order are kept by both. |
| Store.ShareListIdempotent | src/lib/store.ts:240-261 | Sharing twice equals sharing once; a user who was absent then occurs exactly once. |
| Store.ShareKeepsNoDuplicates | src/lib/store.ts:240-261 | Sharing keeps a duplicate-free `sharedWith` duplicate-free. |
| Store.ShareAcceptsOwner | src/lib/store.ts:240-261 | The owner, when absent, is appended like anyone else: nothing keeps the owner out of `sharedWith`. |
| Store.RemoveSharedUserRemovesAll | src/lib/store.ts:263-280 | After removal the user is gone; every other user keeps their multiplicity. Removing an absent user changes nothing. |
| Store.ShareThenRemove | src/lib/store.ts:240-280 | Sharing with a user who had no access and removing them restores `sharedWith`. |
| Store.FindUnique | src/lib/store.ts:108 | With unique ids, `find` on a list's id gives that list exactly when it is in the collection. |
| Store.UniqueIdsWithoutList | src/lib/store.ts:143 | Deleting lists keeps the ids unique. |
| Store.SelectKeepsMirror | src/lib/store.ts:107-110 | `setCurrentList` keeps the mirror invariant. |
| Store.CreateKeepsMirror | src/lib/store.ts:123-126 | `createList` with a fresh id keeps the mirror invariant. |
| Store.EditKeepsMirror | src/lib/store.ts:130-280 | Every editing action keeps the mirror invariant, once for the lists and once for the copy. |
| Store.DeleteKeepsMirror | src/lib/store.ts:141-146 | `deleteList` keeps the mirror invariant. |
| Store.UnknownListIdIsNoop | src/lib/store.ts:130-280 | Under the invariant, every action addressed to an unknown list id changes neither `lists` nor `currentList`. |
| Store.TodoStore.constructor | src/lib/store.ts:96-105 | The initial state: the two default lists, no current list, the fixed user, filter `all`, sort `newest`, visibility `all`, empty query. The mirror invariant holds. |
| Store.TodoStore.SetCurrentList | src/lib/store.ts:107-110 | Sets only `currentList`, to the selected list. |
| Store.TodoStore.CreateList | src/lib/store.ts:112-128 | Appends exactly one new list and makes it current. The list carries the given title, description and visibility, no items, no shares, the current user as owner and the given time. The method returns it. |
| Store.TodoStore.UpdateList | src/lib/store.ts:130-139 | Sets `lists` and `currentList` to their merged versions. |
| Store.TodoStore.DeleteList | src/lib/store.ts:141-146 | Removes the lists with the id and clears a deleted current list. |
| Store.TodoStore.AddTodoItem | src/lib/store.ts:148-165 | Appends the uncompleted item with the given content to the matching lists and copy. |
| Store.TodoStore.ToggleTodoItem | src/lib/store.ts:167-192 | Toggles the matching items in the matching lists and copy. |
| Store.TodoStore.UpdateTodoItem | src/lib/store.ts:194-219 | Sets the content of the matching items in the matching lists and copy. |
| Store.TodoStore.DeleteTodoItem | src/lib/store.ts:221-238 | Removes the matching items from the matching lists and copy. |
| Store.TodoStore.ShareList | src/lib/store.ts:240-261 | Shares the matching lists and copy with the user. |
| Store.TodoStore.RemoveSharedUser | src/lib/store.ts:263-280 | Removes the user from the matching lists and copy. |
| Store.TodoStore.Apply | src/lib/store.ts:130-280 | The common `set` of the editing actions: edits `lists` and the copy alike and keeps the invariant. |
| Store.TodoStore.SetFilter | src/lib/store.ts:282 | Sets only `filter`. |
| Store.TodoStore.SetSort | src/lib/store.ts:283 | Sets only `sort`. |
| Store.TodoStore.SetVisibility | src/lib/store.ts:284 | Sets only `visibility`. |
| Store.TodoStore.SetSearchQuery | src/lib/store.ts:285 | Sets only `searchQuery`. |
| Dashboard.MatchesSearch | src/pages/Dashboard.tsx:76-77 | The search test; a match needs a query no longer than the title or the description. Its meaning is stated by `Dashboard.SearchIsSubstring`. |
| Dashboard.MatchesVisibility | src/pages/Dashboard.tsx:79-83 | The visibility test, one case per option; its effect on the shown lists is stated by `Dashboard.PrivatePublicPartition` and `Dashboard.SharedIgnoresPublic`. |
| Dashboard.Keeps | src/pages/Dashboard.tsx:75-86 | The predicate passed to `filter`: both tests together, as `Dashboard.FilteredLists` states. |
| Dashboard.FilteredLists | src/pages/Dashboard.tsx:75-86 | The shown lists are an order-preserving subsequence of `lists`. They hold exactly the lists matching both the search and the visibility choice. |
| Dashboard.SearchIsSubstring | src/pages/Dashboard.tsx:76-77 | A list matches the search exactly when the lower-cased query occurs in the lower-cased title or description. |
| Dashboard.EmptyQueryMatchesAll | src/pages/Dashboard.tsx:76-77 | The empty query matches every list. |
| Dashboard.AllWithEmptyQueryIsIdentity | src/pages/Dashboard.tsx:75-86 | Visibility `all` with an empty query shows every list in order. |
| Dashboard.PrivatePublicPartition | src/pages/Dashboard.tsx:79-82 | `private` and `public` split the search matches: exactly the non-public and the public ones. Their sizes add up to the `all` result. |
| Dashboard.SharedIgnoresPublic | src/pages/Dashboard.tsx:83 | `shared` keeps exactly the matching lists with a non-empty `sharedWith`, public or not. |
| Dashboard.SortOrder | src/pages/Dashboard.tsx:88-99 | The "not after" relation of each comparator; `Dashboard.SortOrderIsPreorder` states that each is a total preorder. |
| Dashboard.SortOrderIsPreorder | src/pages/Dashboard.tsx:88-99 | Each of the three comparators is a total preorder. |
| Dashboard.SortedLists | src/pages/Dashboard.tsx:88-99 | The sorted lists are a permutation of the filtered ones. `newest` gives non-increasing creation times and `oldest` non-decreasing ones. `alphabetical` orders titles by the title comparison. |
| Dashboard.NewestPutsLaterFirst | src/pages/Dashboard.tsx:90-91 | Under `newest`, a later list comes before an earlier one. |
| Dashboard.CompletedTasksCount | src/pages/Dashboard.tsx:119-121 | The count is at most the number of items. It equals it exactly when all items are completed, and it is 0 exactly when none is. |
| Dashboard.CountCompletedBounds | src/pages/Dashboard.tsx:119-121 | The same two if-and-only-ifs, on the filtered item sequence. |
| Dashboard.TogglePublicFlips | src/pages/Dashboard.tsx:114-117 | With unique ids, a card's toggle gives its list the opposite visibility and leaves every other list alone. |
| TodoListPage.Shows | src/pages/TodoList.tsx:147-152 | The predicate of each completion tab; `TodoListPage.FilteredTodos` states what each tab shows. |
| TodoListPage.FilteredTodos | src/pages/TodoList.tsx:147-152 | Each tab shows an order-preserving subsequence of the items. `all` shows them unchanged, `active` exactly the uncompleted ones and `completed` exactly the completed ones. |
| TodoListPage.CompletedCount | src/pages/TodoList.tsx:155 | The completed count is at most the number of items, and 0 when no item is completed. |
| TodoListPage.TotalCount | src/pages/TodoList.tsx:156 | The number of items; `TodoListPage.TabsPartitionItems` relates it to the tabs. |
| TodoListPage.TabsPartitionItems | src/pages/TodoList.tsx:155-156 | The active and completed tabs add up to the total. The completed count never exceeds it, and "remaining" is the number of active items. |
| TodoListPage.CompletionPercentage | src/pages/TodoList.tsx:157 | 0 for an empty list. Otherwise it is the integer nearest to the exact percentage, halves rounded up, at most 100, and exactly 100 when every item is completed. |
| TodoListPage.RoundHalfUp | src/pages/TodoList.tsx:157 | The rounding facts behind the percentage. |
| TodoListPage.TodoListPage.constructor | src/pages/TodoList.tsx:73-77 | The page starts with an empty new-item input, out of edit mode, with an empty form and no navigation. |
| TodoListPage.TodoListPage.Mount | src/pages/TodoList.tsx:79-82 | A non-empty route id selects its list; no id leaves the selection alone. |
| TodoListPage.TodoListPage.Unmount | src/pages/TodoList.tsx:84-86 | Leaving the page clears the selection. |
| TodoListPage.TodoListPage.HandleAddTodo | src/pages/TodoList.tsx:100-108 | Blank content changes nothing. Otherwise the untrimmed content is added to the current list and the input is cleared. |
| TodoListPage.TodoListPage.HandleDeleteList | src/pages/TodoList.tsx:110-114 | Deletes the current list, clears the selection and navigates to `/dashboard`. |
| TodoListPage.TodoListPage.HandleTogglePublic | src/pages/TodoList.tsx:116-119 | The current list gets the opposite visibility, in `lists` and in the copy. |
| TodoListPage.TodoListPage.HandleEditList | src/pages/TodoList.tsx:121-125 | Copies the title and description into the form and enters edit mode. |
| TodoListPage.TodoListPage.HandleSaveEdit | src/pages/TodoList.tsx:127-140 | A blank title keeps the store and edit mode. Otherwise the title and description are saved and edit mode ends. |
| TodoListPage.TodoListPage.HandleCancelEdit | src/pages/TodoList.tsx:142-144 | Leaves edit mode. |
| TodoListPage.TogglePublicTwiceRestores | src/pages/TodoList.tsx:116-119 | Under the mirror invariant, two toggles restore `lists` and the copy. |
| TodoItemView.TodoItemView.constructor | src/components/TodoItem.tsx:16-17 | A row starts out of edit mode with the item's content in the editor. |
| TodoItemView.TodoItemView.ReceiveItem | src/pages/TodoList.tsx:369 | A re-render with the same `key` passes a new `item` prop with the same id and keeps the row's own state. |
| TodoItemView.TodoItemView.HandleToggle | src/components/TodoItem.tsx:26-28 | Toggles this item through the store. |
| TodoItemView.TodoItemView.HandleEdit | src/components/TodoItem.tsx:30-32 | Enters edit mode and changes nothing else. |
| TodoItemView.TodoItemView.HandleCancel | src/components/TodoItem.tsx:34-37 | Leaves edit mode and resets the editor to the item's content. |
| TodoItemView.TodoItemView.HandleSave | src/components/TodoItem.tsx:39-44 | Blank text changes nothing and editing goes on. Other text, untrimmed, replaces this item's content and editing ends. |
| TodoItemView.TodoItemView.HandleKeyDown | src/components/TodoItem.tsx:46-52 | Enter acts as save and Escape as cancel. Any other key changes nothing. |
| TodoItemView.TodoItemView.HandleDelete | src/components/TodoItem.tsx:54-56 | Deletes this item through the store. |
| CreateListModal.CreateListModal.constructor | src/components/CreateListModal.tsx:19-21 | The dialog starts with an empty title and description, private, never closed and with no navigation. |
| CreateListModal.CreateListModal.HandleSubmit | src/components/CreateListModal.tsx:24-43 | A blank title changes nothing. Otherwise one list is created from the untrimmed form and becomes current. The dialog is closed once, the form is reset, and the dialog navigates to `/list/` followed by the new id. |
| ShareModal.FilteredUsers | src/components/ShareModal.tsx:26-29 | The shown users are an order-preserving subsequence of the directory. They are exactly the users the search matches, and all of them for the empty query. |
| ShareModal.MatchesUser | src/components/ShareModal.tsx:27-29 | The user search test on name or email; its meaning is stated by `ShareModal.UserMatchIsSubstring`. |
| ShareModal.UserMatchIsSubstring | src/components/ShareModal.tsx:27-28 | A user matches exactly when the lower-cased query occurs in the lower-cased name or email. |
| ShareModal.FirstChars | src/components/ShareModal.tsx:122 | `map(n => n[0]).join('')` gives at most one character per part, and exactly one per part when no part is empty. |
| ShareModal.AvatarInitials | src/components/ShareModal.tsx:122 | The avatar text; `ShareModal.AvatarInitialsAreWordStarts` states what it holds. |
| ShareModal.FirstCharsOfSplit | src/components/ShareModal.tsx:122 | Initials over the space-split name equal the word starts of the name. |
| ShareModal.AvatarInitialsAreWordStarts | src/components/ShareModal.tsx:122 | The avatar shows the first character of each space-separated word, in order, and nothing else. |
| ShareModal.WordStartsFromName | src/components/ShareModal.tsx:122 | Every initial is a non-space character of the name. |
| ShareModal.ClickEdit | src/components/ShareModal.tsx:112 | The edit a user's button asks for: removal when `sharedWith` includes the user, sharing otherwise; `ShareModal.ClickFlipsListAccess` states its effect. |
| ShareModal.ClickFlipsListAccess | src/components/ShareModal.tsx:134-136 | On one list, a click gives the user access exactly when they had none. |
| ShareModal.ClickFlipsAccess | src/components/ShareModal.tsx:134-136 | A click flips whether the user has access to the list. |
| ShareModal.ClickTwiceRestores | src/components/ShareModal.tsx:134-136 | Two clicks restore the user's access. Starting without access, they restore the list exactly. |
| ShareModal.ShareThenRemoveRestores | src/components/ShareModal.tsx:134-136 | Sharing a list with a user who had no access and then removing them gives back the list found under that id. |
| ShareModal.ShareThenRemoveList | src/lib/store.ts:240-280 | The same round trip on one list restores it exactly. |
| ShareModal.AccessCount | src/components/ShareModal.tsx:167 | The "people have access" count; `ShareModal.ClickChangesAccessCount` states how a click changes it. |
| ShareModal.WithoutShareLength | src/lib/store.ts:269 | Removing a user shortens `sharedWith` by the user's multiplicity. |
| ShareModal.ClickChangesAccessCount | src/components/ShareModal.tsx:167 | A click on a user without access adds one to the "people have access" count. A click on a user with access removes all their copies, which is one copy when there are no duplicates. |
| ShareModal.ShareModal.constructor | src/components/ShareModal.tsx:23 | The dialog starts with an empty search query. |
| ShareModal.ShareModal.ShownUsers | src/components/ShareModal.tsx:27-30 | The users listed are directory users other than the signed-in one, and all of the directory for the empty query. |
| ShareModal.ShareModal.HandleTogglePublic | src/components/ShareModal.tsx:38-40 | The dialog's list gets the opposite visibility. |
| ShareModal.ShareModal.HandleShareWithUser | src/components/ShareModal.tsx:42-45 | Shares the dialog's list with the user. |
| ShareModal.ShareModal.HandleRemoveUser | src/components/ShareModal.tsx:47-50 | Removes the user from the dialog's list. |
| ShareModal.ShareModal.ClickUser | src/components/ShareModal.tsx:134-136 | Removes a user who has access, shares with one who has not, and applies the same edit to `lists` and to `currentList`, so the user's access flips. |
| UserMenu.CharAt0 | src/components/UserMenu.tsx:52 | `s[0]` is defined exactly for a non-empty string. |
| UserMenu.UserInitials | src/components/UserMenu.tsx:44-53 | No or empty email gives `?`. The menu throws (`None`) exactly when the first two of several name parts are both empty. A single part gives at most two characters, two non-empty leading parts give exactly two, and no result has a lower-case letter. The text `undefined` that `+` writes for one missing first character is exhibited by `UserMenu.EmptyPartShowsUndefined`. |
| UserMenu.LocalPart | src/components/UserMenu.tsx:47 | `split('@')[0]`; `UserMenu.LocalPartIsPrefix` states that it is the text before the first `@`. |
| UserMenu.NameParts | src/components/UserMenu.tsx:47 | The name parts of the local part; `UserMenu.InitialsFromParts` and `JsString.SplitAtFirst` state what they are. |
| UserMenu.InitialsFromEmailText | src/components/UserMenu.tsx:47-52 | In terms of the email text: without a `.`, `_` or `-` before the first `@` the initials are the upper-cased first two characters of the local part; when the first separator has a character before it and a character that is not a separator after it, the initials are the upper-cased first character and the character after that separator. The cases with an empty leading part are `UserMenu.EmptyPartShowsUndefined` and `UserMenu.EmptyPartsThrow`. |
| UserMenu.LocalPartIsPrefix | src/components/UserMenu.tsx:47 | The local part is the text before the first `@`, or all of it. |
| UserMenu.InitialsFromParts | src/components/UserMenu.tsx:47 | With a separator at index `k`, the name parts are the text before it and the split of the rest. |
| UserMenu.EmptyPartShowsUndefined | src/components/UserMenu.tsx:52 | A leading separator leaves the first part empty: `-x@a` shows `UNDEFINEDX`. |
| UserMenu.EmptyPartsThrow | src/components/UserMenu.tsx:52 | With both leading parts empty, `-@a` makes the menu throw. |
| UserMenu.NonEmptyParts | src/components/UserMenu.tsx:47 | The parts kept are exactly the non-empty ones. |
| UserMenu.NameInitials | src/components/UserMenu.tsx:44-53 | The corrected initials: `?` without an email, always one or two characters, no lower-case letters. |
| UserMenu.NameInitialsAgree | src/components/UserMenu.tsx:44-53 | Where the first one or two parts are non-empty, the corrected initials equal the menu's own. |
| UserMenu.DisplayEmail | src/components/UserMenu.tsx:55-58 | No or empty email shows `User`. Up to 20 characters show unchanged. Longer ones show their first 20 characters and `...`. |
| UserMenu.DisplayEmailBounds | src/components/UserMenu.tsx:55-58 | The shown email has at most 23 characters and starts with as much of the email as fits in 20. It differs from the email only when the email is longer than 20, and then it is exactly 23 long. |

## Left out

- Persistence: the `persist` middleware and its `todo-storage` key are storage I/O with no visible contract.
- Ids: `uuidv4()` is a parameter. The only assumption is that the id is not used yet.
- Time: timestamps are integers passed in. The ISO strings and `new Date(...).getTime()` are not modelled.
- Store.DefaultLists: gives all six default timestamps the one load time `now`. In the source each is a separate `new Date()` call, so they can differ by milliseconds.
- Title order: `localeCompare` is an abstract total preorder `titleLeq`.
- Dashboard.SortedLists: does not state that the sort is stable. `Array.prototype.sort` is stable, and `Seqs.SortBy` is stable too, but no lemma says so.
- Case mapping: `toLowerCase` and `toUpperCase` are modelled on ASCII letters only. Full Unicode casing is not.
- UserMenu.DisplayEmail, UserMenu.UserInitials, ShareModal.FirstChars: lengths, cuts and first characters count Unicode scalar values, not UTF-16 code units as JavaScript's `length`, `substring`, `slice` and `[0]` do. Outside the Basic Multilingual Plane they differ: eleven emoji followed by `@x.io` are 27 code units, so the menu shows ten emoji and `...`, while the model counts 16 characters and shows the email unchanged.
- TodoListPage.CompletionPercentage: rounds the exact quotient, not the floating-point product. For 29 of 200 items, the source's `(29 / 200) * 100` is just below 14.5, so it shows 14 where the model gives 15.
- Rendering, toasts, the clipboard and `window.location.origin` are not modelled. The share link text is left out for the same reason.
- Open/closed state: the open flags of the dialogs (`isCreateModalOpen`, `shareListId`, `isShareModalOpen`) are presentation and are not modelled.
- Dashboard handlers: `handleDeleteList` plainly delegates to `deleteList`. Its properties are the store's (`Store.DeleteListKeepsOthers`).
- Sign-out and authentication: `useAuth` is not part of this model, so the asynchronous sign-out is left out. So are the route guard and the landing page that depend on it.
- Other pages: the navigation bar and the empty-state table are presentation only.
- Unused types: `Profile` and the database row types in `src/lib/types.ts` are not used by the store.
- `updateList` takes a `Partial<TodoList>`. Every caller passes only title, description and visibility, so `ListUpdate` holds just those three.
- Two invariants one would expect are not kept by the code: "`sharedWith` never includes the owner" and "ids are unique". `shareList` accepts any user id (`Store.ShareAcceptsOwner`). Id uniqueness appears only as a hypothesis of the mirror invariant.
- Handlers on a missing list: without a current list the list page shows only its "not found" state with a way back (src/pages/TodoList.tsx:89-98), and the share dialog renders nothing (src/components/ShareModal.tsx:25). Neither offers its handlers then, so the handlers require that the list exists.

## Findings

| source | as written | input that shows it | evidently intended | confidence | as-written member | corrected member |
|---|---|---|---|---|---|---|
| src/components/UserMenu.tsx:52 | `parts[0][0] + parts[1][0]` reads the first character of parts that may be empty | `-x@a` gives `UNDEFINEDX`; `-@a` evaluates `undefined + undefined` to `NaN` and `toUpperCase` throws | the first characters of the first two non-empty name parts | high (not executed) | UserMenu.EmptyPartShowsUndefined | UserMenu.NameInitials |
