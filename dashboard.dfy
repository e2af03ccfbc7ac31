/** The dashboard's derived view of the store: the lists that match the
    search text and the visibility choice, sorted by the sort choice, and
    the completed-item count shown on each card. */
module Dashboard {
  import opened Types
  import opened JsString
  import Seqs
  import opened Store

  /** The lower-cased query occurs in the lower-cased title or description. */
  predicate MatchesSearch(l: TodoList, query: string)
    ensures MatchesSearch(l, query) ==> |query| <= |l.title| || |query| <= |l.description|
  {
    Includes(Lower(l.title), Lower(query)) || Includes(Lower(l.description), Lower(query))
  }

  predicate MatchesVisibility(l: TodoList, visibility: VisibilityOption)
  {
    match visibility
    case All => true
    case Private => !l.isPublic
    case Public => l.isPublic
    case Shared => |l.sharedWith| > 0
  }

  /** The predicate `filteredLists` passes to `filter`. */
  function Keeps(query: string, visibility: VisibilityOption): TodoList -> bool
  {
    (l: TodoList) => MatchesSearch(l, query) && MatchesVisibility(l, visibility)
  }

  /** `filteredLists`: an order-preserving subsequence of `lists` holding
      exactly the lists that match both the search and the visibility. */
  function FilteredLists(lists: seq<TodoList>, query: string, visibility: VisibilityOption): (r: seq<TodoList>)
    ensures Seqs.Subseq(r, lists)
    ensures forall l :: l in r <==> l in lists && MatchesSearch(l, query) && MatchesVisibility(l, visibility)
  {
    Seqs.Filter(lists, Keeps(query, visibility))
  }

  /** Search is case-insensitive substring search in the title or the
      description. */
  lemma SearchIsSubstring(l: TodoList, query: string)
    ensures MatchesSearch(l, query) <==>
      (exists i :: OccursAt(Lower(l.title), Lower(query), i)) ||
      (exists i :: OccursAt(Lower(l.description), Lower(query), i))
  {
    IncludesIffOccurs(Lower(l.title), Lower(query));
    IncludesIffOccurs(Lower(l.description), Lower(query));
  }

  /** The empty query matches every list. */
  lemma EmptyQueryMatchesAll(l: TodoList)
    ensures MatchesSearch(l, "")
  {
    IncludesEmpty(Lower(l.title));
  }

  /** With no search text and visibility `all` every list is shown, in order. */
  lemma AllWithEmptyQueryIsIdentity(lists: seq<TodoList>)
    ensures FilteredLists(lists, "", VisibilityOption.All) == lists
  {
    forall i | 0 <= i < |lists| ensures Keeps("", VisibilityOption.All)(lists[i]) {
      EmptyQueryMatchesAll(lists[i]);
    }
  }

  /** `private` and `public` split the search matches between them. */
  lemma PrivatePublicPartition(lists: seq<TodoList>, query: string)
    ensures |FilteredLists(lists, query, Private)| + |FilteredLists(lists, query, Public)|
         == |FilteredLists(lists, query, VisibilityOption.All)|
    ensures forall l :: l in FilteredLists(lists, query, Private) <==> l in lists && MatchesSearch(l, query) && !l.isPublic
    ensures forall l :: l in FilteredLists(lists, query, Public) <==> l in lists && MatchesSearch(l, query) && l.isPublic
  {
    Seqs.FilterSplit(lists, Keeps(query, VisibilityOption.All), Keeps(query, Private), Keeps(query, Public));
  }

  /** `shared` keeps the lists shared with someone, public or not. */
  lemma SharedIgnoresPublic(lists: seq<TodoList>, query: string)
    ensures forall l :: l in FilteredLists(lists, query, Shared) <==>
      l in lists && MatchesSearch(l, query) && |l.sharedWith| > 0
  {
  }

  /** The "not after" relation of each comparator `sortedLists` uses;
      `titleLeq` stands for `localeCompare(a, b) <= 0`. */
  function SortOrder(sort: SortOption, titleLeq: (string, string) -> bool): (TodoList, TodoList) -> bool
  {
    match sort
    case Newest => (a: TodoList, b: TodoList) => a.createdAt >= b.createdAt
    case Oldest => (a: TodoList, b: TodoList) => a.createdAt <= b.createdAt
    case Alphabetical => (a: TodoList, b: TodoList) => titleLeq(a.title, b.title)
  }

  lemma SortOrderIsPreorder(sort: SortOption, titleLeq: (string, string) -> bool)
    requires Seqs.TotalPreorder(titleLeq)
    ensures Seqs.TotalPreorder(SortOrder(sort, titleLeq))
  {
    var le := SortOrder(sort, titleLeq);
    if sort == Alphabetical {
      forall a: TodoList, b: TodoList ensures le(a, b) || le(b, a) {
        assert titleLeq(a.title, b.title) || titleLeq(b.title, a.title);
      }
      forall a: TodoList, b: TodoList, c: TodoList | le(a, b) && le(b, c) ensures le(a, c) {
        assert titleLeq(a.title, b.title) && titleLeq(b.title, c.title);
      }
    }
  }

  /** `sortedLists`: the filtered lists sorted on a copy. */
  function SortedLists(filtered: seq<TodoList>, sort: SortOption, titleLeq: (string, string) -> bool): (r: seq<TodoList>)
    requires Seqs.TotalPreorder(titleLeq)
    ensures multiset(r) == multiset(filtered)
    ensures sort == Newest ==> forall i, j :: 0 <= i < j < |r| ==> r[i].createdAt >= r[j].createdAt
    ensures sort == Oldest ==> forall i, j :: 0 <= i < j < |r| ==> r[i].createdAt <= r[j].createdAt
    ensures sort == Alphabetical ==> forall i, j :: 0 <= i < j < |r| ==> titleLeq(r[i].title, r[j].title)
  {
    SortOrderIsPreorder(sort, titleLeq);
    Seqs.SortBy(filtered, SortOrder(sort, titleLeq))
  }

  /** A list created later comes first under `newest`. */
  lemma NewestPutsLaterFirst(older: TodoList, newer: TodoList, titleLeq: (string, string) -> bool)
    requires Seqs.TotalPreorder(titleLeq)
    requires older.createdAt < newer.createdAt
    ensures SortedLists([older, newer], Newest, titleLeq) == [newer, older]
  {
    var r := SortedLists([older, newer], Newest, titleLeq);
    assert older in multiset(r) && newer in multiset(r);
  }

  /** `getCompletedTasksCount`. */
  function CompletedTasksCount(l: TodoList): (n: nat)
    ensures n <= |l.items|
    ensures n == |l.items| <==> forall i :: 0 <= i < |l.items| ==> l.items[i].completed
    ensures n == 0 <==> forall i :: 0 <= i < |l.items| ==> !l.items[i].completed
  {
    CountCompletedBounds(l.items);
    |Seqs.Filter(l.items, (i: TodoItem) => i.completed)|
  }

  lemma {:induction false} CountCompletedBounds(items: seq<TodoItem>)
    ensures var n := |Seqs.Filter(items, (i: TodoItem) => i.completed)|;
      && (n == |items| <==> forall i :: 0 <= i < |items| ==> items[i].completed)
      && (n == 0 <==> forall i :: 0 <= i < |items| ==> !items[i].completed)
  {
    if items != [] {
      CountCompletedBounds(items[1..]);
      assert forall i :: 1 <= i < |items| ==> items[i] == items[1..][i - 1];
    }
  }

  /** `handleTogglePublic` on a card: with unique ids, the card's list comes
      back with the opposite visibility and every other list is untouched. */
  lemma TogglePublicFlips(lists: seq<TodoList>, l: TodoList)
    requires UniqueIds(lists) && l in lists
    ensures var after := EditLists(lists, l.id, MergeFields(ListUpdate(None, None, Some(!l.isPublic))));
      && Find(after, l.id) == Some(l.(isPublic := !l.isPublic))
      && forall k :: 0 <= k < |lists| && lists[k].id != l.id ==> after[k] == lists[k]
  {
    FindUnique(lists, l);
    FindAfterEdit(lists, l.id, MergeFields(ListUpdate(None, None, Some(!l.isPublic))), l.id);
  }
}
