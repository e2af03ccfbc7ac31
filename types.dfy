/** The records of the application and its three preference enumerations. */
module Types {

  datatype Option<+T> = None | Some(value: T)

  /** Milliseconds since the epoch; the source keeps ISO strings and compares
      them through `new Date(...).getTime()`. */
  type Timestamp = int

  datatype User = User(id: string, name: string, email: string)

  datatype TodoItem = TodoItem(
    id: string,
    content: string,
    completed: bool,
    createdAt: Timestamp)

  datatype TodoList = TodoList(
    id: string,
    title: string,
    description: string,
    isPublic: bool,
    items: seq<TodoItem>,
    createdAt: Timestamp,
    ownerId: string,
    sharedWith: seq<string>)   // ids of the users with edit access

  datatype SortOption = Newest | Oldest | Alphabetical
  datatype FilterOption = All | Active | Completed
  datatype VisibilityOption = All | Private | Public | Shared

  /** The fields of a `Partial<TodoList>` that callers of `updateList` pass;
      `None` is a field left out of the object. */
  datatype ListUpdate = ListUpdate(
    title: Option<string>,
    description: Option<string>,
    isPublic: Option<bool>)
}
