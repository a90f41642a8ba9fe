/**
 * Name validation (`error_for_list_name`, `error_for_todo_name`) and the
 * invariant that validation before every mutation keeps on the store.
 */
module Validation {
  import opened Wrappers
  import opened Sequences
  import opened Todos

  /** The three messages the validators can produce. */
  datatype NameError = ListNameLength | ListNameNotUnique | TodoNameLength

  /** The subjects the messages open with. */
  const ListNameSubject := "The list name"
  const TodoSubject := "Todo"

  /** The text shown for each error: the todo message names a todo, the other two the list name. */
  function Message(e: NameError): (m: string)
    ensures |m| > |ListNameSubject|
    ensures m[..|TodoSubject|] == TodoSubject <==> e == TodoNameLength
    ensures e != TodoNameLength ==> m[..|ListNameSubject|] == ListNameSubject
  {
    match e
    case ListNameLength =>
      var m := ListNameSubject + " must be between 1 and 100 characters!";
      assert m[..|TodoSubject|][1] != TodoSubject[1];
      m
    case ListNameNotUnique =>
      var m := ListNameSubject + " must be unique!";
      assert m[..|TodoSubject|][1] != TodoSubject[1];
      m
    case TodoNameLength => TodoSubject + " must be between 1 and 100 characters!"
  }

  /** `(1..100).cover? name.size`: an empty name and one over 100 characters are refused. */
  function ValidLength(name: string): (b: bool)
    ensures b ==> name != [] && |name| <= 100
    ensures (name == [] || |name| > 100) ==> !b
  {
    1 <= |name| <= 100
  }

  /** `lists.any? { |list| list[:name] == name }`. */
  function NameTaken(lists: seq<TodoList>, name: string): (b: bool)
    ensures b <==> exists l :: l in lists && l.name == name
    ensures b ==> lists != []
  {
    exists i :: 0 <= i < |lists| && lists[i].name == name
  }

  /**
   * `error_for_list_name`: a length error when the name is not 1 to 100
   * characters long, otherwise a uniqueness error when some list already has
   * exactly this name, otherwise no error.
   */
  function ErrorForListName(name: string, lists: seq<TodoList>): (r: Option<NameError>)
    ensures r.None? <==> ValidLength(name) && forall i :: 0 <= i < |lists| ==> lists[i].name != name
    ensures !ValidLength(name) ==> r == Some(ListNameLength)
    ensures r == Some(ListNameNotUnique) <==> ValidLength(name) && exists i :: 0 <= i < |lists| && lists[i].name == name
  {
    if !ValidLength(name) then Some(ListNameLength)
    else if NameTaken(lists, name) then Some(ListNameNotUnique)
    else None
  }

  /** `error_for_todo_name`: only the length is checked; todo names need not be unique. */
  function ErrorForTodoName(name: string): (r: Option<NameError>)
    ensures r.None? <==> 1 <= |name| <= 100
    ensures r.Some? ==> r.value == TodoNameLength
  {
    if !ValidLength(name) then Some(TodoNameLength) else None
  }

  /**
   * What validation before each mutation keeps true of the store: every list
   * name and todo name is 1 to 100 characters long and no two lists share a
   * name.
   */
  ghost predicate ValidLists(lists: seq<TodoList>)
  {
    && (forall i :: 0 <= i < |lists| ==> ValidLength(lists[i].name))
    && (forall i, k :: 0 <= i < |lists| && 0 <= k < |lists[i].todos| ==> ValidLength(lists[i].todos[k].name))
    && (forall i, j :: 0 <= i < j < |lists| ==> lists[i].name != lists[j].name)
  }

  /** Since the names differ, so do the lists themselves. */
  lemma ValidListsDistinct(lists: seq<TodoList>)
    requires ValidLists(lists)
    ensures forall i, j :: 0 <= i < j < |lists| ==> lists[i] != lists[j]
  {
  }

  /** A list always clashes with itself: renaming a list to its current name is refused. */
  lemma OwnNameRejected(lists: seq<TodoList>, k: nat)
    requires k < |lists|
    ensures ErrorForListName(lists[k].name, lists).Some?
    ensures ValidLength(lists[k].name) ==> ErrorForListName(lists[k].name, lists) == Some(ListNameNotUnique)
  {
  }

  /** Appending an empty list under a name that passed validation keeps the invariant. */
  lemma AppendListKeepsValid(lists: seq<TodoList>, name: string)
    requires ValidLists(lists)
    requires ErrorForListName(name, lists).None?
    ensures ValidLists(lists + [TodoList(name, [])])
  {
  }

  /** Renaming a list to a name that passed validation keeps the invariant. */
  lemma RenameKeepsValid(lists: seq<TodoList>, k: nat, name: string)
    requires ValidLists(lists)
    requires k < |lists|
    requires ErrorForListName(name, lists).None?
    ensures ValidLists(lists[k := lists[k].(name := name)])
  {
  }

  /** Deleting a list keeps the invariant. */
  lemma DeleteListKeepsValid(lists: seq<TodoList>, i: int)
    requires ValidLists(lists)
    ensures ValidLists(DeleteAt(lists, i))
  {
  }

  /** Replacing one list by one with the same name and valid todo names keeps the invariant. */
  lemma ReplaceTodosKeepsValid(lists: seq<TodoList>, k: nat, todos: seq<Todo>)
    requires ValidLists(lists)
    requires k < |lists|
    requires forall m :: 0 <= m < |todos| ==> ValidLength(todos[m].name)
    ensures ValidLists(lists[k := lists[k].(todos := todos)])
  {
  }
}
