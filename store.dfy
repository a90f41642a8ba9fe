/**
 * The session's array of lists and the state-changing bodies of the routes.
 * Each method takes its request parameters already parsed: an integer index
 * (what `to_i` produced) and an already stripped name. Lists and todos are
 * addressed by position, with Ruby's rules for negative indices.
 */
module Store {
  import opened Wrappers
  import opened Sequences
  import opened Todos
  import opened Validation

  /** The position that index i denotes in an array of length n; only called where it denotes one. */
  function Position(n: nat, i: int): (k: nat)
    requires -(n as int) <= i < n
    ensures k < n && (k == i || k == n + i)
  {
    ResolveIndex(n, i).value
  }

  /**
   * The view route's guard `(0..@lists.size).cover?(id)` as written: an
   * inclusive range, so it lets id == size through.
   */
  function ViewGuardAsWritten(size: nat, id: int): (b: bool)
    ensures b <==> ViewGuard(size, id) || id == size
  {
    0 <= id <= size
  }

  /**
   * The guard admits the id one past the last list, where `@lists[id]` is `nil`
   * and the route then fails on `nil[:todos]`.
   */
  lemma ViewGuardAdmitsMissingList(lists: seq<TodoList>)
    ensures ViewGuardAsWritten(|lists|, |lists|)
    ensures ResolveIndex(|lists|, |lists|).None?
  {
  }

  /** The intended guard, `(0...@lists.size).cover?(id)`: exactly the ids of existing lists. */
  function ViewGuard(size: nat, id: int): (b: bool)
    ensures b <==> id >= 0 && ResolveIndex(size, id).Some?
  {
    0 <= id < size
  }

  class ListStore {
    /** `session[:lists]`. */
    var lists: seq<TodoList>

    ghost predicate Valid()
      reads this
    {
      ValidLists(lists)
    }

    /** The `before` filter on a fresh session: `session[:lists] = []`. */
    constructor ()
      ensures lists == [] && Valid()
    {
      lists := [];
    }

    /**
     * GET /lists/:list_id with the intended guard: the list at a non-negative
     * position, or `None` (the "List Not Found" redirect).
     */
    method ViewList(id: int) returns (r: Option<TodoList>)
      ensures r.Some? <==> ViewGuard(|lists|, id)
      ensures r.Some? ==> 0 <= id < |lists| && r.value == lists[id]
    {
      if ViewGuard(|lists|, id) {
        r := Some(lists[id]);
      } else {
        r := None;
      }
    }

    /** POST /lists: append `{name:, todos: []}` when the name passes validation. */
    method CreateList(name: string) returns (error: Option<NameError>)
      modifies this
      ensures error == ErrorForListName(name, old(lists))
      ensures error.None? ==> lists == old(lists) + [TodoList(name, [])]
      ensures error.Some? ==> lists == old(lists)
      ensures old(Valid()) ==> Valid()
    {
      error := ErrorForListName(name, lists);
      if error.None? {
        if Valid() {
          AppendListKeepsValid(lists, name);
        }
        lists := lists + [TodoList(name, [])];
      }
    }

    /**
     * POST /lists/:list_id: rename the list when the name passes validation.
     * Uniqueness is checked against every list, the renamed one included.
     * Only the success path dereferences the list, so only a name that
     * passes validation needs an index that denotes a list.
     */
    method RenameList(listId: int, name: string) returns (error: Option<NameError>)
      requires ErrorForListName(name, lists).None? ==> -|lists| <= listId < |lists|
      modifies this
      ensures error == ErrorForListName(name, old(lists))
      ensures error.None? ==>
                var k := Position(|old(lists)|, listId);
                lists == old(lists)[k := old(lists)[k].(name := name)]
      ensures error.Some? ==> lists == old(lists)
      ensures old(Valid()) ==> Valid()
    {
      error := ErrorForListName(name, lists);
      if error.None? {
        var k := Position(|lists|, listId);
        if Valid() {
          RenameKeepsValid(lists, k, name);
        }
        lists := lists[k := lists[k].(name := name)];
      }
    }

    /** POST /lists/:list_id/delete: `delete_at` when the delete parameter is present. */
    method DeleteList(listId: int, confirmed: bool)
      modifies this
      ensures lists == if confirmed then DeleteAt(old(lists), listId) else old(lists)
      ensures old(Valid()) ==> Valid()
    {
      if confirmed {
        if Valid() {
          DeleteListKeepsValid(lists, listId);
        }
        lists := DeleteAt(lists, listId);
      }
    }

    /** POST /lists/:list_id/todos: append `{name:, done: false}`; only the length is checked. */
    method AddTodo(listId: int, name: string) returns (error: Option<NameError>)
      requires -|lists| <= listId < |lists|
      modifies this
      ensures error == ErrorForTodoName(name)
      ensures var k := Position(|old(lists)|, listId);
              error.None? ==> lists == old(lists)[k := old(lists)[k].(todos := old(lists)[k].todos + [Todo(name, false)])]
      ensures error.Some? ==> lists == old(lists)
      ensures old(Valid()) ==> Valid()
    {
      var k := Position(|lists|, listId);
      error := ErrorForTodoName(name);
      if error.None? {
        var todos := lists[k].todos + [Todo(name, false)];
        if Valid() {
          ReplaceTodosKeepsValid(lists, k, todos);
        }
        lists := lists[k := lists[k].(todos := todos)];
      }
    }

    /** POST /lists/:list_id/todos/:todo_id/delete: `delete_at` on the list's todos. */
    method DeleteTodo(listId: int, todoId: int)
      requires -|lists| <= listId < |lists|
      modifies this
      ensures var k := Position(|old(lists)|, listId);
              lists == old(lists)[k := old(lists)[k].(todos := DeleteAt(old(lists)[k].todos, todoId))]
      ensures old(Valid()) ==> Valid()
    {
      var k := Position(|lists|, listId);
      var todos := DeleteAt(lists[k].todos, todoId);
      if Valid() {
        match ResolveIndex(|lists[k].todos|, todoId)
        case None =>
        case Some(gone) =>
          forall m | 0 <= m < |todos|
            ensures ValidLength(todos[m].name)
          {
            var j := if m < gone then m else m + 1;
            assert todos[m] == lists[k].todos[j];
          }
        ReplaceTodosKeepsValid(lists, k, todos);
      }
      lists := lists[k := lists[k].(todos := todos)];
    }

    /**
     * POST /lists/:list_id/todos/:todo_id/update: the todo's `done` becomes
     * `params[:completed] == "true"` (an absent parameter is `None`).
     */
    method UpdateTodo(listId: int, todoId: int, completed: Option<string>)
      requires -|lists| <= listId < |lists|
      requires var k := Position(|lists|, listId);
               -|lists[k].todos| <= todoId < |lists[k].todos|
      modifies this
      ensures var k := Position(|old(lists)|, listId);
              var t := Position(|old(lists)[k].todos|, todoId);
              lists == old(lists)[k := old(lists)[k].(todos := old(lists)[k].todos[t := old(lists)[k].todos[t].(done := completed == Some("true"))])]
      ensures old(Valid()) ==> Valid()
    {
      var k := Position(|lists|, listId);
      var t := Position(|lists[k].todos|, todoId);
      var todos := lists[k].todos[t := lists[k].todos[t].(done := completed == Some("true"))];
      if Valid() {
        ReplaceTodosKeepsValid(lists, k, todos);
      }
      lists := lists[k := lists[k].(todos := todos)];
    }

    /** POST /lists/:list_id/complete_all: `each` todo of the list gets `done = true`. */
    method CompleteAll(listId: int)
      requires -|lists| <= listId < |lists|
      modifies this
      ensures var k := Position(|old(lists)|, listId);
              lists == old(lists)[k := MarkAllDone(old(lists)[k])]
      ensures old(Valid()) ==> Valid()
    {
      var k := Position(|lists|, listId);
      ghost var before := lists;
      var j := 0;
      while j < |lists[k].todos|
        invariant |lists| == |before| && k < |lists|
        invariant forall m :: 0 <= m < |lists| && m != k ==> lists[m] == before[m]
        invariant lists[k].name == before[k].name && |lists[k].todos| == |before[k].todos|
        invariant 0 <= j <= |lists[k].todos|
        invariant forall i :: 0 <= i < j ==> lists[k].todos[i] == Todo(before[k].todos[i].name, true)
        invariant forall i :: j <= i < |lists[k].todos| ==> lists[k].todos[i] == before[k].todos[i]
      {
        var list := lists[k];
        lists := lists[k := list.(todos := list.todos[j := list.todos[j].(done := true)])];
        j := j + 1;
      }
      assert lists[k] == MarkAllDone(before[k]);
      assert lists == before[k := MarkAllDone(before[k])];
      if ValidLists(before) {
        ReplaceTodosKeepsValid(before, k, MarkAllDone(before[k]).todos);
      }
    }
  }

  /**
   * The walk-through of a session: create "Groceries", add "Milk" and "Eggs",
   * mark "Milk" done; one of two remains and the list is not complete until
   * "Eggs" is done too.
   */
  method GroceriesScenario()
  {
    var store := new ListStore();
    var error := store.CreateList("Groceries");
    assert error == None;
    error := store.AddTodo(0, "Milk");
    assert error == None;
    error := store.AddTodo(0, "Eggs");
    assert error == None;
    store.UpdateTodo(0, 0, Some("true"));
    var list := store.lists[0];
    assert list.todos == [Todo("Milk", true), Todo("Eggs", false)];
    assert Keep(list.todos, IsDone, false) == [Todo("Eggs", false)];
    assert RemainingTodosCount(list) == 1 && TodosCount(list) == 2;
    assert CompletionRate(list) == "1 / 2";
    assert !ListComplete(list);
    error := store.CreateList("Groceries");
    assert error == Some(ListNameNotUnique);
    store.UpdateTodo(0, 1, Some("true"));
    assert ListComplete(store.lists[0]);
  }
}
