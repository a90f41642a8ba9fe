/**
 * The two entities of the list store and the derived queries the views use:
 * `todos_count`, `remaining_todos_count`, `list_complete?`, `list_class` and
 * `list_completion_rate`.
 */
module Todos {
  import opened Wrappers
  import opened Sequences
  import opened Decimal

  /** One to-do item: the hash `{name:, done:}`. */
  datatype Todo = Todo(name: string, done: bool)

  /** One list: the hash `{name:, todos:}`; the todos are kept in insertion order. */
  datatype TodoList = TodoList(name: string, todos: seq<Todo>)

  function IsDone(t: Todo): bool
  {
    t.done
  }

  /** `todos_count`: the number of todos in the list, which is the remaining ones plus the done ones. */
  function TodosCount(list: TodoList): (n: nat)
    ensures n == |Keep(list.todos, IsDone, false)| + |Keep(list.todos, IsDone, true)|
    ensures n == 0 <==> list.todos == []
  {
    KeepSplit(list.todos, IsDone);
    |list.todos|
  }

  /** `remaining_todos_count`: the size of the selection of todos that are not done. */
  function RemainingTodosCount(list: TodoList): (n: nat)
    ensures n <= TodosCount(list)
  {
    |Keep(list.todos, IsDone, false)|
  }

  /** Nothing remains exactly when every todo is done. */
  lemma RemainingZeroIff(list: TodoList)
    ensures RemainingTodosCount(list) == 0 <==> forall i :: 0 <= i < |list.todos| ==> list.todos[i].done
  {
    var undone := Keep(list.todos, IsDone, false);
    KeepAtPositions(list.todos, IsDone, false);
    if undone != [] {
      assert undone[0] in list.todos;
    }
  }

  /**
   * `list_complete?`: the list has a todo and none of its todos remains. So a
   * list is complete exactly when it is non-empty and all its todos are done,
   * and an empty list never is.
   */
  function ListComplete(list: TodoList): (b: bool)
    ensures b <==> |list.todos| > 0 && forall i :: 0 <= i < |list.todos| ==> list.todos[i].done
    ensures list.todos == [] ==> !b
  {
    RemainingZeroIff(list);
    TodosCount(list) > 0 && RemainingTodosCount(list) == 0
  }

  /** `list_class`: the CSS class "complete" for a complete list, `nil` otherwise. */
  function ListClass(list: TodoList): (c: Option<string>)
    ensures c == Some("complete") <==> |list.todos| > 0 && forall i :: 0 <= i < |list.todos| ==> list.todos[i].done
    ensures c.Some? ==> c.value == "complete"
  {
    if ListComplete(list) then Some("complete") else None
  }

  /**
   * `list_completion_rate`: "<remaining> / <total>". The string is the
   * remaining count's digits, " / ", then the total's digits, and each part
   * reads back as its count.
   */
  function CompletionRate(list: TodoList): (rate: string)
    ensures var w := |NatToString(RemainingTodosCount(list))|;
            && w + 3 <= |rate|
            && AllDigits(rate[..w]) && StringToNat(rate[..w]) == RemainingTodosCount(list)
            && rate[w..w + 3] == " / "
            && |rate| == w + 3 + |NatToString(TodosCount(list))|
            && AllDigits(rate[w + 3..]) && StringToNat(rate[w + 3..]) == TodosCount(list)
  {
    var left, right := NatToString(RemainingTodosCount(list)), NatToString(TodosCount(list));
    var rate := left + " / " + right;
    assert rate[..|left|] == left;
    assert rate[|left|..|left| + 3] == " / ";
    assert rate[|left| + 3..] == right;
    StringToNatOfNatToString(RemainingTodosCount(list));
    StringToNatOfNatToString(TodosCount(list));
    rate
  }

  /** A string of digits cannot stand where a shorter string is followed by " / ". */
  lemma SpaceAfterDigits(u: string, v: string, tail1: string, tail2: string)
    requires AllDigits(v) && |u| < |v|
    ensures u + " / " + tail1 != v + " / " + tail2
  {
    var x, y := u + " / " + tail1, v + " / " + tail2;
    assert x[|u|] == ' ';
    assert y[|u|] == v[|u|];
  }

  /** Two renderings "a / b" and "c / d" are equal only when a == c and b == d. */
  lemma {:induction false} RateStringInjective(a: nat, b: nat, c: nat, d: nat)
    requires NatToString(a) + " / " + NatToString(b) == NatToString(c) + " / " + NatToString(d)
    ensures a == c && b == d
  {
    var sa, sc := NatToString(a), NatToString(c);
    var x := sa + " / " + NatToString(b);
    var y := sc + " / " + NatToString(d);
    // The first ' ' ends the left number in both strings.
    if |sa| < |sc| {
      SpaceAfterDigits(sa, sc, NatToString(b), NatToString(d));
    } else if |sc| < |sa| {
      SpaceAfterDigits(sc, sa, NatToString(d), NatToString(b));
    }
    assert sa == x[..|sa|] == y[..|sc|] == sc;
    assert NatToString(b) == x[|sa| + 3..] == y[|sc| + 3..] == NatToString(d);
    NatToStringInjective(a, c);
    NatToStringInjective(b, d);
  }

  /** Lists whose completion rates read the same have the same remaining and total counts. */
  lemma CompletionRateInjective(l1: TodoList, l2: TodoList)
    requires CompletionRate(l1) == CompletionRate(l2)
    ensures RemainingTodosCount(l1) == RemainingTodosCount(l2)
    ensures TodosCount(l1) == TodosCount(l2)
  {
    RateStringInjective(RemainingTodosCount(l1), TodosCount(l1), RemainingTodosCount(l2), TodosCount(l2));
  }

  /** The list after `complete_all`: each todo keeps its name and place and is done. */
  function MarkAllDone(list: TodoList): (r: TodoList)
    ensures r.name == list.name && |r.todos| == |list.todos|
    ensures forall i :: 0 <= i < |r.todos| ==> r.todos[i] == Todo(list.todos[i].name, true)
  {
    list.(todos := seq(|list.todos|, i requires 0 <= i < |list.todos| => list.todos[i].(done := true)))
  }

  /** After `complete_all` nothing remains and the list is complete exactly when it has a todo. */
  lemma MarkAllDoneCompletes(list: TodoList)
    ensures RemainingTodosCount(MarkAllDone(list)) == 0
    ensures ListComplete(MarkAllDone(list)) <==> |list.todos| > 0
    ensures list.todos == [] ==> MarkAllDone(list) == list
  {
    RemainingZeroIff(MarkAllDone(list));
  }
}
