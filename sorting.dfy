/**
 * Display order: `sort_lists` and `sort_todos` yield the incomplete items
 * first and then the complete ones, each group in its original order, and
 * pair every item with `Array#index` of it. The yielded pairs are returned
 * here as a sequence.
 */
module Sorting {
  import opened Sequences
  import opened Todos
  import opened Validation

  /** The items of a sequence of (item, index) pairs. */
  function Items<T>(r: seq<(T, nat)>): (items: seq<T>)
    ensures |items| == |r|
    ensures forall k :: 0 <= k < |r| ==> items[k] == r[k].0
  {
    seq(|r|, k requires 0 <= k < |r| => r[k].0)
  }

  /** Each element of items paired with `s.index(element)`, in the order of items. */
  function WithIndex<T(==)>(s: seq<T>, items: seq<T>): (r: seq<(T, nat)>)
    requires forall x :: x in items ==> x in s
    ensures |r| == |items|
    ensures forall k :: 0 <= k < |r| ==> r[k].0 == items[k] && r[k].1 == FirstIndex(s, items[k])
    decreases |items|
  {
    if items == [] then [] else [(items[0], FirstIndex(s, items[0]))] + WithIndex(s, items[1..])
  }

  /**
   * The shared body of `sort_lists` and `sort_todos`: partition s by
   * `complete`, then yield the incomplete half and then the complete half,
   * each element with its first index in s. The result is a permutation of s
   * in which exactly the first |Keep(s, complete, false)| items are
   * incomplete, and each index is the first position holding its item.
   */
  function PartitionIndexed<T(==)>(s: seq<T>, complete: T -> bool): (r: seq<(T, nat)>)
    ensures |r| == |s|
    ensures multiset(Items(r)) == multiset(s)
    ensures forall k :: 0 <= k < |r| ==> (complete(r[k].0) <==> k >= |Keep(s, complete, false)|)
    ensures forall k :: 0 <= k < |r| ==>
              r[k].1 < |s| && s[r[k].1] == r[k].0 && forall j :: 0 <= j < r[k].1 ==> s[j] != r[k].0
  {
    var incomplete, done := Keep(s, complete, false), Keep(s, complete, true);
    KeepSplit(s, complete);
    var r := WithIndex(s, incomplete + done);
    assert Items(r) == incomplete + done;
    r
  }

  /** For each item of PartitionIndexed(s, complete), the position in s it was taken from. */
  ghost function SourcePositions<T>(s: seq<T>, complete: T -> bool): (pos: seq<nat>)
    ensures |pos| == |s|
  {
    KeepAtPositions(s, complete, false);
    KeepAtPositions(s, complete, true);
    KeepSplit(s, complete);
    Positions(s, complete, false) + Positions(s, complete, true)
  }

  /** The items PartitionIndexed yields are the incomplete half followed by the complete half. */
  lemma PartitionItems<T>(s: seq<T>, complete: T -> bool)
    ensures Items(PartitionIndexed(s, complete)) == Keep(s, complete, false) + Keep(s, complete, true)
  {
  }

  /** Where in s each yielded item was taken from: the k-th item is s[SourcePositions(s, complete)[k]]. */
  lemma SourcePositionsTakeItems<T>(s: seq<T>, complete: T -> bool)
    ensures forall k :: 0 <= k < |s| ==>
              SourcePositions(s, complete)[k] < |s| && s[SourcePositions(s, complete)[k]] == PartitionIndexed(s, complete)[k].0
  {
    var r, pos := PartitionIndexed(s, complete), SourcePositions(s, complete);
    var p0, p1 := Positions(s, complete, false), Positions(s, complete, true);
    var incomplete, done := Keep(s, complete, false), Keep(s, complete, true);
    PartitionItems(s, complete);
    KeepAtPositions(s, complete, false);
    KeepAtPositions(s, complete, true);
    forall k | 0 <= k < |s|
      ensures pos[k] < |s| && s[pos[k]] == r[k].0
    {
      assert r[k].0 == Items(r)[k];
      if k < |p0| {
        assert pos[k] == p0[k] && Items(r)[k] == incomplete[k];
      } else {
        assert pos[k] == p1[k - |p0|] && Items(r)[k] == done[k - |p0|];
      }
    }
  }

  /**
   * The partition is stable: the items come from distinct positions of s,
   * every position of s is used, and two items of the same group appear in
   * the order of their positions in s.
   */
  lemma PartitionStable<T>(s: seq<T>, complete: T -> bool)
    ensures forall k :: 0 <= k < |s| ==>
              SourcePositions(s, complete)[k] < |s| && s[SourcePositions(s, complete)[k]] == PartitionIndexed(s, complete)[k].0
    ensures forall a, b :: 0 <= a < b < |s| ==>
              SourcePositions(s, complete)[a] != SourcePositions(s, complete)[b]
    ensures forall i :: 0 <= i < |s| ==> i in SourcePositions(s, complete)
    ensures forall a, b ::
              (0 <= a < b < |s| &&
               complete(PartitionIndexed(s, complete)[a].0) == complete(PartitionIndexed(s, complete)[b].0)) ==>
              SourcePositions(s, complete)[a] < SourcePositions(s, complete)[b]
  {
    var r, pos := PartitionIndexed(s, complete), SourcePositions(s, complete);
    var p0, p1 := Positions(s, complete, false), Positions(s, complete, true);
    SourcePositionsTakeItems(s, complete);
    KeepAtPositions(s, complete, false);
    KeepAtPositions(s, complete, true);
    assert pos == p0 + p1;
    forall a, b | 0 <= a < b < |s|
      ensures pos[a] != pos[b]
      ensures complete(r[a].0) == complete(r[b].0) ==> pos[a] < pos[b]
    {
      if a < |p0| && b >= |p0| {
        assert pos[a] == p0[a] && pos[b] == p1[b - |p0|];
        assert complete(s[pos[a]]) != complete(s[pos[b]]);
      } else if b < |p0| {
        assert pos[a] == p0[a] && pos[b] == p0[b];
      } else {
        assert pos[a] == p1[a - |p0|] && pos[b] == p1[b - |p0|];
      }
    }
    forall i | 0 <= i < |s|
      ensures i in pos
    {
      if complete(s[i]) {
        assert i in p1;
      } else {
        assert i in p0;
      }
    }
  }

  /** When s has no repeated element, each item is paired with the position it came from, so no two share an index. */
  lemma PartitionIndexOfDistinct<T>(s: seq<T>, complete: T -> bool)
    requires forall a, b :: 0 <= a < b < |s| ==> s[a] != s[b]
    ensures forall k :: 0 <= k < |s| ==> PartitionIndexed(s, complete)[k].1 == SourcePositions(s, complete)[k]
    ensures forall a, b :: 0 <= a < b < |s| ==> PartitionIndexed(s, complete)[a].1 != PartitionIndexed(s, complete)[b].1
  {
    var r, pos := PartitionIndexed(s, complete), SourcePositions(s, complete);
    PartitionStable(s, complete);
    forall k | 0 <= k < |s|
      ensures r[k].1 == pos[k]
    {
      assert s[pos[k]] == r[k].0 == s[r[k].1];
    }
  }

  /** `sort_lists`: incomplete lists first, then complete ones, each with its index in lists. */
  function SortLists(lists: seq<TodoList>): (r: seq<(TodoList, nat)>)
    ensures |r| == |lists| && multiset(Items(r)) == multiset(lists)
    ensures forall k :: 0 <= k < |r| ==> (ListComplete(r[k].0) <==> k >= |Keep(lists, ListComplete, false)|)
    ensures forall k :: 0 <= k < |r| ==>
              r[k].1 < |lists| && lists[r[k].1] == r[k].0 && forall j :: 0 <= j < r[k].1 ==> lists[j] != r[k].0
  {
    PartitionIndexed(lists, ListComplete)
  }

  /**
   * Under the store invariant the lists are distinct, so every list is yielded
   * with the position it was taken from and no two lists share an index.
   */
  lemma SortListsOwnPositions(lists: seq<TodoList>)
    requires ValidLists(lists)
    ensures forall k :: 0 <= k < |lists| ==> SortLists(lists)[k].1 == SourcePositions(lists, ListComplete)[k]
    ensures forall a, b :: 0 <= a < b < |lists| ==> SortLists(lists)[a].1 != SortLists(lists)[b].1
  {
    ValidListsDistinct(lists);
    PartitionIndexOfDistinct(lists, ListComplete);
  }

  /** `sort_todos`: undone todos first, then done ones, each with its index in todos. */
  function SortTodos(todos: seq<Todo>): (r: seq<(Todo, nat)>)
    ensures |r| == |todos| && multiset(Items(r)) == multiset(todos)
    ensures forall k :: 0 <= k < |r| ==> (r[k].0.done <==> k >= |Keep(todos, IsDone, false)|)
    ensures forall k :: 0 <= k < |r| ==>
              r[k].1 < |todos| && todos[r[k].1] == r[k].0 && forall j :: 0 <= j < r[k].1 ==> todos[j] != r[k].0
  {
    PartitionIndexed(todos, IsDone)
  }

  /**
   * Todo names need not be unique, and `Array#index` compares by value, so
   * equal todos are all yielded with the same index: that of the first one.
   */
  lemma SortTodosEqualTodosShareIndex(todos: seq<Todo>)
    ensures forall a, b ::
              (0 <= a < |SortTodos(todos)| && 0 <= b < |SortTodos(todos)| &&
               SortTodos(todos)[a].0 == SortTodos(todos)[b].0) ==>
              SortTodos(todos)[a].1 == SortTodos(todos)[b].1
  {
    var r := SortTodos(todos);
    // Both indices are the first position holding the same todo.
    forall a, b | 0 <= a < |r| && 0 <= b < |r| && r[a].0 == r[b].0
      ensures r[a].1 == r[b].1
    {
    }
  }

  /** For instance, two equal todos are both yielded with index 0, the first one's. */
  lemma SortTodosTwinExample(t: Todo)
    ensures SortTodos([t, t]) == [(t, 0), (t, 0)]
  {
  }
}
