# Todo list store, modelled in Dafny

This project models the list store at the core of a small Sinatra to-do
application (`todo.rb`). A session holds an ordered array of lists. Each list
is `{name, todos}`, and each todo is `{name, done}`. The model has one
module per part of that logic:

- `Todos`: the two entities, plus the derived queries the views use.
  These are `todos_count`, `remaining_todos_count`, `list_complete?`,
  `list_class` and `list_completion_rate`.
- `Sorting`: `sort_lists` and `sort_todos`. Each is a stable partition that
  yields the incomplete items first. Every item is paired with
  `Array#index` of it. The pairs are returned as a sequence instead of
  being passed to a block.
- `Validation`: `error_for_list_name` and `error_for_todo_name`, and the
  store invariant those checks maintain. The invariant is that all names
  are 1 to 100 characters long and list names are unique.
- `Store`: the class `ListStore`, whose field `lists` is the session's
  array. Its methods are the state-changing bodies of the routes. Each one
  takes already-parsed parameters: an integer index and an already-stripped
  name. Each states the whole new array in terms of the old one.
- `Sequences` holds the Ruby `Array` behaviour these rely on: `select`,
  `partition`, `index`, `delete_at`, and how an integer index picks a
  position (negative indices count from the end). `Decimal` holds
  `Integer#to_s`. `Wrappers` holds `Option`, which models `nil`-or-value.

Lists and todos are addressed by array position, as in the code. The model
follows the code on three points a reader might expect otherwise:

- there are no generated ids; a list or todo is its position in the array;
- renaming checks uniqueness against every list, including the one being
  renamed, so renaming a list to its current name is refused;
- the completion rate renders as `"<remaining> / <total>"`, with spaces
  around the slash.

## Model

| member | source | states |
|---|---|---|
| `Sequences.Keep` | todo.rb:37-48 | `select`/`partition` half: no longer than the input; every element kept satisfies the predicate as asked; every element comes from the input |
| `Sequences.KeepAtPositions` | todo.rb:41-48 | the kept elements are exactly those at the ascending positions that satisfy the predicate, and every such position is used (stable filter) |
| `Sequences.KeepSplit` | todo.rb:41-48 | the two halves of `partition` together have the input's length and multiset: nothing lost or duplicated |
| `Sequences.FirstIndex` | todo.rb:43-51 | `Array#index`: a position holding the element, with no earlier equal element |
| `Sequences.ResolveIndex` | todo.rb:104-121 | an integer index denotes a position exactly when it lies in -n..n-1; that position is the index itself when it is non-negative and n plus the index otherwise |
| `Sequences.DeleteAt` | todo.rb:139-178 | `delete_at`: an index that denotes no element changes nothing; otherwise one element fewer, earlier elements in place, later ones shifted down by one, and the removed element is the only one missing from the multiset |
| `Decimal.NatToString` | todo.rb:72 | `to_s` of a count is non-empty, all digits, and has no leading zero (it starts with `0` only for zero) |
| `Decimal.StringToNatOfNatToString` | todo.rb:72 | reading the digits back gives the number (round trip) |
| `Decimal.NatToStringInjective` | todo.rb:72 | different counts render differently |
| `Todos.TodosCount` | todo.rb:32-34 | `todos_count` is the undone todos plus the done todos, and is zero exactly for an empty list |
| `Todos.RemainingTodosCount` | todo.rb:36-38 | `remaining_todos_count(list) <= todos_count(list)` |
| `Todos.RemainingZeroIff` | todo.rb:36-38 | nothing remains exactly when every todo is done |
| `Todos.ListComplete` | todo.rb:22-24 | `list_complete?` holds exactly when the list has a todo and all its todos are done; an empty list is never complete |
| `Todos.ListClass` | todo.rb:26-30 | `list_class` is "complete" exactly when the list is non-empty and all done, and `nil` otherwise |
| `Todos.CompletionRate` | todo.rb:71-73 | the rate string is the remaining count's digits, `" / "`, then the total's digits; each part is exactly as long as its count's canonical `to_s` and reads back as that count, so neither part has a leading zero |
| `Todos.SpaceAfterDigits` | todo.rb:72 | a digit string cannot stand where a shorter prefix is followed by `" / "` |
| `Todos.RateStringInjective` | todo.rb:72 | `"a / b" == "c / d"` only when a == c and b == d |
| `Todos.CompletionRateInjective` | todo.rb:71-73 | two lists with the same rate string have the same remaining and total counts |
| `Todos.MarkAllDone` | todo.rb:203-205 | after `complete_all` each todo keeps its name and place and is done; name and count unchanged |
| `Todos.MarkAllDoneCompletes` | todo.rb:199-209 | after `complete_all` nothing remains, the list is complete exactly when it is non-empty, and an empty list is unchanged |
| `Validation.Message` | todo.rb:77-149 | the texts of lines 77, 79 and 149: the two list-name messages open with "The list name", and exactly the todo-name message opens with "Todo" |
| `Validation.ValidLength` | todo.rb:76 | `(1..100).cover? name.size`: an empty name and one over 100 characters are refused, and an accepted name is 1 to 100 characters long |
| `Validation.NameTaken` | todo.rb:78 | `any?` holds exactly when some list has this exact name, and never on no lists |
| `Validation.ErrorForListName` | todo.rb:75-81 | no error exactly when the length is 1..100 and no list has this exact name; a bad length gives the length error whatever the names; the uniqueness error exactly when the length is fine and some list has the name |
| `Validation.ErrorForTodoName` | todo.rb:147-151 | no error exactly when the length is 1..100; otherwise the todo length error; never a uniqueness check |
| `Validation.ValidListsDistinct` | todo.rb:78 | under the store invariant no two lists are equal |
| `Validation.OwnNameRejected` | todo.rb:125-128 | a list's current name is always refused for that list, with the uniqueness error when its length is valid |
| `Validation.AppendListKeepsValid` | todo.rb:83-93 | appending `{name, todos: []}` after validation keeps the store invariant |
| `Validation.RenameKeepsValid` | todo.rb:119-134 | renaming after validation keeps the store invariant |
| `Validation.DeleteListKeepsValid` | todo.rb:137-143 | `delete_at` on the lists keeps the store invariant |
| `Validation.ReplaceTodosKeepsValid` | todo.rb:164-205 | changing one list's todos, with valid todo names, keeps the store invariant |
| `Sorting.WithIndex` | todo.rb:43-51 | each item paired with `index` of it, in order |
| `Sorting.PartitionIndexed` | todo.rb:40-52 | the yielded items are a permutation of the input; exactly the first (number of incomplete) items are incomplete; each index is the first position holding its item |
| `Sorting.PartitionItems` | todo.rb:41-51 | the yielded items are the incomplete half followed by the complete half |
| `Sorting.SourcePositionsTakeItems` | todo.rb:41-51 | the k-th yielded item is the input element at the k-th source position |
| `Sorting.PartitionStable` | todo.rb:40-52 | the source positions are distinct and cover the whole input, and two items of the same group keep their original relative order |
| `Sorting.PartitionIndexOfDistinct` | todo.rb:43-51 | with no repeated element, each item's index is the position it came from, so no two share an index |
| `Sorting.SortLists` | todo.rb:40-45 | `sort_lists`: the yielded lists are a permutation of the input; a list is yielded as complete exactly when it comes after all the incomplete lists; each index is the first position holding that list |
| `Sorting.SortListsOwnPositions` | todo.rb:40-45 | under the store invariant every list is yielded with its own position and the indices are distinct |
| `Sorting.SortTodos` | todo.rb:47-52 | `sort_todos`: the yielded todos are a permutation of the input; a todo is yielded as done exactly when it comes after all the undone ones; each index is the first position holding that todo |
| `Sorting.SortTodosEqualTodosShareIndex` | todo.rb:50-51 | any two equal yielded todos carry the same index |
| `Sorting.SortTodosTwinExample` | todo.rb:47-52 | for instance, two equal todos are both yielded with index 0, the first one's index |
| `Store.Position` | todo.rb:120-121 | the position an in-range index denotes: the index itself or, counted from the end, size plus the index |
| `Store.ViewGuardAsWritten` | todo.rb:99 | the inclusive guard admits exactly the intended ids plus the id equal to the number of lists |
| `Store.ViewGuardAdmitsMissingList` | todo.rb:97-105 | the view guard as written admits the id equal to the number of lists, which denotes no list |
| `Store.ViewGuard` | todo.rb:99 | the intended exclusive guard admits exactly the non-negative ids that denote a list |
| `Store.ListStore.ViewList` | todo.rb:97-108 | with the intended guard: a list exactly when 0 <= id < size, and then the list at that position |
| `Store.ListStore.constructor` | todo.rb:12-15 | a fresh session starts with no lists, which satisfies the invariant |
| `Store.ListStore.CreateList` | todo.rb:83-93 | the error is `error_for_list_name` of the old lists; on success exactly `{name, todos: []}` is appended and the other lists are unchanged; on error nothing changes; the invariant is kept |
| `Store.ListStore.RenameList` | todo.rb:119-134 | validated against all old lists, whatever the index; an existing list is needed only when the name passes; on success only the name of the addressed list changes; on error nothing changes; the invariant is kept |
| `Store.ListStore.DeleteList` | todo.rb:137-143 | with the delete flag the lists become `delete_at` of the old ones; without it nothing changes; the invariant is kept |
| `Store.ListStore.AddTodo` | todo.rb:146-168 | only the length is checked; on success `{name, done: false}` is appended to that list's todos and nothing else changes; the invariant is kept |
| `Store.ListStore.DeleteTodo` | todo.rb:171-182 | the addressed list's todos become `delete_at` of the old ones, and nothing else changes; the invariant is kept |
| `Store.ListStore.UpdateTodo` | todo.rb:185-196 | exactly one todo's `done` becomes `completed == "true"`, and nothing else changes; the invariant is kept |
| `Store.ListStore.CompleteAll` | todo.rb:198-209 | the loop leaves the addressed list as `MarkAllDone` of it and every other list unchanged; the invariant is kept |

## Left out

- The Sinatra glue: routing, redirects, `erb` rendering, the GET routes that only render forms, flash messages in `session[:error]` and `session[:success]`, and the session configuration with `SecureRandom` (todo.rb:1-15, 55-67, 110-116). These are framework and I/O concerns.
- HTML escaping with `Rack::Utils.escape_html` (todo.rb:18-20). It is a call into a library.
- Parsing of request parameters. The methods take the result of `to_i` as an `int` and the result of `String#strip` as a string. A missing `completed` parameter is `None`; the delete parameter's presence is a `bool`. Whitespace trimming is not modelled.
- `error_for_list_name`, `error_for_todo_name` and `list_completion_rate` are defined inside route blocks, so in Ruby they exist only after the first request to those routes. The model treats them as ordinary functions that always exist.
- A route that dereferences a missing list or todo raises a `nil` error in Ruby. The methods require the index to denote an element only on the paths that dereference it, instead of modelling the crash:
  - `AddTodo`, `DeleteTodo`, `UpdateTodo` and `CompleteAll` read `@list[:todos]` before anything else, so they always require it (todo.rb:155, 176, 190, 203).
  - `RenameList` first validates the name and touches the list only on success (todo.rb:121-130). It requires an existing list only when the name passes validation.
  - `delete_at` tolerates any index, and so do `DeleteList` and the todo index of `DeleteTodo`.
  - On the rename error path, the route renders `edit_list` with `@list` possibly `nil`. Anything that template does with it is not part of this model.
- Lists and todos are hashes shared by reference in Ruby. The model treats them as values inside one sequence. This is the same for these routes, because each route changes one hash reached from `@lists`.
- `Sequences.FirstIndex`: Ruby's `Array#index` returns `nil` for an absent element. The model only applies it to elements of the array, so that case is excluded by its precondition rather than modelled.
- Concurrent requests in one session, and the last-write-wins race on the session state. Each method runs to completion on its own.

## Findings

| source | as written | input that shows it | evidently intended | confidence | as-written member | corrected member |
|---|---|---|---|---|---|---|
| todo.rb:99 | `(0..@lists.size).cover?(@list_id)` is an inclusive range, so it admits `list_id == size`; `@lists[size]` is then `nil` and `@list[:todos]` fails | `GET /lists/0` on a session with no lists | the exclusive range `0...@lists.size`, which redirects with "List Not Found" | not executed; high | `Store.ViewGuardAdmitsMissingList` | `Store.ListStore.ViewList` |
