# Todo lists: a Dafny model of the session store

The application keeps, per browser session, an ordered collection of todo
lists (`session[:lists]`). Each list has an id, a name and an ordered
collection of todos. Each todo has an id, a name and a completed flag. The
POST handlers in `todo.rb` validate names, look lists up by id, and change
this collection in place. The list index and list pages show items in a
display order that puts unfinished items first.

This project models that store:

- `seqs.dfy` (module `Seqs`): the Ruby collection operations the handlers
  lean on, as generic functions with their facts.
  - `Select` models `select` and one half of `partition`.
  - `Reject` models `reject`, `delete_if` and the other half of `partition`.
  - `Any` models `any?`.
  - `FirstMatch` models `find`. It answers with a position, not an element.
- `todo_lists.dfy` (module `TodoLists`): the two entity values (`Todo`,
  `TodoList`) and the pure helpers of `todo.rb`.
  - name validation and the refusal messages;
  - `next_id`;
  - `todos_remaining_count` and `list_complete?`;
  - the display order of `sort_and_display`, with its stable-partition lemmas.
- `session_store.dfy` (module `SessionStore`): a `Store` class whose field
  `lists` is `session[:lists]`.
  - `LoadList` is `load_list`'s search loop.
  - One method per mutating POST handler.
  - `Valid()` is the invariant every handler keeps: list ids unique, list
    names unique and 1 to 100 characters long, and, within each list, todo
    ids unique and todo names 1 to 100 characters long.
  - A client module, `StoreScenarios`, walks through create, add, check,
    complete-all, rename and delete using only the handlers' contracts.

Modelling choices:

- Lists and todos are values held in a `seq`. A handler that edits "the list
  it loaded" replaces the element at the position `LoadList` found. Ids are
  unique, so no two hashes ever stand for the same list.
- Ids are unbounded integers, like Ruby's. Names are character sequences
  that the handler has already trimmed.
- When `load_list` finds nothing, the handler ends with `ListNotFound` and
  changes nothing. The application shows an error flash and redirects.
- A refused name ends with `Refused(e)` and changes nothing. `Message(e)`
  holds the exact flash text, and `ErrorFlash` gives the error flash each
  outcome leaves.
- The check handler (todo.rb:198-211) writes to the todo that `find`
  returned, but that todo may be nil.
  - The model reports `TodoNotFound` and changes nothing when the flag
    would have been written, that is for `"true"` or `"false"`. The Ruby
    code raises `NoMethodError` there.
  - For any other value nothing is written, so a missing todo is harmless.
    The model then ends with `Done`, just as the code does.
- Renaming a list to its own current name is refused. The uniqueness check
  at todo.rb:143 compares against every list, including the one being
  renamed. The model keeps this behaviour (`RenameToOwnNameRefused`).
- The header comment at todo.rb:6-17 says ids are array positions. The
  code instead stores an explicit `:id` in every hash (todo.rb:113,
  todo.rb:176). The model follows the code.

## Model

| member | source | states |
|---|---|---|
| `Seqs.Select` | todo.rb:76 | the result holds exactly the elements of the input that satisfy the block, and it is no longer than the input |
| `Seqs.Reject` | todo.rb:64 | the result holds exactly the elements of the input that do not satisfy the block, and it is no longer than the input |
| `Seqs.SelectIsSubsequence` | todo.rb:76 | the elements `partition` puts in the first group keep their order in the input |
| `Seqs.Any` | todo.rb:33 | true exactly when some position holds an element satisfying the block |
| `Seqs.FirstMatch` | todo.rb:201 | a found position holds a matching element and no earlier position does; None means no position matches |
| `TodoLists.ErrorForListName` | todo.rb:30-36 | no error exactly when the name is 1..100 long and no stored list has it; a length error exactly when the length is out of range, whatever the lists hold; a uniqueness error exactly when the length is fine and some list has the name |
| `TodoLists.ValidLength` | todo.rb:31 | a name is acceptable in length exactly when it has 1 to 100 characters, as `(1..100).cover?(name.size)` |
| `TodoLists.Message` | todo.rb:32-40 | the three refusal texts, word for word as the validators return them |
| `TodoLists.ErrorForTodo` | todo.rb:38-41 | no error exactly when the name is 1..100 long; otherwise the todo length error |
| `TodoLists.MaxKey` | todo.rb:53 | the result is at least every id and is the id of some element |
| `TodoLists.NextId` | todo.rb:52-55 | 1 for an empty collection; otherwise one more than some element's id, and greater than every id present |
| `TodoLists.NextIdKeepsUnique` | todo.rb:112-113 | appending an element that takes the next id keeps ids unique, and the new id exceeds every earlier one |
| `TodoLists.RemainingCount` | todo.rb:62-65 | the number of todos minus the number of completed ones, hence at most the number of todos, and zero exactly when every todo is completed |
| `TodoLists.ListComplete` | todo.rb:58-60 | true exactly when the list has a todo and every todo is completed |
| `TodoLists.AllCompleted` | todo.rb:217-219 | the todos after the loop: same length, and at every position the same id and name with completed set |
| `TodoLists.AllCompletedProperties` | todo.rb:214-219 | after complete-all, ids and names are unchanged position by position, the remaining count is 0, and the list is complete exactly when it has at least one todo |
| `TodoLists.StablePartition` | todo.rb:75-86 | the display order is a permutation of the input, puts no complete element before an incomplete one, and keeps each group's relative order, each group being a subsequence of the input |
| `TodoLists.SortForDisplay` | todo.rb:75-86 | the order elements are yielded in (`partition`, then `incomplete.each`, then `complete.each`) is a permutation of the input in which every element after a complete one is complete |
| `TodoLists.PartitionStable` | todo.rb:76-82 | selecting either group from the display order gives that group in the input's order |
| `TodoLists.SortTodos` | todo.rb:75-86 | todos are shown as a permutation of the list, incomplete before complete, each group in the original order |
| `TodoLists.SortLists` | todo.rb:75-86 | lists are shown as a permutation of the lists, incomplete before complete (by list_complete?), each group in the original order |
| `TodoLists.SortTodosExample` | todo.rb:75-86 | the todos done 1, open 2, open 3 are shown as 2, 3, 1 |
| `TodoLists.DeleteIf` | todo.rb:156 | after delete_if, no element matches the block and every non-matching element remains; the survivors keep their multiplicities and order; when nothing matches (an absent id) nothing changes; a second deletion changes nothing |
| `TodoLists.DeletedListNotFound` | todo.rb:43-50 | after a list's id is deleted, the lookup by that id finds nothing |
| `TodoLists.RenameToOwnNameRefused` | todo.rb:143 | submitting a list's own current name (of valid length) is refused as not unique |
| `SessionStore.ErrorFlash` | todo.rb:48 | an error flash is set exactly for a failed lookup and for a refused name; a failed lookup's flash is "The specified list was not found." and a refused name's flash is the validator's message |
| `SessionStore.Store.constructor` | todo.rb:89-91 | a session starts with no lists and satisfies the store invariant |
| `SessionStore.Store.LoadList` | todo.rb:43-50 | the result is the position of the first list with the id, or None when no list has it |
| `SessionStore.Store.CreateList` | todo.rb:104-116 | a refused name returns the refusal and changes nothing; otherwise exactly one list with the next id, the name and no todos is appended after the unchanged earlier lists; the invariant is kept |
| `SessionStore.Store.RenameList` | todo.rb:138-151 | a missing list returns ListNotFound; a refused name, including the list's own, changes nothing; otherwise only that list's name changes, keeping its id, todos and position |
| `SessionStore.Store.DeleteList` | todo.rb:155-163 | the lists become the old lists without those carrying the id, and the invariant is kept |
| `SessionStore.Store.AddTodo` | todo.rb:166-180 | a missing list or refused name changes nothing; otherwise an open todo with the list's next todo id is appended to that list only |
| `SessionStore.Store.DeleteTodo` | todo.rb:183-195 | a missing list changes nothing; otherwise that list's todos lose exactly those carrying the todo id, and nothing else changes |
| `SessionStore.Store.CheckTodo` | todo.rb:198-211 | "false" clears and "true" sets the flag of the first todo with the id, and no other todo or list changes; other values change nothing; a missing todo with "true"/"false" gives TodoNotFound and changes nothing |
| `SessionStore.Store.CompleteAll` | todo.rb:214-223 | a missing list changes nothing; otherwise the loop sets every todo of that list to completed, keeps ids and names, and changes no other list |

## Left out

- database_persistence.rb is not part of this model. It is a thin wrapper
  over a PostgreSQL client. Its reads return lists with no todos, and its
  mutating methods are commented out, so it has no store behaviour to model.
- Sinatra plumbing is not modelled: routing, `redirect`, `erb` views, the
  404 page, the `configure` block and the session cookie. The `before`
  filter's `session[:lists] ||= []` becomes the `Store` constructor.
- Success flash messages are not modelled; the error flash is, through
  `ErrorFlash`. The XHR branches of the two delete handlers (status 204, or
  body "/lists") are also not modelled. Both only shape the response.
- The GET handlers change no list, so they are not modelled. `get "/"`
  only redirects (todo.rb:93-95). The list pages (todo.rb:126-135) look a
  list up with `load_list`, modelled by `LoadList` and `ErrorFlash`, and
  then render a view or redirect. The `list_class` and `todo_class` view
  helpers (todo.rb:67-73) only return a CSS class name and are not
  modelled either.
- `params[...].to_i` and `String#strip` are not modelled. Ids arrive as
  integers and names arrive already trimmed.
- `sort_and_display` tells lists from todos with
  `session[:lists].include?(element)`. `Array#include?` compares with `==`,
  which compares hashes by content; a todo hash (keys id, name, completed)
  never equals a list hash (keys id, name, todos), so the test separates
  the two kinds. The model uses two instances of one partition, `SortLists` (keyed on
  `ListComplete`) and `SortTodos` (keyed on the completed flag). The block
  each element is yielded to becomes the sequence of elements in the order
  they are yielded.
- Hash identity and aliasing are not modelled. Lists and todos are values,
  so an update "through" a loaded hash is a replacement at its position.
- `delete_if` (todo.rb:156, todo.rb:187) is modelled by its result, through
  `Reject`. The element-by-element removal inside Ruby's library is not
  modelled.
- SessionStore.Store.CheckTodo: where the source raises `NoMethodError` on a
  missing todo, the model returns `TodoNotFound` and leaves the state
  unchanged, instead of modelling the exception.
