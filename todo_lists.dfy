/** The values the todo application keeps in its session and the pure helpers
    of todo.rb: name validation, id assignment, the completion predicates and
    the display order. */
module TodoLists {
  import opened Seqs

  /** A todo hash `{ id:, name:, completed: }`. */
  datatype Todo = Todo(id: int, name: string, completed: bool)

  /** A list hash `{ id:, name:, todos: }`. */
  datatype TodoList = TodoList(id: int, name: string, todos: seq<Todo>)

  /** The reasons a submitted name is refused. */
  datatype NameError = ListNameLength | ListNameTaken | TodoNameLength

  /** The flash message the application shows for each refusal. */
  function Message(e: NameError): string {
    match e
    case ListNameLength => "List name must be between 1 and 100 characters."
    case ListNameTaken => "List name must be unique."
    case TodoNameLength => "Todo must be between 1 and 100 characters."
  }

  // Field accessors and block predicates, so that they can be handed to the
  // generic collection operations.
  function ListId(l: TodoList): int { l.id }
  function ListName(l: TodoList): string { l.name }
  function TodoId(t: Todo): int { t.id }
  function IsDone(t: Todo): bool { t.completed }
  function HasListId(id: int): TodoList -> bool { (l: TodoList) => l.id == id }
  function HasTodoId(id: int): Todo -> bool { (t: Todo) => t.id == id }
  function Named(name: string): TodoList -> bool { (l: TodoList) => l.name == name }

  /** `(1..100).cover?(name.size)` */
  predicate ValidLength(name: string) {
    1 <= |name| <= 100
  }

  /** The refusal for a new list name given the lists already stored, or None
      when the name may be used. The length check comes first. */
  function ErrorForListName(name: string, lists: seq<TodoList>): (r: Option<NameError>)
    ensures r == None <==> ValidLength(name) && forall l :: l in lists ==> l.name != name
    ensures r == Some(ListNameLength) <==> !ValidLength(name)
    ensures r == Some(ListNameTaken) <==> ValidLength(name) && exists l :: l in lists && l.name == name
    ensures r != Some(TodoNameLength)
  {
    if !ValidLength(name) then Some(ListNameLength)
    else if Any(lists, Named(name)) then Some(ListNameTaken)
    else None
  }

  /** The refusal for a todo name, or None when it may be used. */
  function ErrorForTodo(name: string): (r: Option<NameError>)
    ensures r == None <==> ValidLength(name)
    ensures r != None ==> r == Some(TodoNameLength)
  {
    if ValidLength(name) then None else Some(TodoNameLength)
  }

  /** The largest key of a non-empty collection (`map { ... }.max`). */
  function MaxKey<T>(s: seq<T>, key: T -> int): (m: int)
    requires |s| > 0
    ensures forall i :: 0 <= i < |s| ==> key(s[i]) <= m
    ensures exists i :: 0 <= i < |s| && key(s[i]) == m
  {
    if |s| == 1 then key(s[0])
    else
      var rest := MaxKey(s[1..], key);
      assert forall i :: 1 <= i < |s| ==> s[i] == s[1..][i - 1];
      if key(s[0]) >= rest then key(s[0]) else rest
  }

  /** `next_id`: one more than the largest id, or 1 for an empty collection.
      The result exceeds every id present, so it is fresh. */
  function NextId<T>(s: seq<T>, key: T -> int): (r: int)
    ensures |s| == 0 ==> r == 1
    ensures forall i :: 0 <= i < |s| ==> key(s[i]) < r
    ensures |s| > 0 ==> exists i :: 0 <= i < |s| && key(s[i]) == r - 1
  {
    (if |s| == 0 then 0 else MaxKey(s, key)) + 1
  }

  /** Appending an element that takes `NextId` keeps the ids unique, and the
      new id is larger than all earlier ones. */
  lemma NextIdKeepsUnique<T>(s: seq<T>, x: T, key: T -> int)
    requires UniqueBy(s, key) && key(x) == NextId(s, key)
    ensures UniqueBy(s + [x], key)
    ensures forall i :: 0 <= i < |s| ==> key((s + [x])[i]) < key((s + [x])[|s|])
  {
  }

  /** `todos_remaining_count`: how many todos are not completed. */
  function RemainingCount(todos: seq<Todo>): (n: nat)
    ensures n <= |todos|
    ensures n == |todos| - |Select(todos, IsDone)|
    ensures n == 0 <==> forall t :: t in todos ==> t.completed
  {
    var left := Reject(todos, IsDone);
    SelectRejectMultiset(todos, IsDone);
    assert |multiset(Select(todos, IsDone)) + multiset(left)| == |multiset(todos)|;
    assert left != [] ==> left[0] in left;
    |left|
  }

  /** `list_complete?`: the list has todos and all of them are completed. */
  function ListComplete(l: TodoList): (b: bool)
    ensures b <==> |l.todos| > 0 && forall t :: t in l.todos ==> t.completed
  {
    |l.todos| > 0 && RemainingCount(l.todos) == 0
  }

  /** The todos after the complete-all loop has set every flag. */
  function AllCompleted(todos: seq<Todo>): (r: seq<Todo>)
    ensures |r| == |todos|
    ensures forall k :: 0 <= k < |r| ==> r[k].id == todos[k].id && r[k].name == todos[k].name && r[k].completed
  {
    seq(|todos|, k requires 0 <= k < |todos| => todos[k].(completed := true))
  }

  /** After complete-all nothing remains, ids and names are untouched, and the
      list counts as complete exactly when it has at least one todo. */
  lemma AllCompletedProperties(l: TodoList)
    ensures |AllCompleted(l.todos)| == |l.todos|
    ensures forall k :: 0 <= k < |l.todos| ==>
      AllCompleted(l.todos)[k].id == l.todos[k].id && AllCompleted(l.todos)[k].name == l.todos[k].name
    ensures RemainingCount(AllCompleted(l.todos)) == 0
    ensures ListComplete(l.(todos := AllCompleted(l.todos))) <==> |l.todos| > 0
  {
  }

  /** The order `sort_and_display` visits elements in: every element for which
      `done` is false, then every element for which it is true. */
  function SortForDisplay<T(!new)>(s: seq<T>, done: T -> bool): (r: seq<T>)
    ensures multiset(r) == multiset(s)
    ensures forall i, j :: 0 <= i < j < |r| && done(r[i]) ==> done(r[j])
  {
    var complete, incomplete := Select(s, done), Reject(s, done);
    SelectRejectMultiset(s, done);
    incomplete + complete
  }

  /** The display order is a stable partition of the input: a permutation of
      it, with incomplete elements before complete ones and each group in
      the input's relative order, which is the order of a subsequence of
      the input. */
  lemma StablePartition<T(!new)>(s: seq<T>, done: T -> bool)
    ensures multiset(SortForDisplay(s, done)) == multiset(s)
    ensures forall i, j :: 0 <= i < j < |SortForDisplay(s, done)| && done(SortForDisplay(s, done)[i]) ==>
              done(SortForDisplay(s, done)[j])
    ensures Select(SortForDisplay(s, done), done) == Select(s, done)
    ensures Reject(SortForDisplay(s, done), done) == Reject(s, done)
    ensures IsSubsequence(Select(s, done), s) && IsSubsequence(Reject(s, done), s)
  {
    PartitionStable(s, done);
    SelectIsSubsequence(s, done);
    RejectIsSubsequence(s, done);
  }

  /** Each group keeps the input's relative order. */
  lemma PartitionStable<T(!new)>(s: seq<T>, done: T -> bool)
    ensures Select(SortForDisplay(s, done), done) == Select(s, done)
    ensures Reject(SortForDisplay(s, done), done) == Reject(s, done)
  {
    var incomplete, complete := Reject(s, done), Select(s, done);
    SelectAppend(incomplete, complete, done);
    RejectAppend(incomplete, complete, done);
    SelectAll(complete, done);
    RejectNone(incomplete, done);
    SelectNone(incomplete, done);
    RejectAll(complete, done);
  }

  /** The todos of a list in display order: incomplete todos first. */
  function SortTodos(todos: seq<Todo>): (r: seq<Todo>)
    ensures multiset(r) == multiset(todos)
    ensures forall i, j :: 0 <= i < j < |r| && r[i].completed ==> r[j].completed
    ensures Reject(r, IsDone) == Reject(todos, IsDone) && Select(r, IsDone) == Select(todos, IsDone)
  {
    StablePartition(todos, IsDone);
    SortForDisplay(todos, IsDone)
  }

  /** The lists in display order: lists that are not complete first. */
  function SortLists(lists: seq<TodoList>): (r: seq<TodoList>)
    ensures multiset(r) == multiset(lists)
    ensures forall i, j :: 0 <= i < j < |r| && ListComplete(r[i]) ==> ListComplete(r[j])
    ensures Reject(r, ListComplete) == Reject(lists, ListComplete)
    ensures Select(r, ListComplete) == Select(lists, ListComplete)
  {
    StablePartition(lists, ListComplete);
    SortForDisplay(lists, ListComplete)
  }

  /** The display order of the three-todo example [done 1, open 2, open 3]
      is 2, 3, 1. */
  lemma SortTodosExample()
    ensures SortTodos([Todo(1, "a", true), Todo(2, "b", false), Todo(3, "c", false)])
      == [Todo(2, "b", false), Todo(3, "c", false), Todo(1, "a", true)]
  {
    var s := [Todo(1, "a", true), Todo(2, "b", false), Todo(3, "c", false)];
    assert s[1..][1..] == [Todo(3, "c", false)];
    assert Select(s, IsDone) == [Todo(1, "a", true)];
    assert Reject(s, IsDone) == [Todo(2, "b", false), Todo(3, "c", false)];
  }

  /** `delete_if` with the block `matches` (todo.rb uses "carries this id"):
      no matching element is left, the others all remain with their
      multiplicities and their order, nothing changes when no element
      matches, and a second pass removes nothing more. */
  lemma DeleteIf<T(!new)>(s: seq<T>, matches: T -> bool)
    ensures forall x :: x in Reject(s, matches) ==> !matches(x)
    ensures forall x :: x in s && !matches(x) ==> x in Reject(s, matches)
    ensures multiset(Reject(s, matches)) == multiset(s) - multiset(Select(s, matches))
    ensures IsSubsequence(Reject(s, matches), s)
    ensures (forall x :: x in s ==> !matches(x)) ==> Reject(s, matches) == s
    ensures Reject(Reject(s, matches), matches) == Reject(s, matches)
  {
    SelectRejectMultiset(s, matches);
    RejectIsSubsequence(s, matches);
    if forall x :: x in s ==> !matches(x) {
      RejectNone(s, matches);
    }
    RejectIdempotent(s, matches);
  }

  /** Once a list is deleted, looking its id up finds nothing. */
  lemma DeletedListNotFound(lists: seq<TodoList>, id: int)
    ensures FirstMatch(Reject(lists, HasListId(id)), HasListId(id)) == None
  {
  }

  /** A list's own current name is refused when it is submitted again: the
      uniqueness check does not exclude the list being renamed. */
  lemma RenameToOwnNameRefused(lists: seq<TodoList>, i: nat)
    requires i < |lists| && ValidLength(lists[i].name)
    ensures ErrorForListName(lists[i].name, lists) == Some(ListNameTaken)
  {
  }
}
