/** The session's list collection (`session[:lists]`) and the POST handlers
    of todo.rb that change it in place. Each handler answers with how the
    request ended; the flash messages, redirects and renders that follow are
    not part of this model. */
module SessionStore {
  import opened Seqs
  import opened TodoLists

  /** How a handler ends: the change was made, `load_list` found no list with
      the id (error flash and redirect), the check handler found no todo with
      the id, or a name was refused by validation (form re-rendered). */
  datatype Outcome = Done | ListNotFound | TodoNotFound | Refused(error: NameError)

  /** The error flash (`session[:error]`) a handler leaves for the next page:
      the lookup failure message, or the refusal message of the validator. */
  function ErrorFlash(out: Outcome): (r: Option<string>)
    ensures r.Some? <==> out.ListNotFound? || out.Refused?
    ensures out.ListNotFound? ==> r == Some("The specified list was not found.")
    ensures out.Refused? ==> r == Some(Message(out.error))
  {
    match out
    case ListNotFound => Some("The specified list was not found.")
    case Refused(e) => Some(Message(e))
    case _ => None
  }

  /** What every reachable session satisfies: list ids are unique, list names
      are unique and 1 to 100 characters long, and inside each list todo ids
      are unique and todo names are 1 to 100 characters long. */
  ghost predicate WellFormed(lists: seq<TodoList>) {
    && UniqueBy(lists, ListId)
    && UniqueBy(lists, ListName)
    && forall l :: l in lists ==> ValidLength(l.name) && TodosWellFormed(l.todos)
  }

  ghost predicate TodosWellFormed(todos: seq<Todo>) {
    UniqueBy(todos, TodoId) && forall t :: t in todos ==> ValidLength(t.name)
  }

  /** Replacing a list by one with the same id and name and well-formed todos
      keeps the session well formed. */
  lemma ReplaceTodosKeepsWellFormed(lists: seq<TodoList>, i: nat, l: TodoList)
    requires WellFormed(lists) && i < |lists|
    requires l.id == lists[i].id && l.name == lists[i].name && TodosWellFormed(l.todos)
    ensures WellFormed(lists[i := l])
  {
  }

  class Store {
    /** `session[:lists]`, in insertion order. */
    var lists: seq<TodoList>

    ghost predicate Valid()
      reads this
    {
      WellFormed(lists)
    }

    /** The `before` filter: a new session starts with no lists. */
    constructor ()
      ensures Valid() && lists == []
    {
      lists := [];
    }

    /** `load_list`: the position of the first list carrying `id`, or None
        when no list does. */
    method LoadList(id: int) returns (r: Option<nat>)
      ensures r == FirstMatch(lists, HasListId(id))
    {
      var k := 0;
      while k < |lists|
        invariant 0 <= k <= |lists|
        invariant forall j :: 0 <= j < k ==> lists[j].id != id
      {
        if lists[k].id == id {
          return Some(k);
        }
        k := k + 1;
      }
      return None;
    }

    /** POST /lists: append a new empty list under the next id, unless the
        name is refused. */
    method CreateList(name: string) returns (out: Outcome)
      requires Valid()
      modifies this
      ensures Valid()
      ensures var err := ErrorForListName(name, old(lists));
        && (err.Some? ==> out == Refused(err.value) && lists == old(lists))
        && (err.None? ==> out == Done && lists == old(lists) + [TodoList(NextId(old(lists), ListId), name, [])])
    {
      var err := ErrorForListName(name, lists);
      if err.Some? {
        return Refused(err.value);
      }
      var id := NextId(lists, ListId);
      var created := TodoList(id, name, []);
      NextIdKeepsUnique(lists, created, ListId);
      forall i | 0 <= i < |lists| ensures ListName(lists[i]) != name {
        assert lists[i] in lists;
      }
      AppendKeepsUnique(lists, created, ListName);
      lists := lists + [created];
      out := Done;
    }

    /** POST /lists/:list_id: rename a list. The lookup comes first; the name
        is then checked against every list, the renamed one included. */
    method RenameList(id: int, name: string) returns (out: Outcome)
      requires Valid()
      modifies this
      ensures Valid()
      ensures var found, err := FirstMatch(old(lists), HasListId(id)), ErrorForListName(name, old(lists));
        && (found.None? ==> out == ListNotFound && lists == old(lists))
        && (found.Some? && err.Some? ==> out == Refused(err.value) && lists == old(lists))
        && (found.Some? && err.None? ==>
              out == Done && lists == old(lists)[found.value := old(lists)[found.value].(name := name)])
    {
      var found := LoadList(id);
      if found.None? {
        return ListNotFound;
      }
      var err := ErrorForListName(name, lists);
      if err.Some? {
        return Refused(err.value);
      }
      var i := found.value;
      var renamed := lists[i].(name := name);
      UpdateKeepsUnique(lists, i, renamed, ListId);
      forall j | 0 <= j < |lists| && j != i ensures ListName(lists[j]) != name {
        assert lists[j] in lists;
      }
      UpdateKeepsUnique(lists, i, renamed, ListName);
      assert lists[i] in lists;
      forall m | m in lists[i := renamed] ensures ValidLength(m.name) && TodosWellFormed(m.todos) {
        var j :| 0 <= j < |lists| && lists[i := renamed][j] == m;
        assert j != i ==> lists[j] in lists;
      }
      lists := lists[i := renamed];
      out := Done;
    }

    /** POST /lists/:list_id/delete: drop every list carrying the id; an
        unknown id is not an error. */
    method DeleteList(id: int)
      requires Valid()
      modifies this
      ensures Valid()
      ensures lists == Reject(old(lists), HasListId(id))
    {
      var rest := Reject(lists, HasListId(id));
      RejectIsSubsequence(lists, HasListId(id));
      SubsequenceKeepsUnique(rest, lists, ListId);
      SubsequenceKeepsUnique(rest, lists, ListName);
      lists := rest;
    }

    /** POST /lists/:list_id/todos: append an open todo under the list's next
        todo id, unless the list is missing or the name is refused. */
    method AddTodo(listId: int, name: string) returns (out: Outcome)
      requires Valid()
      modifies this
      ensures Valid()
      ensures var found, err := FirstMatch(old(lists), HasListId(listId)), ErrorForTodo(name);
        && (found.None? ==> out == ListNotFound && lists == old(lists))
        && (found.Some? && err.Some? ==> out == Refused(err.value) && lists == old(lists))
        && (found.Some? && err.None? ==>
              var l := old(lists)[found.value];
              out == Done &&
              lists == old(lists)[found.value := l.(todos := l.todos + [Todo(NextId(l.todos, TodoId), name, false)])])
    {
      var found := LoadList(listId);
      if found.None? {
        return ListNotFound;
      }
      var err := ErrorForTodo(name);
      if err.Some? {
        return Refused(err.value);
      }
      var i := found.value;
      var l := lists[i];
      var todo := Todo(NextId(l.todos, TodoId), name, false);
      assert l in lists;
      NextIdKeepsUnique(l.todos, todo, TodoId);
      ReplaceTodosKeepsWellFormed(lists, i, l.(todos := l.todos + [todo]));
      lists := lists[i := l.(todos := l.todos + [todo])];
      out := Done;
    }

    /** POST /lists/:list_id/todos/:todo_id/delete: drop every todo of the
        list carrying the todo id; an unknown todo id is not an error. */
    method DeleteTodo(listId: int, todoId: int) returns (out: Outcome)
      requires Valid()
      modifies this
      ensures Valid()
      ensures var found := FirstMatch(old(lists), HasListId(listId));
        && (found.None? ==> out == ListNotFound && lists == old(lists))
        && (found.Some? ==>
              var l := old(lists)[found.value];
              out == Done && lists == old(lists)[found.value := l.(todos := Reject(l.todos, HasTodoId(todoId)))])
    {
      var found := LoadList(listId);
      if found.None? {
        return ListNotFound;
      }
      var i := found.value;
      var l := lists[i];
      var rest := Reject(l.todos, HasTodoId(todoId));
      assert l in lists;
      RejectIsSubsequence(l.todos, HasTodoId(todoId));
      SubsequenceKeepsUnique(rest, l.todos, TodoId);
      ReplaceTodosKeepsWellFormed(lists, i, l.(todos := rest));
      lists := lists[i := l.(todos := rest)];
      out := Done;
    }

    /** POST /lists/:list_id/todos/:todo_id/check: "false" clears and "true"
        sets the completed flag of the first todo carrying the id; any other
        value changes nothing. A missing todo is reported as TodoNotFound
        (with nothing changed) when the flag would have been written. */
    method CheckTodo(listId: int, todoId: int, completed: string) returns (out: Outcome)
      requires Valid()
      modifies this
      ensures Valid()
      ensures var found := FirstMatch(old(lists), HasListId(listId));
        && (found.None? ==> out == ListNotFound && lists == old(lists))
        && (found.Some? ==>
              var l := old(lists)[found.value];
              var todo := FirstMatch(l.todos, HasTodoId(todoId));
              && (completed != "false" && completed != "true" ==> out == Done && lists == old(lists))
              && ((completed == "false" || completed == "true") && todo.None? ==>
                    out == TodoNotFound && lists == old(lists))
              && ((completed == "false" || completed == "true") && todo.Some? ==>
                    var t := l.todos[todo.value];
                    out == Done &&
                    lists == old(lists)[found.value :=
                      l.(todos := l.todos[todo.value := t.(completed := completed == "true")])]))
    {
      var found := LoadList(listId);
      if found.None? {
        return ListNotFound;
      }
      var i := found.value;
      var l := lists[i];
      var todo := FirstMatch(l.todos, HasTodoId(todoId));
      var flag: bool;
      if completed == "false" {
        flag := false;
      } else if completed == "true" {
        flag := true;
      } else {
        return Done;
      }
      if todo.None? {
        return TodoNotFound;
      }
      var k := todo.value;
      var todos := l.todos[k := l.todos[k].(completed := flag)];
      assert l in lists && l.todos[k] in l.todos;
      UpdateKeepsUnique(l.todos, k, todos[k], TodoId);
      forall t | t in todos ensures ValidLength(t.name) {
        var q :| 0 <= q < |todos| && todos[q] == t;
        assert l.todos[q] in l.todos;
      }
      ReplaceTodosKeepsWellFormed(lists, i, l.(todos := todos));
      lists := lists[i := l.(todos := todos)];
      out := Done;
    }

    /** POST /lists/:list_id/complete_all: walk the list's todos setting
        every completed flag. */
    method CompleteAll(listId: int) returns (out: Outcome)
      requires Valid()
      modifies this
      ensures Valid()
      ensures var found := FirstMatch(old(lists), HasListId(listId));
        && (found.None? ==> out == ListNotFound && lists == old(lists))
        && (found.Some? ==>
              var l := old(lists)[found.value];
              out == Done && lists == old(lists)[found.value := l.(todos := AllCompleted(l.todos))])
    {
      var found := LoadList(listId);
      if found.None? {
        return ListNotFound;
      }
      var i := found.value;
      ghost var before := lists[i];
      var k := 0;
      while k < |lists[i].todos|
        invariant |lists| == |old(lists)| && i < |lists|
        invariant forall j :: 0 <= j < |lists| && j != i ==> lists[j] == old(lists)[j]
        invariant lists[i].id == before.id && lists[i].name == before.name
        invariant |lists[i].todos| == |before.todos| && 0 <= k <= |before.todos|
        invariant forall q :: 0 <= q < k ==> lists[i].todos[q] == before.todos[q].(completed := true)
        invariant forall q :: k <= q < |before.todos| ==> lists[i].todos[q] == before.todos[q]
      {
        var l := lists[i];
        lists := lists[i := l.(todos := l.todos[k := l.todos[k].(completed := true)])];
        k := k + 1;
      }
      assert lists[i].todos == AllCompleted(before.todos);
      assert lists == old(lists)[i := before.(todos := AllCompleted(before.todos))];
      assert before in old(lists);
      SameKeysKeepUnique(before.todos, AllCompleted(before.todos), TodoId);
      forall t | t in AllCompleted(before.todos) ensures ValidLength(t.name) {
        var q :| 0 <= q < |before.todos| && AllCompleted(before.todos)[q] == t;
        assert before.todos[q] in before.todos;
      }
      ReplaceTodosKeepsWellFormed(old(lists), i, before.(todos := AllCompleted(before.todos)));
      out := Done;
    }
  }
}

/** A client of the store: the behaviours the application documents,
    derived from the handlers' contracts alone. */
module StoreScenarios {
  import opened Seqs
  import opened TodoLists
  import opened SessionStore

  /** A name already in use, or of the wrong length, is refused and nothing
      is added. */
  method DuplicateNameScenario() {
    var store := new Store();
    var out := store.CreateList("A");
    assert out == Done && store.lists == [TodoList(1, "A", [])];
    out := store.CreateList("A");
    assert out == Refused(ListNameTaken) && |store.lists| == 1;
    out := store.CreateList("");
    assert out == Refused(ListNameLength) && |store.lists| == 1;
  }

  /** Create a list, add two todos, check one, then complete all. */
  method GroceriesScenario() {
    var store := new Store();
    var out := store.CreateList("Groceries");
    assert store.lists == [TodoList(1, "Groceries", [])];
    assert FirstMatch(store.lists, HasListId(1)) == Some(0);
    assert ErrorForTodo("Milk") == None;
    assert NextId([], TodoId) == 1;
    out := store.AddTodo(1, "Milk");
    assert out == Done;
    assert |store.lists| == 1;
    assert store.lists[0].todos == [Todo(1, "Milk", false)];
    assert store.lists == [TodoList(1, "Groceries", [Todo(1, "Milk", false)])];
    out := store.AddTodo(1, "Eggs");
    assert store.lists[0].todos == [Todo(1, "Milk", false), Todo(2, "Eggs", false)];
    out := store.CheckTodo(1, 1, "true");
    assert store.lists[0].todos == [Todo(1, "Milk", true), Todo(2, "Eggs", false)];
    out := store.CompleteAll(1);
    assert store.lists[0].todos == [Todo(1, "Milk", true), Todo(2, "Eggs", true)];
  }

  /** Renaming keeps the id and the todos; submitting the same name again is
      refused. A deleted list is no longer found, and deleting it again is
      harmless. */
  method RenameDeleteScenario() {
    var store := new Store();
    var out := store.CreateList("Groceries");
    assert store.lists == [TodoList(1, "Groceries", [])];
    out := store.RenameList(1, "Shopping");
    assert out == Done && store.lists == [TodoList(1, "Shopping", [])];
    out := store.RenameList(1, "Shopping");
    assert out == Refused(ListNameTaken);
    store.DeleteList(1);
    assert store.lists == [];
    var found := store.LoadList(1);
    assert found == None;
    store.DeleteList(1);
    assert store.lists == [];
  }
}
