/**
 * How `src/App.tsx` wires the components to the store: the form's
 * `onAddTodo` is `addTodo` and an entry's `onEdit` is `editTodo`. Composed,
 * the UI guards make blank input a silent no-op and keep every stored text
 * non-blank and trimmed.
 */
module Wiring {
  import opened Wrappers
  import opened Text
  import opened Todos
  import opened Store
  import opened Form
  import opened Item

  /** A submit of the add form, with `onAddTodo` bound to the store's `addTodo`. */
  method SubmitForm(form: TodoForm, store: TodoStore, createdAt: Timestamp)
    requires store.Valid()
    modifies form, store
    ensures store.Valid()
    ensures IsBlank(old(form.inputValue)) ==>
      && store.todos == old(store.todos)
      && store.nextId == old(store.nextId)
      && form.inputValue == old(form.inputValue)
    ensures !IsBlank(old(form.inputValue)) ==>
      && store.todos == old(store.todos) + [Todo(old(store.nextId), Trim(old(form.inputValue)), false, createdAt)]
      && store.nextId == old(store.nextId) + 1
      && form.inputValue == ""
    ensures TextsWellFormed(old(store.todos)) ==> TextsWellFormed(store.todos)
  {
    var added := form.HandleSubmit();
    if added.Some? {
      // the store trims again; the text is already trimmed
      store.AddTodo(added.value, createdAt);
    }
  }

  /** A save of an entry's edit, with `onEdit` bound to the store's `editTodo`. */
  method SaveItem(item: TodoItem, todo: Todo, store: TodoStore)
    requires store.Valid()
    modifies item, store
    ensures store.Valid() && store.nextId == old(store.nextId)
    ensures !item.isEditing && item.editText == old(item.editText)
    ensures IsBlank(old(item.editText)) || Trim(old(item.editText)) == todo.text ==>
      store.todos == old(store.todos)
    ensures !IsBlank(old(item.editText)) && Trim(old(item.editText)) != todo.text ==>
      store.todos == Edited(old(store.todos), todo.id, Trim(old(item.editText)))
    ensures TextsWellFormed(old(store.todos)) ==> TextsWellFormed(store.todos)
  {
    ghost var before := store.todos;
    var request := item.HandleSave(todo);
    if request.Some? {
      store.EditTodo(request.value.id, request.value.text);
      if TextsWellFormed(before) {
        EditKeepsTextsWellFormed(before, todo.id, request.value.text);
      }
    }
  }

  /** The end-to-end run: add "a", add "b", toggle 1, read the counts, clear. */
  method Scenario(t1: Timestamp, t2: Timestamp) returns (completed: nat, remaining: nat, cleared: seq<Todo>)
    ensures completed == 1 && remaining == 1
    ensures cleared == [Todo(2, "b", false, t2)]
  {
    var a, b := Todo(1, "a", true, t1), Todo(2, "b", false, t2);
    ScenarioLists(a, b);
    TrimLetters();
    var store := new TodoStore();
    store.AddTodo("a", t1);
    store.AddTodo("b", t2);
    assert store.todos == [a.(completed := false), b];
    store.ToggleTodo(1);
    assert store.todos == [a, b];
    completed := CompletedCount(store.todos);
    remaining := RemainingCount(store.todos);
    store.ClearCompleted();
    cleared := store.todos;
  }

  /** The lists the scenario passes through, computed from the specification functions. */
  lemma ScenarioLists(a: Todo, b: Todo)
    requires a == Todo(1, "a", true, a.createdAt) && b == Todo(2, "b", false, b.createdAt)
    ensures Toggled([a.(completed := false), b], 1) == [a, b]
    ensures Completed([a, b]) == [a] && Active([a, b]) == [b]
  {
    var r := Toggled([a.(completed := false), b], 1);
    assert |r| == 2 && r[0] == a && r[1] == b;
    SplitByStatus(a, b);
  }

  lemma TrimLetters()
    ensures Trim("a") == "a" && Trim("b") == "b"
  {
    LetterTrimmed('a');
    LetterTrimmed('b');
  }

  lemma LetterTrimmed(c: char)
    requires 'a' <= c <= 'z'
    ensures Trim([c]) == [c]
  {
    assert IsTrimmed([c]);
    TrimFixedPoint([c]);
  }

  /** The counts and the clear of the scenario's two-entry list. */
  lemma SplitByStatus(a: Todo, b: Todo)
    requires a.completed && !b.completed
    ensures Completed([a, b]) == [a]
    ensures Active([a, b]) == [b]
  {
    assert [a, b] == [a] + [b];
    assert [a][1..] == [] && [b][1..] == [];
    FilterConcat([a], [b], IsDone);
    FilterConcat([a], [b], IsOpen);
  }
}
