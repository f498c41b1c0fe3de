/**
 * The todo store of `src/App.tsx`: the list `todos` and the id counter
 * `nextId`, replaced step by step by the five operations. Every operation
 * keeps the id invariant: ids are distinct and all below `nextId`.
 */
module Store {
  import opened Text
  import opened Todos

  class TodoStore {
    var todos: seq<Todo>
    var nextId: nat

    ghost predicate Valid()
      reads this
    {
      1 <= nextId && DistinctIds(todos) && IdsBelow(todos, nextId)
    }

    /** The store starts with an empty list and the counter at 1. */
    constructor ()
      ensures Valid()
      ensures todos == [] && nextId == 1
    {
      todos := [];
      nextId := 1;
    }

    /** addTodo: appends an open entry with the next id and the trimmed text. */
    method AddTodo(text: string, createdAt: Timestamp)
      requires Valid()
      modifies this
      ensures Valid()
      ensures todos == old(todos) + [Todo(old(nextId), Trim(text), false, createdAt)]
      ensures nextId == old(nextId) + 1
    {
      var entry := Todo(nextId, Trim(text), false, createdAt);
      assert forall t :: t in todos ==> t.id != entry.id;
      todos := todos + [entry];
      nextId := nextId + 1;
    }

    /** toggleTodo: flips `completed` on the entries with this id. */
    method ToggleTodo(id: int)
      requires Valid()
      modifies this
      ensures Valid()
      ensures todos == Toggled(old(todos), id)
      ensures nextId == old(nextId)
    {
      var r := Toggled(todos, id);
      assert forall t :: t in r ==> t.id < nextId by {
        forall t | t in r ensures t.id < nextId {
          var i :| 0 <= i < |r| && r[i] == t;
          assert todos[i] in todos;
        }
      }
      todos := r;
    }

    /** deleteTodo: drops the entries with this id. */
    method DeleteTodo(id: int)
      requires Valid()
      modifies this
      ensures Valid()
      ensures todos == WithoutId(old(todos), id)
      ensures nextId == old(nextId)
    {
      FilterKeepsDistinctIds(todos, OtherThan(id));
      todos := WithoutId(todos, id);
    }

    /** editTodo: sets the trimmed text on the entries with this id. */
    method EditTodo(id: int, newText: string)
      requires Valid()
      modifies this
      ensures Valid()
      ensures todos == Edited(old(todos), id, newText)
      ensures nextId == old(nextId)
    {
      var r := Edited(todos, id, newText);
      assert forall t :: t in r ==> t.id < nextId by {
        forall t | t in r ensures t.id < nextId {
          var i :| 0 <= i < |r| && r[i] == t;
          assert todos[i] in todos;
        }
      }
      todos := r;
    }

    /** clearCompleted: keeps the open entries. */
    method ClearCompleted()
      requires Valid()
      modifies this
      ensures Valid()
      ensures todos == Active(old(todos))
      ensures nextId == old(nextId)
    {
      FilterKeepsDistinctIds(todos, IsOpen);
      todos := Active(todos);
    }
  }
}
