/**
 * The todo record and the pure list updates behind the store's operations
 * (`src/App.tsx`): each list update is a function of the old
 * list here, and the two counts are functions of the current list.
 */
module Todos {
  import opened Text

  /** The creation instant of an entry, in milliseconds, supplied by the caller. */
  type Timestamp = int

  datatype Todo = Todo(id: nat, text: string, completed: bool, createdAt: Timestamp)

  /** No two entries share an id. */
  ghost predicate DistinctIds(todos: seq<Todo>) {
    forall i, j :: 0 <= i < j < |todos| ==> todos[i].id != todos[j].id
  }

  /** Every id was handed out before `bound`. */
  ghost predicate IdsBelow(todos: seq<Todo>, bound: nat) {
    forall t :: t in todos ==> t.id < bound
  }

  ghost predicate HasId(todos: seq<Todo>, id: int) {
    exists t :: t in todos && t.id == id
  }

  /** The entries that `keep` accepts, in their original order. */
  function Filter(todos: seq<Todo>, keep: Todo -> bool): (r: seq<Todo>)
    ensures |r| <= |todos|
    ensures forall t {:trigger t in r} :: t in r <==> t in todos && keep(t)
    ensures (forall t :: t in todos ==> keep(t)) ==> r == todos
  {
    if todos == [] then []
    else
      var tail := Filter(todos[1..], keep);
      assert forall t :: t in todos[1..] ==> t in todos;
      assert todos == [todos[0]] + todos[1..];
      if keep(todos[0]) then [todos[0]] + tail else tail
  }

  /** Filtering distributes over concatenation, so the kept entries keep their relative order. */
  lemma {:induction false} FilterConcat(a: seq<Todo>, b: seq<Todo>, keep: Todo -> bool)
    ensures Filter(a + b, keep) == Filter(a, keep) + Filter(b, keep)
  {
    if a != [] {
      var head := if keep(a[0]) then [a[0]] else [];
      assert (a + b)[0] == a[0] && (a + b)[1..] == a[1..] + b;
      calc {
        Filter(a + b, keep);
      == { FilterFirst(a + b, keep); }
        head + Filter(a[1..] + b, keep);
      == { FilterConcat(a[1..], b, keep); }
        head + (Filter(a[1..], keep) + Filter(b, keep));
      ==
        (head + Filter(a[1..], keep)) + Filter(b, keep);
      == { FilterFirst(a, keep); }
        Filter(a, keep) + Filter(b, keep);
      }
    } else {
      assert a + b == b;
    }
  }

  /** One step of the filter: the first entry if it is accepted, then the filtered rest. */
  lemma FilterFirst(todos: seq<Todo>, keep: Todo -> bool)
    requires todos != []
    ensures Filter(todos, keep) == (if keep(todos[0]) then [todos[0]] else []) + Filter(todos[1..], keep)
  {
  }

  /** An entry passes exactly one of two complementary filters. */
  lemma {:induction false} FilterComplement(todos: seq<Todo>, p: Todo -> bool, q: Todo -> bool)
    requires forall t :: q(t) == !p(t)
    ensures |Filter(todos, p)| + |Filter(todos, q)| == |todos|
  {
    if todos != [] {
      FilterComplement(todos[1..], p, q);
    }
  }

  /** Filtering keeps ids distinct. */
  lemma {:induction false} FilterKeepsDistinctIds(todos: seq<Todo>, keep: Todo -> bool)
    requires DistinctIds(todos)
    ensures DistinctIds(Filter(todos, keep))
  {
    if todos != [] {
      var tail := todos[1..];
      assert DistinctIds(tail) by {
        forall i, j | 0 <= i < j < |tail| ensures tail[i].id != tail[j].id {
          assert tail[i] == todos[i + 1] && tail[j] == todos[j + 1];
        }
      }
      FilterKeepsDistinctIds(tail, keep);
      var r := Filter(tail, keep);
      if keep(todos[0]) {
        var x := todos[0];
        forall t | t in r ensures t.id != x.id {
          var k :| 0 <= k < |tail| && tail[k] == t;
          assert todos[k + 1] == t;
        }
        var r' := [x] + r;
        forall i, j | 0 <= i < j < |r'| ensures r'[i].id != r'[j].id {
          if i == 0 {
            assert r'[j] == r[j - 1] && r[j - 1] in r;
          } else {
            assert r'[i] == r[i - 1] && r'[j] == r[j - 1];
          }
        }
      }
    }
  }

  // ---------------------------------------------------------------- toggleTodo

  /** The list after toggleTodo: flips `completed` on every entry whose id is `id`; all other entries are kept. */
  function Toggled(todos: seq<Todo>, id: int): (r: seq<Todo>)
    ensures |r| == |todos|
    ensures forall i :: 0 <= i < |r| ==>
      && r[i].id == todos[i].id
      && r[i].text == todos[i].text
      && r[i].createdAt == todos[i].createdAt
      && r[i].completed == (todos[i].completed != (todos[i].id == id))
    ensures !HasId(todos, id) ==> r == todos
  {
    var r := seq(|todos|, i requires 0 <= i < |todos| =>
      if todos[i].id == id then todos[i].(completed := !todos[i].completed) else todos[i]);
    assert !HasId(todos, id) ==> r == todos by {
      if !HasId(todos, id) {
        forall i | 0 <= i < |todos| ensures r[i] == todos[i] {
          assert todos[i] in todos;
        }
      }
    }
    r
  }

  /** Toggling the same id twice restores the list. */
  lemma ToggleInvolution(todos: seq<Todo>, id: int)
    ensures Toggled(Toggled(todos, id), id) == todos
  {
    var r := Toggled(Toggled(todos, id), id);
    assert forall i :: 0 <= i < |r| ==> r[i] == todos[i];
  }

  // ---------------------------------------------------------------- deleteTodo

  /** The list after deleteTodo: every entry whose id differs from `id`, in order. */
  function WithoutId(todos: seq<Todo>, id: int): (r: seq<Todo>)
    ensures |r| <= |todos|
    ensures forall t :: t in r <==> t in todos && t.id != id
    ensures !HasId(todos, id) ==> r == todos
  {
    Filter(todos, OtherThan(id))
  }

  /** The filter predicate of deleteTodo. */
  function OtherThan(id: int): Todo -> bool {
    (t: Todo) => t.id != id
  }

  /** With distinct ids, deleting an id that is present removes exactly that entry. */
  lemma DeleteRemovesOne(todos: seq<Todo>, k: nat)
    requires DistinctIds(todos)
    requires k < |todos|
    ensures WithoutId(todos, todos[k].id) == todos[..k] + todos[k + 1..]
    ensures |WithoutId(todos, todos[k].id)| == |todos| - 1
  {
    var id := todos[k].id;
    var before, after := todos[..k], todos[k + 1..];
    assert todos == before + [todos[k]] + after;
    forall i | 0 <= i < |before| ensures before[i].id != id {
      assert before[i] == todos[i];
    }
    forall i | 0 <= i < |after| ensures after[i].id != id {
      assert after[i] == todos[k + 1 + i];
    }
    NoMatchKept(before, id);
    NoMatchKept(after, id);
    FilterDropsOne(before, todos[k], after, OtherThan(id));
  }

  /** Filtering out a single rejected entry between two kept runs. */
  lemma FilterDropsOne(before: seq<Todo>, x: Todo, after: seq<Todo>, keep: Todo -> bool)
    requires Filter(before, keep) == before && Filter(after, keep) == after && !keep(x)
    ensures Filter(before + [x] + after, keep) == before + after
  {
    FilterConcat(before, [x] + after, keep);
    FilterConcat([x], after, keep);
    assert [x][1..] == [];
    assert before + [x] + after == before + ([x] + after);
  }

  lemma NoMatchKept(todos: seq<Todo>, id: int)
    requires forall i :: 0 <= i < |todos| ==> todos[i].id != id
    ensures WithoutId(todos, id) == todos
  {
  }

  // ---------------------------------------------------------------- editTodo

  /** The list after editTodo: every entry whose id is `id` gets the trimmed new text; all other entries are kept. */
  function Edited(todos: seq<Todo>, id: int, newText: string): (r: seq<Todo>)
    ensures |r| == |todos|
    ensures forall i :: 0 <= i < |r| ==>
      && r[i].id == todos[i].id
      && r[i].completed == todos[i].completed
      && r[i].createdAt == todos[i].createdAt
      && r[i].text == (if todos[i].id == id then Trim(newText) else todos[i].text)
    ensures !HasId(todos, id) ==> r == todos
  {
    var text := Trim(newText);
    var r := seq(|todos|, i requires 0 <= i < |todos| =>
      if todos[i].id == id then todos[i].(text := text) else todos[i]);
    assert !HasId(todos, id) ==> r == todos by {
      if !HasId(todos, id) {
        forall i | 0 <= i < |todos| ensures r[i] == todos[i] {
          assert todos[i] in todos;
        }
      }
    }
    r
  }

  /** With distinct ids, an edit whose trimmed text equals the entry's current text changes nothing. */
  lemma EditToSameTextIsNoOp(todos: seq<Todo>, k: nat, newText: string)
    requires DistinctIds(todos)
    requires k < |todos| && Trim(newText) == todos[k].text
    ensures Edited(todos, todos[k].id, newText) == todos
  {
    var r := Edited(todos, todos[k].id, newText);
    forall i | 0 <= i < |r| ensures r[i] == todos[i] {
      if i != k {
        assert todos[i].id != todos[k].id;
      }
    }
  }

  // ---------------------------------------------------------------- clearCompleted and the counts

  predicate IsDone(t: Todo) { t.completed }

  predicate IsOpen(t: Todo) { !t.completed }

  /** The list after clearCompleted: the entries that are not completed, in order. */
  function Active(todos: seq<Todo>): (r: seq<Todo>)
    ensures forall t :: t in r <==> t in todos && !t.completed
  {
    Filter(todos, IsOpen)
  }

  /** The completed entries, in order; the completed count is their number. */
  function Completed(todos: seq<Todo>): (r: seq<Todo>)
    ensures forall t :: t in r <==> t in todos && t.completed
  {
    Filter(todos, IsDone)
  }

  /** The number of completed entries. */
  function CompletedCount(todos: seq<Todo>): (n: nat)
    ensures n <= |todos|
    ensures n == 0 <==> forall t :: t in todos ==> !t.completed
  {
    var c := Completed(todos);
    assert c != [] ==> c[0] in c;
    |c|
  }

  /** The number of entries still open: the list length minus the completed count. */
  function RemainingCount(todos: seq<Todo>): (n: nat)
    ensures n + CompletedCount(todos) == |todos|
    ensures n == |Active(todos)|
  {
    FilterComplement(todos, IsDone, IsOpen);
    |todos| - CompletedCount(todos)
  }

  /** Clearing twice is the same as clearing once. */
  lemma ClearCompletedIdempotent(todos: seq<Todo>)
    ensures Active(Active(todos)) == Active(todos)
  {
  }

  /** Clearing when nothing is completed changes nothing. */
  lemma ClearCompletedNoOp(todos: seq<Todo>)
    requires CompletedCount(todos) == 0
    ensures Active(todos) == todos
  {
  }

  /** After clearing, nothing is completed and the length is the old remaining count. */
  lemma ClearCompletedCounts(todos: seq<Todo>)
    ensures CompletedCount(Active(todos)) == 0
    ensures |Active(todos)| == RemainingCount(todos)
  {
  }

  /** Every stored text is non-blank and already trimmed, as the two input guards aim for. */
  ghost predicate TextsWellFormed(todos: seq<Todo>) {
    forall t :: t in todos ==> !IsBlank(t.text) && Trim(t.text) == t.text
  }

  /** Editing with a non-blank text keeps every stored text well formed. */
  lemma EditKeepsTextsWellFormed(todos: seq<Todo>, id: int, newText: string)
    requires TextsWellFormed(todos) && !IsBlank(newText)
    ensures TextsWellFormed(Edited(todos, id, newText))
  {
    var r := Edited(todos, id, newText);
    TrimIdempotent(newText);
    forall t | t in r ensures !IsBlank(t.text) && Trim(t.text) == t.text {
      var i :| 0 <= i < |r| && r[i] == t;
      assert todos[i] in todos;
    }
  }

  /** Toggling, deleting and clearing never touch a text, so well-formed texts stay well formed. */
  lemma OtherOperationsKeepTextsWellFormed(todos: seq<Todo>, id: int)
    requires TextsWellFormed(todos)
    ensures TextsWellFormed(Toggled(todos, id))
    ensures TextsWellFormed(WithoutId(todos, id))
    ensures TextsWellFormed(Active(todos))
  {
    var r := Toggled(todos, id);
    forall t | t in r ensures !IsBlank(t.text) && Trim(t.text) == t.text {
      var i :| 0 <= i < |r| && r[i] == t;
      assert todos[i] in todos;
    }
  }
}
