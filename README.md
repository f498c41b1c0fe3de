# Todo list store — a verified Dafny model

This project models the state logic of a small client-side todo list written
with React. The application keeps an ordered list of `Todo` records and an id
counter (`src/App.tsx`). Five operations change them: add, toggle, delete,
edit and clear-completed. Two counts are derived from the list. Two input
components sit in front of the store:

- the add form (`src/components/TodoForm.tsx`) trims its input and submits only non-blank text;
- each entry's edit mode (`src/components/TodoItem.tsx`) saves only a non-blank text that differs from the current one.

Modules, one per part of the program:

- `Text` — `String.prototype.trim`. It strips the code points that ECMA-262
  classes as WhiteSpace (section 12.2) or LineTerminator (section 12.3). The
  module proves that trim is idempotent and that a trimmed result is pinned
  down by its two cut points.
- `Todos` — the `Todo` datatype and the pure list updates that each store
  operation applies to the previous list: `Toggled`, `WithoutId`, `Edited`, `Active`. It also
  holds the counts and the lemmas about them: involution, order preservation,
  idempotence, count arithmetic and no-op cases.
- `Store` — the class `TodoStore` with fields `todos` and `nextId`, one method
  per operation. Every method keeps the id invariant `Valid()`: ids are
  distinct, all below `nextId`, and `nextId >= 1`.
- `Form` — the class `TodoForm` (`inputValue`) with its submit handler and the add button's disabled condition.
- `Item` — the class `TodoItem` (`isEditing`, `editText`) with the edit, save, cancel and key handlers.
- `Wrappers` — the `Option` type used for callback invocations.
- `Wiring` — the components connected to the store as `App` connects them,
  plus the end-to-end scenario (add "a", add "b", toggle 1, counts, clear).

A callback invocation (`onAddTodo(text)`, `onEdit(id, text)`) is modelled as
an out-parameter: `Some(args)` means the callback was called with `args`, and
`None` means it was not called. The clock (`new Date()`) becomes the
`createdAt` parameter.

The store itself does not reject blank text. `addTodo` appends an entry for
any input, and `editTodo` writes any trimmed text. The blank-input no-op comes
only from the two component guards, and the model follows the code on this
point. The guarantees "blank input changes nothing" and "every stored text is
non-blank and trimmed" are therefore stated for the composed methods
`Wiring.SubmitForm` and `Wiring.SaveItem`.

## Model

| member | source | states |
|---|---|---|
| `Text.Trim` | src/App.tsx:34 | the result is the slice of the input that starts after its leading whitespace and is followed only by whitespace; neither end of the result is whitespace; the result is empty exactly when the input is all whitespace |
| `Text.TrimUnique` | src/App.tsx:34 | any split of a string into whitespace, a middle with no whitespace at its ends, and whitespace has that middle as its trim |
| `Text.TrimIdempotent` | src/App.tsx:34 | trimming twice gives the same string as trimming once |
| `Text.IsBlank` | src/components/TodoForm.tsx:62 | a string is blank (its trim is the falsy empty string) exactly when every code point in it is whitespace |
| `Text.TrimFixedPoint` | src/components/TodoForm.tsx:61-63 | a string equals its own trim exactly when neither of its ends is whitespace |
| `Todos.Filter` | src/App.tsx:63 | the filtered list holds exactly the accepted entries, is no longer than the input, and equals the input when every entry is accepted |
| `Todos.FilterConcat` | src/App.tsx:51 | filtering distributes over concatenation, so kept entries keep their relative order |
| `Todos.FilterComplement` | src/App.tsx:66-67 | every entry passes exactly one of two complementary filters, so the two lengths sum to the list length |
| `Todos.FilterKeepsDistinctIds` | src/App.tsx:50-52 | filtering a list with distinct ids leaves the ids distinct |
| `Todos.Toggled` | src/App.tsx:42-48 | length, order, ids, texts and creation times are unchanged; `completed` flips exactly on the entries with the given id; an unknown id leaves the list unchanged |
| `Todos.ToggleInvolution` | src/App.tsx:42-48 | toggling the same id twice gives back the original list |
| `Todos.WithoutId` | src/App.tsx:50-52 | the result holds exactly the entries whose id differs; an unknown id leaves the list unchanged |
| `Todos.DeleteRemovesOne` | src/App.tsx:50-52 | with distinct ids, deleting the id at position k gives the list with exactly that position removed, one shorter |
| `Todos.Edited` | src/App.tsx:54-60 | length, order, ids, `completed` and creation times are unchanged; the entries with the id get the trimmed text, all others keep theirs; an unknown id leaves the list unchanged |
| `Todos.EditToSameTextIsNoOp` | src/App.tsx:54-60 | with distinct ids, an edit whose trimmed text equals the entry's current text leaves the list unchanged |
| `Todos.Active` | src/App.tsx:62-64 | clear-completed keeps exactly the entries that are not completed |
| `Todos.Completed` | src/App.tsx:66 | the completed filter holds exactly the completed entries |
| `Todos.CompletedCount` | src/App.tsx:66 | the completed count is at most the list length, and it is zero exactly when no entry is completed |
| `Todos.RemainingCount` | src/App.tsx:67 | remaining plus completed equals the list length, and remaining is the number of entries that are not completed |
| `Todos.ClearCompletedIdempotent` | src/App.tsx:62-64 | clearing completed entries twice is the same as clearing once |
| `Todos.ClearCompletedNoOp` | src/App.tsx:62-64 | when the completed count is zero, clearing changes nothing |
| `Todos.ClearCompletedCounts` | src/App.tsx:62-67 | after clearing, the completed count is zero and the length is the old remaining count |
| `Todos.EditKeepsTextsWellFormed` | src/App.tsx:54-60 | an edit with a non-blank text keeps every stored text non-blank and trimmed |
| `Todos.OtherOperationsKeepTextsWellFormed` | src/App.tsx:42-64 | toggle, delete and clear-completed keep every stored text non-blank and trimmed |
| `Store.TodoStore.constructor` | src/App.tsx:28-29 | the store starts with an empty list and `nextId == 1` and satisfies the id invariant |
| `Store.TodoStore.AddTodo` | src/App.tsx:31-40 | exactly one entry is appended, with id `nextId`, the trimmed text, `completed == false` and the given creation time; earlier entries are untouched; `nextId` grows by one; the id invariant is kept |
| `Store.TodoStore.ToggleTodo` | src/App.tsx:42-48 | the list becomes `Toggled` of the old list, `nextId` is unchanged and the id invariant is kept |
| `Store.TodoStore.DeleteTodo` | src/App.tsx:50-52 | the list becomes `WithoutId` of the old list, `nextId` is unchanged and the id invariant is kept |
| `Store.TodoStore.EditTodo` | src/App.tsx:54-60 | the list becomes `Edited` of the old list, `nextId` is unchanged and the id invariant is kept |
| `Store.TodoStore.ClearCompleted` | src/App.tsx:62-64 | the list becomes `Active` of the old list, `nextId` is unchanged and the id invariant is kept |
| `Form.Submission` | src/components/TodoForm.tsx:61-63 | `onAddTodo` is called exactly when the input is not blank, with the trimmed input, which is itself non-blank and its own trim |
| `Form.TodoForm.constructor` | src/components/TodoForm.tsx:57 | the input starts empty |
| `Form.TodoForm.HandleChange` | src/components/TodoForm.tsx:73 | the field takes the typed value |
| `Form.TodoForm.AddButtonDisabled` | src/components/TodoForm.tsx:77 | the add button is disabled exactly when a submit would not call `onAddTodo`, that is, exactly when the input is all whitespace |
| `Form.TodoForm.HandleSubmit` | src/components/TodoForm.tsx:59-66 | the call made is `Submission` of the old input; no call happens exactly when the add button is disabled; after a call the input is empty, otherwise it is unchanged |
| `Item.SaveRequest` | src/components/TodoItem.tsx:117-121 | `onEdit` is called exactly when the trimmed edit text is non-blank and differs from the entry's text, and then with the entry's id and that trimmed text |
| `Item.EditButtonDisabled` | src/components/TodoItem.tsx:183 | the edit button is disabled exactly for the entries that clear-completed would remove, that is, the completed ones |
| `Item.TodoItem.constructor` | src/components/TodoItem.tsx:109-110 | an entry starts out of edit mode with its own text in the edit field |
| `Item.TodoItem.HandleEdit` | src/components/TodoItem.tsx:112-115 | enters edit mode with the entry's current text |
| `Item.TodoItem.ClickEditButton` | src/components/TodoItem.tsx:183 | on a completed entry the click changes nothing; otherwise it enters edit mode; so edit mode is entered only for entries that are not completed |
| `Item.TodoItem.HandleChange` | src/components/TodoItem.tsx:160 | the edit field takes the typed value and the mode is unchanged |
| `Item.TodoItem.HandleSave` | src/components/TodoItem.tsx:117-123 | the call made is `SaveRequest` of the entry and the old edit text; edit mode always ends; the edit text is unchanged |
| `Item.TodoItem.HandleCancel` | src/components/TodoItem.tsx:125-128 | no edit is issued; the edit text is reset to the entry's text and edit mode ends |
| `Item.TodoItem.HandleKeyPress` | src/components/TodoItem.tsx:130-136 | Enter behaves as save, Escape as cancel, and any other key changes nothing and issues no edit |
| `Wiring.SubmitForm` | src/components/TodoForm.tsx:59-66 | a blank input leaves the list, `nextId` and the input unchanged; otherwise exactly one entry with the trimmed input is appended, `nextId` grows by one and the input is cleared; stored texts stay non-blank and trimmed |
| `Wiring.SaveItem` | src/components/TodoItem.tsx:117-123 | a blank edit text, or one whose trim equals the entry's text, leaves the store unchanged; otherwise the store's list becomes the edited list; edit mode ends and the edit text stays as typed; `nextId` is unchanged; stored texts stay non-blank and trimmed |
| `Wiring.Scenario` | src/App.tsx:28-67 | from an empty store, adding "a" and "b", toggling id 1 and reading the counts gives one completed and one remaining; clearing then leaves only entry 2 with text "b", open |

## Left out

- Rendering: the styled components and all JSX, and `src/components/TodoList.tsx`, which only maps the list to entries and shows an empty-list message.
- Visibility rules of the rendering. The counts line appears only for a non-empty list. The clear button appears only when the completed count is positive. Save, cancel and the key handler are reachable only in edit mode. The model lets each handler run in any state, which is a superset of what the page allows.
- Date formatting with `Intl.DateTimeFormat`, which is locale-dependent. The wall clock `new Date()` is replaced by the `createdAt` parameter, an integer number of milliseconds.
- React hook machinery. State batching, `useCallback` memoisation and the `[nextId]` closure of `addTodo` are not modelled. Operations run as strictly sequential method calls, each seeing the latest state.
- `e.preventDefault()` in the submit handler, a browser side effect.
- The browser's `maxLength={100}` on both input fields. Inputs of any length are accepted.
- Ids are unbounded natural numbers. JavaScript numbers lose integer precision above 2^53, which the model does not capture.
- `Text.IsWhitespace` lists the space separators (Unicode category Zs) explicitly, as of current Unicode. It does not follow changes in later Unicode versions. Strings are sequences of code points rather than UTF-16 code units. No whitespace character is a surrogate, so trimming is unaffected.
