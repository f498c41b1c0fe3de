/**
 * The edit state machine of one list entry (`src/components/TodoItem.tsx`):
 * `isEditing` and `editText`, entered through the edit button and left
 * through save or cancel (buttons, Enter or Escape). The `todo` prop is passed
 * to each handler as it stands when the handler runs. A call of
 * `onEdit(id, text)` is modelled as the out-parameter `Some(EditRequest(id, text))`.
 */
module Item {
  import opened Wrappers
  import opened Text
  import opened Todos

  datatype EditRequest = EditRequest(id: nat, text: string)

  /**
   * What a save hands to `onEdit`: the trimmed text, only when it is
   * not blank and differs from the entry's current text.
   */
  function SaveRequest(todo: Todo, editText: string): (r: Option<EditRequest>)
    ensures r.Some? <==> !IsBlank(editText) && Trim(editText) != todo.text
    ensures r.Some? ==> r.value.id == todo.id && r.value.text == Trim(editText)
    ensures r.Some? ==> !IsBlank(r.value.text) && Trim(r.value.text) == r.value.text
  {
    TrimIdempotent(editText);
    var trimmedText := Trim(editText);
    if trimmedText != [] && trimmedText != todo.text then Some(EditRequest(todo.id, trimmedText))
    else None
  }

  /**
   * The edit button is disabled while the entry is completed, that is,
   * exactly for the entries that clear-completed would remove.
   */
  predicate EditButtonDisabled(todo: Todo)
    ensures EditButtonDisabled(todo) <==> Active([todo]) == []
  {
    todo.completed
  }

  class TodoItem {
    var isEditing: bool
    var editText: string

    /** An entry starts out of edit mode, with its own text in the edit field. */
    constructor (todo: Todo)
      ensures !isEditing && editText == todo.text
    {
      isEditing := false;
      editText := todo.text;
    }

    /** Enters edit mode with the entry's current text. */
    method HandleEdit(todo: Todo)
      modifies this
      ensures isEditing && editText == todo.text
    {
      isEditing := true;
      editText := todo.text;
    }

    /** A click on the edit button, which does nothing while the entry is completed. */
    method ClickEditButton(todo: Todo)
      modifies this
      ensures EditButtonDisabled(todo) ==> isEditing == old(isEditing) && editText == old(editText)
      ensures !EditButtonDisabled(todo) ==> isEditing && editText == todo.text
      ensures isEditing && !old(isEditing) ==> !todo.completed
    {
      if !EditButtonDisabled(todo) {
        HandleEdit(todo);
      }
    }

    /** Typing in the edit field: it takes the typed value. */
    method HandleChange(value: string)
      modifies this
      ensures editText == value && isEditing == old(isEditing)
    {
      editText := value;
    }

    /** Saving: issues the edit when `SaveRequest` says so and always leaves edit mode. */
    method HandleSave(todo: Todo) returns (request: Option<EditRequest>)
      modifies this
      ensures request == SaveRequest(todo, old(editText))
      ensures !isEditing && editText == old(editText)
    {
      request := SaveRequest(todo, editText);
      isEditing := false;
    }

    /** Cancelling: never issues an edit, restores the text and leaves edit mode. */
    method HandleCancel(todo: Todo)
      modifies this
      ensures !isEditing && editText == todo.text
    {
      editText := todo.text;
      isEditing := false;
    }

    /** A key press in the edit field: Enter saves, Escape cancels, any other key does nothing. */
    method HandleKeyPress(todo: Todo, key: string) returns (request: Option<EditRequest>)
      modifies this
      ensures key == "Enter" ==>
        request == SaveRequest(todo, old(editText)) && !isEditing && editText == old(editText)
      ensures key == "Escape" ==>
        request == None && !isEditing && editText == todo.text
      ensures key != "Enter" && key != "Escape" ==>
        request == None && isEditing == old(isEditing) && editText == old(editText)
    {
      if key == "Enter" {
        request := HandleSave(todo);
      } else if key == "Escape" {
        HandleCancel(todo);
        request := None;
      } else {
        request := None;
      }
    }
  }
}
