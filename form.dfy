/**
 * The add form of `src/components/TodoForm.tsx`: the `inputValue` state, the
 * submit handler that trims and guards before calling `onAddTodo`, and the add
 * button, disabled under the same condition that blocks a submit.
 * A call of `onAddTodo(x)` is modelled as the out-parameter `Some(x)`.
 */
module Form {
  import opened Wrappers
  import opened Text

  /** The text a submit hands to `onAddTodo` for this input, or `None` when it does not call it. */
  function Submission(inputValue: string): (r: Option<string>)
    ensures r.None? <==> IsBlank(inputValue)
    ensures r.Some? ==> r.value == Trim(inputValue)
    ensures r.Some? ==> !IsBlank(r.value) && Trim(r.value) == r.value
  {
    TrimIdempotent(inputValue);
    var trimmed := Trim(inputValue);
    if trimmed != [] then Some(trimmed) else None
  }

  class TodoForm {
    var inputValue: string

    /** The form starts with an empty input field. */
    constructor ()
      ensures inputValue == ""
    {
      inputValue := "";
    }

    /** Typing in the input: the field takes the typed value. */
    method HandleChange(value: string)
      modifies this
      ensures inputValue == value
    {
      inputValue := value;
    }

    /** The add button is disabled while the input is blank. */
    predicate AddButtonDisabled()
      reads this
      ensures AddButtonDisabled() <==> Submission(inputValue).None?
      ensures AddButtonDisabled() <==> AllWhitespace(inputValue)
    {
      IsBlank(inputValue)
    }

    /**
     * Submitting the form: calls `onAddTodo` with the trimmed input exactly when it
     * is not blank, and then clears the field; a blank input changes nothing.
     */
    method HandleSubmit() returns (added: Option<string>)
      modifies this
      ensures added == Submission(old(inputValue))
      ensures added.None? <==> old(AddButtonDisabled())
      ensures inputValue == if added.Some? then "" else old(inputValue)
    {
      added := Submission(inputValue);
      if added.Some? {
        inputValue := "";
      }
    }
  }
}
