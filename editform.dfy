/** src/components/body/calculator/editForm.tsx: the dialog that renames a
    calculator. The name field is rewritten in place by the formatter. */
module EditForm {
  import opened Js
  import opened Hierarchy
  import opened Formatting

  /** The update `onSubmit` issues: the calculator's id and its new name and
      nothing else, so its expression, result and note are not sent. */
  datatype RenameRequest = RenameRequest(calculatorId: int, name: string)

  class Dialog {
    var name: string
    var open: bool

    /** The name field starts from the edited calculator, or empty. */
    constructor (defaultValues: Option<Node>)
      ensures open && name == (if defaultValues.Some? then defaultValues.value.name else "")
    {
      open := true;
      name := if defaultValues.Some? then defaultValues.value.name else "";
    }

    method Edit(input: string)
      modifies this
      ensures name == input && open == old(open)
    {
      name := input;
    }

    /** The name effect; it settles after one rewrite (`Formatting.RewriteSettles`). */
    method NameEffect()
      modifies this
      ensures name == Rewrite(old(name)) && open == old(open)
    {
      if name != "" {
        name := Format(name);
      }
    }

    /** `onSubmit`: the edited calculator is renamed, if there is one; the
        dialog closes either way. */
    method Submit(defaultValues: Option<Node>) returns (request: Option<RenameRequest>)
      modifies this
      ensures !open && name == old(name)
      ensures defaultValues.None? ==> request.None?
      ensures defaultValues.Some? ==> request == Some(RenameRequest(defaultValues.value.id, name))
    {
      request := None;
      if defaultValues.Some? {
        request := Some(RenameRequest(defaultValues.value.id, name));
      }
      open := false;
    }
  }
}
