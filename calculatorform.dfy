/** src/components/body/calculator/calculatorForm.tsx: the dialog that
    creates a calculator under the selected one. The name field is rewritten
    in place by the formatter as it is typed. */
module CalculatorForm {
  import opened Js
  import opened Hierarchy
  import opened Formatting

  /** The creation request `onSubmit` issues. */
  datatype CreateRequest = CreateRequest(projectId: Option<int>, parentId: Option<int>, name: string)

  /** The dialog: the name field and whether it is open. */
  class Dialog {
    var name: string
    var open: bool

    constructor ()
      ensures name == "" && open
    {
      name := "";
      open := true;
    }

    method Edit(input: string)
      modifies this
      ensures name == input && open == old(open)
    {
      name := input;
    }

    /** The name effect; running it again on its own output changes nothing
        (`Formatting.RewriteSettles`). */
    method NameEffect()
      modifies this
      ensures name == Rewrite(old(name)) && open == old(open)
    {
      if name != "" {
        name := Format(name);
      }
    }

    /** `onSubmit`: with `defaultValues` nothing is sent; otherwise a
        calculator named by the field is created in the selected project
        under the selected calculator. The dialog closes in every case. */
    method Submit(defaultValues: Option<Node>, selectedProjectId: Option<int>, selectedCalculatorId: Option<int>)
      returns (request: Option<CreateRequest>)
      modifies this
      ensures !open && name == old(name)
      ensures defaultValues.Some? ==> request.None?
      ensures defaultValues.None? ==> request == Some(CreateRequest(selectedProjectId, selectedCalculatorId, name))
    {
      if defaultValues.Some? {
        request := None;
      } else {
        request := Some(CreateRequest(selectedProjectId, selectedCalculatorId, name));
      }
      open := false;
    }
  }
}
