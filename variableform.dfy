/** src/components/body/variables/variableForm.tsx: the dialog that creates a
    variable under the selected calculator or updates an existing one. The
    variable name is derived from the display name by the formatter. */
module VariableForm {
  import opened Js
  import opened Hierarchy
  import opened Formatting

  /** The form's fields. */
  datatype Fields = Fields(name: string, display: string, value: real)

  /** The mutation `onSubmit` issues. */
  datatype VariableRequest =
    | UpdateVariable(variableId: int, name: string, display: string, value: real)
    | CreateVariable(calculatorId: int, name: string, display: string, value: real)

  /** The name effect: a non-empty display name yields the formatted name,
      which holds only `[A-Za-z0-9_]`, keeps one character per such character
      of the display name, and is left as it is by formatting it again; an
      empty display name leaves the name alone. */
  function DerivedName(display: string, name: string): (r: string)
    ensures display == "" ==> r == name
    ensures display != "" ==> AllWordChars(r) && |r| == |WordChars(display)| && Format(r) == r
  {
    if display == "" then name
    else
      FormatShape(display);
      FormatIdempotent(display);
      Format(display)
  }

  /** The dialog: its fields and whether it is open. */
  class Dialog {
    var fields: Fields
    var open: bool

    /** The fields start from the edited variable, or empty with value 0. */
    constructor (existing: Option<Var>)
      ensures open
      ensures existing.Some? ==> fields == Fields(existing.value.name, existing.value.display, existing.value.value)
      ensures existing.None? ==> fields == Fields("", "", 0.0)
    {
      open := true;
      fields := if existing.Some? then Fields(existing.value.name, existing.value.display, existing.value.value)
                else Fields("", "", 0.0);
    }

    method DisplayEffect()
      modifies this
      ensures fields == old(fields).(name := DerivedName(old(fields).display, old(fields).name))
      ensures open == old(open)
    {
      if fields.display != "" {
        fields := fields.(name := Format(fields.display));
      }
    }

    method Edit(newFields: Fields)
      modifies this
      ensures fields == newFields && open == old(open)
    {
      fields := newFields;
    }

    /** `onSubmit`. The form is only shown while a calculator is selected.
        An edited variable is updated when its id is truthy and left alone
        otherwise; without one a variable is created under the selected
        calculator. The dialog closes in every case. */
    method Submit(existing: Option<Var>, selectedCalculatorId: Option<int>) returns (request: Option<VariableRequest>)
      requires TruthyId(selectedCalculatorId)
      modifies this
      ensures !open && fields == old(fields)
      ensures existing.Some? && existing.value.id != 0 ==>
        request == Some(UpdateVariable(existing.value.id, fields.name, fields.display, fields.value))
      ensures existing.Some? && existing.value.id == 0 ==> request.None?
      ensures existing.None? ==>
        request == Some(CreateVariable(selectedCalculatorId.value, fields.name, fields.display, fields.value))
    {
      request := None;
      if existing.Some? {
        if existing.value.id != 0 {
          request := Some(UpdateVariable(existing.value.id, fields.name, fields.display, fields.value));
        }
      } else {
        request := Some(CreateVariable(selectedCalculatorId.value, fields.name, fields.display, fields.value));
      }
      open := false;
    }
  }
}
