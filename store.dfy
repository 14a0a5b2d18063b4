/** src/store/store.ts: the application's global stores. Each store is an
    object whose setters overwrite some of its fields; the model gives each
    one a class with those fields and one method per setter. */
module Store {
  import opened Js
  import opened Hierarchy

  /** `useTeamStore`: the selected team. */
  class TeamStore {
    var selectedTeamId: Option<int>

    constructor ()
      ensures selectedTeamId.None?
    {
      selectedTeamId := None;
    }

    method SetSelectedTeamId(teamId: Option<int>)
      modifies this
      ensures selectedTeamId == teamId
    {
      selectedTeamId := teamId;
    }
  }

  /** The seven fields of the selection store, as one value. */
  datatype Selection = Selection(
    projectId: Option<int>,
    calculatorId: Option<int>,
    parentId: Option<int>,
    name: Option<string>,
    result: Option<real>,
    expression: Option<string>,
    note: Option<string>)

  /** Choosing a project: the project id is set and the calculator id is
      cleared; the other five fields stay. */
  function SelectProject(s: Selection, projectId: Option<int>): (r: Selection)
    ensures r.projectId == projectId && r.calculatorId.None?
    ensures r.(projectId := s.projectId, calculatorId := s.calculatorId) == s
  {
    s.(projectId := projectId, calculatorId := None)
  }

  /** `resetSelection`: both ids cleared, the parent id, name, result,
      expression and note untouched. It is choosing no project. */
  function ResetIds(s: Selection): (r: Selection)
    ensures r.projectId.None? && r.calculatorId.None?
    ensures r.(projectId := s.projectId, calculatorId := s.calculatorId) == s
    ensures r == SelectProject(s, None)
  {
    s.(projectId := None, calculatorId := None)
  }

  /** `useSelectionStore`. */
  class SelectionStore {
    var selectedProjectId: Option<int>
    var selectedCalculatorId: Option<int>
    var selectedParentCalculatorId: Option<int>
    var selectedCalculatorName: Option<string>
    var selectedCalculatorResult: Option<real>
    var selectedCalculatorExpression: Option<string>
    var selectedCalculatorNote: Option<string>

    function Snapshot(): Selection
      reads this
    {
      Selection(selectedProjectId, selectedCalculatorId, selectedParentCalculatorId,
                selectedCalculatorName, selectedCalculatorResult, selectedCalculatorExpression,
                selectedCalculatorNote)
    }

    /** Every field starts out null. */
    constructor ()
      ensures Snapshot() == Selection(None, None, None, None, None, None, None)
    {
      selectedProjectId := None;
      selectedCalculatorId := None;
      selectedParentCalculatorId := None;
      selectedCalculatorName := None;
      selectedCalculatorResult := None;
      selectedCalculatorExpression := None;
      selectedCalculatorNote := None;
    }

    method SetSelectedProjectId(projectId: Option<int>)
      modifies this
      ensures Snapshot() == SelectProject(old(Snapshot()), projectId)
    {
      selectedProjectId := projectId;
      selectedCalculatorId := None;
    }

    method SetSelectedCalculatorId(calculatorId: Option<int>)
      modifies this
      ensures Snapshot() == old(Snapshot()).(calculatorId := calculatorId)
    {
      selectedCalculatorId := calculatorId;
    }

    method SetSelectedParentCalculatorId(calculatorId: Option<int>)
      modifies this
      ensures Snapshot() == old(Snapshot()).(parentId := calculatorId)
    {
      selectedParentCalculatorId := calculatorId;
    }

    method SetSelectedCalculatorName(calculatorName: Option<string>)
      modifies this
      ensures Snapshot() == old(Snapshot()).(name := calculatorName)
    {
      selectedCalculatorName := calculatorName;
    }

    method SetSelectedCalculatorResult(calculatorResult: Option<real>)
      modifies this
      ensures Snapshot() == old(Snapshot()).(result := calculatorResult)
    {
      selectedCalculatorResult := calculatorResult;
    }

    method SetSelectedCalculatorExpression(calculatorExpression: Option<string>)
      modifies this
      ensures Snapshot() == old(Snapshot()).(expression := calculatorExpression)
    {
      selectedCalculatorExpression := calculatorExpression;
    }

    method SetSelectedCalculatorNote(note: Option<string>)
      modifies this
      ensures Snapshot() == old(Snapshot()).(note := note)
    {
      selectedCalculatorNote := note;
    }

    method ResetSelection()
      modifies this
      ensures Snapshot() == ResetIds(old(Snapshot()))
    {
      selectedProjectId := None;
      selectedCalculatorId := None;
    }
  }

  /** The argument of `setVariables`: a JSON text or an already parsed list. */
  datatype VariablesInput = Json(text: string) | Items(items: seq<Option<Var>>)

  /** `addVariable`'s list: the old list with the variable appended, or the
      variable alone when there was no list. */
  function Appended(vs: Option<seq<Option<Var>>>, v: Var): (r: seq<Option<Var>>)
    ensures |r| == (if vs.Some? then |vs.value| else 0) + 1
    ensures r[..|r| - 1] == (if vs.Some? then vs.value else [])
    ensures r[|r| - 1] == Some(v)
  {
    match vs
    case Some(items) => items + [Some(v)]
    case None => [Some(v)]
  }

  /** `useVariableStore`. Entries are nullable because the server encodes a
      calculator without variables as `[null]`. */
  class VariableStore {
    var variables: Option<seq<Option<Var>>>

    constructor ()
      ensures variables.None?
    {
      variables := None;
    }

    /** A list is stored as given; a text is parsed first, and when parsing
        throws the store is left as it was. */
    method SetVariables(data: VariablesInput, decode: Decoder) returns (threw: bool)
      modifies this
      ensures data.Items? ==> !threw && variables == Some(data.items)
      ensures data.Json? ==> (threw <==> decode(data.text).None?)
      ensures data.Json? && threw ==> variables == old(variables)
      ensures data.Json? && !threw ==> variables == decode(data.text)
    {
      match data
      case Items(items) =>
        variables := Some(items);
        return false;
      case Json(text) =>
        var parsed := decode(text);
        if parsed.None? {
          return true;
        }
        variables := parsed;
        return false;
    }

    method AddVariable(v: Var)
      modifies this
      ensures variables == Some(Appended(old(variables), v))
    {
      variables := Some(if variables.Some? then variables.value + [Some(v)] else [Some(v)]);
    }

    /** The list becomes empty, not null. */
    method ResetVariables()
      modifies this
      ensures variables == Some([])
    {
      variables := Some([]);
    }
  }

  /** `useToggle`. */
  class ToggleStore {
    var toggle: bool

    constructor ()
      ensures !toggle
    {
      toggle := false;
    }

    /** Flips the flag, so two calls in a row restore it. */
    method SetToggle()
      modifies this
      ensures toggle == !old(toggle)
    {
      toggle := !toggle;
    }
  }
}
