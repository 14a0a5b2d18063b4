/** src/components/view/variableView.tsx: the inputs for the selected
    calculator's variables. The component keeps a local copy of the
    calculator; an edit rewrites one variable in the copy and reports the
    change to the parent. */
module VariableView {
  import opened Js
  import opened Hierarchy
  import ViewBody

  /** The arguments of `onVariableChange`. */
  datatype Notice = Notice(calculatorId: int, variableId: int, value: real)

  /** `handleVariableChange` on the local copy: with no calculator nothing
      happens. Otherwise every variable whose `variable_id` matches gets the
      value, and the parent is told the calculator id, the variable id and
      the value. `.map` throws on variables that are not a parsed list, and
      reading `variable_id` throws on a null entry. */
  function ChangeVariable(local: Option<Node>, variableId: int, value: real): (r: Attempt<Option<(Node, Notice)>>)
    ensures local.None? ==> r == Returned(None)
    ensures local.Some? ==>
      (r.Threw? <==> !local.value.variables.List? || SetValue(local.value.variables.items, variableId, value).None?)
    ensures local.Some? && r.Returned? ==>
      r.value.Some?
      && r.value.value.0 == local.value.(variables := List(SetValue(local.value.variables.items, variableId, value).value))
      && r.value.value.1 == Notice(local.value.id, variableId, value)
  {
    match local
    case None => Returned(None)
    case Some(n) =>
      match n.variables
      case List(items) =>
        (match SetValue(items, variableId, value)
         case None => Threw
         case Some(updated) => Returned(Some((n.(variables := List(updated)), Notice(n.id, variableId, value)))))
      case _ => Threw
  }

  /** The local copy and the tree the parent updates agree: for a
      calculator whose variables are a parsed list, the edit throws in the
      view exactly when it throws in the parent's search-and-update, and
      otherwise both produce the same calculator. */
  lemma LocalAgreesWithTree(nodes: map<int, Node>, k: int, variableId: int, value: real, decode: Decoder)
    requires k in nodes && nodes[k].variables.List?
    ensures var local := ChangeVariable(Some(nodes[k]), variableId, value);
      var tree := ViewBody.WithVariable(nodes, k, variableId, value, decode);
      && (local.Threw? <==> tree.Threw?)
      && (tree.Returned? ==> local.value.Some? && tree.value[k] == local.value.value.0)
  {
  }

  /** What the component shows: nothing, the "No variables available."
      note, or one input per variable, in order. */
  datatype Shown = Hidden | NoVariables | Inputs(vars: seq<Var>)

  /** The entries of a list when none is null. */
  function Present(items: seq<Option<Var>>): (r: Option<seq<Var>>)
    ensures r.None? <==> exists i :: 0 <= i < |items| && items[i].None?
    ensures r.Some? ==> |r.value| == |items| && forall i :: 0 <= i < |items| ==> items[i] == Some(r.value[i])
    decreases |items|
  {
    if items == [] then Some([])
    else
      match (Present(items[..|items| - 1]), items[|items| - 1])
      case (Some(front), Some(v)) => Some(front + [v])
      case _ => None
  }

  /** The render: nothing without a calculator or for the server's `[null]`
      encoding of "no variables". Otherwise an empty list or text shows the
      note; a non-empty list shows one input per variable, and reading
      `variable_id` of a null entry throws. Reading `length` of a missing
      field throws, and so does `.map` on a non-empty JSON text, which has
      no such method. */
  function Renders(local: Option<Node>): (r: Attempt<Shown>)
    ensures r == Returned(Hidden) <==> local.None? || local.value.variables == List([None])
    ensures r.Threw? <==> local.Some? && match local.value.variables
      case Absent => true
      case Text(s) => s != ""
      case List(items) => items != [None] && exists i :: 0 <= i < |items| && items[i].None?
    ensures r == Returned(NoVariables) <==> local.Some? && local.value.variables in {Text(""), List([])}
    ensures r.Returned? && r.value.Inputs? ==>
      local.Some? && local.value.variables.List? && |r.value.vars| == |local.value.variables.items| > 0
      && forall i :: 0 <= i < |r.value.vars| ==> local.value.variables.items[i] == Some(r.value.vars[i])
  {
    match local
    case None => Returned(Hidden)
    case Some(n) =>
      match n.variables
      case Absent => Threw
      case Text(s) => if s == "" then Returned(NoVariables) else Threw
      case List(items) =>
        if |items| == 1 && items[0].None? then Returned(Hidden)
        else if items == [] then Returned(NoVariables)
        else
          match Present(items)
          case None => Threw
          case Some(vs) => Returned(Inputs(vs))
  }

  /** Whenever the view hides the inputs of a calculator, the recompute
      walk cannot build that calculator's scope either. */
  lemma HiddenMeansNoScope(nodes: map<int, Node>, k: int, decode: Decoder)
    requires k in nodes && Renders(Some(nodes[k])) == Returned(Hidden)
    ensures ViewBody.ViewScope(nodes, k, decode).None?
  {
    ViewBody.NullEncodingThrows(nodes, k, decode);
  }
}
