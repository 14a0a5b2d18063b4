/** src/App.tsx: the breadcrumb history of visited calculators, the label
    of the selected calculator and the save action. The history is a list of
    `{id, name}` entries; the handlers and effects change it step by step
    together with the selection store. */
module App {
  import opened Js
  import opened Store

  /** One breadcrumb. */
  datatype Crumb = Crumb(id: int, name: string)

  /** The body of the update request `handleSave` sends. */
  datatype SaveRequest = SaveRequest(calculatorId: int, calculatorName: string, result: real,
                                     expression: string, note: string)

  /** No two neighbouring entries carry the same id. */
  ghost predicate NoAdjacentRepeat(h: seq<Crumb>) {
    forall i, j :: 0 <= i && j == i + 1 && j < |h| ==> h[i].id != h[j].id
  }

  /** The selection effect's update: `c` is appended unless the last entry
      already has its id. Either way the old history is a prefix of the new
      one, the new one ends with `c`'s id, and neighbouring ids stay
      distinct. */
  function PushIfNew(h: seq<Crumb>, c: Crumb): (r: seq<Crumb>)
    ensures h <= r && |r| <= |h| + 1
    ensures |r| > 0 && r[|r| - 1].id == c.id
    ensures |r| == |h| + 1 <==> (h == [] || h[|h| - 1].id != c.id)
    ensures NoAdjacentRepeat(h) ==> NoAdjacentRepeat(r)
  {
    if |h| > 0 && h[|h| - 1].id == c.id then h else h + [c]
  }

  /** Every prefix of a history without adjacent repeats has none either;
      this covers going back (drop the last entry) and clicking (keep up to
      the clicked entry). */
  lemma PrefixNoAdjacentRepeat(h: seq<Crumb>, n: int)
    requires 0 <= n <= |h| && NoAdjacentRepeat(h)
    ensures NoAdjacentRepeat(h[..n])
  {
    forall i, j | 0 <= i && j == i + 1 && j < n ensures h[..n][i].id != h[..n][j].id {
      assert h[..n][i] == h[i] && h[..n][j] == h[j];
    }
  }

  /** `handleSave`: nothing without a truthy selected id and name; otherwise
      the request with the label as the name and null result, expression
      and note replaced by 0, "" and "". */
  function SaveRequestFor(s: Selection, labelText: string): (r: Option<SaveRequest>)
    ensures r.None? <==> !TruthyId(s.calculatorId) || !TruthyText(s.name)
    ensures r.Some? ==> r.value.calculatorId == s.calculatorId.value && r.value.calculatorName == labelText
    ensures r.Some? ==> r.value.result == (if s.result.Some? then s.result.value else 0.0)
    ensures r.Some? ==> r.value.expression == (if s.expression.Some? then s.expression.value else "")
    ensures r.Some? ==> r.value.note == (if s.note.Some? then s.note.value else "")
  {
    if !TruthyId(s.calculatorId) then None
    else if !TruthyText(s.name) then None
    else Some(SaveRequest(s.calculatorId.value, labelText, OrZeroNullable(s.result), OrEmpty(s.expression), OrEmpty(s.note)))
  }

  /** The `App` component's own state and the selection store it drives. */
  class Shell {
    var history: seq<Crumb>
    var labelText: string
    const selection: SelectionStore

    ghost predicate Valid()
      reads this
    {
      NoAdjacentRepeat(history)
    }

    constructor (selection: SelectionStore)
      ensures this.selection == selection && Valid()
      ensures history == [] && labelText == OrEmpty(selection.selectedCalculatorName)
    {
      this.selection := selection;
      history := [];
      labelText := OrEmpty(selection.selectedCalculatorName);
    }

    /** `handleGoBack`: with at most one entry nothing happens; otherwise the
        last entry is dropped and the new last entry's id is selected. */
    method GoBack()
      requires Valid()
      modifies this, selection
      ensures Valid() && labelText == old(labelText)
      ensures |old(history)| <= 1 ==> history == old(history) && selection.Snapshot() == old(selection.Snapshot())
      ensures |old(history)| > 1 ==>
        history == old(history)[..|old(history)| - 1]
        && selection.Snapshot() == old(selection.Snapshot()).(calculatorId := Some(history[|history| - 1].id))
    {
      if |history| > 1 {
        var newHistory := history[..|history| - 1];
        PrefixNoAdjacentRepeat(history, |history| - 1);
        var last := newHistory[|newHistory| - 1];
        selection.SetSelectedCalculatorId(Some(last.id));
        history := newHistory;
      }
    }

    /** `handleBreadcrumbClick` on the entry at `position`: that entry's id is
        selected and the history is cut just after it. The clicked object
        comes from the rendered history, and every entry is a distinct
        object, so `indexOf` finds exactly its position. */
    method BreadcrumbClick(position: int)
      requires Valid() && 0 <= position < |history|
      modifies this, selection
      ensures Valid() && labelText == old(labelText)
      ensures history == old(history)[..position + 1]
      ensures selection.Snapshot() == old(selection.Snapshot()).(calculatorId := Some(old(history)[position].id))
    {
      var crumb := history[position];
      selection.SetSelectedCalculatorId(Some(crumb.id));
      PrefixNoAdjacentRepeat(history, position + 1);
      history := history[..position + 1];
    }

    /** The effect on the selected id and name: with a truthy id, push
        `{id, name || ""}` unless the last entry has that id. */
    method SelectionEffect()
      requires Valid()
      modifies this
      ensures Valid() && labelText == old(labelText)
      ensures !TruthyId(selection.selectedCalculatorId) ==> history == old(history)
      ensures TruthyId(selection.selectedCalculatorId) ==>
        history == PushIfNew(old(history),
                             Crumb(selection.selectedCalculatorId.value, OrEmpty(selection.selectedCalculatorName)))
    {
      var id := selection.selectedCalculatorId;
      if id.Some? && id.value != 0 {
        var name := selection.selectedCalculatorName;
        var text := if name.Some? && name.value != "" then name.value else "";
        history := PushIfNew(history, Crumb(id.value, text));
      }
    }

    /** The effect on the selected name: the label follows it. */
    method LabelEffect()
      requires Valid()
      modifies this
      ensures Valid() && history == old(history)
      ensures labelText == OrEmpty(selection.selectedCalculatorName)
    {
      var name := selection.selectedCalculatorName;
      labelText := if name.Some? && name.value != "" then name.value else "";
    }

    /** The effect on the team, the project and the toggle: history emptied. */
    method ResetEffect()
      modifies this
      ensures Valid() && history == [] && labelText == old(labelText)
    {
      history := [];
    }

    /** `onSave` of the editable label: `setLabel`. */
    method SetLabel(text: string)
      requires Valid()
      modifies this
      ensures Valid() && history == old(history) && labelText == text
    {
      labelText := text;
    }

    method HandleSave() returns (request: Option<SaveRequest>)
      ensures request == SaveRequestFor(selection.Snapshot(), labelText)
    {
      var id := selection.selectedCalculatorId;
      var name := selection.selectedCalculatorName;
      if id.None? || id.value == 0 {
        return None;
      }
      if name.None? || name.value == "" {
        return None;
      }
      var result := selection.selectedCalculatorResult;
      var expression := selection.selectedCalculatorExpression;
      var note := selection.selectedCalculatorNote;
      request := Some(SaveRequest(id.value, labelText,
                                  if result.Some? then result.value else 0.0,
                                  if expression.Some? then expression.value else "",
                                  if note.Some? then note.value else ""));
    }
  }
}
