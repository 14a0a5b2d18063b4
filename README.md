# Pricing calculator: a Dafny model of the recompute engine and its helpers

The pricing calculator keeps, for each project, a hierarchy of calculators.
Each calculator has variables (name, display name, value), an optional
mathjs expression and the last computed result. Nested calculators feed
their results into their parent's expression under their own names. This
project models the client-side core of that program:

- **The hierarchy view** (`viewbody.dfy`). Changing a variable deep-copies the
  tree, finds the calculator by breadth-first search and rewrites the
  variable. `updateCalculations` then indexes the tree by depth-first search
  and walks from the changed calculator up through its ancestors. At each
  ancestor it builds a scope from the variables and the children's results,
  evaluates the expression and stores the result. The view also keeps a
  breadth-first list of calculators for the picker.
- **The shared helpers** (`utils.dfy`, `bfs.dfy`): `parseCalculatorVariables`
  and `traverseCalculatorBFS`, with a breadth-first search invariant shared
  with the view's search.
- **The expression editor's scope and outcome** (`mathpane.dfy`).
- **The global stores** (`store.dfy`): team, selection, variables and toggle.
- **The breadcrumb history and save action** (`app.dfy`).
- **The identifier-safe name formatter** (`formatting.dfy`). It is used by:
  - the editable label (`editablelabel.dfy`);
  - the variable form (`variableform.dfy`);
  - the two calculator forms (`calculatorform.dfy`, `editform.dfy`).
- **The single-variable editor** (`variableview.dfy`).

How the model is built:

- **The tree.** The nested JSON tree is an arena `map<int, Node>` with a
  root id. Children are lists of ids. A ghost `rank` map (each node's depth)
  witnesses that parent links are acyclic. `Hierarchy.WellFormed` states
  what the server's nested tree guarantees.
- **Foreign calls are parameters:**
  - `JSON.parse` of a variables list is a `Decoder` (`None` = it throws);
  - mathjs `evaluate` is an `Evaluator` over real-valued scopes (`None` = it throws).
- **Exceptions.** An exception that escapes a handler makes the operation
  return `Threw` (`Attempt`) and leave the state unchanged.
- **Component state.** Each component's and store's state is a class whose
  methods are the handlers and effects. Each method's `ensures` ties the new
  state to a pure function, and lemmas state the properties of those
  functions.

The main results are about `updateCalculations`:

- **The walk.** It visits exactly the ancestor chain of the changed
  calculator (`Hierarchy.Chain`). On a well-formed tree that chain is the
  path to the root, of length depth + 1 (`ChainIsDepth`, `ChainBounds`).
- **What changes.** Only the `result` fields of calculators on the chain can
  change (`ViewBody.Recompute`).
- **Bottom-up order.** Each ancestor is evaluated in a scope that already
  holds its child's freshly computed result (`ViewBody.RecomputeSettles`).
- **The index.** The depth-first index holds exactly the tree's calculators
  (`ViewBody.DescRootIsAll`).
- **The `[null]` encoding.** The server encodes a calculator without
  variables as `[null]` (src/server/server.js:264-271). That makes the
  view's scope construction throw, so the result is kept
  (`ViewBody.NullEncodingThrows`). The editor pane and the variable view
  guard against it.

## Model

| member | source | states |
|---|---|---|
| Hierarchy.Chain | src/components/view/viewBody.tsx:126-128 | the walk starts at the calculator, each next element is the current one's truthy, present parent, and it stops at a calculator without one; depths strictly decrease along it |
| Hierarchy.ChainBounds | src/components/view/viewBody.tsx:88-129 | the walk never revisits a calculator and has at most depth + 1 elements, so the `while (current)` loop terminates |
| Hierarchy.ChainIsDepth | src/components/view/viewBody.tsx:126-128 | on a well-formed tree the walk from a calculator has exactly depth + 1 elements and its last element is the root |
| Hierarchy.ChainReachesRoot | src/components/view/viewBody.tsx:126-128 | every calculator's walk passes through the root |
| Hierarchy.ChainSameParents | src/components/view/viewBody.tsx:150-181 | rewriting variables does not change any parent link, so the walk is the same in the copied tree and in the original |
| Hierarchy.SetValue | src/components/view/viewBody.tsx:164-168 | the map throws exactly when an entry is null; otherwise length, order, ids, names and displays are kept and exactly the entries with the matching id get the new value |
| Hierarchy.WellFormedSameStructure | src/components/view/viewBody.tsx:164-170 | changing only variables and results keeps a tree well formed |
| Scope.AssignLookup | src/components/view/viewBody.tsx:99-107 | a name is bound after the writes iff it was bound before or some entry writes it, and then its value is the last such entry's value |
| Scope.AssignAppend | src/components/view/viewBody.tsx:99-110 | writing two entry lists in turn is writing their concatenation |
| Scope.LaterListWins | src/components/view/viewBody.tsx:105-108 | a name written by the later list takes that list's value whatever the earlier list held; otherwise the earlier binding stays |
| ViewBody.VarEntries | src/components/view/viewBody.tsx:99-101 | the variable entries exist iff no entry is null, and then there is one (name, value) pair per variable, in order |
| ViewBody.ChildEntries | src/components/view/viewBody.tsx:104-109 | children contribute at most one entry each, and every entry comes from some child |
| ViewBody.ChildEntriesMembers | src/components/view/viewBody.tsx:104-109 | every child whose result is not undefined contributes its name with its result (null as 0), and every entry comes from such a child |
| ViewBody.ChildEntriesLast | src/components/view/viewBody.tsx:104-109 | the entries are written in children order: the last child with a defined result under a name supplies that name's last entry |
| ViewBody.ViewScope | src/components/view/viewBody.tsx:93-110 | the scope fails exactly when the variables are missing, fail to parse or hold a null entry |
| ViewBody.ViewScopeLookup | src/components/view/viewBody.tsx:99-110 | a name is bound by its last child entry if there is one (a child result that is not undefined, null as 0), else by its last variable; a child overrides a same-named variable |
| ViewBody.ViewScopeChild | src/components/view/viewBody.tsx:99-110 | a child with a defined result binds its name to that result (null as 0) in the scope, unless a later child with a defined result has the same name; this holds even over a same-named variable |
| ViewBody.NullEncodingThrows | src/components/view/viewBody.tsx:99-101 | a calculator whose variables are the `[null]` encoding gets no scope, so its evaluation throws |
| ViewBody.BuildViewScope | src/components/view/viewBody.tsx:99-110 | the loops that build the scope produce the scope function's value, failures included |
| ViewBody.Step | src/components/view/viewBody.tsx:90-122 | one iteration changes only the visited calculator's result; it is the evaluated value when the expression is truthy and neither scope nor evaluation throws, and the old result otherwise |
| ViewBody.StepAllOnlyResults | src/components/view/viewBody.tsx:89-129 | a sequence of iterations changes only results, only of visited calculators, and never of calculators with a null or empty expression |
| ViewBody.Recompute | src/components/view/viewBody.tsx:88-129 | an unknown id changes nothing; the structure is kept; only results change, only on the walk, and never where the expression is null or empty |
| ViewBody.TryEvaluateAgrees | src/components/view/viewBody.tsx:99-115 | a calculator's evaluation depends only on its own variables, children and expression and on its children's names and results |
| ViewBody.RecomputeSettles | src/components/view/viewBody.tsx:105-114 | the recomputed result of the i-th calculator on the walk is the evaluation in the tree where the calculators below it on the walk have already been recomputed, so children's fresh results are seen |
| ViewBody.RecomputeSettlesAt | src/components/view/viewBody.tsx:105-114 | the same, for a calculator named by id rather than by position |
| ViewBody.DescSplit | src/components/view/viewBody.tsx:80-84 | what lies below a calculator is the calculator itself plus what lies below each of its children |
| ViewBody.IndexDfs | src/components/view/viewBody.tsx:80-85 | the recursive traversal adds exactly the calculator and everything below it to the index |
| ViewBody.DescRootIsAll | src/components/view/viewBody.tsx:77-85 | the index built from the root holds every calculator of the tree and nothing else |
| ViewBody.EvaluateAt | src/components/view/viewBody.tsx:90-122 | the body of one iteration (guard, scope, evaluation, catch) is one step of the specification |
| ViewBody.WalkTurn | src/components/view/viewBody.tsx:89-128 | one turn of the loop extends the iterations done so far by the next calculator on the walk, and the parent test moves to the calculator after it on the walk, or stops at its end |
| ViewBody.WalkLink | src/components/view/viewBody.tsx:125-128 | following a truthy, indexed parent id from the calculator at a position of the walk gives the next position's calculator, and nothing past the last one |
| ViewBody.Walk | src/components/view/viewBody.tsx:88-129 | the `while (current)` loop leaves the tree as the specified recompute |
| ViewBody.UpdateCalculations | src/components/view/viewBody.tsx:73-133 | the result is the recomputed tree, and the selected calculator is the changed id's recomputed node, or none for an unknown id |
| ViewBody.WithVariable | src/components/view/viewBody.tsx:153-172 | an unknown id changes nothing; the update throws exactly when the variables fail to parse or hold a null entry; otherwise only that calculator's variables change, to the list with the new value |
| ViewBody.SetVariableInTree | src/components/view/viewBody.tsx:151-178 | the breadth-first search with its early `break` performs exactly that update |
| ViewBody.FirstWithId | src/components/view/viewBody.tsx:192-199 | the position `find` stops at holds the id, and no earlier position does; -1 means no position does |
| ViewBody.Body.constructor | src/components/view/viewBody.tsx:35-42 | no selection, no calculator list, no local tree |
| ViewBody.Body.ReceiveHierarchy | src/components/view/viewBody.tsx:53-57 | a tree that arrived becomes the local copy; with no data nothing changes |
| ViewBody.Body.RefreshList | src/components/view/viewBody.tsx:60-64 | without a tree nothing changes; otherwise the list is the parsed breadth-first listing, or, when parsing throws, the old list is kept |
| ViewBody.Body.SelectFromList | src/components/view/viewBody.tsx:192-199 | the selection becomes the first listed calculator with the chosen id, or none |
| ViewBody.Body.HandleVariableChange | src/components/view/viewBody.tsx:142-183 | the picker's list is never touched; without a tree nothing happens; a throwing update leaves the state untouched; otherwise the new tree is the updated copy recomputed along the original walk, with the changed calculator selected |
| Breadth.BfsInit | src/lib/utils.ts:42 | the queue holding only the root satisfies the search invariant |
| Breadth.BfsStep | src/lib/utils.ts:45-51 | taking the front and queueing its children keeps the invariant: the output is the root followed by the children of everything taken, with no repeats, parents first and depths non-decreasing |
| Breadth.BfsDone | src/lib/utils.ts:45-53 | when the queue empties every calculator has been emitted exactly once, root first, parents before children, siblings in stored order, level by level |
| Utils.ParseCalculatorVariables | src/lib/utils.ts:21-31 | null stays null; a missing, empty or already parsed field returns the calculator unchanged; parsing throws exactly when the text fails to parse; otherwise only `variables` changes, to the parsed list |
| Utils.ParseIdempotent | src/lib/utils.ts:21-31 | normalising an already normalised calculator changes nothing |
| Utils.ParseAll | src/lib/utils.ts:50 | the children's map throws iff some child's parse throws; otherwise it is the parsed children in order |
| Utils.TraverseCalculatorBfs | src/lib/utils.ts:39-54 | null gives no list; it throws iff some calculator's variables fail to parse; otherwise it is the breadth-first listing, each calculator parsed |
| MathPane.VarPairsMembers | src/components/body/math/math.tsx:65-69 | every non-null variable contributes its (name, value) pair and every pair comes from one |
| MathPane.NestedPairsMembers | src/components/body/math/math.tsx:73-79 | every nested calculator with a non-empty name contributes its result (null or undefined as 0) and every pair comes from one |
| MathPane.VarPairsOfNulls | src/components/body/math/math.tsx:60-64 | an all-null variable list contributes nothing |
| MathPane.GuardsAreRedundant | src/components/body/math/math.tsx:60-79 | the emptiness guards around the two loops do not change the scope |
| MathPane.EditorScopeLookup | src/components/body/math/math.tsx:65-79 | a name is bound by its last nested entry if there is one, else by its last variable; nested calculators override variables |
| MathPane.WriteVariables | src/components/body/math/math.tsx:65-69 | the variable loop writes the variable pairs in order |
| MathPane.WriteNested | src/components/body/math/math.tsx:74-78 | the nested loop writes the nested pairs in order |
| MathPane.BuildEditorScope | src/components/body/math/math.tsx:56-81 | the effect's loops build the editor scope: variables first, then nested results |
| MathPane.EditorAgreesWithView | src/components/body/math/math.tsx:56-81 | on data without null variables and with named, defined children, the editor's scope is the one the recompute engine uses |
| MathPane.Pane.constructor | src/components/body/math/math.tsx:33-35 | empty scope, nothing displayed |
| MathPane.Pane.RefreshScope | src/components/body/math/math.tsx:56-81 | the scope becomes the editor scope of the current variables and nested calculators |
| MathPane.Pane.HandleChange | src/components/body/math/math.tsx:83-94 | the expression always reaches the store; on success the store result and the display are the value; on failure the display is "Invalid Expression" and the stored result is kept |
| Store.TeamStore.constructor | src/store/store.ts:13 | no team selected |
| Store.TeamStore.SetSelectedTeamId | src/store/store.ts:16 | the team id is the given one |
| Store.SelectProject | src/store/store.ts:53-55 | the project is set, the calculator id is cleared, and the other five fields stay as they were |
| Store.ResetIds | src/store/store.ts:88-90 | both ids are cleared and everything else stays; it is choosing no project |
| Store.SelectionStore.constructor | src/store/store.ts:44-50 | all seven fields start null |
| Store.SelectionStore.SetSelectedProjectId | src/store/store.ts:53-55 | the store moves as `SelectProject` says |
| Store.SelectionStore.SetSelectedCalculatorId | src/store/store.ts:58-60 | only the calculator id changes |
| Store.SelectionStore.SetSelectedParentCalculatorId | src/store/store.ts:63-65 | only the parent id changes |
| Store.SelectionStore.SetSelectedCalculatorName | src/store/store.ts:68-70 | only the name changes |
| Store.SelectionStore.SetSelectedCalculatorResult | src/store/store.ts:73-75 | only the result changes |
| Store.SelectionStore.SetSelectedCalculatorExpression | src/store/store.ts:78-80 | only the expression changes |
| Store.SelectionStore.SetSelectedCalculatorNote | src/store/store.ts:83-85 | only the note changes |
| Store.SelectionStore.ResetSelection | src/store/store.ts:88-90 | the store moves as `ResetIds` says |
| Store.Appended | src/store/store.ts:116-119 | the list grows by one, keeps the old list (or nothing, for null) as its prefix and ends with the new variable |
| Store.VariableStore.constructor | src/store/store.ts:104 | the variables start null |
| Store.VariableStore.SetVariables | src/store/store.ts:107-113 | a list is stored unchanged; a text is parsed, and when parsing throws the store is kept |
| Store.VariableStore.AddVariable | src/store/store.ts:116-119 | the list becomes the appended list |
| Store.VariableStore.ResetVariables | src/store/store.ts:122-125 | the list becomes empty, not null |
| Store.ToggleStore.constructor | src/store/store.ts:137 | the flag starts false |
| Store.ToggleStore.SetToggle | src/store/store.ts:140 | the flag is negated, so two calls restore it |
| App.PushIfNew | src/App.tsx:101-109 | the old history is a prefix, one entry is added iff the history is empty or its last id differs, the last id is the new id, and no two neighbours share an id afterwards if none did before |
| App.PrefixNoAdjacentRepeat | src/App.tsx:66-69 | cutting the history (going back, clicking a crumb) keeps neighbouring ids distinct |
| App.SaveRequestFor | src/App.tsx:78-88 | nothing is sent iff the selected id or name is falsy; otherwise the request carries the id and the label, with result defaulted to 0 and expression and note to "" |
| App.Shell.constructor | src/App.tsx:29-31 | empty history; the label is the selected name or "" |
| App.Shell.GoBack | src/App.tsx:64-75 | with at most one entry nothing changes; otherwise exactly the last entry is dropped and the new last entry's id is selected |
| App.Shell.BreadcrumbClick | src/App.tsx:91-96 | the history is cut just after the clicked entry and that entry's id is selected |
| App.Shell.SelectionEffect | src/App.tsx:99-111 | with a falsy id nothing changes; otherwise the history becomes `PushIfNew` of the selected id and name |
| App.Shell.LabelEffect | src/App.tsx:114-116 | the label follows the selected name |
| App.Shell.ResetEffect | src/App.tsx:119-121 | the history is emptied |
| App.Shell.SetLabel | src/App.tsx:167 | the label is the saved text; the history stays |
| App.Shell.HandleSave | src/App.tsx:78-88 | the request sent is the one `SaveRequestFor` gives for the current selection and label |
| Formatting.Blank | src/components/ui/editable-label.tsx:25 | same length; every character is a word character or a space |
| Formatting.Split | src/components/ui/editable-label.tsx:26 | at least one word and no word contains a space |
| Formatting.SplitJoin | src/components/ui/editable-label.tsx:26 | joining the words with spaces gives the input back |
| Formatting.CapitalizeAll | src/components/ui/editable-label.tsx:27 | one word out per word in |
| Formatting.Trim | src/components/ui/editable-label.tsx:30 | the result is the input with its leading and trailing whitespace removed: it starts after the leading whitespace, only whitespace follows it, and it neither starts nor ends with whitespace |
| Formatting.FormatIsPascal | src/components/ui/editable-label.tsx:24-28 | the formatter as written equals the reference scan: the word characters in order, the first of each run upper-cased |
| Formatting.FormatShape | src/components/ui/editable-label.tsx:24-28 | the formatted name holds only letters, digits and `_`, one per word character of the input, and is the input's word characters up to case |
| Formatting.FormatIdempotent | src/components/ui/editable-label.tsx:24-31 | formatting twice is formatting once |
| Formatting.FormatTrimmed | src/components/ui/editable-label.tsx:24-31 | the `.trim()` after formatting changes nothing |
| Formatting.Rewrite | src/components/body/calculator/calculatorForm.tsx:53-64 | the rewritten name holds only letters, digits and `_`, one per word character of the watched name |
| Formatting.RewriteSettles | src/components/body/calculator/calculatorForm.tsx:53-64 | rewriting the rewritten name changes nothing, so the effect settles after one `setValue` |
| EditableLabel.BlurSave | src/components/ui/editable-label.tsx:21-33 | `onSave` is called iff the formatted value differs from the text, and then with the formatted value, which holds only word characters |
| EditableLabel.Label.constructor | src/components/ui/editable-label.tsx:9-10 | the buffer starts as the text, not editing |
| EditableLabel.Label.SyncText | src/components/ui/editable-label.tsx:12-14 | a new text resets the edit buffer to it |
| EditableLabel.Label.DoubleClick | src/components/ui/editable-label.tsx:16 | double-click enters edit mode |
| EditableLabel.Label.Change | src/components/ui/editable-label.tsx:18-19 | typing replaces the buffer |
| EditableLabel.Label.Blur | src/components/ui/editable-label.tsx:21-33 | blur leaves edit mode and saves as `BlurSave` says |
| EditableLabel.Label.KeyDown | src/components/ui/editable-label.tsx:35-39 | Enter behaves as blur; any other key changes nothing and saves nothing |
| VariableForm.DerivedName | src/components/body/variables/variableForm.tsx:54-65 | with an empty display the name stays; otherwise it is regenerated, holds only word characters, one per word character of the display, and is a fixed point of the formatter |
| VariableForm.Dialog.constructor | src/components/body/variables/variableForm.tsx:38-45 | the fields start as the existing variable's, or empty with value 0 |
| VariableForm.Dialog.DisplayEffect | src/components/body/variables/variableForm.tsx:54-65 | only the name changes, to the derived name |
| VariableForm.Dialog.Edit | src/components/body/variables/variableForm.tsx:94-101 | the fields become the typed ones |
| VariableForm.Dialog.Submit | src/components/body/variables/variableForm.tsx:67-86 | an existing variable with an id is updated with the form's fields; one without an id sends nothing; with no variable one is created under the selected calculator; the dialog is closed every time |
| CalculatorForm.Dialog.constructor | src/components/body/calculator/calculatorForm.tsx:42-49 | empty name, open dialog |
| CalculatorForm.Dialog.Edit | src/components/body/calculator/calculatorForm.tsx:88-92 | the name becomes the typed one |
| CalculatorForm.Dialog.NameEffect | src/components/body/calculator/calculatorForm.tsx:53-64 | the name is rewritten to its identifier-safe form |
| CalculatorForm.Dialog.Submit | src/components/body/calculator/calculatorForm.tsx:66-78 | with default values nothing is sent; otherwise a calculator is created with the selected project and the selected calculator as parent; the dialog is closed every time |
| EditForm.Dialog.constructor | src/components/body/calculator/editForm.tsx:36-42 | the name starts as the edited calculator's, or empty |
| EditForm.Dialog.Edit | src/components/body/calculator/editForm.tsx:79-83 | the name becomes the typed one |
| EditForm.Dialog.NameEffect | src/components/body/calculator/editForm.tsx:47-58 | the name is rewritten to its identifier-safe form |
| EditForm.Dialog.Submit | src/components/body/calculator/editForm.tsx:60-68 | without default values nothing is sent; otherwise only the id and the new name are sent; the dialog is closed every time |
| VariableView.ChangeVariable | src/components/view/variableView.tsx:31-46 | with no local calculator nothing happens; otherwise it throws iff the variables are not a list or hold a null entry; on success only the matching variables change, order and length are kept, and the callback gets the calculator id, the variable id and the value |
| VariableView.LocalAgreesWithTree | src/components/view/variableView.tsx:35-39 | the local update gives the same variables as the view's update of the tree |
| VariableView.Present | src/components/view/variableView.tsx:63-64 | the entries of a list exist iff none is null, one per entry, in order |
| VariableView.Renders | src/components/view/variableView.tsx:49-87 | nothing is shown iff there is no calculator or its variables are the `[null]` encoding. An empty list or empty text shows the note. A non-empty list without nulls shows one input per variable, in order. The render throws exactly for a missing field, a non-empty text (it has no `.map`) and a list other than `[null]` holding a null entry |
| VariableView.HiddenMeansNoScope | src/components/view/variableView.tsx:49-55 | a calculator the view hides is one the recompute engine cannot evaluate |

## Left out

- The server (src/server/server.js, src/server/db.js) and the API layer are I/O. The hierarchy query is not modelled: the tree it returns is the model's input, with its shape stated by `Hierarchy.WellFormed`.
- mathjs `evaluate` is a parameter (`Evaluator`) from real-valued scopes to an optional real. Floating-point arithmetic, NaN and non-number results (such as `undefined` for an empty expression) are not modelled. Nor is `JSON.stringify` turning NaN, Infinity and -Infinity into `null` during the deep copy; mathjs gives Infinity for an expression such as `1/0`, so such a result would come back as `null` in the copied tree.
- `JSON.parse` of a variables text is a parameter (`Decoder`). JSON text that parses to something other than a list of variables is not modelled.
- The deep copy in `handleVariableChange` is value semantics. The server's nested tree shares no objects, so each calculator is one arena entry. The "shared node objects" that make children's fresh results visible to parents are captured by the arena itself (`ViewBody.RecomputeSettles`).
- ViewBody.SetVariableInTree: "only the first breadth-first match is edited" is stated for a well-formed tree, where ids are unique, so the first match is the calculator stored under that id.
- `parseInt` of the picker's value and `parseFloat` of typed input: the model takes the number.
- `console.error` in the catch block is not modelled; the catch only keeps the old result.
- React scheduling: effects are methods the caller invokes after the change they watch. The model does not cover render timing, the query cache, or data arriving between effects.
- Formatting.ToUpper: `toUpperCase` is modelled for ASCII letters only; only `[A-Za-z0-9_]` characters ever reach it.
- App.Shell.BreadcrumbClick: `indexOf` on the clicked object is modelled as the clicked position. The rendered entries are distinct objects, so `indexOf` returns that position.
- VariableForm.Dialog.Submit: the component only calls `onSubmit` with a selected calculator (the form's guard), so a truthy selected id is a precondition.
- CalculatorForm.Dialog.constructor: the form's default `project_id` 0 and `parent_calculator_id` 1 are never submitted (the create request takes the selected ids), so they are not modelled.
- The zod schemas, the rich-text editor, the sidebar, layout and dialog components, and the window-size hook are outside the core.
