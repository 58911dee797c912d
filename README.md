# Task list widget: a Dafny model of its task store

The widget is a single-page to-do list (script.js). The page keeps two
globals. `tasks` is an ordered array of `{id, text, completed}` records.
`currentFilter` is one of `all`, `pending` or `completed`. Handlers change
them as follows:

- a form submit adds a task, unless the input is blank;
- a delegated click handler on the list toggles, edits (after a `prompt`) or
  deletes (after a `confirm`) the task whose item was clicked;
- the filter buttons set the filter.

After each change, `renderTasks` redraws the tasks that the filter lets
through.

The model has six modules:

- `Wrappers` holds `Option`, which stands for what `prompt` returns (`None`
  for null).
- `Text` holds `String.prototype.trim` as ECMAScript defines it: WhiteSpace
  and LineTerminator code points are stripped from both ends.
- `Arrays` holds `Array.prototype.filter` and `Array.prototype.findIndex`
  as pure functions on sequences.
- `Tasks` holds the task record and the filter predicate. It also holds
  `Toggled`, `Edited` and `Without`, the stores that `toggleCompleteTask`,
  `editTask` and `deleteTask` produce, with their lemmas.
- `View` holds the class attribute and button caption that
  `createTaskElement` picks, plus the rendered rows.
- `Page` holds the events and the pure `Step` function for one handled
  event. Its class `TaskList` keeps `tasks` and `currentFilter` as fields
  and updates them in place. The store methods are proved against the
  `Tasks` functions (`AddTask` against `NewTask`), and `RenderTasks`
  against `VisibleTasks`. `Handle` ties every handler to `Step`.

Ids are integers passed in with each event, where the page calls
`Date.now()`. Nothing in script.js keeps ids distinct, and the model does not
assume it. Lemmas that need distinct ids say so in their hypotheses.

Two points of the code are easy to misread:

- The comment at script.js:61 calls the id unique, but it is `Date.now()`,
  so two tasks added in the same millisecond share an id. Toggle and edit
  then reach only the first of them, and delete removes all of them.
  `WithoutDropsAllMatches` and `DeleteUniqueRemovesOne` state both cases.
- `addTask` and `editTask` accept any text. The blank-text checks sit in the
  handlers (script.js:110 and script.js:136), and the model keeps them in
  `OnSubmit` and `OnListClick`.

## Model

| member | source | states |
|---|---|---|
| Text.IsWhiteSpace | script.js:62 | definition: the WhiteSpace and LineTerminator code points that `trim()` strips; characterised through `Trim` and `TrimScenario` |
| Text.Trim | script.js:62 | `trim()` yields the empty string exactly when the input is all white space; otherwise the result starts and ends with a non-blank |
| Text.TrimStart | script.js:62 | the leading pass of `trim()`: a suffix of the input that starts with a non-blank, with only white space before it |
| Text.TrimEnd | script.js:62 | the trailing pass of `trim()`: a prefix of the input that ends with a non-blank, with only white space after it |
| Text.TrimCharacterised | script.js:62 | a white prefix, then a middle framed by non-blanks, then a white suffix: `trim()` returns exactly that middle |
| Text.TrimIdempotent | script.js:62 | trimming an already trimmed text changes nothing, so `addTask` and `editTask` store texts that are stable under `trim()` |
| Text.TrimScenario | script.js:62 | `" \t Buy milk\n".trim()` is `"Buy milk"` |
| Arrays.Filter | script.js:43-47 | `filter` returns no more elements than it gets, and keeps exactly the elements that pass the predicate |
| Arrays.FindIndex | script.js:75 | `findIndex` returns the first index whose element passes, or -1 exactly when none passes |
| Arrays.FilterIsSubsequence | script.js:43-47 | the filtered array is a subsequence of the input: survivors keep their relative order |
| Arrays.FilterAppend | script.js:43-47 | filtering a concatenation is the concatenation of the filtered parts |
| Arrays.FilterKeepsAll | script.js:46 | when every element passes, `filter` returns the input unchanged |
| Arrays.FilterDropsAll | script.js:100 | when no element passes, `filter` returns the empty array |
| Arrays.FilterIdempotent | script.js:43-47 | filtering twice with the same predicate is filtering once |
| Arrays.FilterPartition | script.js:43-47 | a predicate and its negation split the input: as multisets the two results add up to it, and so do their lengths |
| Arrays.FindIndexCongruent | script.js:75 | two arrays whose elements pass or fail alike have the same `findIndex` result |
| Tasks.NewTask | script.js:60-64 | definition of the record `addTask` builds; it carries the given id, starts open, and its text is empty exactly when the input is blank and is stable under `trim()`; characterised by `SubmitAppendsOne` |
| Tasks.Shows | script.js:43-47 | definition of the filter callback; a task is hidden exactly when the filter is "pending" and the task is done, or "completed" and the task is open; characterised by `FilterPendingCompleted` and `FilterOtherShowsAll` |
| Tasks.VisibleTasks | script.js:43-47 | definition of `filteredTasks`: exactly the tasks the filter shows, in store order; characterised by `FilterPendingCompleted` and `FilterOtherShowsAll` |
| Tasks.IndexOf | script.js:75 | definition of the `findIndex` lookup by id used at lines 75 and 88: -1 or an index holding a task with that id; characterised by `IndexOfFirstMatch` |
| Tasks.Toggled | script.js:74-80 | definition of the store after `toggleCompleteTask`, of the same length; characterised by `ToggledFlipsFirstMatch` and `ToggleTwice` |
| Tasks.Edited | script.js:87-93 | definition of the store after `editTask`, of the same length; characterised by `EditedRewritesFirstMatch` and `EditTwice` |
| Tasks.Without | script.js:100 | definition of the store after `deleteTask`: no longer than before, and holding exactly the tasks whose id differs; characterised by `WithoutDropsAllMatches` |
| Tasks.FilterPendingCompleted | script.js:43-45 | "pending" shows exactly the open tasks and "completed" exactly the done ones, each in store order; together they account for every task once |
| Tasks.FilterOtherShowsAll | script.js:43-47 | "all", and every other value that is neither "pending" nor "completed", shows the whole store unchanged |
| Tasks.FilterIdempotentOnTasks | script.js:43-47 | filtering the visible list again with the same filter changes nothing |
| Tasks.FilterFollowsStoreOrder | script.js:43-47 | the visible list of `front + back` is the visible list of `front` followed by that of `back` |
| Tasks.FilterScenarioCompleted | script.js:43-47 | for an open task A and a done task B under "completed", only B is shown |
| Tasks.IndexOfFirstMatch | script.js:75 | the index lookup is -1 exactly for an unknown id, and otherwise the position of the first task with that id |
| Tasks.ToggledFlipsFirstMatch | script.js:74-80 | toggling flips `completed` on the first task with the id and on no other; length, order, ids and texts are unchanged |
| Tasks.ToggleUnknownIsNoop | script.js:74-80 | toggling an id that no task has leaves the store unchanged |
| Tasks.ToggleTwice | script.js:74-80 | toggling the same id twice restores the original store |
| Tasks.ToggleScenario | script.js:74-80 | toggling id 1 in `[{1, "Buy milk", open}]` gives `[{1, "Buy milk", done}]` |
| Tasks.EditedRewritesFirstMatch | script.js:87-93 | editing sets the first matching task's text to the trimmed new text; all ids and flags, every other text, and the length are unchanged |
| Tasks.EditUnknownIsNoop | script.js:87-93 | editing an id that no task has leaves the store unchanged |
| Tasks.EditTwice | script.js:87-93 | of two edits of the same id, only the second one shows |
| Tasks.EditedKeepsIds | script.js:87-93 | editing keeps the length and every task's id |
| Tasks.WithoutDropsAllMatches | script.js:99-100 | delete keeps exactly the tasks with a different id, in their order; the store shrinks by the number of matches, and survivors plus matches are the old store |
| Tasks.DeleteUnknownIsNoop | script.js:99-100 | deleting an id that no task has leaves the store unchanged |
| Tasks.AtMostOneMatch | script.js:99-100 | with distinct ids, at most one task matches an id |
| Tasks.DeleteUniqueRemovesOne | script.js:99-100 | with distinct ids, deleting an id that is present removes exactly one task |
| Tasks.UniqueIdsTail | script.js:61 | after the first task of a store with distinct ids, the ids are still distinct and none equals the first task's id |
| Tasks.AppendKeepsIdsUnique | script.js:61-65 | pushing a task whose id no task has keeps ids distinct |
| Tasks.PrependKeepsIdsUnique | script.js:61 | a task whose id differs from every id of a store with distinct ids can be put in front, and the ids stay distinct |
| Tasks.WithoutKeepsIdsUnique | script.js:99-100 | deleting keeps distinct ids distinct |
| Tasks.ToggledKeepsTextsTrimmed | script.js:74-80 | toggling keeps every text non-blank and trimmed |
| Tasks.EditedKeepsTextsTrimmed | script.js:87-93 | an edit with non-blank text keeps every text non-blank and trimmed |
| Tasks.AppendKeepsTextsTrimmed | script.js:65 | appending a task with non-blank, trimmed text keeps every text non-blank and trimmed |
| View.ItemClass | script.js:19 | definition of the item's class attribute; characterised by `CompletedClass` |
| View.ButtonLabel | script.js:27 | definition of the complete button's caption, always "Desfazer" or "Concluir"; characterised by `LabelMatchesState` |
| View.Render | script.js:49-52 | definition of the rows `renderTasks` appends, one per visible task with its id; characterised by `RenderShowsVisibleTasks` |
| View.RowOf | script.js:17-34 | definition of the data `createTaskElement` puts on an item: id, text, class attribute, caption; characterised by `RenderShowsVisibleTasks` |
| View.CompletedClass | script.js:19 | the item's class list contains `completed` exactly when the task is done, and always contains `task-item` |
| View.LabelMatchesState | script.js:27 | the complete button reads "Desfazer" exactly for a done task and "Concluir" exactly for an open one |
| View.TokenLength | script.js:19 | the first token of a class attribute runs up to the first ASCII space |
| View.TokensOfWord | script.js:19 | a space-free word followed by a space or by nothing is the first token of the class attribute |
| View.RenderShowsVisibleTasks | script.js:43-52 | each visible task gets one row, in order, with its id and text; the row has the `completed` class and "Desfazer" exactly when the task is done |
| Page.Step | script.js:108-161 | definition of the page state after one handled event; only a filter click changes the filter, and it leaves the tasks alone; characterised by `GuardsBlockMutation`, `CompleteClickToggles`, `EditReplyEdits`, `ConfirmedDeleteDeletes`, `SubmitAppendsOne` and the invariant lemmas |
| Page.TaskList.constructor | script.js:8-9 | the page starts with no tasks and the "all" filter |
| Page.TaskList.AddTask | script.js:59-65 | appends one open task with the given id and the trimmed text; earlier tasks and the filter are unchanged |
| Page.TaskList.ToggleCompleteTask | script.js:74-80 | the new store is `Toggled` of the old one; the filter is unchanged |
| Page.TaskList.EditTask | script.js:87-93 | the new store is `Edited` of the old one; the filter is unchanged |
| Page.TaskList.DeleteTask | script.js:99-101 | the new store is `Without` of the old one; the filter is unchanged |
| Page.TaskList.OnSubmit | script.js:108-113 | a blank input leaves the store unchanged; any other input appends one open task with the trimmed text |
| Page.TaskList.OnListClick | script.js:118-145 | the new page state is `Step` of the old one for this click |
| Page.TaskList.OnFilterClick | script.js:150-160 | the filter becomes the clicked button's value and the tasks are unchanged |
| Page.TaskList.Handle | script.js:108-161 | any event takes the page state to `Step` of the old state |
| Page.TaskList.RenderTasks | script.js:39-53 | the rendered rows match the visible tasks one for one and in order; it changes nothing |
| Page.GuardsBlockMutation | script.js:108-145 | a blank submit, a cancelled or blank edit, an unconfirmed delete, or a click outside an item or beside the buttons changes nothing; only a filter click changes the filter, and it leaves the tasks alone |
| Page.CompleteClickToggles | script.js:128-130 | a click on the complete button of an item toggles that task |
| Page.EditReplyEdits | script.js:131-138 | a non-blank reply to the edit prompt edits that task with the reply |
| Page.ConfirmedDeleteDeletes | script.js:139-143 | a confirmed delete deletes that task |
| Page.BlankSubmitScenario | script.js:110-112 | submitting two spaces to an empty page leaves it empty |
| Page.SubmitAppendsOne | script.js:108-113 | a non-blank submit adds exactly one task, at the end: the given id, not completed, with the trimmed input as text, which is non-blank and trimmed; earlier tasks are unchanged |
| Page.StepKeepsTextsTrimmed | script.js:108-145 | every handled event keeps all task texts non-blank and trimmed |
| Page.StepKeepsIdsUnique | script.js:61 | ids stay distinct under every event, provided each submit brings an id no task has yet |

## Left out

- DOM access and element construction are not modelled: `getElementById`, `querySelectorAll`, `createElement`, the `innerHTML` template, `appendChild` and clearing the list. Only the class attribute, the caption and the row data are kept.
- Event wiring, `preventDefault`, `closest`, the `classList` checks and `dataset` reads are replaced by the `Event` and `Action` datatypes. `Action` names the button that was hit. A target carrying several button classes is not modelled; the code would take the first of complete, edit and delete.
- The `prompt` and `confirm` dialogs are blocking browser calls. Their answers are parts of the event.
- `Date.now()` is a clock read. The id is a parameter, and collisions are allowed.
- `Number(taskItem.dataset.id)` converts a string to a floating-point number. Ids are plain integers here.
- Two UI-only effects are not modelled: clearing the input after an add, and moving the filter buttons' `active` class.
- Task text is inserted into the template without HTML escaping. That is a rendering concern outside the store and is not modelled.
- The re-render after each change is not repeated inside every method. `RenderTasks` gives what any redraw shows for the current state.
- Tasks are values here, but in JavaScript they are shared objects. Toggle and edit assign a field of the object that the array holds. No other live reference to a task survives a render, so aliasing changes nothing observable, and it is not modelled.
- Strings are sequences of Unicode scalar values here, while JavaScript strings are sequences of UTF-16 code units, so a lone surrogate cannot be represented. This does not change `trim()`: every WhiteSpace and LineTerminator code point lies in the Basic Multilingual Plane and is a single code unit.
