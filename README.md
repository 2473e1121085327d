# Phased Tasks Table — a Dafny model of the task list

This project models the task list of the Phased Tasks Table React application:
the state the `App` component keeps (the flat list of tasks, the creation
form, the row being edited, the expanded rows) and the handlers that replace
it, the helpers those handlers use (the duration in days between two dates,
the 12-hour date display, the `isDescendant` walk up the parent chain), the
depth-first order in which the table lists the tasks, and the nodes and edges
the graph view derives from the list.

The hierarchy lives only in each task's `parentTaskId`. It is modelled as
`Parent = NoParent | Str(s)`, so the empty string stays distinct from `null`,
as it is to the table's loose `==` test.

Modules, one per file:

- `Optional` (`optional.dfy`): the `Option` type, for a lookup that may find nothing, a date that may not parse and an empty state slot.
- `JsText` (`js_text.dfy`) holds the JavaScript string behaviour the handlers rely on:
  - the `\s` class, which `trim` shares;
  - the letter and digit filters;
  - ASCII `toLowerCase` and `includes`;
  - number-to-string conversion and `padStart(2, '0')`.
- `Dates` (`dates.dfy`): `calculateDurationInDays`, `formatDateTime`, `formatDuration` and the duration cell of a row.
- `Tasks` (`tasks.dfy`): the task record, `tasks.find`, the creation form (draft) and its `handleChange` update, and the assignee suggestions.
- `Hierarchy` (`hierarchy.dfy`): the parent-chain walk, `isDescendant` as a loop (`IsDescendant`) and as a function (`InChain`), and the parent options of a row.
- `TaskRows` (`task_rows.dfy`): `renderTasks`, the depth-first list of rows.
- `TaskStore` (`task_store.dfy`): the class `TaskStore`. It holds the component state, with one method per handler.
- `TaskGraph` (`task_graph.dfy`): the `initialNodes` and `initialEdges` of the graph view.

Environment inputs become parameters:
- the value of `Date.now()` (`now`, whose decimal string is the new id);
- the instant `new Date()` gives at submission (`created`);
- the parsed instant of each date input (`DateInput.millis`, `None` for an invalid date);
- the local calendar fields of a valid date (`LocalTime`).

Where the code and its comments disagree, the model follows the code:

- **Reparenting check.** `handleParentChange` calls `isDescendant(newParentId, taskId)`. That call walks up from the task being moved. It rejects the task itself and its current ancestors, not its descendants, whatever the comment at `src/App.jsx:266` says. Moving a task under its own child is accepted and closes a cycle (`TaskStore.ReparentUnderOwnChild`). After that, each of the two tasks is an ancestor of the other. The parent options of a row use the same direction (`TaskStore.OptionsOfferOwnChild`).

Other facts about the code that the model keeps:

- **Create checks.** Create checks only that title and description are not blank. It does not validate dates, their order, or the assignee.
- **Ids.** Ids are `Date.now()` strings.
- **No other operations.** The component has no delete, progress, persistence or import/export.

## Model

| member | source | states |
|---|---|---|
| JsText.TrimStartDrops | src/App.jsx:178 | trimming the start drops exactly a leading run of `\s` white space, and what is left does not start with it |
| JsText.TrimEndDrops | src/App.jsx:178 | trimming the end drops exactly a trailing run of `\s` white space, and what is left does not end with it |
| JsText.TrimSlice | src/App.jsx:178 | `trim()` (`Trim`) yields a slice of the input that neither starts nor ends with `\s` white space |
| JsText.BlankIffAllSpace | src/App.jsx:178 | a string is empty once trimmed exactly when every character is white space |
| JsText.ToLower | src/App.jsx:159-161 | lower-casing keeps the length and maps each character through the ASCII lower-case map |
| JsText.ContainsAt | src/App.jsx:159-161 | `includes` (`Contains`) holds exactly when the needle occurs at some index of the haystack |
| JsText.NatToStringSpells | src/App.jsx:184 | `String(n)` (`NatToString`) is a non-empty digit string without leading zero whose value is `n` |
| JsText.IntToStringSpells | src/App.jsx:59 | `String(year)` (`IntToString`) is the digit string of the year without leading zero, after a `-` for a negative year |
| JsText.TwoDigitsSpells | src/App.jsx:60-63 | `padStart(2, '0')` (`TwoDigits`) of a number below 100 is two digits whose value is the number |
| Dates.CeilDays | src/App.jsx:33 | `Math.ceil(diff / 86400000)` is the least whole number of days covering the difference |
| Dates.CalculateDurationInDays | src/App.jsx:26-36 | the empty text exactly when a date is invalid, and a day count exactly when both are valid; the count that is 0 exactly for a span that is empty or negative, and covers a positive span by whole days |
| Dates.DurationExamples | src/App.jsx:26-36 | 23 hours count as 1 day, 49 hours as 3 days |
| Dates.Show | src/App.jsx:418 | a day count prints as its decimal digits, without leading zero; a text prints as itself |
| Dates.FormatDuration | src/App.jsx:499 | the text is "1 day" exactly for the number 1, starts with the printed value, and ends in "s" for every other value |
| Dates.DurationCellIsFormatDuration | src/App.jsx:418 | the duration cell of a row (`DurationCell`) spells every duration as `formatDuration` does |
| Dates.ClockHour | src/App.jsx:66 | `hours % 12 \|\| 12` maps 0 to 12, keeps 1 to 12, and takes 12 off the hours after noon |
| Dates.FormatDateTime | src/App.jsx:55-56 | "N/A" exactly for an empty input |
| Dates.InvalidDateText | src/App.jsx:58-68 | a non-empty input that does not parse prints NaN in every field, with the hour 12 and AM |
| Dates.Meridiem | src/App.jsx:64 | the marker is "PM" from noon on and "AM" before |
| Dates.FormatDateTimeDate | src/App.jsx:57-61 | a valid date prints its year, then `-`, month and day as two digits each, then ", " |
| Dates.FormatDateTimeTime | src/App.jsx:62-68 | a valid date prints its hour on the 12-hour clock, `:`, the minutes as two digits, and AM before noon, PM from noon |
| Dates.StampDate | src/App.jsx:68 | in the output template the year, month and day sit first, separated by `-` and followed by ", " |
| Dates.StampTime | src/App.jsx:68 | in the output template the hour, `:`, minutes, a space and the AM/PM marker close the text |
| Tasks.ParentFromSelect | src/App.jsx:191 | the empty selection becomes `null`, any other value is kept as the parent id |
| Tasks.FindFirst | src/App.jsx:48 | `tasks.find` (`Find`, also at :72 and :264) yields nothing exactly when no task has the id, and otherwise the first task with it |
| Tasks.FindDistinct | src/App.jsx:72 | with distinct ids, the task found is the one holding the id |
| Tasks.SetDraftField | src/App.jsx:156 | a form change writes the named field and no other |
| Tasks.SetDraftFieldWellFormed | src/App.jsx:148-157 | a value that passes the input filters keeps the form's title and description letters and its typed duration digits |
| Tasks.Suggestions | src/App.jsx:159-161 | the suggestions are exactly the assignees whose lower-case name contains the lower-case input, never more than the list |
| Tasks.SuggestionsAppend | src/App.jsx:159-161 | the suggestions keep the order of the assignee list |
| Tasks.EmptyInputSuggestsAll | src/App.jsx:159-161 | an empty input suggests every assignee, in order |
| Hierarchy.LinksFind | src/App.jsx:48 | the id-to-parent map used by the walk agrees with `tasks.find` on every id |
| Hierarchy.StepFind | src/App.jsx:48-49 | one step of the walk (`Step`) is the parent of the task `find` returns, or `null` when none is found |
| Hierarchy.IsDescendant | src/App.jsx:40-53 | the loop, when it stops, answers true exactly when the target is the start or one of its ancestors |
| Hierarchy.InChain | src/App.jsx:40-53 | a walk of at most \|tasks\| + 1 steps gives the same answer as the unbounded walk |
| Hierarchy.OnChainWalk | src/App.jsx:43-50 | the walk cut after n steps finds the target exactly when it is among the first n chain elements |
| Hierarchy.ReachedEarly | src/App.jsx:43-50 | a target on the chain at all is among its first n + 1 elements, n the number of listed ids (pigeonhole) |
| Hierarchy.ReachesSelf | src/App.jsx:45-47 | every task is on its own chain |
| Hierarchy.ParentReached | src/App.jsx:48-49 | the parent of a listed task is on its chain |
| Hierarchy.ReachesTrans | src/App.jsx:43-50 | an ancestor of an ancestor is an ancestor |
| Hierarchy.ParentOptions | src/App.jsx:457-458 | a task is offered as parent exactly when it is neither the row's task nor one of its ancestors |
| Hierarchy.OptionsAppend | src/App.jsx:457-458 | the options keep the order of the list |
| Hierarchy.WalkShift | src/App.jsx:43-50 | the chain (`Walk`) from a task, after its first element, is the chain from its parent |
| Hierarchy.NoParentStays | src/App.jsx:43 | once the chain reaches `null` it stays there, which is where the loop stops |
| Hierarchy.WalkAdd | src/App.jsx:43-50 | walking i steps and then j more is walking i + j steps |
| TaskRows.ChildrenMembers | src/App.jsx:341 | the filter (`Children`) keeps exactly the tasks whose parent equals the given one |
| TaskRows.ChildrenAppend | src/App.jsx:340-341 | the filter keeps the order of the list |
| TaskRows.ForestRows | src/App.jsx:339-346 | every row of `renderTasks` (`Forest`) shows a listed task at the current depth or deeper, with the expand marker exactly when some task names it as parent |
| TaskRows.AtLevelStep | src/App.jsx:339-346 | a row followed by its deeper subtree contributes only its own task to the rows at its depth |
| TaskRows.ForestTopLevel | src/App.jsx:339-343 | the rows at the current depth are the siblings themselves, in list order |
| TaskRows.ForestParented | src/App.jsx:339-488 | every deeper row follows, one level down, an earlier expanded row of its parent |
| TaskRows.ForestDepth | src/App.jsx:339-488 | every row of a forest sits at its depth or deeper |
| TaskRows.ForestBlocks | src/App.jsx:339-488 | depth first: the block below each expanded row starts one level down and holds at that level exactly its children, in list order; a collapsed row is followed by no deeper row |
| TaskRows.TableDepthFirst | src/App.jsx:339-496 | the table (`Rows`) lists the tasks depth first: below an expanded row its block starts with its first child and holds, one level down, exactly its children in list order, each with its own block below it; below a collapsed row no deeper row |
| TaskRows.FirstBelowIsChild | src/App.jsx:339-346 | a row followed directly by a deeper row is expanded, and that deeper row is its first child, one level down |
| TaskRows.TableRows | src/App.jsx:494-496 | the table's depth-0 rows are the main tasks in list order, and every other row hangs under an expanded parent row |
| TaskRows.EmptyParentHidden | src/App.jsx:341 | with non-empty ids, a task whose parent is the empty string never shows |
| TaskRows.CollapsedForest | src/App.jsx:339-343 | siblings none of which is expanded give one row each, at their depth |
| TaskRows.CollapsedTable | src/App.jsx:339-343 | with nothing expanded the table lists the main tasks only, in order |
| TaskGraph.Nodes | src/components/TaskGraph.jsx:20-45 | one node per task, in task order, with the task's id, title and assignee |
| TaskGraph.GridLayout | src/components/TaskGraph.jsx:44 | four columns 250 apart and rows 200 apart, filled row by row |
| TaskGraph.ReadingOrder | src/components/TaskGraph.jsx:44 | later tasks sit further along in reading order, so no two nodes share a position |
| TaskGraph.EdgeOf | src/components/TaskGraph.jsx:52-56 | the edge of a task runs from its parent to it, under the id `e<source>-<target>` |
| TaskGraph.Edges | src/components/TaskGraph.jsx:49-59 | never more edges than tasks |
| TaskGraph.EdgeMembers | src/components/TaskGraph.jsx:49-59 | an edge is produced exactly for each task with a truthy parent, from that parent to the task |
| TaskGraph.EdgesAppend | src/components/TaskGraph.jsx:50-52 | edges come in task order |
| TaskGraph.EdgeTargetsDistinct | src/components/TaskGraph.jsx:55 | with distinct ids, no two edges share a target |
| TaskGraph.EdgeIdInjective | src/components/TaskGraph.jsx:53 | when parent ids contain no `-`, an edge id determines its parent and its target |
| TaskGraph.EdgeIdsDistinct | src/components/TaskGraph.jsx:53 | with distinct ids and parent ids without `-`, edge ids are unique |
| TaskGraph.DanglingParentEdge | src/components/TaskGraph.jsx:50-55 | a parent id naming no task still gets an edge, to a node that does not exist |
| TaskStore.SubmittedDuration | src/App.jsx:181 | the typed duration when truthy, else the one calculated from the form's dates |
| TaskStore.NewTask | src/App.jsx:183-193 | the new task has the given id, the form's fields, the submission time as creation date, `null` parent exactly for the empty selection, and no subtasks |
| TaskStore.WithParent | src/App.jsx:271-275 | the list keeps its length and order; only tasks with the id get the new parent |
| TaskStore.WithParentChangesOne | src/App.jsx:271-275 | with distinct ids exactly one task changes, and `find` then returns it with the new parent |
| TaskStore.WithSnapshot | src/App.jsx:110-114 | the list keeps its length and order; only tasks with the id are replaced by the snapshot |
| TaskStore.WithSnapshotChangesOne | src/App.jsx:110-114 | with distinct ids saving replaces exactly the one task with that id |
| TaskStore.ReparentUnderOwnChild | src/App.jsx:261-278 | moving task 1 under its child 2 is accepted; afterwards each is the other's ancestor, the walk from 1 never reaches `null`, and the table is empty |
| TaskStore.OptionsOfferOwnChild | src/App.jsx:471-472 | the row of a parent offers its own child as new parent, and the child's row offers nothing |
| TaskStore.Toggled | src/App.jsx:281-284 | toggling flips whether that row is expanded and no other |
| TaskStore.ToggleTwice | src/App.jsx:280-285 | toggling twice restores every row |
| TaskStore.AppendOk | src/App.jsx:175-196 | appending a task with a fresh digit id and filtered text keeps ids distinct and texts filtered |
| TaskStore.TaskStore.constructor | src/App.jsx:5-21 | the initial state: no tasks, empty form, closed, nothing expanded, nothing edited |
| TaskStore.TaskStore.Change | src/App.jsx:145-164 | a value failing the filter changes nothing; otherwise the named field is written, and an assignee change refreshes the suggestions |
| TaskStore.TaskStore.SuggestionClick | src/App.jsx:166-169 | the suggestion becomes the assignee and the suggestions close |
| TaskStore.TaskStore.AssignedToFocus | src/App.jsx:171-173 | focusing the assignee input suggests every assignee |
| TaskStore.TaskStore.AddTaskClick | src/App.jsx:212-218 | the form opens for a main task |
| TaskStore.TaskStore.DateTimeChange | src/App.jsx:244-257 | the date is stored; once both dates are set the duration becomes the calculated one, else it is kept |
| TaskStore.TaskStore.Submit | src/App.jsx:175-210 | a title or description of white space only changes nothing; otherwise exactly the new task is appended, the form is reset and closed, and the list invariant is kept |
| TaskStore.TaskStore.EditTask | src/App.jsx:71-75 | the row becomes the one edited, with a copy of its task as snapshot |
| TaskStore.TaskStore.SaveTask | src/App.jsx:109-116 | the snapshot replaces the edited task, editing ends, and the list invariant is kept |
| TaskStore.TaskStore.CancelEdit | src/App.jsx:118-120 | editing ends and nothing else changes |
| TaskStore.TaskStore.RowClick | src/App.jsx:287-297 | clicking the edited row saves it and keeps the snapshot; clicking another row starts editing it |
| TaskStore.TaskStore.ChangeParent | src/App.jsx:261-278 | rejected exactly when the new parent is the task or one of its ancestors, never for "Main Task"; a rejection leaves the list as it was, an acceptance changes only that task's parent |
| TaskStore.TaskStore.ToggleExpand | src/App.jsx:280-285 | the expanded state of that row flips |
| TaskStore.SetEditField | src/App.jsx:316-319 | the named text of the snapshot takes the value and every other field is kept |
| TaskStore.SetEditFieldKeeps | src/App.jsx:302-319 | an edit that passed the letter filter keeps the snapshot's id and its texts filtered |
| TaskStore.EditFilter | src/App.jsx:302-314 | an edit passes (`EditAllowed`) the filters exactly when it holds letters and white space only and, for the assignee, names a listed assignee or is blank after trimming |
| TaskStore.TaskStore.EditInputChange | src/App.jsx:299-327 | a value with other than letters and white space, or an assignee outside the list that is not blank, changes nothing; otherwise the snapshot field is written |
| TaskStore.TaskStore.SetEditAssignee | src/App.jsx:393-395 | the chosen assignee is written to the snapshot |
| TaskStore.TaskStore.SetEditDuration | src/App.jsx:413-415 | the typed duration text is written to the snapshot |
| TaskStore.TaskStore.SetEditCompletionDate | src/App.jsx:427-429 | the due date is written to the snapshot, without recalculating the duration |
| TaskStore.TaskStore.SetEditCreatedDate | src/App.jsx:440-442 | the creation date is written to the snapshot |
| TaskStore.TaskStore.SetEditParent | src/App.jsx:452-454 | the option value is stored as it is, the empty string included, with no ancestor check |

## Left out

- Rendering, event wiring, the context menu and its "Add Subtask" entry (`handleAddSubtask`, `handleRowRightClick`, `handleCloseContextMenu`), and the document listeners and `useEffect` hooks are left out. They are user-interface plumbing. This includes the effect that recomputes the form's duration a second time when its dates change; `DateTimeChange` already gives the same result.
- `handleClickOutside` is left out. It is the form's click-outside listener. On a click outside the form it closes and clears the form when every text field is blank after trimming (a field holding only spaces counts as blank) and no other field, such as a computed day count, holds a value.
- The row click's test of the clicked element's tag is left out; `RowClick` is the click on the row itself.
- Event bubbling is left out. The Save and Cancel buttons sit inside the edited row (src/App.jsx:351, 481-485), so their clicks also reach `handleRowClick`, which then saves the snapshot because the row is still the one being edited (:292-293); a Cancel click therefore saves. `SaveTask` and `CancelEdit` model each button's own handler, and `RowClick` the row's.
- Date parsing, time zones, `toISOString` and the local calendar fields are left out. They depend on the host clock and locale and enter the model as parameters.
- `alert` and the unused `editError` state are left out.
- The display attributes of nodes and edges (the label markup and its styling, the `animated` flag and the stroke of an edge) are left out; they do not depend on the tasks beyond what `Node` and `Edge` hold.
- `FooterClock`, `TaskForm`, `AssigneeInput` and the ReactFlow hooks and view fitting of the graph are not part of this model.
- The floating-point division in the duration calculation is left out. The model divides exactly. The two can differ by one day only for spans longer than about 180,000 years, where the floating-point quotient rounds to a whole number.
- `toLowerCase` is modelled on ASCII letters only.
- Hierarchy.IsDescendant: requires that the walk stops, meeting `null` or the target. On a chain that cycles without meeting the target the source loop never ends, and the model does not describe that.
- TaskStore.TaskStore.ChangeParent: requires the same stopping walk, for the same reason.
- Hierarchy.ParentOptions: answers even on a list where the source's option filter would not stop, because a chain cycles without meeting the option.
- TaskStore.TaskStore.EditTask: requires the id to be in the list (rows only show listed tasks). The `{}` snapshot that a missing id would give is not modelled.
- TaskRows.Forest: the descent is cut at depth \|tasks\|, so `TableDepthFirst` speaks of rows above that depth. That no listed task sits deeper below a main task is not proved here.
