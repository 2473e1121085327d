/** The state of the task list and the handlers that replace it step by step:
    creating a task from the form, editing a row in place, moving a task under
    another parent, the form's input filters and date handling, and the
    expand/collapse state of the rows. */
module TaskStore {
  import opened Optional
  import opened JsText
  import opened Dates
  import opened Tasks
  import opened Hierarchy
  import opened TaskRows

  /** The duration `handleSubmit` stores: the form's value when truthy,
      otherwise the one calculated from the form's dates. */
  function SubmittedDuration(d: Draft): (r: Duration)
    ensures Truthy(d.duration) ==> r == d.duration
    ensures !Truthy(d.duration) ==> r == CalculateDurationInDays(d.createdDate, d.completionDate)
  {
    if Truthy(d.duration) then d.duration else CalculateDurationInDays(d.createdDate, d.completionDate)
  }

  /** The record `handleSubmit` builds from the form, the id `Date.now()`
      yields and the submission time. */
  function NewTask(d: Draft, id: string, created: DateText): (t: Task)
    ensures t.id == id && t.title == d.title && t.description == d.description
    ensures t.assignedTo == d.assignedTo && t.completionDate == d.completionDate
    ensures t.duration == SubmittedDuration(d)
    ensures t.createdDate == created
    ensures t.parentTaskId == NoParent <==> d.parentTaskId == []
    ensures t.parentTaskId != NoParent ==> t.parentTaskId == Str(d.parentTaskId)
    ensures t.subtasks == []
  {
    Task(id, d.title, d.description, d.assignedTo, SubmittedDuration(d), d.completionDate,
         created, ParentFromSelect(d.parentTaskId), [])
  }

  /** `tasks.map((task) => task.id === id ? { ...task, parentTaskId: p } : task)` */
  function WithParent(tasks: seq<Task>, id: string, p: Parent): (r: seq<Task>)
    ensures |r| == |tasks|
    ensures forall i :: 0 <= i < |tasks| ==>
      r[i] == if tasks[i].id == id then tasks[i].(parentTaskId := p) else tasks[i]
  {
    if tasks == [] then []
    else [if tasks[0].id == id then tasks[0].(parentTaskId := p) else tasks[0]] + WithParent(tasks[1..], id, p)
  }

  /** `tasks.map((task) => task.id === id ? { ...snap } : task)` */
  function WithSnapshot(tasks: seq<Task>, id: string, snap: Task): (r: seq<Task>)
    ensures |r| == |tasks|
    ensures forall i :: 0 <= i < |tasks| ==> r[i] == if tasks[i].id == id then snap else tasks[i]
  {
    if tasks == [] then []
    else [if tasks[0].id == id then snap else tasks[0]] + WithSnapshot(tasks[1..], id, snap)
  }

  /** With distinct ids, reparenting changes the one task with that id and
      nothing else, and that task now has the new parent. */
  lemma WithParentChangesOne(tasks: seq<Task>, k: int, p: Parent)
    requires DistinctIds(tasks) && 0 <= k < |tasks|
    ensures WithParent(tasks, tasks[k].id, p) == tasks[k := tasks[k].(parentTaskId := p)]
    ensures Find(WithParent(tasks, tasks[k].id, p), tasks[k].id) == Some(tasks[k].(parentTaskId := p))
  {
    var r := WithParent(tasks, tasks[k].id, p);
    assert r == tasks[k := tasks[k].(parentTaskId := p)];
    assert DistinctIds(r) by {
      forall i, j | 0 <= i < j < |r| ensures r[i].id != r[j].id {
        assert r[i].id == tasks[i].id && r[j].id == tasks[j].id;
      }
    }
    FindDistinct(r, k);
  }

  /** A task with only an id and a parent, for the example below. */
  function Sample(id: string, parent: Parent): Task {
    Task(id, "Task", "Task", [], Text([]), NoDate, NoDate, parent, [])
  }

  /** Moving a task under its own child passes the check: with task 2 a child
      of task 1, making 2 the parent of 1 is accepted, because the walk from 1
      never meets 2. Afterwards the two tasks form a cycle: each is an ancestor
      of the other, the walk up from 1 never reaches `null` (so moving 1 back
      to "Main Task" would never finish its check), and neither task is a main
      task any more, so the table shows no row at all. */
  lemma ReparentUnderOwnChild(expanded: map<string, bool>)
    ensures var before := [Sample("1", NoParent), Sample("2", Str("1"))];
      var after := WithParent(before, "1", Str("2"));
      Halts(before, Str("2"), Str("1")) && !Reaches(before, Str("2"), Str("1")) &&
      Reaches(after, Str("2"), Str("1")) && Reaches(after, Str("1"), Str("2")) &&
      !Halts(after, NoParent, Str("1")) &&
      Rows(after, expanded) == []
  {
    var before := [Sample("1", NoParent), Sample("2", Str("1"))];
    var after := WithParent(before, "1", Str("2"));
    var lb := Links(before);
    assert lb == map["2" := Str("1"), "1" := NoParent];
    assert Walk(lb, Str("1"), 1) == NoParent;
    forall k: nat ensures Walk(lb, Str("1"), k) != Str("2") {
      if k > 0 {
        NoParentStays(lb, Str("1"), 1, k);
      }
    }
    assert after == [Sample("1", Str("2")), Sample("2", Str("1"))];
    var la := Links(after);
    assert la == map["2" := Str("1"), "1" := Str("2")];
    forall k: nat ensures Walk(la, Str("1"), k) != NoParent {
      Alternates(la, k);
    }
    Alternates(la, 1);
    Alternates(la, 0);
    assert Walk(la, Str("2"), 1) == Str("1");
    assert Children(after, NoParent) == [];
  }

  /** The parent options run the same check: the row of task 1 offers its own
      child 2, while the row of task 2 offers nothing, since 2 is excluded as
      itself and 1 as its parent. */
  lemma OptionsOfferOwnChild()
    ensures var tasks := [Sample("1", NoParent), Sample("2", Str("1"))];
      ParentOptions(tasks, "1") == [tasks[1]] && ParentOptions(tasks, "2") == []
  {
    var tasks := [Sample("1", NoParent), Sample("2", Str("1"))];
    assert Links(tasks) == map["2" := Str("1"), "1" := NoParent];
    assert !InChain(tasks, Str("2"), Str("1"));
    assert InChain(tasks, Str("1"), Str("2"));
  }

  /** The walk over the two-task cycle alternates between the two ids. */
  lemma {:induction false} Alternates(links: map<string, Parent>, k: nat)
    requires links == map["2" := Str("1"), "1" := Str("2")]
    ensures Walk(links, Str("1"), k) == if k % 2 == 0 then Str("1") else Str("2")
  {
    if k > 0 {
      Alternates(links, k - 1);
    }
  }

  /** With distinct ids, saving writes the snapshot over the one task with
      that id and leaves every other task where it was. */
  lemma WithSnapshotChangesOne(tasks: seq<Task>, k: int, snap: Task)
    requires DistinctIds(tasks) && 0 <= k < |tasks|
    ensures WithSnapshot(tasks, tasks[k].id, snap) == tasks[k := snap]
  {
    assert WithSnapshot(tasks, tasks[k].id, snap) == tasks[k := snap];
  }

  /** `{ ...prev, [id]: !prev[id] }` */
  function Toggled(expanded: map<string, bool>, id: string): (r: map<string, bool>)
    ensures IsExpanded(r, id) == !IsExpanded(expanded, id)
    ensures forall other :: other != id ==> IsExpanded(r, other) == IsExpanded(expanded, other)
  {
    expanded[id := !IsExpanded(expanded, id)]
  }

  /** Toggling a row twice restores whether every row is expanded. */
  lemma ToggleTwice(expanded: map<string, bool>, id: string)
    ensures forall x :: IsExpanded(Toggled(Toggled(expanded, id), id), x) == IsExpanded(expanded, x)
  {
    var once := Toggled(expanded, id);
    assert IsExpanded(Toggled(once, id), id) == IsExpanded(expanded, id);
  }

  /** Ids are distinct `Date.now()` strings; titles and descriptions passed the
      letter filter. */
  predicate ListOk(tasks: seq<Task>) {
    DistinctIds(tasks) &&
    forall i :: 0 <= i < |tasks| ==>
      IsId(tasks[i].id) && LettersOrSpace(tasks[i].title) && LettersOrSpace(tasks[i].description)
  }

  /** Appending a task with a fresh id and filtered text keeps the list well formed. */
  lemma AppendOk(tasks: seq<Task>, t: Task)
    requires ListOk(tasks) && IsId(t.id) && LettersOrSpace(t.title) && LettersOrSpace(t.description)
    requires forall i :: 0 <= i < |tasks| ==> tasks[i].id != t.id
    ensures ListOk(tasks + [t])
  {
    var r := tasks + [t];
    forall i | 0 <= i < |r| ensures IsId(r[i].id) && LettersOrSpace(r[i].title) && LettersOrSpace(r[i].description) {
      if i < |tasks| { assert r[i] == tasks[i]; }
    }
  }

  /** The inputs of an edited row that go through `handleEditInputChange`. */
  datatype EditField = EditTitle | EditDescription | EditAssignee

  /** `{...prevData, [name]: value}`: the named text takes the value, and every
      other field of the snapshot is kept. */
  function SetEditField(t: Task, f: EditField, value: string): (r: Task)
    ensures r.title == (if f == EditTitle then value else t.title)
    ensures r.description == (if f == EditDescription then value else t.description)
    ensures r.assignedTo == (if f == EditAssignee then value else t.assignedTo)
    ensures r.id == t.id && r.duration == t.duration && r.completionDate == t.completionDate &&
      r.createdDate == t.createdDate && r.parentTaskId == t.parentTaskId && r.subtasks == t.subtasks
  {
    match f
    case EditTitle => t.(title := value)
    case EditDescription => t.(description := value)
    case EditAssignee => t.(assignedTo := value)
  }

  /** An edit that passed the letter filter keeps the snapshot's id and its
      texts filtered. */
  lemma SetEditFieldKeeps(t: Task, f: EditField, value: string)
    requires LettersOrSpace(t.title) && LettersOrSpace(t.description) && LettersOrSpace(value)
    ensures var r := SetEditField(t, f, value);
      r.id == t.id && LettersOrSpace(r.title) && LettersOrSpace(r.description)
  {
  }

  /** The filters of `handleEditInputChange`: letters and white space only,
      and an assignee must be one of the list or blank. */
  predicate EditAllowed(f: EditField, value: string) {
    LettersOrSpace(value) && (f == EditAssignee ==> value in Assignees || AllSpace(value))
  }

  lemma EditFilter(f: EditField, value: string)
    ensures EditAllowed(f, value) <==>
      LettersOrSpace(value) && (f == EditAssignee ==> value in Assignees || Trim(value) == [])
  {
    BlankIffAllSpace(value);
  }

  /** The date inputs of the form, which go through `handleDateTimeChange`. */
  datatype DateField = CreatedField | CompletionField

  class TaskStore {
    var tasks: seq<Task>
    var draft: Draft
    var showForm: bool
    var assigneeSuggestions: seq<string>
    var expandedTasks: map<string, bool>
    var editingTaskId: Option<string>
    /** The edit snapshot; `None` stands for the initial `{}`. */
    var editingTaskData: Option<Task>

    /** What the handlers keep true: ids are distinct `Date.now()` strings,
        titles and descriptions passed the letter filter, the form is well
        formed, and the snapshot of the row being edited carries its id. */
    predicate Valid()
      reads this
    {
      ListOk(tasks) &&
      DraftWellFormed(draft) &&
      (editingTaskId.Some? ==> editingTaskData.Some? && editingTaskData.value.id == editingTaskId.value) &&
      (editingTaskData.Some? ==>
        LettersOrSpace(editingTaskData.value.title) && LettersOrSpace(editingTaskData.value.description))
    }

    /** The initial state of the component. */
    constructor ()
      ensures Valid()
      ensures tasks == [] && draft == EmptyDraft && !showForm && assigneeSuggestions == []
      ensures expandedTasks == map[] && editingTaskId == None && editingTaskData == None
    {
      tasks := [];
      draft := EmptyDraft;
      showForm := false;
      assigneeSuggestions := [];
      expandedTasks := map[];
      editingTaskId := None;
      editingTaskData := None;
    }

    /** `handleChange`: a filtered form input; typing an assignee refreshes the
        suggestions. */
    method Change(f: DraftField, value: string)
      requires Valid()
      modifies this`draft, this`assigneeSuggestions
      ensures Valid()
      ensures !DraftInputAllowed(f, value) ==>
        draft == old(draft) && assigneeSuggestions == old(assigneeSuggestions)
      ensures DraftInputAllowed(f, value) ==> draft == SetDraftField(old(draft), f, value)
      ensures DraftInputAllowed(f, value) && f == AssignedToField ==>
        assigneeSuggestions == Suggestions(Assignees, value)
      ensures f != AssignedToField ==> assigneeSuggestions == old(assigneeSuggestions)
    {
      if !DraftInputAllowed(f, value) {
        return;
      }
      SetDraftFieldWellFormed(draft, f, value);
      draft := SetDraftField(draft, f, value);
      if f == AssignedToField {
        assigneeSuggestions := Suggestions(Assignees, value);
      }
    }

    /** `handleSuggestionClick` */
    method SuggestionClick(suggestion: string)
      requires Valid()
      modifies this`draft, this`assigneeSuggestions
      ensures Valid()
      ensures draft == old(draft).(assignedTo := suggestion) && assigneeSuggestions == []
    {
      draft := draft.(assignedTo := suggestion);
      assigneeSuggestions := [];
    }

    /** `handleAssignedToFocus` */
    method AssignedToFocus()
      modifies this`assigneeSuggestions
      ensures assigneeSuggestions == Assignees
    {
      assigneeSuggestions := Assignees;
    }

    /** `handleAddTaskClick`: the form opens for a main task. */
    method AddTaskClick()
      requires Valid()
      modifies this`draft, this`showForm
      ensures Valid()
      ensures draft == old(draft).(parentTaskId := []) && showForm
    {
      draft := draft.(parentTaskId := []);
      showForm := true;
    }

    /** `handleDateTimeChange`: stores the date and, once both dates are set,
        replaces the duration by the calculated one. */
    method DateTimeChange(f: DateField, value: DateText)
      requires Valid()
      modifies this`draft
      ensures Valid()
      ensures f == CreatedField ==> draft.createdDate == value && draft.completionDate == old(draft).completionDate
      ensures f == CompletionField ==> draft.completionDate == value && draft.createdDate == old(draft).createdDate
      ensures draft.title == old(draft).title && draft.description == old(draft).description
      ensures draft.assignedTo == old(draft).assignedTo && draft.parentTaskId == old(draft).parentTaskId
      ensures draft.createdDate.text != [] && draft.completionDate.text != [] ==>
        draft.duration == CalculateDurationInDays(draft.createdDate, draft.completionDate)
      ensures draft.createdDate.text == [] || draft.completionDate.text == [] ==>
        draft.duration == old(draft).duration
    {
      var updated := if f == CreatedField then draft.(createdDate := value) else draft.(completionDate := value);
      if updated.createdDate.text != [] && updated.completionDate.text != [] {
        updated := updated.(duration := CalculateDurationInDays(updated.createdDate, updated.completionDate));
      }
      draft := updated;
    }

    /** `handleSubmit`, with `Date.now()` as `now` (its decimal string is the new
        id, which no task has yet) and `new Date()` as `created`. A title or
        description made only of white space adds nothing; otherwise the task is
        appended and the form is reset and closed. */
    method Submit(now: nat, created: DateText)
      requires Valid()
      requires forall i :: 0 <= i < |tasks| ==> tasks[i].id != NatToString(now)
      modifies this`tasks, this`draft, this`showForm
      ensures Valid()
      ensures AllSpace(old(draft).title) || AllSpace(old(draft).description) ==>
        tasks == old(tasks) && draft == old(draft) && showForm == old(showForm)
      ensures !AllSpace(old(draft).title) && !AllSpace(old(draft).description) ==>
        tasks == old(tasks) + [NewTask(old(draft), NatToString(now), created)] &&
        draft == EmptyDraft && !showForm
    {
      BlankIffAllSpace(draft.title);
      BlankIffAllSpace(draft.description);
      if Trim(draft.title) == [] || Trim(draft.description) == [] {
        return;
      }
      var newTask := NewTask(draft, NatToString(now), created);
      NatToStringSpells(now);
      AppendOk(tasks, newTask);
      tasks := tasks + [newTask];
      draft := EmptyDraft;
      showForm := false;
    }

    /** `handleEditTask`: the row of `taskId` becomes editable, with a copy of
        the task as the snapshot. */
    method EditTask(taskId: string)
      requires Valid() && Find(tasks, taskId).Some?
      modifies this`editingTaskId, this`editingTaskData
      ensures Valid()
      ensures editingTaskId == Some(taskId) && editingTaskData == Some(Find(tasks, taskId).value)
    {
      var taskToEdit := Find(tasks, taskId);
      FindFirst(tasks, taskId);
      var i :| FirstWithId(tasks, i, taskId) && tasks[i] == taskToEdit.value;
      editingTaskId := Some(taskId);
      editingTaskData := Some(taskToEdit.value);
    }

    /** `handleSaveTask`: the snapshot replaces the task being edited, and
        editing ends. */
    method SaveTask(taskId: string)
      requires Valid() && editingTaskId == Some(taskId)
      modifies this`tasks, this`editingTaskId
      ensures Valid()
      ensures tasks == WithSnapshot(old(tasks), taskId, old(editingTaskData).value)
      ensures editingTaskId == None
    {
      var snap := editingTaskData.value;
      tasks := WithSnapshot(tasks, taskId, snap);
      editingTaskId := None;
    }

    /** `handleCancelEdit`: editing ends and the list stays as it was. */
    method CancelEdit()
      requires Valid()
      modifies this`editingTaskId
      ensures Valid()
      ensures editingTaskId == None
    {
      editingTaskId := None;
    }

    /** `handleRowClick` on a row (not on one of its inputs): saves the row
        being edited, or starts editing another. */
    method RowClick(taskId: string)
      requires Valid() && Find(tasks, taskId).Some?
      modifies this`tasks, this`editingTaskId, this`editingTaskData
      ensures Valid()
      ensures old(editingTaskId) == Some(taskId) ==>
        tasks == WithSnapshot(old(tasks), taskId, old(editingTaskData).value) && editingTaskId == None &&
        editingTaskData == old(editingTaskData)
      ensures old(editingTaskId) != Some(taskId) ==>
        tasks == old(tasks) && editingTaskId == Some(taskId) && editingTaskData == Some(Find(tasks, taskId).value)
    {
      if editingTaskId == Some(taskId) {
        SaveTask(taskId);
      } else {
        EditTask(taskId);
      }
    }

    /** `handleParentChange(e, taskId)` with `selected` the chosen option. The
        move is rejected when the new parent is the task itself or one of its
        current ancestors (`isDescendant(newParentId, taskId)`); the empty option
        means no parent and is always accepted. The check does not look at the
        task's descendants. The walk up from the task has to stop. */
    method ChangeParent(selected: string, taskId: string) returns (rejected: bool)
      requires Valid()
      requires Halts(tasks, ParentFromSelect(selected), Str(taskId))
      modifies this`tasks
      ensures Valid()
      ensures rejected <==> Reaches(old(tasks), ParentFromSelect(selected), Str(taskId))
      ensures selected == [] ==> !rejected
      ensures rejected ==> tasks == old(tasks)
      ensures !rejected ==> tasks == WithParent(old(tasks), taskId, ParentFromSelect(selected))
    {
      var newParentId := ParentFromSelect(selected);
      rejected := IsDescendant(newParentId, Str(taskId), tasks);
      if rejected {
        return;
      }
      tasks := WithParent(tasks, taskId, newParentId);
    }

    /** `toggleExpand` */
    method ToggleExpand(taskId: string)
      modifies this`expandedTasks
      ensures expandedTasks == Toggled(old(expandedTasks), taskId)
    {
      expandedTasks := Toggled(expandedTasks, taskId);
    }

    /** `handleEditInputChange`: a filtered edit of the snapshot's title,
        description or assignee; an assignee edit refreshes the suggestions. */
    method EditInputChange(f: EditField, value: string)
      requires Valid() && editingTaskId.Some?
      modifies this`editingTaskData, this`assigneeSuggestions
      ensures Valid()
      ensures !EditAllowed(f, value) ==>
        editingTaskData == old(editingTaskData) && assigneeSuggestions == old(assigneeSuggestions)
      ensures EditAllowed(f, value) ==>
        editingTaskData == Some(SetEditField(old(editingTaskData).value, f, value))
      ensures EditAllowed(f, value) && f == EditAssignee ==> assigneeSuggestions == Suggestions(Assignees, value)
      ensures f != EditAssignee ==> assigneeSuggestions == old(assigneeSuggestions)
    {
      EditFilter(f, value);
      if !LettersOrSpace(value) {
        return;
      }
      if f == EditAssignee {
        var isValidAssignee := value in Assignees;
        if !isValidAssignee && Trim(value) != [] {
          return;
        }
      }
      SetEditFieldKeeps(editingTaskData.value, f, value);
      editingTaskData := Some(SetEditField(editingTaskData.value, f, value));
      if f == EditAssignee {
        assigneeSuggestions := Suggestions(Assignees, value);
      }
    }

    /** The assignee `<select>` of an edited row. */
    method SetEditAssignee(value: string)
      requires Valid() && editingTaskId.Some?
      modifies this`editingTaskData
      ensures Valid()
      ensures editingTaskData == Some(old(editingTaskData).value.(assignedTo := value))
    {
      editingTaskData := Some(editingTaskData.value.(assignedTo := value));
    }

    /** The duration input of an edited row: the text is stored as typed. */
    method SetEditDuration(value: string)
      requires Valid() && editingTaskId.Some?
      modifies this`editingTaskData
      ensures Valid()
      ensures editingTaskData == Some(old(editingTaskData).value.(duration := Text(value)))
    {
      editingTaskData := Some(editingTaskData.value.(duration := Text(value)));
    }

    /** The due-date input of an edited row; the duration is not recalculated. */
    method SetEditCompletionDate(value: DateText)
      requires Valid() && editingTaskId.Some?
      modifies this`editingTaskData
      ensures Valid()
      ensures editingTaskData == Some(old(editingTaskData).value.(completionDate := value))
    {
      editingTaskData := Some(editingTaskData.value.(completionDate := value));
    }

    /** The created-on input of an edited row. */
    method SetEditCreatedDate(value: DateText)
      requires Valid() && editingTaskId.Some?
      modifies this`editingTaskData
      ensures Valid()
      ensures editingTaskData == Some(old(editingTaskData).value.(createdDate := value))
    {
      editingTaskData := Some(editingTaskData.value.(createdDate := value));
    }

    /** The parent `<select>` of an edited row. Unlike the other two parent
        paths it stores the option value as it is: "Main Task" becomes the
        empty string, not `null`, and no ancestor check runs. */
    method SetEditParent(value: string)
      requires Valid() && editingTaskId.Some?
      modifies this`editingTaskData
      ensures Valid()
      ensures editingTaskData == Some(old(editingTaskData).value.(parentTaskId := Str(value)))
    {
      editingTaskData := Some(editingTaskData.value.(parentTaskId := Str(value)));
    }
  }
}
