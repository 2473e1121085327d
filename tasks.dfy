/** The task record of the task list, the creation form's draft, the lookup of
    a task by id, and the assignee suggestions. */
module Tasks {
  import opened Optional
  import opened JsText
  import opened Dates

  /** A `parentTaskId`: `null`, or a string. The empty string is a string here,
      distinct from `null`, exactly as it is to `==` in JavaScript. */
  datatype Parent = NoParent | Str(s: string)

  /** `value || null` and `value === '' ? null : value`: the empty selection
      means "main task". */
  function ParentFromSelect(value: string): (p: Parent)
    ensures p == NoParent <==> value == []
    ensures p != NoParent ==> p == Str(value)
  {
    if value == [] then NoParent else Str(value)
  }

  /** JavaScript truthiness of a `parentTaskId`: `null` and `''` are falsy. */
  predicate HasParent(p: Parent) {
    p.Str? && p.s != []
  }

  datatype Task = Task(
    id: string,
    title: string,
    description: string,
    assignedTo: string,
    duration: Duration,
    completionDate: DateText,
    createdDate: DateText,
    parentTaskId: Parent,
    subtasks: seq<string>)

  /** An id as `Date.now().toString()` produces it. */
  predicate IsId(s: string) {
    s != [] && AllDigits(s)
  }

  predicate DistinctIds(tasks: seq<Task>) {
    forall i, j :: 0 <= i < j < |tasks| ==> tasks[i].id != tasks[j].id
  }

  /** `i` is the first index holding a task with that id. */
  predicate FirstWithId(tasks: seq<Task>, i: int, id: string) {
    0 <= i < |tasks| && tasks[i].id == id && forall j :: 0 <= j < i ==> tasks[j].id != id
  }

  /** `tasks.find((t) => t.id === id)` */
  function Find(tasks: seq<Task>, id: string): Option<Task> {
    if tasks == [] then None
    else if tasks[0].id == id then Some(tasks[0])
    else Find(tasks[1..], id)
  }

  /** `find` answers the first task with that id, and nothing when no task has it. */
  lemma {:induction false} FindFirst(tasks: seq<Task>, id: string)
    ensures Find(tasks, id).None? <==> forall i :: 0 <= i < |tasks| ==> tasks[i].id != id
    ensures Find(tasks, id).Some? ==> exists i :: FirstWithId(tasks, i, id) && tasks[i] == Find(tasks, id).value
  {
    if tasks != [] {
      if tasks[0].id == id {
        assert FirstWithId(tasks, 0, id);
      } else {
        var rest := tasks[1..];
        FindFirst(rest, id);
        forall i | 0 < i < |tasks| ensures tasks[i] == rest[i - 1] {
        }
        if Find(rest, id).Some? {
          var i :| FirstWithId(rest, i, id) && rest[i] == Find(rest, id).value;
          assert FirstWithId(tasks, i + 1, id);
        }
      }
    }
  }

  /** With distinct ids, the task found is the one at the index holding that id. */
  lemma FindDistinct(tasks: seq<Task>, i: int)
    requires DistinctIds(tasks) && 0 <= i < |tasks|
    ensures Find(tasks, tasks[i].id) == Some(tasks[i])
  {
    var r := Find(tasks, tasks[i].id);
    FindFirst(tasks, tasks[i].id);
    var k :| FirstWithId(tasks, k, tasks[i].id) && tasks[k] == r.value;
    assert k == i;
  }

  /** The creation form's fields. The parent is the `<select>` value; the
      duration holds typed text or a calculated value. */
  datatype Draft = Draft(
    title: string,
    description: string,
    assignedTo: string,
    duration: Duration,
    completionDate: DateText,
    createdDate: DateText,
    parentTaskId: string)

  const EmptyDraft: Draft := Draft([], [], [], Text([]), NoDate, NoDate, [])

  /** The form inputs whose change goes through `handleChange`. */
  datatype DraftField = TitleField | DescriptionField | AssignedToField | DurationField | ParentField

  /** `{ ...draft, [name]: value }` */
  function SetDraftField(d: Draft, f: DraftField, value: string): (r: Draft)
    ensures f == TitleField ==> r == d.(title := value)
    ensures f == DescriptionField ==> r == d.(description := value)
    ensures f == AssignedToField ==> r == d.(assignedTo := value)
    ensures f == DurationField ==> r == d.(duration := Text(value))
    ensures f == ParentField ==> r == d.(parentTaskId := value)
  {
    match f
    case TitleField => d.(title := value)
    case DescriptionField => d.(description := value)
    case AssignedToField => d.(assignedTo := value)
    case DurationField => d.(duration := Text(value))
    case ParentField => d.(parentTaskId := value)
  }

  /** The input filters of `handleChange`: titles and descriptions only take
      ASCII letters and white space, the duration only digits. */
  predicate DraftInputAllowed(f: DraftField, value: string) {
    (f == TitleField || f == DescriptionField ==> LettersOrSpace(value)) &&
    (f == DurationField ==> AllDigits(value))
  }

  /** What the filters keep true of the draft: its title and description pass
      the letter filter, and its duration is digits or a calculated value. */
  predicate DraftWellFormed(d: Draft) {
    LettersOrSpace(d.title) && LettersOrSpace(d.description) &&
    (d.duration.Text? ==> AllDigits(d.duration.s))
  }

  /** Setting an allowed value keeps the draft well formed. */
  lemma SetDraftFieldWellFormed(d: Draft, f: DraftField, value: string)
    requires DraftWellFormed(d) && DraftInputAllowed(f, value)
    ensures DraftWellFormed(SetDraftField(d, f, value))
  {
  }

  const Assignees: seq<string> := ["John Doe", "Jane Smith", "Alice Johnson", "Bob Brown", "Charlie Davis"]

  predicate SuggestionMatches(name: string, typed: string) {
    Contains(ToLower(name), ToLower(typed))
  }

  /** `names.filter((a) => a.toLowerCase().includes(typed.toLowerCase()))` */
  function Suggestions(names: seq<string>, typed: string): (r: seq<string>)
    ensures |r| <= |names|
    ensures forall a :: a in r <==> a in names && SuggestionMatches(a, typed)
  {
    if names == [] then []
    else (if SuggestionMatches(names[0], typed) then [names[0]] else []) + Suggestions(names[1..], typed)
  }

  /** The suggestions keep the list's order: filtering distributes over concatenation. */
  lemma {:induction false} SuggestionsAppend(a: seq<string>, b: seq<string>, typed: string)
    ensures Suggestions(a + b, typed) == Suggestions(a, typed) + Suggestions(b, typed)
  {
    if a == [] {
      assert a + b == b;
    } else {
      assert (a + b)[1..] == a[1..] + b;
      SuggestionsAppend(a[1..], b, typed);
    }
  }

  /** Every name contains the empty string: an empty input suggests the whole list. */
  lemma {:induction false} EmptyInputSuggestsAll(names: seq<string>)
    ensures Suggestions(names, []) == names
  {
    if names != [] {
      assert SuggestionMatches(names[0], []);
      EmptyInputSuggestsAll(names[1..]);
    }
  }
}
