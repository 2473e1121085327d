/** The table body: `renderTasks` lists the tasks depth first, starting from the
    main tasks and descending into the children of every expanded task. */
module TaskRows {
  import opened JsText
  import opened Tasks

  /** One table row: the task, its depth (the `level` that indents it) and
      whether the expand marker is shown. */
  datatype Row = Row(task: Task, level: nat, hasSubtasks: bool)

  /** `expandedTasks[id]` is truthy: an id never toggled reads as collapsed. */
  predicate IsExpanded(expanded: map<string, bool>, id: string) {
    id in expanded && expanded[id]
  }

  /** `tasks.filter((task) => task.parentTaskId == parentId)`. Loose equality
      matches `null` with `null` and a string with the same string, so a parent
      of `''` is neither a main task nor the child of any task with an id. */
  function Children(tasks: seq<Task>, parent: Parent): (r: seq<Task>)
    ensures |r| <= |tasks|
  {
    if tasks == [] then []
    else if tasks[0].parentTaskId == parent then [tasks[0]] + Children(tasks[1..], parent)
    else Children(tasks[1..], parent)
  }

  /** The filter keeps exactly the tasks whose parent equals the given one. */
  lemma {:induction false} ChildrenMembers(tasks: seq<Task>, parent: Parent)
    ensures forall t :: t in Children(tasks, parent) <==> t in tasks && t.parentTaskId == parent
  {
    if tasks != [] {
      ChildrenMembers(tasks[1..], parent);
      assert forall u :: u in tasks <==> u == tasks[0] || u in tasks[1..];
    }
  }

  /** The filter keeps the list's order: it distributes over concatenation. */
  lemma {:induction false} ChildrenAppend(a: seq<Task>, b: seq<Task>, parent: Parent)
    ensures Children(a + b, parent) == Children(a, parent) + Children(b, parent)
  {
    if a != [] {
      var ab := a + b;
      assert ab[0] == a[0];
      assert ab[1..] == a[1..] + b;
      ChildrenAppend(a[1..], b, parent);
      if a[0].parentTaskId == parent {
        calc {
          Children(ab, parent);
          [a[0]] + Children(a[1..] + b, parent);
          [a[0]] + (Children(a[1..], parent) + Children(b, parent));
          ([a[0]] + Children(a[1..], parent)) + Children(b, parent);
        }
      } else {
        assert Children(ab, parent) == Children(a[1..] + b, parent);
      }
    } else {
      assert a + b == b;
    }
  }

  /** `tasks.some((t) => t.parentTaskId == task.id)` */
  predicate HasSubtasks(tasks: seq<Task>, id: string) {
    exists i :: 0 <= i < |tasks| && tasks[i].parentTaskId == Str(id)
  }

  /** The rows of `siblings` at depth `level`, each followed by the rows of its
      children when it is expanded. The source recursion has no bound; `fuel`
      cuts it at depth `level + fuel`. */
  function Forest(tasks: seq<Task>, expanded: map<string, bool>, siblings: seq<Task>, level: nat, fuel: nat): seq<Row>
    decreases fuel, |siblings|
  {
    if siblings == [] then []
    else
      var t := siblings[0];
      [Row(t, level, HasSubtasks(tasks, t.id))] +
      (if IsExpanded(expanded, t.id) && fuel > 0
       then Forest(tasks, expanded, Children(tasks, Str(t.id)), level + 1, fuel - 1)
       else []) +
      Forest(tasks, expanded, siblings[1..], level, fuel)
  }

  /** `renderTasks(tasks)`: the rows from the main tasks down. */
  function Rows(tasks: seq<Task>, expanded: map<string, bool>): seq<Row> {
    Forest(tasks, expanded, Children(tasks, NoParent), 0, |tasks|)
  }

  /** The tasks of the rows at exactly depth `level`, in row order. */
  function AtLevel(rows: seq<Row>, level: nat): seq<Task> {
    if rows == [] then []
    else (if rows[0].level == level then [rows[0].task] else []) + AtLevel(rows[1..], level)
  }

  lemma {:induction false} AtLevelAppend(a: seq<Row>, b: seq<Row>, level: nat)
    ensures AtLevel(a + b, level) == AtLevel(a, level) + AtLevel(b, level)
  {
    if a == [] {
      assert a + b == b;
    } else {
      var head := if a[0].level == level then [a[0].task] else [];
      assert (a + b)[0] == a[0] && (a + b)[1..] == a[1..] + b;
      assert AtLevel(a + b, level) == head + AtLevel(a[1..] + b, level);
      AtLevelAppend(a[1..], b, level);
      assert AtLevel(a, level) == head + AtLevel(a[1..], level);
    }
  }

  lemma {:induction false} AtLevelDeeper(rows: seq<Row>, level: nat)
    requires forall i :: 0 <= i < |rows| ==> rows[i].level > level
    ensures AtLevel(rows, level) == []
  {
    if rows != [] {
      AtLevelDeeper(rows[1..], level);
    }
  }

  /** Every row shows a task of the list, at depth `level` or deeper, with the
      expand marker exactly when some task names it as parent. */
  predicate FromList(rows: seq<Row>, tasks: seq<Task>, level: nat) {
    forall i :: 0 <= i < |rows| ==>
      rows[i].task in tasks && rows[i].level >= level &&
      (rows[i].hasSubtasks <==> HasSubtasks(tasks, rows[i].task.id))
  }

  lemma FromListConcat(a: seq<Row>, b: seq<Row>, tasks: seq<Task>, level: nat)
    requires FromList(a, tasks, level) && FromList(b, tasks, level)
    ensures FromList(a + b, tasks, level)
  {
    forall i | |a| <= i < |a + b| ensures (a + b)[i] == b[i - |a|] {
    }
  }

  lemma {:induction false} ForestRows(tasks: seq<Task>, expanded: map<string, bool>, siblings: seq<Task>, level: nat, fuel: nat)
    requires forall s :: s in siblings ==> s in tasks
    ensures FromList(Forest(tasks, expanded, siblings, level, fuel), tasks, level)
    decreases fuel, |siblings|
  {
    if siblings != [] {
      var t := siblings[0];
      var head := [Row(t, level, HasSubtasks(tasks, t.id))];
      var child := if IsExpanded(expanded, t.id) && fuel > 0
        then Forest(tasks, expanded, Children(tasks, Str(t.id)), level + 1, fuel - 1) else [];
      if IsExpanded(expanded, t.id) && fuel > 0 {
        ChildrenMembers(tasks, Str(t.id));
        ForestRows(tasks, expanded, Children(tasks, Str(t.id)), level + 1, fuel - 1);
      }
      assert FromList(child, tasks, level);
      ForestRows(tasks, expanded, siblings[1..], level, fuel);
      FromListConcat(head, child, tasks, level);
      FromListConcat(head + child, Forest(tasks, expanded, siblings[1..], level, fuel), tasks, level);
    }
  }

  /** The rows at depth `level` are the siblings themselves, in their order:
      expanding a task inserts rows below it without moving its siblings. */
  lemma {:induction false} ForestTopLevel(tasks: seq<Task>, expanded: map<string, bool>, siblings: seq<Task>, level: nat, fuel: nat)
    ensures AtLevel(Forest(tasks, expanded, siblings, level, fuel), level) == siblings
    decreases fuel, |siblings|
  {
    if siblings != [] {
      var t := siblings[0];
      var head := Row(t, level, HasSubtasks(tasks, t.id));
      var rest := Forest(tasks, expanded, siblings[1..], level, fuel);
      ForestTopLevel(tasks, expanded, siblings[1..], level, fuel);
      if IsExpanded(expanded, t.id) && fuel > 0 {
        var child := Forest(tasks, expanded, Children(tasks, Str(t.id)), level + 1, fuel - 1);
        ForestDepth(tasks, expanded, Children(tasks, Str(t.id)), level + 1, fuel - 1);
        assert Forest(tasks, expanded, siblings, level, fuel) == [head] + child + rest;
        AtLevelStep(head, child, rest, level);
      } else {
        assert Forest(tasks, expanded, siblings, level, fuel) == [head] + [] + rest;
        AtLevelStep(head, [], rest, level);
      }
      assert siblings == [t] + siblings[1..];
    }
  }

  /** A row followed by deeper rows contributes just its own task at its depth. */
  lemma AtLevelStep(head: Row, child: seq<Row>, rest: seq<Row>, level: nat)
    requires head.level == level
    requires forall i :: 0 <= i < |child| ==> child[i].level > level
    ensures AtLevel([head] + child + rest, level) == [head.task] + AtLevel(rest, level)
  {
    AtLevelDeeper(child, level);
    AtLevelAppend([head], child, level);
    AtLevelAppend([head] + child, rest, level);
    assert AtLevel([head], level) == [head.task];
  }

  /** Each row is either a sibling at depth `level` whose parent is `parent`, or
      sits one level below an earlier row that is expanded and is its parent. */
  predicate Parented(rows: seq<Row>, expanded: map<string, bool>, level: nat, parent: Parent) {
    forall i :: 0 <= i < |rows| ==>
      (rows[i].level == level && rows[i].task.parentTaskId == parent) ||
      (rows[i].level > level && UnderEarlier(rows, expanded, i))
  }

  predicate UnderEarlier(rows: seq<Row>, expanded: map<string, bool>, i: int)
    requires 0 <= i < |rows|
  {
    exists j :: 0 <= j < i && IsParentRow(rows[j], rows[i], expanded)
  }

  predicate IsParentRow(p: Row, r: Row, expanded: map<string, bool>) {
    p.level + 1 == r.level && IsExpanded(expanded, p.task.id) && r.task.parentTaskId == Str(p.task.id)
  }

  lemma ParentedConcat(a: seq<Row>, b: seq<Row>, expanded: map<string, bool>, level: nat, parent: Parent)
    requires Parented(a, expanded, level, parent) && Parented(b, expanded, level, parent)
    ensures Parented(a + b, expanded, level, parent)
  {
    var c := a + b;
    forall i | 0 <= i < |c| && c[i].level != level
      ensures UnderEarlier(c, expanded, i)
    {
      if i < |a| {
        assert UnderEarlier(a, expanded, i);
        var j :| 0 <= j < i && IsParentRow(a[j], a[i], expanded);
        assert c[j] == a[j];
      } else {
        assert b[i - |a|] == c[i];
        assert UnderEarlier(b, expanded, i - |a|);
        var j :| 0 <= j < i - |a| && IsParentRow(b[j], b[i - |a|], expanded);
        assert c[j + |a|] == b[j];
      }
    }
  }

  lemma ParentedHead(t: Task, h: bool, child: seq<Row>, expanded: map<string, bool>, level: nat, parent: Parent)
    requires t.parentTaskId == parent
    requires child != [] ==> IsExpanded(expanded, t.id)
    requires Parented(child, expanded, level + 1, Str(t.id))
    ensures Parented([Row(t, level, h)] + child, expanded, level, parent)
  {
    var c := [Row(t, level, h)] + child;
    forall i | 0 <= i < |c|
      ensures (c[i].level == level && c[i].task.parentTaskId == parent) ||
              (c[i].level > level && UnderEarlier(c, expanded, i))
    {
      if i > 0 {
        var k := i - 1;
        assert c[i] == child[k];
        assert (child[k].level == level + 1 && child[k].task.parentTaskId == Str(t.id)) ||
               (child[k].level > level + 1 && UnderEarlier(child, expanded, k));
        if child[k].level == level + 1 {
          assert IsParentRow(c[0], c[i], expanded);
        } else {
          var j :| 0 <= j < k && IsParentRow(child[j], child[k], expanded);
          assert c[j + 1] == child[j];
          assert IsParentRow(c[j + 1], c[i], expanded);
        }
      }
    }
  }

  /** The depth-first structure of the rows: every row hangs, one level down,
      under an earlier expanded row that is its parent, unless it is one of the
      siblings the rows start from. */
  lemma {:induction false} ForestParented(tasks: seq<Task>, expanded: map<string, bool>, siblings: seq<Task>, level: nat, fuel: nat, parent: Parent)
    requires forall s :: s in siblings ==> s.parentTaskId == parent
    ensures Parented(Forest(tasks, expanded, siblings, level, fuel), expanded, level, parent)
    decreases fuel, |siblings|
  {
    if siblings != [] {
      var t := siblings[0];
      var child := if IsExpanded(expanded, t.id) && fuel > 0
        then Forest(tasks, expanded, Children(tasks, Str(t.id)), level + 1, fuel - 1) else [];
      if IsExpanded(expanded, t.id) && fuel > 0 {
        ChildrenMembers(tasks, Str(t.id));
        ForestParented(tasks, expanded, Children(tasks, Str(t.id)), level + 1, fuel - 1, Str(t.id));
      }
      ParentedHead(t, HasSubtasks(tasks, t.id), child, expanded, level, parent);
      ForestParented(tasks, expanded, siblings[1..], level, fuel, parent);
      ParentedConcat([Row(t, level, HasSubtasks(tasks, t.id))] + child,
        Forest(tasks, expanded, siblings[1..], level, fuel), expanded, level, parent);
    }
  }

  /** The table: its depth-0 rows are the main tasks in list order, every row
      shows a task of the list, and every deeper row follows an expanded row of
      its parent one level up. */
  lemma TableRows(tasks: seq<Task>, expanded: map<string, bool>)
    ensures AtLevel(Rows(tasks, expanded), 0) == Children(tasks, NoParent)
    ensures FromList(Rows(tasks, expanded), tasks, 0)
    ensures Parented(Rows(tasks, expanded), expanded, 0, NoParent)
  {
    var roots := Children(tasks, NoParent);
    ChildrenMembers(tasks, NoParent);
    ForestTopLevel(tasks, expanded, roots, 0, |tasks|);
    ForestRows(tasks, expanded, roots, 0, |tasks|);
    ForestParented(tasks, expanded, roots, 0, |tasks|, NoParent);
  }

  /** The rows that directly follow a row and sit deeper than `level`: the
      block a row at depth `level` has below it. */
  function Below(rows: seq<Row>, level: nat): (r: seq<Row>)
    ensures |r| <= |rows|
  {
    if rows == [] || rows[0].level <= level then [] else [rows[0]] + Below(rows[1..], level)
  }

  lemma {:induction false} BelowPrefix(block: seq<Row>, rest: seq<Row>, level: nat)
    requires forall i :: 0 <= i < |block| ==> block[i].level > level
    requires rest == [] || rest[0].level <= level
    ensures Below(block + rest, level) == block
  {
    if block == [] {
      assert block + rest == rest;
    } else {
      assert (block + rest)[0] == block[0] && (block + rest)[1..] == block[1..] + rest;
      BelowPrefix(block[1..], rest, level);
      assert block == [block[0]] + block[1..];
    }
  }

  /** The row's children are listed below it: its task is expanded and the
      descent has not reached depth `limit`. */
  predicate Opens(expanded: map<string, bool>, r: Row, limit: nat) {
    IsExpanded(expanded, r.task.id) && r.level < limit
  }

  /** The block below row `r` (the rows in `following` up to the next one no
      deeper than `r`) starts one level down and holds, at that level, exactly
      the children of its task in list order when the row opens, and is empty
      when it does not. Together over all rows this fixes the whole table:
      each child's own block accounts for everything between it and the next
      child. */
  predicate BlockOk(tasks: seq<Task>, expanded: map<string, bool>, limit: nat, r: Row, following: seq<Row>) {
    var b := Below(following, r.level);
    if Opens(expanded, r, limit) then
      (b == [] || b[0].level == r.level + 1) && AtLevel(b, r.level + 1) == Children(tasks, Str(r.task.id))
    else b == []
  }

  /** A row whose block holds is directly followed, if by anything deeper, by
      the first of its children: the row opens and has children. */
  lemma FirstBelowIsChild(tasks: seq<Task>, expanded: map<string, bool>, limit: nat, r: Row, following: seq<Row>)
    requires BlockOk(tasks, expanded, limit, r, following)
    requires following != [] && following[0].level > r.level
    ensures Opens(expanded, r, limit)
    ensures var kids := Children(tasks, Str(r.task.id));
      kids != [] && following[0].level == r.level + 1 && following[0].task == kids[0]
  {
    var b := Below(following, r.level);
    assert b[0] == following[0];
    assert AtLevel(b, r.level + 1) == [b[0].task] + AtLevel(b[1..], r.level + 1);
  }

  /** Each of the first n rows is followed by its block. */
  predicate BlocksFrom(tasks: seq<Task>, expanded: map<string, bool>, limit: nat, rows: seq<Row>, n: nat)
    requires n <= |rows|
    decreases n
  {
    n == 0 || (BlockOk(tasks, expanded, limit, rows[0], rows[1..]) && BlocksFrom(tasks, expanded, limit, rows[1..], n - 1))
  }

  lemma {:induction false} BlocksJoin(tasks: seq<Task>, expanded: map<string, bool>, limit: nat, a: seq<Row>, tail: seq<Row>, n: nat)
    requires n <= |tail|
    requires BlocksFrom(tasks, expanded, limit, a + tail, |a|)
    requires BlocksFrom(tasks, expanded, limit, tail, n)
    ensures BlocksFrom(tasks, expanded, limit, a + tail, |a| + n)
  {
    if a == [] {
      assert a + tail == tail;
    } else {
      assert (a + tail)[1..] == a[1..] + tail;
      BlocksJoin(tasks, expanded, limit, a[1..], tail, n);
    }
  }

  lemma {:induction false} BlocksAll(tasks: seq<Task>, expanded: map<string, bool>, limit: nat, rows: seq<Row>, n: nat)
    requires n <= |rows| && BlocksFrom(tasks, expanded, limit, rows, n)
    ensures forall i :: 0 <= i < n ==> BlockOk(tasks, expanded, limit, rows[i], rows[i + 1..])
  {
    if n > 0 {
      BlocksAll(tasks, expanded, limit, rows[1..], n - 1);
      forall i | 1 <= i < n ensures BlockOk(tasks, expanded, limit, rows[i], rows[i + 1..]) {
        assert rows[i] == rows[1..][i - 1] && rows[i + 1..] == rows[1..][i..];
      }
    }
  }

  /** A non-empty forest, followed by other rows: the first sibling's row, the
      rows below it, then the forest of the other siblings and the other rows. */
  lemma ForestCons(tasks: seq<Task>, expanded: map<string, bool>, siblings: seq<Task>, level: nat, fuel: nat, after: seq<Row>)
    requires siblings != []
    ensures var t := siblings[0];
      var child := if IsExpanded(expanded, t.id) && fuel > 0
        then Forest(tasks, expanded, Children(tasks, Str(t.id)), level + 1, fuel - 1) else [];
      var restF := Forest(tasks, expanded, siblings[1..], level, fuel);
      var f := Forest(tasks, expanded, siblings, level, fuel);
      f + after == [Row(t, level, HasSubtasks(tasks, t.id))] + (child + (restF + after)) &&
      |f| == 1 + |child| + |restF|
  {
    var t := siblings[0];
    var head := [Row(t, level, HasSubtasks(tasks, t.id))];
    var restF := Forest(tasks, expanded, siblings[1..], level, fuel);
    if IsExpanded(expanded, t.id) && fuel > 0 {
      var child := Forest(tasks, expanded, Children(tasks, Str(t.id)), level + 1, fuel - 1);
      assert Forest(tasks, expanded, siblings, level, fuel) == head + child + restF;
      assert head + child + restF + after == head + (child + (restF + after));
    } else {
      assert Forest(tasks, expanded, siblings, level, fuel) == head + restF;
      assert head + restF + after == head + ([] + (restF + after));
    }
  }

  /** A non-empty forest starts with a row at its own depth. */
  lemma ForestStart(tasks: seq<Task>, expanded: map<string, bool>, siblings: seq<Task>, level: nat, fuel: nat)
    ensures var f := Forest(tasks, expanded, siblings, level, fuel); f == [] || f[0].level == level
  {
  }

  /** Every row sits at depth `level` or deeper. */
  predicate AtDepth(rows: seq<Row>, level: nat) {
    forall i :: 0 <= i < |rows| ==> rows[i].level >= level
  }

  lemma AtDepthConcat(a: seq<Row>, b: seq<Row>, level: nat)
    requires AtDepth(a, level) && AtDepth(b, level)
    ensures AtDepth(a + b, level)
  {
    forall i | |a| <= i < |a + b| ensures (a + b)[i] == b[i - |a|] {
    }
  }

  /** Every row of a forest sits at its depth or deeper. */
  lemma {:induction false} ForestDepth(tasks: seq<Task>, expanded: map<string, bool>, siblings: seq<Task>, level: nat, fuel: nat)
    ensures AtDepth(Forest(tasks, expanded, siblings, level, fuel), level)
    decreases fuel, |siblings|
  {
    if siblings != [] {
      var t := siblings[0];
      var child := if IsExpanded(expanded, t.id) && fuel > 0
        then Forest(tasks, expanded, Children(tasks, Str(t.id)), level + 1, fuel - 1) else [];
      var rest := Forest(tasks, expanded, siblings[1..], level, fuel);
      if IsExpanded(expanded, t.id) && fuel > 0 {
        ForestDepth(tasks, expanded, Children(tasks, Str(t.id)), level + 1, fuel - 1);
      }
      assert AtDepth(child, level);
      ForestDepth(tasks, expanded, siblings[1..], level, fuel);
      var head := [Row(t, level, HasSubtasks(tasks, t.id))];
      AtDepthConcat(head, child, level);
      AtDepthConcat(head + child, rest, level);
      assert Forest(tasks, expanded, siblings, level, fuel) == head + child + rest;
    }
  }

  /** A row followed by `child` and then by rows no deeper than it has `child`
      as block, when `child` holds its children's rows if it opens and is empty
      if it does not. */
  lemma HeadBlock(tasks: seq<Task>, expanded: map<string, bool>, limit: nat, r: Row, child: seq<Row>, tail: seq<Row>)
    requires Opens(expanded, r, limit) ==>
      AtDepth(child, r.level + 1) && (child == [] || child[0].level == r.level + 1) &&
      AtLevel(child, r.level + 1) == Children(tasks, Str(r.task.id))
    requires !Opens(expanded, r, limit) ==> child == []
    requires tail == [] || tail[0].level <= r.level
    ensures BlockOk(tasks, expanded, limit, r, child + tail)
  {
    if Opens(expanded, r, limit) {
      BelowPrefix(child, tail, r.level);
    } else {
      assert child + tail == tail;
    }
  }

  /** What the rows below a sibling are: its children's forest, one level down,
      when it opens, and nothing when it does not. */
  lemma ChildFacts(tasks: seq<Task>, expanded: map<string, bool>, r: Row, fuel: nat, limit: nat, child: seq<Row>)
    requires r.level + fuel == limit
    requires child == if IsExpanded(expanded, r.task.id) && fuel > 0
      then Forest(tasks, expanded, Children(tasks, Str(r.task.id)), r.level + 1, fuel - 1) else []
    ensures Opens(expanded, r, limit) ==>
      AtDepth(child, r.level + 1) && (child == [] || child[0].level == r.level + 1) &&
      AtLevel(child, r.level + 1) == Children(tasks, Str(r.task.id))
    ensures !Opens(expanded, r, limit) ==> child == []
  {
    if IsExpanded(expanded, r.task.id) && fuel > 0 {
      var kids := Children(tasks, Str(r.task.id));
      ForestDepth(tasks, expanded, kids, r.level + 1, fuel - 1);
      ForestStart(tasks, expanded, kids, r.level + 1, fuel - 1);
      ForestTopLevel(tasks, expanded, kids, r.level + 1, fuel - 1);
    }
  }

  /** The blocks of a first row, of the rows below it and of the rows after
      them make the blocks of the whole. */
  lemma BlocksStep(tasks: seq<Task>, expanded: map<string, bool>, limit: nat, head: Row, child: seq<Row>, tail: seq<Row>, n: nat, m: nat)
    requires n <= |tail| && m == 1 + |child| + n
    requires BlockOk(tasks, expanded, limit, head, child + tail)
    requires BlocksFrom(tasks, expanded, limit, child + tail, |child|)
    requires BlocksFrom(tasks, expanded, limit, tail, n)
    ensures BlocksFrom(tasks, expanded, limit, [head] + (child + tail), m)
  {
    BlocksJoin(tasks, expanded, limit, child, tail, n);
    var rows := [head] + (child + tail);
    assert rows[0] == head && rows[1..] == child + tail;
  }

  /** Depth first: every row of a forest, whatever rows come after the forest
      (`after`, starting no deeper than `level`), is directly followed by the
      block of its children's rows, or by no deeper row at all. The descent
      stops at depth `limit`. */
  lemma {:induction false} ForestBlocks(tasks: seq<Task>, expanded: map<string, bool>, siblings: seq<Task>, level: nat, fuel: nat, limit: nat, after: seq<Row>)
    requires level + fuel == limit
    requires after == [] || after[0].level <= level
    ensures var f := Forest(tasks, expanded, siblings, level, fuel);
      BlocksFrom(tasks, expanded, limit, f + after, |f|)
    decreases fuel, |siblings|
  {
    if siblings != [] {
      var t := siblings[0];
      var head := Row(t, level, HasSubtasks(tasks, t.id));
      var open := IsExpanded(expanded, t.id) && fuel > 0;
      var kids := Children(tasks, Str(t.id));
      var child := if open then Forest(tasks, expanded, kids, level + 1, fuel - 1) else [];
      var restF := Forest(tasks, expanded, siblings[1..], level, fuel);
      var tail := restF + after;
      var f := Forest(tasks, expanded, siblings, level, fuel);
      ForestCons(tasks, expanded, siblings, level, fuel, after);
      ForestStart(tasks, expanded, siblings[1..], level, fuel);
      assert tail == [] || tail[0].level <= level;
      ChildFacts(tasks, expanded, head, fuel, limit, child);
      HeadBlock(tasks, expanded, limit, head, child, tail);
      if open {
        ForestBlocks(tasks, expanded, kids, level + 1, fuel - 1, limit, tail);
      } else {
        assert BlocksFrom(tasks, expanded, limit, child + tail, |child|);
      }
      ForestBlocks(tasks, expanded, siblings[1..], level, fuel, limit, after);
      BlocksStep(tasks, expanded, limit, head, child, tail, |restF|, |f|);
    }
  }

  /** The table lists the tasks depth first: below each row whose task is
      expanded come exactly its children, in list order, each followed by its
      own block, and below a collapsed row comes no deeper row. */
  lemma TableDepthFirst(tasks: seq<Task>, expanded: map<string, bool>)
    ensures var rows := Rows(tasks, expanded);
      forall i :: 0 <= i < |rows| ==> BlockOk(tasks, expanded, |tasks|, rows[i], rows[i + 1..])
  {
    var rows := Rows(tasks, expanded);
    ForestBlocks(tasks, expanded, Children(tasks, NoParent), 0, |tasks|, |tasks|, []);
    assert rows + [] == rows;
    BlocksAll(tasks, expanded, |tasks|, rows, |rows|);
  }

  /** A task whose parent is the empty string (what the inline parent selector
      stores for "Main Task") never shows: it is not a main task, and no task
      with a non-empty id is its parent. */
  lemma EmptyParentHidden(tasks: seq<Task>, expanded: map<string, bool>)
    requires forall t :: t in tasks ==> t.id != []
    ensures forall r :: r in Rows(tasks, expanded) ==> r.task.parentTaskId != Str([])
  {
    var rows := Rows(tasks, expanded);
    TableRows(tasks, expanded);
    forall i | 0 <= i < |rows| ensures rows[i].task.parentTaskId != Str([]) {
      if rows[i].level != 0 {
        assert UnderEarlier(rows, expanded, i);
        var j :| 0 <= j < i && IsParentRow(rows[j], rows[i], expanded);
        assert rows[j] in rows;
      }
    }
  }

  /** With nothing expanded the table is the main tasks alone, at depth 0. */
  lemma {:induction false} CollapsedForest(tasks: seq<Task>, expanded: map<string, bool>, siblings: seq<Task>, level: nat, fuel: nat)
    requires forall s :: s in siblings ==> !IsExpanded(expanded, s.id)
    ensures var rows := Forest(tasks, expanded, siblings, level, fuel);
      |rows| == |siblings| &&
      forall i :: 0 <= i < |rows| ==> rows[i].task == siblings[i] && rows[i].level == level
    decreases |siblings|
  {
    if siblings != [] {
      CollapsedForest(tasks, expanded, siblings[1..], level, fuel);
      var rest := Forest(tasks, expanded, siblings[1..], level, fuel);
      assert Forest(tasks, expanded, siblings, level, fuel) ==
        [Row(siblings[0], level, HasSubtasks(tasks, siblings[0].id))] + rest;
    }
  }

  lemma CollapsedTable(tasks: seq<Task>, expanded: map<string, bool>)
    requires forall t :: t in tasks ==> !IsExpanded(expanded, t.id)
    ensures var rows := Rows(tasks, expanded); var roots := Children(tasks, NoParent);
      |rows| == |roots| && forall i :: 0 <= i < |rows| ==> rows[i].task == roots[i] && rows[i].level == 0
  {
    ChildrenMembers(tasks, NoParent);
    CollapsedForest(tasks, expanded, Children(tasks, NoParent), 0, |tasks|);
  }
}
