/** The graph view of the task list: one node per task on a four-column grid,
    and one edge from each parent id to the task that names it. */
module TaskGraph {
  import opened JsText
  import opened Tasks

  /** A node: the task's id, the two lines of its label and its position. */
  datatype Node = Node(id: string, title: string, assignedTo: string, x: int, y: int)

  /** An edge from `source` to `target` under the id `e<source>-<target>`. */
  datatype Edge = Edge(id: string, source: string, target: string)

  const Columns: nat := 4
  const ColumnWidth: nat := 250
  const RowHeight: nat := 200

  /** The grid cell of the node at index i: `(i % 4) * 250` across and
      `Math.floor(i / 4) * 200` down. */
  function X(i: nat): nat { (i % Columns) * ColumnWidth }
  function Y(i: nat): nat { (i / Columns) * RowHeight }

  /** `initialNodes`: `tasks.map((task, index) => ...)`. */
  function Nodes(tasks: seq<Task>): (r: seq<Node>)
    ensures |r| == |tasks|
    ensures forall i :: 0 <= i < |r| ==>
      r[i].id == tasks[i].id && r[i].title == tasks[i].title && r[i].assignedTo == tasks[i].assignedTo &&
      r[i].x == X(i) && r[i].y == Y(i)
  {
    seq(|tasks|, i requires 0 <= i < |tasks| =>
      Node(tasks[i].id, tasks[i].title, tasks[i].assignedTo, X(i), Y(i)))
  }

  /** The grid has four columns 250 apart, rows 200 apart, filled row by row:
      a node sits left of the next one in its row, or the next one starts a
      new row at the left edge. */
  lemma GridLayout(i: nat)
    ensures X(i) in {0, 250, 500, 750}
    ensures Y(i) % RowHeight == 0
    ensures i % Columns < Columns - 1 ==> X(i + 1) == X(i) + ColumnWidth && Y(i + 1) == Y(i)
    ensures i % Columns == Columns - 1 ==> X(i + 1) == 0 && Y(i + 1) == Y(i) + RowHeight
  {
    assert (i / Columns) * RowHeight % RowHeight == 0;
    if i % Columns < Columns - 1 {
      assert (i + 1) / Columns == i / Columns && (i + 1) % Columns == i % Columns + 1;
    } else {
      assert (i + 1) / Columns == i / Columns + 1 && (i + 1) % Columns == 0;
    }
  }

  /** Positions follow the list in reading order (row first, then column), so
      no two nodes share a position. */
  lemma ReadingOrder(i: nat, j: nat)
    requires i < j
    ensures Y(i) < Y(j) || (Y(i) == Y(j) && X(i) < X(j))
    ensures (X(i), Y(i)) != (X(j), Y(j))
  {
    if i / Columns == j / Columns {
      assert i % Columns < j % Columns by {
        assert i == (i / Columns) * Columns + i % Columns;
        assert j == (j / Columns) * Columns + j % Columns;
      }
    } else {
      assert i / Columns < j / Columns by {
        DivMonotone(i, j);
      }
    }
  }

  lemma DivMonotone(i: nat, j: nat)
    requires i <= j
    ensures i / Columns <= j / Columns
  {
    assert i == (i / Columns) * Columns + i % Columns;
    assert j == (j / Columns) * Columns + j % Columns;
  }

  /** The edge for a task with a truthy parent. */
  function EdgeOf(t: Task): (e: Edge)
    requires HasParent(t.parentTaskId)
    ensures e.source == t.parentTaskId.s && e.target == t.id
    ensures e.id == "e" + e.source + "-" + e.target
  {
    Edge("e" + t.parentTaskId.s + "-" + t.id, t.parentTaskId.s, t.id)
  }

  /** `initialEdges`: `tasks.filter((task) => task.parentTaskId).map(...)`. A
      task whose parent is `null` or `''` gets no edge; a parent id that names no
      task still gets one. */
  function Edges(tasks: seq<Task>): (r: seq<Edge>)
    ensures |r| <= |tasks|
  {
    if tasks == [] then []
    else (if HasParent(tasks[0].parentTaskId) then [EdgeOf(tasks[0])] else []) + Edges(tasks[1..])
  }

  /** An edge is drawn exactly for each task with a truthy parent. */
  lemma {:induction false} EdgeMembers(tasks: seq<Task>)
    ensures forall e :: e in Edges(tasks) <==>
      exists t :: t in tasks && HasParent(t.parentTaskId) && e == EdgeOf(t)
  {
    if tasks != [] {
      var t := tasks[0];
      EdgeMembers(tasks[1..]);
      assert forall u :: u in tasks <==> u == t || u in tasks[1..];
    }
  }

  /** Edges keep the order of the list: the edges of a concatenation are the
      edges of each part, one after the other. */
  lemma {:induction false} EdgesAppend(a: seq<Task>, b: seq<Task>)
    ensures Edges(a + b) == Edges(a) + Edges(b)
  {
    if a == [] {
      assert a + b == b;
    } else {
      var head := if HasParent(a[0].parentTaskId) then [EdgeOf(a[0])] else [];
      assert (a + b)[0] == a[0] && (a + b)[1..] == a[1..] + b;
      assert Edges(a + b) == head + Edges(a[1..] + b);
      EdgesAppend(a[1..], b);
      assert Edges(a) == head + Edges(a[1..]);
    }
  }

  /** Each edge's target is the id of a distinct task: with distinct ids no two
      edges share a target. */
  predicate TargetsDistinct(r: seq<Edge>) {
    forall i, j :: 0 <= i < j < |r| ==> r[i].target != r[j].target
  }

  lemma {:induction false} EdgeTargetsDistinct(tasks: seq<Task>)
    requires DistinctIds(tasks)
    ensures TargetsDistinct(Edges(tasks))
  {
    if tasks != [] {
      var rest := tasks[1..];
      assert DistinctIds(rest) by {
        forall i, j | 0 <= i < j < |rest| ensures rest[i].id != rest[j].id {
          assert rest[i] == tasks[i + 1] && rest[j] == tasks[j + 1];
        }
      }
      EdgeTargetsDistinct(rest);
      EdgeMembers(rest);
      var r := Edges(tasks);
      if HasParent(tasks[0].parentTaskId) {
        forall e | e in Edges(rest) ensures e.target != tasks[0].id {
          var t :| t in rest && HasParent(t.parentTaskId) && e == EdgeOf(t);
          var k :| 0 <= k < |rest| && rest[k] == t;
          assert tasks[k + 1] == t;
        }
        forall i, j | 0 <= i < j < |r| ensures r[i].target != r[j].target {
          assert r[j] == Edges(rest)[j - 1];
          if i > 0 {
            assert r[i] == Edges(rest)[i - 1];
          } else {
            assert r[j] in Edges(rest);
          }
        }
      }
    }
  }

  predicate NoDash(s: string) {
    forall i :: 0 <= i < |s| ==> s[i] != '-'
  }

  /** When parent ids contain no `-`, an edge id determines its parent and its
      target: the first `-` ends the parent. */
  lemma EdgeIdInjective(p1: string, t1: string, p2: string, t2: string)
    requires NoDash(p1) && NoDash(p2)
    requires "e" + p1 + "-" + t1 == "e" + p2 + "-" + t2
    ensures p1 == p2 && t1 == t2
  {
    var s := "e" + p1 + "-" + t1;
    assert s[|p1| + 1] == '-' && s[|p2| + 1] == '-';
    assert p1 == s[1..|p1| + 1] && p2 == s[1..|p2| + 1];
    assert t1 == s[|p1| + 2..] && t2 == s[|p2| + 2..];
  }

  /** The edge ids are unique ("Unique edge ID") when task ids are distinct and
      no parent id contains `-`, as with ids made of digits. */
  lemma EdgeIdsDistinct(tasks: seq<Task>)
    requires DistinctIds(tasks)
    requires forall t :: t in tasks && t.parentTaskId.Str? ==> NoDash(t.parentTaskId.s)
    ensures var r := Edges(tasks);
      forall i, j :: 0 <= i < j < |r| ==> r[i].id != r[j].id
  {
    var r := Edges(tasks);
    EdgeTargetsDistinct(tasks);
    EdgeMembers(tasks);
    forall i, j | 0 <= i < j < |r| ensures r[i].id != r[j].id {
      assert r[i] in r && r[j] in r;
      var ti :| ti in tasks && HasParent(ti.parentTaskId) && r[i] == EdgeOf(ti);
      var tj :| tj in tasks && HasParent(tj.parentTaskId) && r[j] == EdgeOf(tj);
      if r[i].id == r[j].id {
        EdgeIdInjective(ti.parentTaskId.s, ti.id, tj.parentTaskId.s, tj.id);
      }
    }
  }

  /** No existence check: a task whose parent id names no task still gets an
      edge, which points at a node that does not exist. */
  lemma DanglingParentEdge(t: Task)
    requires t.parentTaskId == Str("9") && t.id == "1"
    ensures Edges([t]) == [Edge("e9-1", "9", "1")]
    ensures forall n :: n in Nodes([t]) ==> n.id != "9"
  {
    assert Edges([t])[0] == EdgeOf(t);
    assert "e" + "9" + "-" + "1" == "e9-1";
  }
}
