/** The parent chain of a task and the `isDescendant` check that walks it,
    together with the parent options offered for a row. */
module Hierarchy {
  import opened JsText
  import opened Tasks

  /** For each id in the list, the `parentTaskId` of the first task with that id:
      the part of the list that `tasks.find` looks at when walking up. */
  function Links(tasks: seq<Task>): map<string, Parent> {
    if tasks == [] then map[] else Links(tasks[1..])[tasks[0].id := tasks[0].parentTaskId]
  }

  lemma {:induction false} LinksFind(tasks: seq<Task>, id: string)
    ensures id in Links(tasks) <==> Find(tasks, id).Some?
    ensures id in Links(tasks) ==> Links(tasks)[id] == Find(tasks, id).value.parentTaskId
  {
    if tasks != [] && tasks[0].id != id {
      LinksFind(tasks[1..], id);
    }
  }

  /** A step over the link map is a step through `tasks.find`. */
  lemma StepFind(tasks: seq<Task>, p: Parent)
    requires p.Str?
    ensures var f := Find(tasks, p.s);
      Step(Links(tasks), p) == if f.Some? then f.value.parentTaskId else NoParent
  {
    LinksFind(tasks, p.s);
  }

  /** One step up the chain: `currentTask ? currentTask.parentTaskId : null`. */
  function Step(links: map<string, Parent>, p: Parent): Parent {
    if p.Str? && p.s in links then links[p.s] else NoParent
  }

  /** The chain `start, parent(start), parent(parent(start)), ...` at position k. */
  function Walk(links: map<string, Parent>, start: Parent, k: nat): Parent {
    if k == 0 then start else Step(links, Walk(links, start, k - 1))
  }

  /** `target` is `start` or one of its ancestors: what `isDescendant(target, start)`
      answers when its loop stops. A `null` target is never matched, because the
      loop stops at `null` before comparing. */
  ghost predicate Reaches(tasks: seq<Task>, target: Parent, start: Parent) {
    target != NoParent && exists k :: Walk(Links(tasks), start, k) == target
  }

  /** The loop of `isDescendant(target, start)` stops: the chain meets `null` or the target. */
  ghost predicate Halts(tasks: seq<Task>, target: Parent, start: Parent) {
    exists k :: Walk(Links(tasks), start, k) == NoParent || Walk(Links(tasks), start, k) == target
  }

  lemma {:induction false} WalkShift(links: map<string, Parent>, start: Parent, k: nat)
    ensures Walk(links, start, k + 1) == Walk(links, Step(links, start), k)
  {
    if k > 0 {
      WalkShift(links, start, k - 1);
    }
  }

  /** Once the chain reaches `null` it stays there. */
  lemma {:induction false} NoParentStays(links: map<string, Parent>, start: Parent, k: nat, m: nat)
    requires Walk(links, start, k) == NoParent && k <= m
    ensures Walk(links, start, m) == NoParent
  {
    if k < m {
      NoParentStays(links, start, k, m - 1);
    }
  }

  /** Once a chain repeats an element it cycles with that period. */
  lemma {:induction false} Periodic(links: map<string, Parent>, start: Parent, i: nat, j: nat, x: nat)
    requires i < j && Walk(links, start, i) == Walk(links, start, j) && i <= x
    ensures Walk(links, start, x + (j - i)) == Walk(links, start, x)
    decreases x - i
  {
    if x > i {
      Periodic(links, start, i, j, x - 1);
      assert x + (j - i) - 1 == (x - 1) + (j - i);
    }
  }

  /** A chain element that names a task in the list. */
  predicate Live(links: map<string, Parent>, p: Parent) {
    p.Str? && p.s in links
  }

  lemma {:induction false} LinksSize(tasks: seq<Task>)
    ensures |Links(tasks).Keys| <= |tasks|
  {
    if tasks != [] {
      LinksSize(tasks[1..]);
      var m := Links(tasks[1..]);
      assert Links(tasks).Keys == m.Keys + {tasks[0].id};
    }
  }

  /** The ids named by the first m chain elements. */
  function PrefixIds(links: map<string, Parent>, start: Parent, m: nat): set<string> {
    set k | 0 <= k < m && Walk(links, start, k).Str? :: Walk(links, start, k).s
  }

  lemma {:induction false} DistinctPrefixSize(links: map<string, Parent>, start: Parent, m: nat)
    requires forall k :: 0 <= k < m ==> Walk(links, start, k).Str?
    requires forall i, j :: 0 <= i < j < m ==> Walk(links, start, i) != Walk(links, start, j)
    ensures |PrefixIds(links, start, m)| == m
  {
    if m > 0 {
      DistinctPrefixSize(links, start, m - 1);
      PrefixIdsGrow(links, start, m);
    }
  }

  /** One more step of the chain, to an element not met before, adds one id. */
  lemma PrefixIdsGrow(links: map<string, Parent>, start: Parent, m: nat)
    requires m > 0 && Walk(links, start, m - 1).Str?
    requires forall k :: 0 <= k < m - 1 ==> Walk(links, start, k) != Walk(links, start, m - 1)
    ensures |PrefixIds(links, start, m)| == |PrefixIds(links, start, m - 1)| + 1
  {
    var b := PrefixIds(links, start, m - 1);
    var last := Walk(links, start, m - 1);
    PrefixIdsStep(links, start, m);
    forall x | x in b ensures x != last.s {
      var k :| 0 <= k < m - 1 && Walk(links, start, k).Str? && Walk(links, start, k).s == x;
      assert Walk(links, start, k) != last;
    }
  }

  /** One more step of the chain adds its id to the prefix's ids. */
  lemma PrefixIdsStep(links: map<string, Parent>, start: Parent, m: nat)
    requires m > 0 && Walk(links, start, m - 1).Str?
    ensures PrefixIds(links, start, m) == PrefixIds(links, start, m - 1) + {Walk(links, start, m - 1).s}
  {
    var a, b := PrefixIds(links, start, m), PrefixIds(links, start, m - 1);
    forall x | x in a ensures x in b || x == Walk(links, start, m - 1).s {
      var k :| 0 <= k < m && Walk(links, start, k).Str? && Walk(links, start, k).s == x;
      if k < m - 1 {
        assert x in b;
      }
    }
    forall x | x in b ensures x in a {
      var k :| 0 <= k < m - 1 && Walk(links, start, k).Str? && Walk(links, start, k).s == x;
    }
  }

  /** Pigeonhole: a chain whose first |links| + 1 elements all name tasks of the
      list repeats one of them. */
  lemma Repeats(links: map<string, Parent>, start: Parent)
    requires forall k :: 0 <= k <= |links.Keys| ==> Live(links, Walk(links, start, k))
    ensures exists i, j :: 0 <= i < j <= |links.Keys| && Walk(links, start, i) == Walk(links, start, j)
  {
    var n := |links.Keys|;
    if forall i, j :: 0 <= i < j < n + 1 ==> Walk(links, start, i) != Walk(links, start, j) {
      DistinctPrefixSize(links, start, n + 1);
      assert PrefixIds(links, start, n + 1) <= links.Keys;
      SubsetSize(PrefixIds(links, start, n + 1), links.Keys);
      assert false;
    }
  }

  lemma SubsetSize<T>(a: set<T>, b: set<T>)
    requires a <= b
    ensures |a| <= |b|
  {
    assert b == a + (b - a);
  }

  /** Every element before a non-null chain element names a task of the list. */
  lemma {:induction false} LiveBefore(links: map<string, Parent>, start: Parent, k: nat, p: nat)
    requires Walk(links, start, k) != NoParent && p < k
    ensures Live(links, Walk(links, start, p))
  {
    if !Live(links, Walk(links, start, p)) {
      assert Walk(links, start, p + 1) == NoParent;
      NoParentStays(links, start, p + 1, k);
    }
  }

  /** If the target is on the chain at all, it is among its first |links| + 1 elements. */
  lemma {:induction false} ReachedEarly(links: map<string, Parent>, target: Parent, start: Parent, k: nat)
    requires target != NoParent && Walk(links, start, k) == target
    ensures exists m :: 0 <= m <= |links.Keys| && Walk(links, start, m) == target
    decreases k
  {
    if k > |links.Keys| {
      forall p | 0 <= p <= |links.Keys| ensures Live(links, Walk(links, start, p)) {
        LiveBefore(links, start, k, p);
      }
      Repeats(links, start);
      var i, j :| 0 <= i < j <= |links.Keys| && Walk(links, start, i) == Walk(links, start, j);
      var x := k - (j - i);
      Periodic(links, start, i, j, x);
      assert x + (j - i) == k;
      ReachedEarly(links, target, start, x);
    }
  }

  /** The chain walk cut off after `fuel` elements. */
  function OnChain(links: map<string, Parent>, target: Parent, start: Parent, fuel: nat): bool
    decreases fuel
  {
    if fuel == 0 || start == NoParent then false
    else if start == target then true
    else OnChain(links, target, Step(links, start), fuel - 1)
  }

  /** `target` is among the first n elements of the chain. */
  ghost predicate HitWithin(links: map<string, Parent>, target: Parent, start: Parent, n: nat) {
    exists k: nat :: k < n && Walk(links, start, k) == target
  }

  lemma {:induction false} OnChainWalk(links: map<string, Parent>, target: Parent, start: Parent, fuel: nat)
    ensures OnChain(links, target, start, fuel) <==> target != NoParent && HitWithin(links, target, start, fuel)
    decreases fuel
  {
    if fuel == 0 {
    } else if start == NoParent {
      forall k: nat | k < fuel ensures Walk(links, start, k) == NoParent {
        NoParentStays(links, start, 0, k);
      }
    } else if start == target {
      assert Walk(links, start, 0) == target;
    } else {
      var next := Step(links, start);
      OnChainWalk(links, target, next, fuel - 1);
      if HitWithin(links, target, start, fuel) {
        var k: nat :| k < fuel && Walk(links, start, k) == target;
        WalkShift(links, start, k - 1);
        assert Walk(links, next, k - 1) == target;
      }
      if HitWithin(links, target, next, fuel - 1) {
        var k: nat :| k < fuel - 1 && Walk(links, next, k) == target;
        WalkShift(links, start, k);
        assert Walk(links, start, k + 1) == target;
      }
    }
  }

  /** `isDescendant(target, start, tasks)` as a function: the walk needs at most
      |tasks| + 1 steps to decide whether `target` is `start` or an ancestor of it. */
  function InChain(tasks: seq<Task>, target: Parent, start: Parent): (r: bool)
    ensures r <==> Reaches(tasks, target, start)
  {
    var links := Links(tasks);
    LinksSize(tasks);
    OnChainWalk(links, target, start, |tasks| + 1);
    assert Reaches(tasks, target, start) ==> OnChain(links, target, start, |tasks| + 1) by {
      if Reaches(tasks, target, start) {
        var k :| Walk(links, start, k) == target;
        ReachedEarly(links, target, start, k);
        var m :| 0 <= m <= |links.Keys| && Walk(links, start, m) == target;
        assert m < |tasks| + 1;
      }
    }
    OnChain(links, target, start, |tasks| + 1)
  }

  /** `isDescendant(taskId, potentialParentId, tasks)`: walks up from
      `potentialParentId` and answers whether it meets `taskId`, that is, whether
      `taskId` is `potentialParentId` or one of its ancestors. The loop does not
      stop on a chain that cycles without meeting `taskId`; callers only get an
      answer when it stops. */
  method IsDescendant(taskId: Parent, potentialParentId: Parent, tasks: seq<Task>) returns (r: bool)
    requires Halts(tasks, taskId, potentialParentId)
    ensures r <==> Reaches(tasks, taskId, potentialParentId)
  {
    ghost var links := Links(tasks);
    ghost var n: nat :| Walk(links, potentialParentId, n) == NoParent || Walk(links, potentialParentId, n) == taskId;
    ghost var k := 0;
    var currentTaskId := potentialParentId;
    while currentTaskId != NoParent
      invariant currentTaskId == Walk(links, potentialParentId, k)
      invariant forall j :: 0 <= j < k ==> Walk(links, potentialParentId, j) != taskId && Walk(links, potentialParentId, j) != NoParent
      invariant k <= n
      decreases n - k
    {
      if currentTaskId == taskId {
        assert Reaches(tasks, taskId, potentialParentId) by {
          assert Walk(links, potentialParentId, k) == taskId;
        }
        return true;
      }
      assert forall j :: 0 <= j < k + 1 ==> Walk(links, potentialParentId, j) != taskId && Walk(links, potentialParentId, j) != NoParent;
      var currentTask := Find(tasks, currentTaskId.s);
      StepFind(tasks, currentTaskId);
      currentTaskId := if currentTask.Some? then currentTask.value.parentTaskId else NoParent;
      assert currentTaskId == Walk(links, potentialParentId, k + 1);
      k := k + 1;
    }
    assert !Reaches(tasks, taskId, potentialParentId) by {
      forall j | j >= k ensures Walk(links, potentialParentId, j) == NoParent {
        NoParentStays(links, potentialParentId, k, j);
      }
    }
    return false;
  }

  /** Walking i steps and then j more is walking i + j steps. */
  lemma {:induction false} WalkAdd(links: map<string, Parent>, start: Parent, i: nat, j: nat)
    ensures Walk(links, Walk(links, start, i), j) == Walk(links, start, i + j)
  {
    if j > 0 {
      WalkAdd(links, start, i, j - 1);
    }
  }

  /** A task is on its own chain: `isDescendant(id, id)` is true. */
  lemma ReachesSelf(tasks: seq<Task>, id: string)
    ensures Reaches(tasks, Str(id), Str(id))
  {
    assert Walk(Links(tasks), Str(id), 0) == Str(id);
  }

  /** The parent of a task in the list is on its chain. */
  lemma ParentReached(tasks: seq<Task>, id: string)
    requires Find(tasks, id).Some? && Find(tasks, id).value.parentTaskId != NoParent
    ensures Reaches(tasks, Find(tasks, id).value.parentTaskId, Str(id))
  {
    StepFind(tasks, Str(id));
    assert Walk(Links(tasks), Str(id), 1) == Find(tasks, id).value.parentTaskId;
  }

  /** An ancestor of an ancestor is an ancestor. */
  lemma ReachesTrans(tasks: seq<Task>, a: Parent, b: Parent, c: Parent)
    requires Reaches(tasks, b, a) && Reaches(tasks, c, b)
    ensures Reaches(tasks, c, a)
  {
    var links := Links(tasks);
    var i :| Walk(links, a, i) == b;
    var j :| Walk(links, b, j) == c;
    WalkAdd(links, a, i, j);
  }

  /** The parent options of the row of `taskId`:
      `tasks.filter((t) => t.id !== taskId && !isDescendant(t.id, taskId, tasks))`,
      in list order. */
  function ParentOptions(tasks: seq<Task>, taskId: string): (r: seq<Task>)
    ensures |r| <= |tasks|
    ensures forall t :: t in r <==>
      t in tasks && t.id != taskId && !Reaches(tasks, Str(t.id), Str(taskId))
  {
    OptionsAmong(tasks, tasks, taskId)
  }

  function OptionsAmong(tasks: seq<Task>, candidates: seq<Task>, taskId: string): (r: seq<Task>)
    ensures |r| <= |candidates|
    ensures forall t :: t in r <==>
      t in candidates && t.id != taskId && !Reaches(tasks, Str(t.id), Str(taskId))
  {
    if candidates == [] then []
    else
      var t := candidates[0];
      (if t.id != taskId && !InChain(tasks, Str(t.id), Str(taskId)) then [t] else []) +
      OptionsAmong(tasks, candidates[1..], taskId)
  }

  /** The options keep the list's order: the filter distributes over concatenation. */
  lemma {:induction false} OptionsAppend(tasks: seq<Task>, a: seq<Task>, b: seq<Task>, taskId: string)
    ensures OptionsAmong(tasks, a + b, taskId) == OptionsAmong(tasks, a, taskId) + OptionsAmong(tasks, b, taskId)
  {
    if a == [] {
      assert a + b == b;
    } else {
      assert (a + b)[0] == a[0] && (a + b)[1..] == a[1..] + b;
      OptionsAppend(tasks, a[1..], b, taskId);
    }
  }
}
