// The block-parallel range benchmark: one task per (query, clause, block), run
// block by block or query by query, and the in-place removal of duplicate ids.

module RangeBench {
  import opened Divisibility
  import opened Ranking
  import opened Dedup

  datatype Range = Range(lo: nat, hi: nat)

  datatype Task = Task(query: nat, block: nat, overlap: int, full: bool, clause: nat)

  /** Queries are lists of clauses; width is the number of attribute values per block. */
  datatype Bench = Bench(queries: seq<seq<Range>>, width: nat, blocks: nat)

  ghost predicate ValidBench(b: Bench) {
    b.width > 0 && forall q :: 0 <= q < |b.queries| ==>
      forall c :: 0 <= c < |b.queries[q]| ==> b.queries[q][c].hi / b.width < b.blocks
  }

  function TaskOf(b: Bench, q: nat, c: nat, block: nat): Task
    requires b.width > 0 && q < |b.queries| && c < |b.queries[q]|
  {
    var r := b.queries[q][c];
    var lo, hi := block * b.width, block * b.width + b.width - 1;
    var overlap := Min(r.hi, hi) - (if r.lo > lo then r.lo else lo) + 1;
    Task(q, block, overlap, overlap == b.width, c)
  }

  /** Tasks of one clause for blocks [block, last]. */
  function ClauseTasks(b: Bench, q: nat, c: nat, block: nat): seq<Task>
    requires b.width > 0 && q < |b.queries| && c < |b.queries[q]|
    decreases b.queries[q][c].hi / b.width + 1 - block
  {
    if block > b.queries[q][c].hi / b.width then []
    else [TaskOf(b, q, c, block)] + ClauseTasks(b, q, c, block + 1)
  }

  function FirstBlock(b: Bench, q: nat, c: nat): nat
    requires b.width > 0 && q < |b.queries| && c < |b.queries[q]|
  {
    b.queries[q][c].lo / b.width
  }

  /** Tasks of the first n clauses of one query. */
  function QueryTasks(b: Bench, q: nat, n: nat): seq<Task>
    requires b.width > 0 && q < |b.queries| && n <= |b.queries[q]|
  {
    if n == 0 then [] else QueryTasks(b, q, n - 1) + ClauseTasks(b, q, n - 1, FirstBlock(b, q, n - 1))
  }

  /** Tasks of the first n queries, in plan order. */
  function AllTasks(b: Bench, n: nat): seq<Task>
    requires b.width > 0 && n <= |b.queries|
  {
    if n == 0 then [] else AllTasks(b, n - 1) + QueryTasks(b, n - 1, |b.queries[n - 1]|)
  }

  /** Clause c of query q touches the block. */
  predicate InSpan(b: Bench, q: nat, c: nat, block: nat)
    requires b.width > 0 && q < |b.queries| && c < |b.queries[q]|
  {
    b.queries[q][c].lo / b.width <= block <= b.queries[q][c].hi / b.width
  }

  /** Lexicographic by query, clause and block. */
  predicate Precedes(x: Task, y: Task) {
    || x.query < y.query
    || (x.query == y.query && (x.clause < y.clause || (x.clause == y.clause && x.block < y.block)))
  }

  ghost predicate InPlanOrder(tasks: seq<Task>) {
    forall i, j :: 0 <= i < j < |tasks| ==> Precedes(tasks[i], tasks[j])
  }

  lemma Follow(x: seq<Task>, y: seq<Task>)
    requires InPlanOrder(x) && InPlanOrder(y) && forall t, u :: t in x && u in y ==> Precedes(t, u)
    ensures InPlanOrder(x + y)
  {
    hide Precedes;
    forall i, j | 0 <= i < j < |x + y| ensures Precedes((x + y)[i], (x + y)[j]) {
      assert i < |x| ==> x[i] in x;
      assert j >= |x| ==> y[j - |x|] in y;
    }
  }

  /** A task of the plan: its clause exists and touches its block. */
  predicate IsTask(b: Bench, t: Task)
    requires b.width > 0
  {
    && t.query < |b.queries| && t.clause < |b.queries[t.query]| && InSpan(b, t.query, t.clause, t.block)
    && t == TaskOf(b, t.query, t.clause, t.block)
  }

  lemma {:induction false} ClauseTasksOf(b: Bench, q: nat, c: nat, block: nat)
    requires b.width > 0 && q < |b.queries| && c < |b.queries[q]| && FirstBlock(b, q, c) <= block
    ensures forall t :: t in ClauseTasks(b, q, c, block) <==>
      IsTask(b, t) && t.query == q && t.clause == c && block <= t.block
    ensures InPlanOrder(ClauseTasks(b, q, c, block))
    decreases b.queries[q][c].hi / b.width + 1 - block
  {
    if block <= b.queries[q][c].hi / b.width {
      ClauseTasksOf(b, q, c, block + 1);
      Follow([TaskOf(b, q, c, block)], ClauseTasks(b, q, c, block + 1));
    }
  }

  lemma {:induction false} QueryTasksOf(b: Bench, q: nat, n: nat)
    requires ValidBench(b) && q < |b.queries| && n <= |b.queries[q]|
    ensures forall t :: t in QueryTasks(b, q, n) <==> IsTask(b, t) && t.query == q && t.clause < n
    ensures InPlanOrder(QueryTasks(b, q, n))
  {
    hide TaskOf, ClauseTasks;
    if n > 0 {
      QueryTasksOf(b, q, n - 1);
      ClauseTasksOf(b, q, n - 1, FirstBlock(b, q, n - 1));
      Follow(QueryTasks(b, q, n - 1), ClauseTasks(b, q, n - 1, FirstBlock(b, q, n - 1)));
    }
  }

  lemma {:induction false} AllTasksOf(b: Bench, n: nat)
    requires ValidBench(b) && n <= |b.queries|
    ensures forall t :: t in AllTasks(b, n) <==> IsTask(b, t) && t.query < n
    ensures InPlanOrder(AllTasks(b, n))
  {
    hide IsTask, QueryTasks;
    if n > 0 {
      AllTasksOf(b, n - 1);
      QueryTasksOf(b, n - 1, |b.queries[n - 1]|);
      AllClauses(b, n - 1);
      Follow(AllTasks(b, n - 1), QueryTasks(b, n - 1, |b.queries[n - 1]|));
    }
  }

  lemma AllClauses(b: Bench, q: nat)
    requires ValidBench(b) && q < |b.queries|
    ensures forall t :: IsTask(b, t) && t.query == q ==> t.clause < |b.queries[q]|
  {
  }

  /** The attribute values from lo up to, but not including, end. */
  ghost function Values(lo: nat, end: nat): (values: set<nat>)
    ensures forall v: nat :: v in values <==> lo <= v < end
    ensures |values| == if lo < end then end - lo else 0
    decreases end
  {
    if lo >= end then {} else Values(lo, end - 1) + {end - 1}
  }

  /** The values of a clause inside a block that it touches. */
  lemma Overlap(lo: nat, hi: nat, at: nat, width: nat)
    requires width > 0 && lo < at + width && at <= hi
    ensures var inBlock, inClause := Values(at, at + width), Values(lo, hi + 1);
      var overlap := Min(hi, at + width - 1) - (if lo > at then lo else at) + 1;
      && (overlap == width <==> inBlock <= inClause)
      && (lo <= hi ==> overlap == |inBlock * inClause|)
  {
    hide Values;
    var inBlock, inClause := Values(at, at + width), Values(lo, hi + 1);
    var first, last := if lo > at then lo else at, Min(hi, at + width - 1);
    var both := Values(first, last + 1);
    assert forall v: nat :: v in both <==> v in inBlock && v in inClause;
    assert inBlock * inClause == both;
    assert at in inBlock && at + width - 1 in inBlock;
    if inBlock <= inClause {
      assert at in inClause && at + width - 1 in inClause;
    }
  }

  /** What a task says about the attribute values of its block and of its clause. */
  lemma TaskMeans(b: Bench, t: Task)
    requires b.width > 0 && IsTask(b, t)
    ensures var r, at := b.queries[t.query][t.clause], t.block * b.width;
      var inBlock, inClause := Values(at, at + b.width), Values(r.lo, r.hi + 1);
      && (t.full <==> inBlock <= inClause)
      && (r.lo <= r.hi ==> t.overlap == |inBlock * inClause|)
  {
    hide Values;
    var r := b.queries[t.query][t.clause];
    Meets(r.lo, r.hi, b.width, t.block);
    Overlap(r.lo, r.hi, t.block * b.width, b.width);
  }

  lemma Meets(lo: nat, hi: nat, width: nat, block: nat)
    requires width > 0
    ensures lo / width <= block <= hi / width <==> lo < block * width + width && block * width <= hi
  {
    var x, y := lo / width, hi / width;
    Division(lo, width);
    Division(hi, width);
    if x < block { Apart(width, x, block); } else if block < x { Apart(width, block, x); }
    if y < block { Apart(width, y, block); } else if block < y { Apart(width, block, y); }
  }

  /** The plan has a task for this clause and this block. */
  ghost predicate Planned(tasks: seq<Task>, q: nat, c: nat, block: nat) {
    exists i :: 0 <= i < |tasks| && tasks[i].query == q && tasks[i].clause == c && tasks[i].block == block
  }

  /** The plan in terms of attribute values. */
  lemma PlanMeans(b: Bench, tasks: seq<Task>)
    requires ValidBench(b) && tasks == AllTasks(b, |b.queries|)
    ensures forall t :: t in tasks ==>
      t.query < |b.queries| && t.clause < |b.queries[t.query]| && t.block < b.blocks
    ensures forall t :: t in tasks ==>
      var r, at := b.queries[t.query][t.clause], t.block * b.width;
      var inBlock, inClause := Values(at, at + b.width), Values(r.lo, r.hi + 1);
      && (t.full <==> inBlock <= inClause)
      && (r.lo <= r.hi ==> t.overlap == |inBlock * inClause|)
    ensures forall q, c, block: nat :: 0 <= q < |b.queries| && 0 <= c < |b.queries[q]| ==>
      (Planned(tasks, q, c, block) <==>
        block * b.width <= b.queries[q][c].hi && b.queries[q][c].lo < block * b.width + b.width)
    ensures forall i, j :: 0 <= i < j < |tasks| ==>
      || tasks[i].query < tasks[j].query
      || (tasks[i].query == tasks[j].query && tasks[i].clause < tasks[j].clause)
      || (tasks[i].query == tasks[j].query && tasks[i].clause == tasks[j].clause && tasks[i].block < tasks[j].block)
  {
    hide AllTasks, IsTask, Values, Planned;
    AllTasksOf(b, |b.queries|);
    forall t | t in tasks
      ensures t.query < |b.queries| && t.clause < |b.queries[t.query]| && t.block < b.blocks
      ensures var r, at := b.queries[t.query][t.clause], t.block * b.width;
        var inBlock, inClause := Values(at, at + b.width), Values(r.lo, r.hi + 1);
        && (t.full <==> inBlock <= inClause)
        && (r.lo <= r.hi ==> t.overlap == |inBlock * inClause|)
    {
      TaskIsValid(b, t);
      TaskMeans(b, t);
    }
    forall q: nat, c: nat, block: nat | q < |b.queries| && c < |b.queries[q]|
      ensures Planned(tasks, q, c, block) <==>
        block * b.width <= b.queries[q][c].hi && b.queries[q][c].lo < block * b.width + b.width
    {
      PlannedMeans(b, tasks, q, c, block);
    }
  }

  lemma TaskIsValid(b: Bench, t: Task)
    requires ValidBench(b) && IsTask(b, t)
    ensures t.query < |b.queries| && t.clause < |b.queries[t.query]| && t.block < b.blocks
  {
  }

  lemma PlannedMeans(b: Bench, tasks: seq<Task>, q: nat, c: nat, block: nat)
    requires b.width > 0 && q < |b.queries| && c < |b.queries[q]|
    requires forall t :: t in tasks <==> IsTask(b, t) && t.query < |b.queries|
    ensures Planned(tasks, q, c, block) <==>
      block * b.width <= b.queries[q][c].hi && b.queries[q][c].lo < block * b.width + b.width
  {
    var r := b.queries[q][c];
    Meets(r.lo, r.hi, b.width, block);
    if Planned(tasks, q, c, block) {
      var i :| 0 <= i < |tasks| && tasks[i].query == q && tasks[i].clause == c && tasks[i].block == block;
      assert tasks[i] in tasks;
    }
    if InSpan(b, q, c, block) {
      assert IsTask(b, TaskOf(b, q, c, block));
      assert TaskOf(b, q, c, block) in tasks;
    }
  }

  /** Each work list names, in order, exactly the tasks of its block. */
  ghost predicate ListsPartition(lists: seq<seq<nat>>, tasks: seq<Task>) {
    && (forall k, i :: 0 <= k < |lists| && 0 <= i < |lists[k]| ==>
         lists[k][i] < |tasks| && tasks[lists[k][i]].block == k)
    && (forall k, i, j :: 0 <= k < |lists| && 0 <= i < j < |lists[k]| ==> lists[k][i] < lists[k][j])
    && (forall id :: 0 <= id < |tasks| ==> tasks[id].block < |lists| && id in lists[tasks[id].block])
  }

  lemma AppendTask(lists: seq<seq<nat>>, tasks: seq<Task>, t: Task)
    requires ListsPartition(lists, tasks) && t.block < |lists|
    ensures ListsPartition(lists[t.block := lists[t.block] + [|tasks|]], tasks + [t])
  {
    var more := lists[t.block := lists[t.block] + [|tasks|]];
    var all := tasks + [t];
    forall id | 0 <= id < |all| ensures all[id].block < |more| && id in more[all[id].block] {
      if id < |tasks| {
        assert id in lists[tasks[id].block];
      }
    }
  }

  /** The block loop of one clause. */
  method PlanClause(b: Bench, q: nat, c: nat, before: seq<Task>, listsBefore: seq<seq<nat>>)
    returns (tasks: seq<Task>, lists: seq<seq<nat>>)
    requires ValidBench(b) && q < |b.queries| && c < |b.queries[q]|
    requires |listsBefore| == b.blocks && ListsPartition(listsBefore, before)
    ensures tasks == before + ClauseTasks(b, q, c, FirstBlock(b, q, c))
    ensures |lists| == b.blocks && ListsPartition(lists, tasks)
  {
    hide ListsPartition;
    tasks, lists := before, listsBefore;
    var block := b.queries[q][c].lo / b.width;
    while block <= b.queries[q][c].hi / b.width
      invariant tasks + ClauseTasks(b, q, c, block) == before + ClauseTasks(b, q, c, FirstBlock(b, q, c))
      invariant |lists| == b.blocks && ListsPartition(lists, tasks)
      decreases b.queries[q][c].hi / b.width + 1 - block
    {
      var task := TaskOf(b, q, c, block);
      AppendTask(lists, tasks, task);
      lists := lists[block := lists[block] + [|tasks|]];
      tasks := tasks + [task];
      block := block + 1;
    }
  }

  /** The planning loop: tasks and work lists grow together. */
  method PlanTasks(b: Bench) returns (tasks: seq<Task>, lists: seq<seq<nat>>)
    requires ValidBench(b)
    ensures tasks == AllTasks(b, |b.queries|)
    ensures forall t :: t in tasks ==>
      t.query < |b.queries| && t.clause < |b.queries[t.query]| && t.block < b.blocks
    ensures forall t :: t in tasks ==>
      var r, at := b.queries[t.query][t.clause], t.block * b.width;
      var inBlock, inClause := Values(at, at + b.width), Values(r.lo, r.hi + 1);
      && (t.full <==> inBlock <= inClause)
      && (r.lo <= r.hi ==> t.overlap == |inBlock * inClause|)
    ensures forall q, c, block: nat :: 0 <= q < |b.queries| && 0 <= c < |b.queries[q]| ==>
      (Planned(tasks, q, c, block) <==>
        block * b.width <= b.queries[q][c].hi && b.queries[q][c].lo < block * b.width + b.width)
    ensures forall i, j :: 0 <= i < j < |tasks| ==>
      || tasks[i].query < tasks[j].query
      || (tasks[i].query == tasks[j].query && tasks[i].clause < tasks[j].clause)
      || (tasks[i].query == tasks[j].query && tasks[i].clause == tasks[j].clause && tasks[i].block < tasks[j].block)
    ensures |lists| == b.blocks && ListsPartition(lists, tasks)
  {
    hide ListsPartition, ClauseTasks, Planned;
    tasks := [];
    lists := seq(b.blocks, _ => []);
    NoTasks(lists);
    for q := 0 to |b.queries|
      invariant tasks == AllTasks(b, q)
      invariant |lists| == b.blocks && ListsPartition(lists, tasks)
    {
      for c := 0 to |b.queries[q]|
        invariant tasks == AllTasks(b, q) + QueryTasks(b, q, c)
        invariant |lists| == b.blocks && ListsPartition(lists, tasks)
      {
        tasks, lists := PlanClause(b, q, c, tasks, lists);
      }
    }
    PlanMeans(b, tasks);
  }

  lemma NoTasks(lists: seq<seq<nat>>)
    requires forall k :: 0 <= k < |lists| ==> lists[k] == []
    ensures ListsPartition(lists, [])
  {
  }

  // --- The two schedules ---

  /** Block search: any deterministic function of the task. */
  type Search = Task -> seq<Hit>

  ghost function Concat(search: Search, tasks: seq<Task>): seq<Hit> {
    if tasks == [] then [] else Concat(search, tasks[..|tasks| - 1]) + search(tasks[|tasks| - 1])
  }

  lemma ConcatLast(search: Search, x: seq<Task>)
    requires x != []
    ensures Concat(search, x) == Concat(search, x[..|x| - 1]) + search(x[|x| - 1])
  {
  }

  lemma {:induction false} ConcatSplit(search: Search, x: seq<Task>, y: seq<Task>)
    ensures Concat(search, x + y) == Concat(search, x) + Concat(search, y)
  {
    if y == [] {
      assert x + y == x;
    } else {
      var most, last := y[..|y| - 1], y[|y| - 1];
      ConcatSplit(search, x, most);
      ConcatLast(search, x + y);
      ConcatLast(search, y);
      hide Concat;
      assert (x + y)[..|x + y| - 1] == x + most && (x + y)[|x + y| - 1] == last;
    }
  }

  /** Tasks of one query among a list. */
  ghost function OfQuery(tasks: seq<Task>, q: nat): seq<Task> {
    if tasks == [] then []
    else OfQuery(tasks[..|tasks| - 1], q) + if tasks[|tasks| - 1].query == q then [tasks[|tasks| - 1]] else []
  }

  lemma {:induction false} OfQuerySplit(x: seq<Task>, y: seq<Task>, q: nat)
    ensures OfQuery(x + y, q) == OfQuery(x, q) + OfQuery(y, q)
  {
    if y == [] {
      assert x + y == x;
    } else {
      OfQuerySplit(x, y[..|y| - 1], q);
      assert (x + y)[..|x + y| - 1] == x + y[..|y| - 1];
    }
  }

  lemma {:induction false} OfQueryUniform(tasks: seq<Task>, q: nat, p: nat)
    requires forall t :: t in tasks ==> t.query == p
    ensures OfQuery(tasks, q) == if p == q then tasks else []
  {
    if tasks != [] {
      OfQueryUniform(tasks[..|tasks| - 1], q, p);
      assert tasks == tasks[..|tasks| - 1] + [tasks[|tasks| - 1]];
    }
  }

  /** Selecting one query from the plan gives back that query's own tasks. */
  lemma {:induction false} PlanOfQuery(b: Bench, n: nat, q: nat)
    requires ValidBench(b) && n <= |b.queries| && q < |b.queries|
    ensures OfQuery(AllTasks(b, n), q) == if q < n then QueryTasks(b, q, |b.queries[q]|) else []
  {
    if n > 0 {
      PlanOfQuery(b, n - 1, q);
      QueryTasksOf(b, n - 1, |b.queries[n - 1]|);
      OfQueryUniform(QueryTasks(b, n - 1, |b.queries[n - 1]|), q, n - 1);
      OfQuerySplit(AllTasks(b, n - 1), QueryTasks(b, n - 1, |b.queries[n - 1]|), q);
    }
  }

  /** Task `id` is among the first `next` of its block's list. */
  ghost predicate Ran(tasks: seq<Task>, lists: seq<seq<nat>>, next: seq<nat>, id: nat) {
    id < |tasks| && exists i: nat :: RanAt(tasks[id].block, i, lists, next, id)
  }

  ghost predicate RanAt(block: nat, i: nat, lists: seq<seq<nat>>, next: seq<nat>, id: nat) {
    block < |lists| && block < |next| && i < next[block] && i < |lists[block]| && lists[block][i] == id
  }

  ghost predicate Distinct(runs: seq<nat>) {
    forall i, j :: 0 <= i < j < |runs| ==> runs[i] != runs[j]
  }

  lemma RanOnly(tasks: seq<Task>, lists: seq<seq<nat>>, next: seq<nat>, block: nat)
    requires ListsPartition(lists, tasks) && |next| == |lists| && block < |lists| && next[block] < |lists[block]|
    ensures var id := lists[block][next[block]];
      && id < |tasks| && !Ran(tasks, lists, next, id)
      && forall other: nat :: Ran(tasks, lists, next[block := next[block] + 1], other) <==>
           (Ran(tasks, lists, next, other) || other == id)
  {
    var id, more := lists[block][next[block]], next[block := next[block] + 1];
    assert tasks[id].block == block;
    assert RanAt(block, next[block], lists, more, id);
    forall other: nat | Ran(tasks, lists, next, other) ensures Ran(tasks, lists, more, other) {
      var i: nat :| RanAt(tasks[other].block, i, lists, next, other);
      assert RanAt(tasks[other].block, i, lists, more, other);
    }
    forall other: nat | Ran(tasks, lists, more, other) && other != id ensures Ran(tasks, lists, next, other) {
      var i: nat :| RanAt(tasks[other].block, i, lists, more, other);
      assert RanAt(tasks[other].block, i, lists, next, other);
    }
  }

  lemma AllRan(tasks: seq<Task>, lists: seq<seq<nat>>, next: seq<nat>)
    requires ListsPartition(lists, tasks) && |next| == |lists|
    requires forall block :: 0 <= block < |lists| ==> next[block] >= |lists[block]|
    ensures forall id: nat :: id < |tasks| ==> Ran(tasks, lists, next, id)
  {
    forall id: nat | id < |tasks| ensures Ran(tasks, lists, next, id) {
      var block := tasks[id].block;
      var i: nat :| i < |lists[block]| && lists[block][i] == id;
      assert RanAt(block, i, lists, next, id);
    }
  }

  /** Block schedule, search phase: the blocks work through their lists in
      parallel, one task at a time in any interleaving; every task runs once and
      fills its own slot. */
  method RunBlocks(tasks: seq<Task>, lists: seq<seq<nat>>, search: Search)
    returns (results: array<seq<Hit>>, ghost runs: seq<nat>)
    requires ListsPartition(lists, tasks)
    ensures fresh(results) && results.Length == |tasks|
    ensures forall id :: 0 <= id < |tasks| ==> results[id] == search(tasks[id])
    ensures Distinct(runs) && forall id: nat :: id in runs <==> id < |tasks|
  {
    hide ListsPartition, Ran;
    results := new seq<Hit>[|tasks|](_ => []);
    var next: seq<nat> := seq(|lists|, _ => 0);
    runs := [];
    ghost var waiting := Below(|tasks|);
    NoneRan(tasks, lists, next);
    while exists block :: 0 <= block < |lists| && next[block] < |lists[block]|
      invariant |next| == |lists| && Distinct(runs)
      invariant forall id: nat :: id in runs <==> Ran(tasks, lists, next, id)
      invariant forall id: nat :: id in runs ==> id < |tasks| && results[id] == search(tasks[id])
      invariant forall id: nat :: id in waiting <==> id < |tasks| && id !in runs
      decreases waiting
    {
      var block :| 0 <= block < |lists| && next[block] < |lists[block]|;
      RanOnly(tasks, lists, next, block);
      var id := lists[block][next[block]];
      results[id] := search(tasks[id]);
      next := next[block := next[block] + 1];
      assert forall j :: 0 <= j < |runs| ==> runs[j] in runs;
      runs, waiting := runs + [id], waiting - {id};
    }
    AllRan(tasks, lists, next);
  }

  ghost function Below(n: nat): (ids: set<nat>)
    ensures forall id: nat :: id in ids <==> id < n
  {
    if n == 0 then {} else Below(n - 1) + {n - 1}
  }

  lemma NoneRan(tasks: seq<Task>, lists: seq<seq<nat>>, next: seq<nat>)
    requires forall block :: 0 <= block < |next| ==> next[block] == 0
    ensures forall id: nat :: !Ran(tasks, lists, next, id)
  {
  }

  /** Block schedule, merge phase: slots of one query in task order. */
  method MergeSlots(tasks: seq<Task>, results: array<seq<Hit>>, ghost search: Search, q: nat) returns (merged: seq<Hit>)
    requires results.Length == |tasks| && forall id :: 0 <= id < |tasks| ==> results[id] == search(tasks[id])
    ensures merged == Concat(search, OfQuery(tasks, q))
  {
    merged := [];
    for id := 0 to |tasks|
      invariant merged == Concat(search, OfQuery(tasks[..id], q))
    {
      OfQuerySplit(tasks[..id], [tasks[id]], q);
      assert tasks[..id + 1] == tasks[..id] + [tasks[id]];
      ConcatSplit(search, OfQuery(tasks[..id], q), OfQuery([tasks[id]], q));
      OneTask(search, tasks[id], q);
      if tasks[id].query == q {
        merged := merged + results[id];
      }
    }
    assert tasks[..|tasks|] == tasks;
  }

  lemma OneTask(search: Search, t: Task, q: nat)
    ensures OfQuery([t], q) == if t.query == q then [t] else []
    ensures Concat(search, [t]) == search(t)
  {
    assert [t][..0] == [];
  }

  method RunClause(b: Bench, search: Search, q: nat, c: nat) returns (merged: seq<Hit>)
    requires ValidBench(b) && q < |b.queries| && c < |b.queries[q]|
    ensures merged == Concat(search, ClauseTasks(b, q, c, FirstBlock(b, q, c)))
  {
    hide Concat;
    merged := [];
    ghost var done: seq<Task> := [];
    NoneFound(search);
    var block := b.queries[q][c].lo / b.width;
    while block <= b.queries[q][c].hi / b.width
      invariant done + ClauseTasks(b, q, c, block) == ClauseTasks(b, q, c, FirstBlock(b, q, c))
      invariant merged == Concat(search, done)
      decreases b.queries[q][c].hi / b.width + 1 - block
    {
      var task := TaskOf(b, q, c, block);
      ConcatSplit(search, done, [task]);
      OneTask(search, task, q);
      merged := merged + search(task);
      done := done + [task];
      block := block + 1;
    }
    assert done + ClauseTasks(b, q, c, block) == done;
  }

  lemma NoneFound(search: Search)
    ensures Concat(search, []) == []
  {
  }

  /** Query schedule: clauses and blocks of one query, searched in place. */
  method RunQuery(b: Bench, search: Search, q: nat) returns (merged: seq<Hit>)
    requires ValidBench(b) && q < |b.queries|
    ensures merged == Concat(search, QueryTasks(b, q, |b.queries[q]|))
  {
    hide Concat, ClauseTasks;
    merged := [];
    NoneFound(search);
    for c := 0 to |b.queries[q]|
      invariant merged == Concat(search, QueryTasks(b, q, c))
    {
      var found := RunClause(b, search, q, c);
      ConcatSplit(search, QueryTasks(b, q, c), ClauseTasks(b, q, c, FirstBlock(b, q, c)));
      merged := merged + found;
    }
  }

  /** What one query asks for: everything its own block searches found, clause by clause. */
  ghost function Found(b: Bench, search: Search, q: nat): seq<Hit>
    requires ValidBench(b) && q < |b.queries|
  {
    Concat(search, QueryTasks(b, q, |b.queries[q]|))
  }

  lemma {:induction false} ConcatMembers(search: Search, tasks: seq<Task>)
    ensures forall h :: h in Concat(search, tasks) <==> exists t :: t in tasks && h in search(t)
  {
    if tasks != [] {
      ConcatMembers(search, tasks[..|tasks| - 1]);
      assert tasks == tasks[..|tasks| - 1] + [tasks[|tasks| - 1]];
    }
  }

  /** What a query finds is what the searches of its planned tasks return. */
  lemma FoundMeans(b: Bench, search: Search, q: nat, tasks: seq<Task>)
    requires ValidBench(b) && q < |b.queries| && tasks == AllTasks(b, |b.queries|)
    ensures forall h :: h in Found(b, search, q) <==> exists t :: t in tasks && t.query == q && h in search(t)
  {
    hide Concat, AllTasks, QueryTasks, IsTask;
    AllTasksOf(b, |b.queries|);
    QueryTasksOf(b, q, |b.queries[q]|);
    AllClauses(b, q);
    ConcatMembers(search, QueryTasks(b, q, |b.queries[q]|));
  }

  /** Both schedules end with the same ids, for every deterministic block search:
      the ranked k least of what was found, each id once when there are several clauses. */
  method CompareSchedules(b: Bench, search: Search, clauses: nat, k: nat, q: nat)
    returns (block: seq<int>, query: seq<int>)
    requires ValidBench(b) && q < |b.queries|
    ensures block == query
    ensures clauses <= 1 ==> block == Ids(TopK(Found(b, search, q), k))
    ensures clauses > 1 ==> RanksDistinct(Found(b, search, q), k, block)
  {
    hide Concat, RanksDistinct;
    var tasks, lists := PlanTasks(b);
    var results, runs := RunBlocks(tasks, lists, search);
    var merged := MergeSlots(tasks, results, search, q);
    PlanOfQuery(b, |b.queries|, q);
    var direct := RunQuery(b, search, q);
    block := FinishQuery(merged, clauses, k);
    query := FinishQuery(direct, clauses, k);
    if clauses > 1 {
      DistinctRankingIsUnique(merged, k, block, query);
    }
  }
}
