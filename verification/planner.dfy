/** The pure part of `analyze` (analyze_dependencies.py:340-378): graph,
    order, groups and the summary counts of the execution plan. */
module Planner {
  import opened Seqs
  import opened Tasks
  import opened Implicit
  import opened Graph
  import opened TopoSort
  import opened Grouping

  /** The plan format version written at line 370. */
  const PlanVersion: string := "20.0"

  /** The `ExecutionGraph` record (lines 46-57) without its timestamp. */
  datatype ExecutionPlan = ExecutionPlan(
    version: string,
    phase: string,
    tasks: seq<Task>,
    parallelGroups: seq<ParallelGroup>,
    executionOrder: seq<string>,
    totalTasks: nat,
    parallelizableTasks: nat,
    sequentialTasks: nat)

  /** `phase or "ALL"` (line 371). */
  function PhaseLabel(phaseFilter: Option<string>): string {
    if phaseFilter.None? || phaseFilter.value == "" then "ALL" else phaseFilter.value
  }

  /** `sum(len(g.tasks) for g in parallel_groups if len(g.tasks) > 1)` (line 377). */
  function ParallelizableTasks(gs: seq<ParallelGroup>): nat {
    if |gs| == 0 then 0
    else (if |gs[0].tasks| > 1 then |gs[0].tasks| else 0) + ParallelizableTasks(gs[1..])
  }

  /** `sum(1 for g in parallel_groups if len(g.tasks) == 1)` (line 378). */
  function SequentialTasks(gs: seq<ParallelGroup>): nat {
    if |gs| == 0 then 0
    else (if |gs[0].tasks| == 1 then 1 else 0) + SequentialTasks(gs[1..])
  }

  /** Every id of the order names one of the tasks kept for the plan. */
  lemma OrderIdsKnown(tasks: seq<Task>, phaseFilter: Option<string>)
    requires DistinctIds(tasks)
    ensures var g := BuildDependencyGraph(tasks, phaseFilter);
      var order := TopoOrder(g);
      Ids(FilterIds(tasks, Elems(order))) == g.Keys == Elems(order) &&
      KnownIds(FilterIds(tasks, Elems(order)), order)
  {
    var g := BuildDependencyGraph(tasks, phaseFilter);
    var order := TopoOrder(g);
    TopoOrderElems(g);
    var kept := FilterIds(tasks, Elems(order));
    assert Ids(kept) == Ids(tasks) * g.Keys == g.Keys;
    forall i | 0 <= i < |order| ensures order[i] in Ids(kept) {
      assert order[i] in Elems(order);
    }
  }

  /** `analyze(phase)` without the file system, clock and output (lines 355-378). */
  function Analyze(tasks: seq<Task>, phaseFilter: Option<string>): ExecutionPlan
    requires DistinctIds(tasks)
  {
    var g := BuildDependencyGraph(tasks, phaseFilter);
    var order := TopoOrder(g);
    var filtered := FilterIds(tasks, Elems(order));
    OrderIdsKnown(tasks, phaseFilter);
    var groups := IdentifyParallelGroups(filtered, g, order);
    ExecutionPlan(PlanVersion, PhaseLabel(phaseFilter), filtered, groups, order,
      |order|, ParallelizableTasks(groups), SequentialTasks(groups))
  }

  /** The parts of the plan, named. */
  lemma PlanFacts(tasks: seq<Task>, phaseFilter: Option<string>)
    requires DistinctIds(tasks)
    ensures var g := BuildDependencyGraph(tasks, phaseFilter);
      var plan := Analyze(tasks, phaseFilter);
      && plan.executionOrder == TopoOrder(g)
      && Distinct(plan.executionOrder)
      && Elems(plan.executionOrder) == g.Keys == Ids(plan.tasks)
      && plan.tasks == FilterIds(tasks, g.Keys)
      && KnownIds(plan.tasks, plan.executionOrder)
      && plan.parallelGroups == IdentifyParallelGroups(plan.tasks, g, plan.executionOrder)
  {
    OrderIdsKnown(tasks, phaseFilter);
    TopoOrderIsPermutation(BuildDependencyGraph(tasks, phaseFilter));
  }

  // ---------------------------------------------------------------------
  // Summary counts

  /** Over non-empty groups, the two counts share out all members. */
  lemma {:induction false} CountsShareMembers(gs: seq<ParallelGroup>)
    requires forall k :: 0 <= k < |gs| ==> |gs[k].tasks| >= 1
    ensures ParallelizableTasks(gs) + SequentialTasks(gs) == |Flatten(gs)|
  {
    if |gs| > 0 {
      CountsShareMembers(gs[1..]);
    }
  }

  /** The plan's tasks are exactly the tasks the phase filter keeps. */
  lemma PlanTasks(tasks: seq<Task>, phaseFilter: Option<string>, t: Task)
    requires DistinctIds(tasks)
    ensures t in Analyze(tasks, phaseFilter).tasks <==> t in tasks && InPhase(t, phaseFilter)
  {
    PlanFacts(tasks, phaseFilter);
    if t in tasks && InPhase(t, phaseFilter) {
      assert t in FilterPhase(tasks, phaseFilter);
    }
  }

  /** The order lists every kept task exactly once, and the groups
      rearrange it. */
  lemma PlanCoversTasks(tasks: seq<Task>, phaseFilter: Option<string>)
    requires DistinctIds(tasks)
    ensures var plan := Analyze(tasks, phaseFilter);
      && Distinct(plan.executionOrder)
      && Ids(plan.tasks) == Elems(plan.executionOrder)
      && multiset(Flatten(plan.parallelGroups)) == multiset(plan.executionOrder)
  {
    var plan := Analyze(tasks, phaseFilter);
    PlanFacts(tasks, phaseFilter);
    GroupsPermuteOrder(plan.tasks, BuildDependencyGraph(tasks, phaseFilter), plan.executionOrder);
  }

  /** `parallelizable_tasks + sequential_tasks == total_tasks`: every
      ordered task is counted once (lines 376-378). */
  lemma PlanCountsAddUp(tasks: seq<Task>, phaseFilter: Option<string>)
    requires DistinctIds(tasks)
    ensures var plan := Analyze(tasks, phaseFilter);
      plan.parallelizableTasks + plan.sequentialTasks == plan.totalTasks
  {
    var plan := Analyze(tasks, phaseFilter);
    PlanCoversTasks(tasks, phaseFilter);
    CountsShareMembers(plan.parallelGroups);
    assert |Flatten(plan.parallelGroups)| == |multiset(Flatten(plan.parallelGroups))|;
  }

  // ---------------------------------------------------------------------
  // Safety of the groups in the full pipeline

  /** With unique ids, two tasks with the same id are the same task. */
  lemma SameTask(tasks: seq<Task>, t1: Task, t2: Task)
    requires DistinctIds(tasks) && t1 in tasks && t2 in tasks && t1.id == t2.id
    ensures t1 == t2
  {
    TaskNamedUnique(tasks, t1);
    TaskNamedUnique(tasks, t2);
  }

  /** A graph node sits at some position of the phase-filtered tasks, and
      the plan's lookup finds the same task there. */
  lemma NodePosition(tasks: seq<Task>, phaseFilter: Option<string>, x: string) returns (k: nat)
    requires DistinctIds(tasks)
    requires x in BuildDependencyGraph(tasks, phaseFilter)
    ensures var fs := FilterPhase(tasks, phaseFilter);
      k < |fs| && fs[k].id == x
    ensures var plan := Analyze(tasks, phaseFilter);
      x in Ids(plan.tasks) && TaskNamed(plan.tasks, x) == FilterPhase(tasks, phaseFilter)[k]
  {
    var fs := FilterPhase(tasks, phaseFilter);
    var plan := Analyze(tasks, phaseFilter);
    PlanFacts(tasks, phaseFilter);
    k := IndexOf(fs, x);
    assert fs[k] in fs;
    SameTask(tasks, TaskNamed(plan.tasks, x), fs[k]);
  }

  /** Two different tasks of the filtered set that modify a common file
      are joined by an edge one way or the other (lines 172-187, 238-242). */
  lemma SharedFileEdge(tasks: seq<Task>, phaseFilter: Option<string>, a: nat, b: nat, f: string)
    requires DistinctIds(tasks)
    requires var fs := FilterPhase(tasks, phaseFilter);
      a < |fs| && b < |fs| && a != b && f in fs[a].files && f in fs[b].files
    ensures var fs := FilterPhase(tasks, phaseFilter);
      var g := BuildDependencyGraph(tasks, phaseFilter);
      fs[a].id in g[fs[b].id] || fs[b].id in g[fs[a].id]
  {
    var fs := FilterPhase(tasks, phaseFilter);
    assert fs[a] in fs && fs[b] in fs;
    if PriorityBefore(fs, a, b) {
      assert ConflictBefore(fs, a, b);
      GraphEdges(tasks, phaseFilter, b, a);
    } else {
      assert PriorityBefore(fs, b, a);
      assert ConflictBefore(fs, b, a);
      GraphEdges(tasks, phaseFilter, a, b);
    }
  }

  /** Two different tasks of the plan that modify a common file are joined
      by an edge one way or the other. */
  lemma SharedFileDependency(tasks: seq<Task>, phaseFilter: Option<string>, x: string, y: string)
    requires DistinctIds(tasks)
    requires var g := BuildDependencyGraph(tasks, phaseFilter);
      x in g && y in g && x != y
    requires var plan := Analyze(tasks, phaseFilter);
      x in Ids(plan.tasks) && y in Ids(plan.tasks) &&
      FilesOf(plan.tasks, x) * FilesOf(plan.tasks, y) != {}
    ensures var g := BuildDependencyGraph(tasks, phaseFilter);
      x in g[y] || y in g[x]
  {
    var plan := Analyze(tasks, phaseFilter);
    var a := NodePosition(tasks, phaseFilter, x);
    var b := NodePosition(tasks, phaseFilter, y);
    var f :| f in FilesOf(plan.tasks, x) * FilesOf(plan.tasks, y);
    SharedFileEdge(tasks, phaseFilter, a, b, f);
  }

  /** No two members of a group modify a common file: a shared file makes
      an implicit edge, and an edge between two members keeps them apart
      (lines 172-187 with 309-321). The check at lines 316-321 alone only
      compares each member with the seed. */
  lemma GroupMembersShareNoFile(tasks: seq<Task>, phaseFilter: Option<string>, k: nat, x: string, y: string)
    requires DistinctIds(tasks)
    requires var plan := Analyze(tasks, phaseFilter);
      && k < |plan.parallelGroups|
      && x in plan.parallelGroups[k].tasks && y in plan.parallelGroups[k].tasks && x != y
    ensures var plan := Analyze(tasks, phaseFilter);
      x in Ids(plan.tasks) && y in Ids(plan.tasks) &&
      FilesOf(plan.tasks, x) * FilesOf(plan.tasks, y) == {}
  {
    var plan := Analyze(tasks, phaseFilter);
    var g := BuildDependencyGraph(tasks, phaseFilter);
    PlanFacts(tasks, phaseFilter);
    MembersApart(plan.tasks, g, plan.executionOrder, k, x, y);
    if FilesOf(plan.tasks, x) * FilesOf(plan.tasks, y) != {} {
      SharedFileDependency(tasks, phaseFilter, x, y);
    }
  }

  /** Two different members of one group are nodes of the order and
      neither depends on the other. */
  lemma MembersApart(ts: seq<Task>, g: DepGraph, order: seq<string>, k: nat, x: string, y: string)
    requires KnownIds(ts, order)
    requires k < |IdentifyParallelGroups(ts, g, order)|
    requires var gs := IdentifyParallelGroups(ts, g, order);
      x in gs[k].tasks && y in gs[k].tasks && x != y
    ensures x in order && y in order
    ensures x !in Deps(g, y) && y !in Deps(g, x)
  {
    var members := IdentifyParallelGroups(ts, g, order)[k].tasks;
    MembersFresh(ts, g, order, k, x);
    MembersFresh(ts, g, order, k, y);
    assert |members| > 1 by {
      var i :| 0 <= i < |members| && members[i] == x;
      var j :| 0 <= j < |members| && members[j] == y;
      assert i != j;
    }
    GroupIndependent(ts, g, order, k, x, y);
    GroupIndependent(ts, g, order, k, y, x);
  }

  /** When the cycle diagnostic stays silent, every member of every group
      has all of its dependencies in earlier groups: the barrier after each
      group is enough (lines 277-280 with 291-335). */
  lemma BarriersSuffice(tasks: seq<Task>, phaseFilter: Option<string>, k: nat, x: string)
    requires DistinctIds(tasks)
    requires Leftovers(BuildDependencyGraph(tasks, phaseFilter)) == {}
    requires var plan := Analyze(tasks, phaseFilter);
      k < |plan.parallelGroups| && x in plan.parallelGroups[k].tasks
    ensures var plan := Analyze(tasks, phaseFilter);
      var g := BuildDependencyGraph(tasks, phaseFilter);
      Deps(g, x) <= Covered(plan.parallelGroups[..k])
  {
    var plan := Analyze(tasks, phaseFilter);
    var g := BuildDependencyGraph(tasks, phaseFilter);
    PlanFacts(tasks, phaseFilter);
    NoLeftoversTopological(g);
    TopologicalBarriers(plan.tasks, g, plan.executionOrder, k, x);
  }

  /** Grouping a topological order of a graph whose edges stay inside it
      puts every dependency of a member into an earlier group. */
  lemma TopologicalBarriers(ts: seq<Task>, g: DepGraph, order: seq<string>, k: nat, x: string)
    requires KnownIds(ts, order)
    requires IsTopological(g, order)
    requires forall id :: id in g ==> g[id] <= g.Keys
    requires k < |IdentifyParallelGroups(ts, g, order)|
    requires x in IdentifyParallelGroups(ts, g, order)[k].tasks
    ensures Deps(g, x) <= Covered(IdentifyParallelGroups(ts, g, order)[..k])
  {
    var gs := IdentifyParallelGroups(ts, g, order);
    if x == gs[k].tasks[0] && |gs[k].tasks| == 1 {
      var p := GroupShape(ts, g, order, k);
      SeedDepsEarlier(g, order, Covered(gs[..k]), p);
    } else {
      CompanionDepsEarlier(ts, g, order, k, x);
    }
  }

  /** In a topological order of a graph whose edges stay inside it, the
      dependencies of the first id not yet covered are all covered. */
  lemma SeedDepsEarlier(g: DepGraph, order: seq<string>, before: set<string>, p: nat)
    requires IsTopological(g, order)
    requires forall id :: id in g ==> g[id] <= g.Keys
    requires FirstFresh(order, 0, before, p)
    ensures Deps(g, order[p]) <= before
  {
    var seed := order[p];
    assert seed in g && InDeps(g, seed) <= Elems(order[..p]);
    assert Deps(g, seed) == InDeps(g, seed);
    forall d | d in Deps(g, seed) ensures d in before {
      var q :| 0 <= q < p && order[..p][q] == d;
      assert order[q] == d;
    }
  }

  /** On an acyclic graph the cycle diagnostic stays silent, so the
      barriers suffice. */
  lemma AcyclicBarriersSuffice(tasks: seq<Task>, phaseFilter: Option<string>, k: nat, x: string)
    requires DistinctIds(tasks)
    requires forall s :: !Stuck(BuildDependencyGraph(tasks, phaseFilter), s)
    requires var plan := Analyze(tasks, phaseFilter);
      k < |plan.parallelGroups| && x in plan.parallelGroups[k].tasks
    ensures var plan := Analyze(tasks, phaseFilter);
      var g := BuildDependencyGraph(tasks, phaseFilter);
      Deps(g, x) <= Covered(plan.parallelGroups[..k])
  {
    AcyclicTopological(BuildDependencyGraph(tasks, phaseFilter));
    BarriersSuffice(tasks, phaseFilter, k, x);
  }
}
