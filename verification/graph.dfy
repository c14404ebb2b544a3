/** The merged dependency graph (build_dependency_graph,
    analyze_dependencies.py:219-244). */
module Graph {
  import opened Seqs
  import opened Tasks
  import opened Phases
  import opened Implicit

  /** task id -> ids of the tasks it must wait for. */
  type DepGraph = map<string, set<string>>

  /** `set(d for d in task.dependencies if d in tasks)` (line 228): explicit
      ids naming no active task are dropped. */
  function ExplicitDeps(t: Task, ids: set<string>): set<string> {
    set d | d in t.deps && d in ids
  }

  /** One task's entry: its explicit, phase and file-conflict dependencies
      merged, each restricted to the active tasks (lines 228-242). */
  function MergedDeps(fs: seq<Task>, id: string): (deps: set<string>)
    requires id in Ids(fs)
    ensures deps <= Ids(fs)
  {
    var ids := Ids(fs);
    ImplicitDepsAreTasks(fs, id);
    ExplicitDeps(TaskNamed(fs, id), ids) + (ResolvePhaseDependencies(fs)[id] * ids) + DetectImplicitDependencies(fs)[id]
  }

  /** The graph over the tasks the phase filter keeps (lines 221-244). */
  function BuildDependencyGraph(tasks: seq<Task>, phaseFilter: Option<string>): (g: DepGraph)
    requires DistinctIds(tasks)
    ensures forall id :: id in g <==> exists t :: t in tasks && InPhase(t, phaseFilter) && t.id == id
    ensures forall id :: id in g ==> g[id] <= g.Keys
    ensures g.Keys == Ids(FilterPhase(tasks, phaseFilter)) <= Ids(tasks)
  {
    var fs := FilterPhase(tasks, phaseFilter);
    map id | id in Ids(fs) :: MergedDeps(fs, id)
  }

  /** The reasons the active task at position `k` waits for the one at
      position `b`. */
  predicate DependsOn(fs: seq<Task>, k: nat, b: nat)
    requires k < |fs| && b < |fs|
  {
    || fs[b].id in fs[k].deps
    || (b != k && fs[b].phase in fs[k].phaseDeps)
    || ConflictBefore(fs, b, k)
  }

  lemma PhasePart(fs: seq<Task>, k: nat, b: nat)
    requires DistinctIds(fs) && k < |fs| && b < |fs|
    ensures fs[b].id in ResolvePhaseDependencies(fs)[fs[k].id] <==> b != k && fs[b].phase in fs[k].phaseDeps
  {
    var d := fs[b].id;
    PhaseDepsExact(fs, k, d);
    if exists j :: 0 <= j < |fs| && fs[j].id == d && fs[j].phase in fs[k].phaseDeps {
      var j :| 0 <= j < |fs| && fs[j].id == d && fs[j].phase in fs[k].phaseDeps;
      assert j == b;
    }
  }

  /** One task's merged entry holds exactly the tasks `DependsOn` names. */
  lemma MergedDepsExact(fs: seq<Task>, k: nat, b: nat)
    requires DistinctIds(fs) && k < |fs| && b < |fs|
    ensures fs[b].id in MergedDeps(fs, fs[k].id) <==> DependsOn(fs, k, b)
  {
    var ids := Ids(fs);
    assert fs[k] in fs && fs[b] in fs;
    IndexOfUnique(fs, k);
    assert TaskNamed(fs, fs[k].id) == fs[k];
    assert fs[b].id in ExplicitDeps(fs[k], ids) <==> fs[b].id in fs[k].deps;
    PhasePart(fs, k, b);
    ImplicitDepsExact(fs, k, b);
  }

  /** The graph has exactly the edges `DependsOn` describes: an explicit
      id (itself included), every other task of a named phase, and every
      task ahead in a shared file's list (lines 228-242). */
  lemma GraphEdges(tasks: seq<Task>, phaseFilter: Option<string>, k: nat, b: nat)
    requires DistinctIds(tasks)
    requires k < |FilterPhase(tasks, phaseFilter)| && b < |FilterPhase(tasks, phaseFilter)|
    ensures var fs := FilterPhase(tasks, phaseFilter);
      fs[b].id in BuildDependencyGraph(tasks, phaseFilter)[fs[k].id] <==> DependsOn(fs, k, b)
  {
    var fs := FilterPhase(tasks, phaseFilter);
    assert fs[k] in fs;
    assert BuildDependencyGraph(tasks, phaseFilter)[fs[k].id] == MergedDeps(fs, fs[k].id);
    MergedDepsExact(fs, k, b);
  }

  /** Of two active tasks of equal priority that modify the same file, the
      one inserted later into the task dictionary waits for the one inserted
      earlier: `sorted` keeps the insertion order of the file's list
      (lines 172-187). */
  lemma EqualPriorityEarlierFirst(tasks: seq<Task>, phaseFilter: Option<string>, k: nat, b: nat, f: string)
    requires DistinctIds(tasks)
    requires k < |FilterPhase(tasks, phaseFilter)| && b < |FilterPhase(tasks, phaseFilter)|
    requires var fs := FilterPhase(tasks, phaseFilter);
      f in fs[k].files && f in fs[b].files && fs[b].priority == fs[k].priority &&
      OccursBefore(tasks, fs[b], fs[k])
    ensures var fs := FilterPhase(tasks, phaseFilter);
      fs[b].id in BuildDependencyGraph(tasks, phaseFilter)[fs[k].id]
  {
    var fs := FilterPhase(tasks, phaseFilter);
    FilterPhasePositions(tasks, phaseFilter, k, b);
    assert PriorityBefore(fs, b, k);
    assert ConflictBefore(fs, b, k);
    GraphEdges(tasks, phaseFilter, k, b);
  }
}
