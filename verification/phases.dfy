/** Phase dependencies: a task naming phase P depends on every task of P
    (resolve_phase_dependencies, analyze_dependencies.py:192-216). */
module Phases {
  import opened Seqs
  import opened Tasks

  /** The phases that occur among the tasks. */
  function PhasesOf(ts: seq<Task>): set<string> {
    set t | t in ts :: t.phase
  }

  /** phase -> ids of its tasks (lines 198-203). */
  function PhaseIndex(ts: seq<Task>): (index: map<string, set<string>>)
    ensures index.Keys == PhasesOf(ts)
  {
    map p | p in PhasesOf(ts) :: set t | t in ts && t.phase == p :: t.id
  }

  /** The loop at lines 208-214 for one task: every phase named in
      `phaseDeps` that the index knows adds all of its tasks, and the task
      itself is discarded again after each addition. */
  function ResolveFor(index: map<string, set<string>>, self: string, phaseDeps: seq<string>, acc: set<string>): set<string>
    decreases |phaseDeps|
  {
    if |phaseDeps| == 0 then acc
    else
      var acc' := if phaseDeps[0] in index then (acc + index[phaseDeps[0]]) - {self} else acc;
      ResolveFor(index, self, phaseDeps[1..], acc')
  }

  /** task id -> resolved task dependencies (lines 206-216). */
  function ResolvePhaseDependencies(ts: seq<Task>): (resolved: map<string, set<string>>)
    ensures resolved.Keys == Ids(ts)
  {
    var index := PhaseIndex(ts);
    map id | id in Ids(ts) :: ResolveFor(index, id, TaskNamed(ts, id).phaseDeps, {})
  }

  /** `x` belongs to some phase listed in `phaseDeps` that the index knows. */
  predicate InListedPhase(index: map<string, set<string>>, phaseDeps: seq<string>, x: string) {
    exists p :: p in phaseDeps && p in index && x in index[p]
  }

  /** The fold adds exactly the members of the listed, known phases, never
      the task itself. */
  lemma {:induction false} ResolveForMeaning(index: map<string, set<string>>, self: string, phaseDeps: seq<string>, acc: set<string>)
    requires self !in acc
    ensures forall x :: x in ResolveFor(index, self, phaseDeps, acc) <==>
      x in acc || (x != self && InListedPhase(index, phaseDeps, x))
    decreases |phaseDeps|
  {
    if |phaseDeps| > 0 {
      var p := phaseDeps[0];
      var acc' := if p in index then (acc + index[p]) - {self} else acc;
      ResolveForMeaning(index, self, phaseDeps[1..], acc');
      forall x ensures InListedPhase(index, phaseDeps, x) <==>
        (p in index && x in index[p]) || InListedPhase(index, phaseDeps[1..], x)
      {
        if InListedPhase(index, phaseDeps, x) {
          var q :| q in phaseDeps && q in index && x in index[q];
          if q != p {
            assert q in phaseDeps[1..];
          }
        }
      }
    }
  }

  /** A task depends, through its phase dependencies, on exactly the other
      tasks whose phase it names; a named phase with no tasks adds nothing
      (lines 198-214). */
  lemma PhaseDepsExact(ts: seq<Task>, k: nat, d: string)
    requires DistinctIds(ts) && k < |ts|
    ensures d in ResolvePhaseDependencies(ts)[ts[k].id] <==>
      d != ts[k].id && exists j :: 0 <= j < |ts| && ts[j].id == d && ts[j].phase in ts[k].phaseDeps
  {
    ResolvedAt(ts, k);
    ResolveForMeaning(PhaseIndex(ts), ts[k].id, ts[k].phaseDeps, {});
    if InListedPhase(PhaseIndex(ts), ts[k].phaseDeps, d) {
      ListedPhaseTask(ts, k, d);
    }
    if exists j :: 0 <= j < |ts| && ts[j].id == d && ts[j].phase in ts[k].phaseDeps {
      var j :| 0 <= j < |ts| && ts[j].id == d && ts[j].phase in ts[k].phaseDeps;
      TaskInListedPhase(ts, k, j);
    }
  }

  /** The entry for the task at position `k` is its own fold. */
  lemma ResolvedAt(ts: seq<Task>, k: nat)
    requires DistinctIds(ts) && k < |ts|
    ensures ts[k].id in ResolvePhaseDependencies(ts)
    ensures ResolvePhaseDependencies(ts)[ts[k].id] == ResolveFor(PhaseIndex(ts), ts[k].id, ts[k].phaseDeps, {})
  {
    IndexOfUnique(ts, k);
    assert ts[k] in ts;
  }

  /** A member of a listed phase is a task of that phase. */
  lemma ListedPhaseTask(ts: seq<Task>, k: nat, d: string)
    requires k < |ts| && InListedPhase(PhaseIndex(ts), ts[k].phaseDeps, d)
    ensures exists j :: 0 <= j < |ts| && ts[j].id == d && ts[j].phase in ts[k].phaseDeps
  {
    var index := PhaseIndex(ts);
    var p :| p in ts[k].phaseDeps && p in index && d in index[p];
    var t :| t in ts && t.phase == p && t.id == d;
    var j :| 0 <= j < |ts| && ts[j] == t;
  }

  /** A task of a listed phase is a member of it. */
  lemma TaskInListedPhase(ts: seq<Task>, k: nat, j: nat)
    requires k < |ts| && j < |ts| && ts[j].phase in ts[k].phaseDeps
    ensures InListedPhase(PhaseIndex(ts), ts[k].phaseDeps, ts[j].id)
  {
    var index := PhaseIndex(ts);
    assert ts[j] in ts;
    assert ts[j].id in index[ts[j].phase];
  }
}
