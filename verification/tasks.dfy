/** Task records as the scheduler receives them: already parsed, kept in
    the insertion order of the dictionary they came from. */
module Tasks {
  import opened Seqs

  datatype Option<T> = None | Some(value: T)

  /** The fields of a parsed task that the scheduler reads. `deps` holds the
      explicit task ids, `phaseDeps` the phase ids, and `files` the files
      the task modifies, each as written (repetitions kept). A lower
      `priority` is more urgent. */
  datatype Task = Task(
    id: string,
    phase: string,
    deps: seq<string>,
    phaseDeps: seq<string>,
    files: seq<string>,
    priority: int)

  /** The keys of the task dictionary. */
  function Ids(ts: seq<Task>): set<string> {
    set t | t in ts :: t.id
  }

  /** Dictionary keys are unique. */
  predicate DistinctIds(ts: seq<Task>) {
    forall i, j :: 0 <= i < j < |ts| ==> ts[i].id != ts[j].id
  }

  /** Position of the task named `id`. */
  function IndexOf(ts: seq<Task>, id: string): (k: nat)
    requires id in Ids(ts)
    ensures k < |ts| && ts[k].id == id
  {
    if ts[0].id == id then 0
    else
      assert id in Ids(ts[1..]) by {
        var t :| t in ts && t.id == id;
        assert t in ts[1..] by {
          var i :| 0 <= i < |ts| && ts[i] == t;
          assert i != 0;
          assert ts[1..][i - 1] == t;
        }
      }
      1 + IndexOf(ts[1..], id)
  }

  /** Dictionary lookup `tasks[id]`. */
  function TaskNamed(ts: seq<Task>, id: string): (t: Task)
    requires id in Ids(ts)
    ensures t in ts && t.id == id
  {
    ts[IndexOf(ts, id)]
  }

  lemma IndexOfUnique(ts: seq<Task>, k: nat)
    requires DistinctIds(ts) && k < |ts|
    ensures IndexOf(ts, ts[k].id) == k
  {
  }

  /** With unique keys, the task found by name is the only one with that name. */
  lemma TaskNamedUnique(ts: seq<Task>, t: Task)
    requires DistinctIds(ts) && t in ts
    ensures TaskNamed(ts, t.id) == t
  {
    var k :| 0 <= k < |ts| && ts[k] == t;
    IndexOfUnique(ts, k);
  }

  /** Keeping a subsequence of tasks keeps the keys unique. */
  lemma {:induction false} FilterKeepsDistinctIds(ts: seq<Task>, keep: Task -> bool)
    requires DistinctIds(ts)
    ensures DistinctIds(Filter(ts, keep))
  {
    if |ts| > 0 {
      var rest := Filter(ts[1..], keep);
      assert DistinctIds(ts[1..]) by {
        forall i, j | 0 <= i < j < |ts[1..]| ensures ts[1..][i].id != ts[1..][j].id {
          assert ts[1..][i] == ts[i + 1] && ts[1..][j] == ts[j + 1];
        }
      }
      FilterKeepsDistinctIds(ts[1..], keep);
      if keep(ts[0]) {
        forall j | 0 <= j < |rest| ensures rest[j].id != ts[0].id {
          assert rest[j] in ts[1..];
          var i :| 0 <= i < |ts[1..]| && ts[1..][i] == rest[j];
          assert ts[1..][i] == ts[i + 1];
        }
        assert Filter(ts, keep) == [ts[0]] + rest;
      }
    }
  }

  /** `if phase_filter:` is Python truthiness: no filter and the empty
      string both leave every task in. */
  predicate InPhase(t: Task, phaseFilter: Option<string>) {
    phaseFilter.None? || phaseFilter.value == "" || t.phase == phaseFilter.value
  }

  /** The tasks the graph is built over (analyze_dependencies.py:222-223). */
  function FilterPhase(ts: seq<Task>, phaseFilter: Option<string>): (r: seq<Task>)
    requires DistinctIds(ts)
    ensures forall t :: t in r <==> t in ts && InPhase(t, phaseFilter)
    ensures DistinctIds(r)
    ensures KeepsOrder(r, ts)
  {
    if phaseFilter.None? || phaseFilter.value == "" then
      KeepsOrderSelf(ts);
      ts
    else
      FilterKeepsDistinctIds(ts, (t: Task) => t.phase == phaseFilter.value);
      Filter(ts, (t: Task) => t.phase == phaseFilter.value)
  }

  /** `{k: v for k, v in tasks.items() if k in keep}` (analyze_dependencies.py:361). */
  function FilterIds(ts: seq<Task>, keep: set<string>): (r: seq<Task>)
    requires DistinctIds(ts)
    ensures forall t :: t in r <==> t in ts && t.id in keep
    ensures DistinctIds(r)
    ensures Ids(r) == Ids(ts) * keep
    ensures KeepsOrder(r, ts)
  {
    FilterKeepsDistinctIds(ts, (t: Task) => t.id in keep);
    Filter(ts, (t: Task) => t.id in keep)
  }

  /** Keeping every task's id keeps every task, in place. */
  lemma FilterIdsKeepsAll(ts: seq<Task>, keep: set<string>)
    requires DistinctIds(ts) && Ids(ts) <= keep
    ensures FilterIds(ts, keep) == ts
  {
    forall t | t in ts ensures t.id in keep {
      assert t.id in Ids(ts);
    }
    FilterKeepsAll(ts, (t: Task) => t.id in keep);
  }

  /** With unique ids no task precedes itself. */
  lemma NotBeforeItself(ts: seq<Task>, t: Task)
    requires DistinctIds(ts)
    ensures !OccursBefore(ts, t, t)
  {
  }

  /** With unique ids two tasks occur in one order only. */
  lemma BeforeAsymmetric(ts: seq<Task>, t: Task, u: Task)
    requires DistinctIds(ts) && OccursBefore(ts, t, u)
    ensures !OccursBefore(ts, u, t)
  {
  }

  /** Positions among the kept tasks follow positions in the input: the
      task at position `b` of the kept tasks precedes the one at `k`
      exactly when it precedes it in the input. */
  lemma FilterPhasePositions(ts: seq<Task>, phaseFilter: Option<string>, k: nat, b: nat)
    requires DistinctIds(ts)
    requires k < |FilterPhase(ts, phaseFilter)| && b < |FilterPhase(ts, phaseFilter)|
    ensures var fs := FilterPhase(ts, phaseFilter);
      b < k <==> OccursBefore(ts, fs[b], fs[k])
  {
    var fs := FilterPhase(ts, phaseFilter);
    if b < k {
      assert OccursBefore(ts, fs[b], fs[k]);
    } else if b == k {
      NotBeforeItself(ts, fs[k]);
    } else {
      assert OccursBefore(ts, fs[k], fs[b]);
      BeforeAsymmetric(ts, fs[k], fs[b]);
    }
  }
}
