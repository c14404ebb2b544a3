/** File-conflict dependencies (detect_implicit_dependencies,
    analyze_dependencies.py:167-189). Tasks are referred to by their
    position in the task sequence; ids are unique, so a position names
    exactly one id. */
module Implicit {
  import opened Seqs
  import opened Tasks

  /** Every entry is a valid task position. */
  predicate InRange(ts: seq<Task>, s: seq<nat>) {
    forall i :: 0 <= i < |s| ==> s[i] < |ts|
  }

  predicate NonDecreasing(s: seq<nat>) {
    forall i, j :: 0 <= i < j < |s| ==> s[i] <= s[j]
  }

  /** `m.get(f, [])`. */
  function Get(m: map<string, seq<nat>>, f: string): seq<nat> {
    if f in m then m[f] else []
  }

  // ---------------------------------------------------------------------
  // The file index (lines 172-177)
  // ---------------------------------------------------------------------

  /** The inner loop of lines 174-177 for the task at position `k`: each
      listed file, repetitions included, gets `k` appended to its list. */
  function AddFiles(index: map<string, seq<nat>>, k: nat, files: seq<string>): map<string, seq<nat>>
    decreases |files|
  {
    if |files| == 0 then index
    else
      var f := files[0];
      AddFiles(index[f := Get(index, f) + [k]], k, files[1..])
  }

  /** The positions below `n` of the tasks listing `f`, each once per time it
      lists `f`, in increasing order: the list the loop builds for `f`. */
  function Occurrences(ts: seq<Task>, n: nat, f: string): (r: seq<nat>)
    requires n <= |ts|
  {
    if n == 0 then [] else Occurrences(ts, n - 1, f) + Repeat(n - 1, Times(ts, n - 1, f))
  }

  /** How many times the task at position `k` lists `f`. */
  function Times(ts: seq<Task>, k: nat, f: string): nat
    requires k < |ts|
  {
    multiset(ts[k].files)[f]
  }

  /** `f` is listed by some task below position `n`. */
  predicate ListedBelow(ts: seq<Task>, n: nat, f: string)
    requires n <= |ts|
  {
    exists k :: 0 <= k < n && f in ts[k].files
  }

  lemma {:induction false} AddFilesKeys(index: map<string, seq<nat>>, k: nat, files: seq<string>, f: string)
    ensures f in AddFiles(index, k, files) <==> f in index || f in files
    decreases |files|
  {
    if |files| > 0 {
      AddFilesKeys(index[files[0] := Get(index, files[0]) + [k]], k, files[1..], f);
      assert f in files <==> f == files[0] || f in files[1..];
    }
  }

  lemma {:induction false} AddFilesGet(index: map<string, seq<nat>>, k: nat, files: seq<string>, f: string)
    ensures Get(AddFiles(index, k, files), f) == Get(index, f) + Repeat(k, multiset(files)[f])
    decreases |files|
  {
    if |files| == 0 {
      assert Get(index, f) + Repeat(k, 0) == Get(index, f);
    } else {
      var f0 := files[0];
      var index' := index[f0 := Get(index, f0) + [k]];
      AddFilesGet(index', k, files[1..], f);
      MultisetHead(files, f);
      if f == f0 {
        AppendRepeat(Get(index, f), k, multiset(files[1..])[f]);
      }
    }
  }

  /** The file index after the tasks below position `n` (lines 172-177). */
  function FileIndexUpTo(ts: seq<Task>, n: nat): (index: map<string, seq<nat>>)
    requires n <= |ts|
    ensures forall f :: f in index <==> ListedBelow(ts, n, f)
    ensures forall f :: Get(index, f) == Occurrences(ts, n, f)
  {
    if n == 0 then map[]
    else
      var before := FileIndexUpTo(ts, n - 1);
      var index := AddFiles(before, n - 1, ts[n - 1].files);
      assert forall f :: (f in index <==> ListedBelow(ts, n, f)) && Get(index, f) == Occurrences(ts, n, f) by {
        forall f ensures (f in index <==> ListedBelow(ts, n, f)) && Get(index, f) == Occurrences(ts, n, f) {
          IndexStepKeys(ts, n, before, f);
          IndexStepGet(ts, n, before, f);
        }
      }
      index
  }

  /** Adding the files of the task at position `n - 1` turns the index of
      the tasks below `n - 1` into the index of the tasks below `n`: the
      keys ... */
  lemma IndexStepKeys(ts: seq<Task>, n: nat, before: map<string, seq<nat>>, f: string)
    requires 0 < n <= |ts|
    requires f in before <==> ListedBelow(ts, n - 1, f)
    ensures f in AddFiles(before, n - 1, ts[n - 1].files) <==> ListedBelow(ts, n, f)
  {
    AddFilesKeys(before, n - 1, ts[n - 1].files, f);
    ListedBelowStep(ts, n, f);
  }

  /** ... and the lists. */
  lemma IndexStepGet(ts: seq<Task>, n: nat, before: map<string, seq<nat>>, f: string)
    requires 0 < n <= |ts|
    requires Get(before, f) == Occurrences(ts, n - 1, f)
    ensures Get(AddFiles(before, n - 1, ts[n - 1].files), f) == Occurrences(ts, n, f)
  {
    AddFilesGet(before, n - 1, ts[n - 1].files, f);
    var extra := Repeat(n - 1, Times(ts, n - 1, f));
    assert Occurrences(ts, n, f) == Occurrences(ts, n - 1, f) + extra;
  }

  lemma ListedBelowStep(ts: seq<Task>, n: nat, f: string)
    requires 0 < n <= |ts|
    ensures ListedBelow(ts, n, f) <==> ListedBelow(ts, n - 1, f) || f in ts[n - 1].files
  {
    if ListedBelow(ts, n, f) && !(f in ts[n - 1].files) {
      var k :| 0 <= k < n && f in ts[k].files;
      assert k < n - 1;
    }
  }

  /** `file_to_tasks`: file -> positions of the tasks that list it. */
  function FileIndex(ts: seq<Task>): (index: map<string, seq<nat>>)
    ensures forall f :: f in index <==> ListedBelow(ts, |ts|, f)
    ensures forall f :: f in index ==> index[f] == Occurrences(ts, |ts|, f)
  {
    FileIndexUpTo(ts, |ts|)
  }

  /** The list for `f` is in increasing position order and holds valid
      positions only. */
  lemma {:induction false} OccurrencesOrdered(ts: seq<Task>, n: nat, f: string)
    requires n <= |ts|
    ensures forall i :: 0 <= i < |Occurrences(ts, n, f)| ==> Occurrences(ts, n, f)[i] < n
    ensures NonDecreasing(Occurrences(ts, n, f))
  {
    if n > 0 {
      OccurrencesOrdered(ts, n - 1, f);
      var prev := Occurrences(ts, n - 1, f);
      var rep := Repeat(n - 1, Times(ts, n - 1, f));
      var occ := prev + rep;
      assert forall i :: |prev| <= i < |occ| ==> occ[i] == n - 1;
      assert forall i :: 0 <= i < |prev| ==> occ[i] == prev[i];
    }
  }

  /** The list for `f` holds position `k` as often as task `k` lists `f`. */
  lemma OccurrencesCount(ts: seq<Task>, n: nat, f: string, k: nat)
    requires n <= |ts|
    ensures multiset(Occurrences(ts, n, f))[k] == if k < n then Times(ts, k, f) else 0
  {
    if k < n {
      OccurrencesBelow(ts, n, f, k);
    } else {
      OccurrencesAbove(ts, n, f, k);
    }
  }

  lemma {:induction false} OccurrencesAbove(ts: seq<Task>, n: nat, f: string, k: nat)
    requires n <= |ts| && n <= k
    ensures multiset(Occurrences(ts, n, f))[k] == 0
  {
    if n > 0 {
      OccurrencesAbove(ts, n - 1, f, k);
      OccurrencesStep(ts, n, f, k);
    }
  }

  lemma {:induction false} OccurrencesBelow(ts: seq<Task>, n: nat, f: string, k: nat)
    requires k < n <= |ts|
    ensures multiset(Occurrences(ts, n, f))[k] == Times(ts, k, f)
    decreases n - k
  {
    if k == n - 1 {
      OccurrencesAbove(ts, n - 1, f, k);
      OccurrencesStep(ts, n, f, k);
    } else {
      OccurrencesBelow(ts, n - 1, f, k);
      OccurrencesStepOther(ts, n, f, k);
    }
  }

  /** Position `k` below `n - 1` counts as often in the list for the tasks
      below `n` as in the list for the tasks below `n - 1`. */
  lemma OccurrencesStepOther(ts: seq<Task>, n: nat, f: string, k: nat)
    requires 0 < n <= |ts| && k != n - 1
    ensures multiset(Occurrences(ts, n, f))[k] == multiset(Occurrences(ts, n - 1, f))[k]
  {
    OccurrencesStep(ts, n, f, k);
  }

  /** The positions added for task `n - 1` count `n - 1` only. */
  lemma OccurrencesStep(ts: seq<Task>, n: nat, f: string, k: nat)
    requires 0 < n <= |ts|
    ensures multiset(Occurrences(ts, n, f))[k] ==
      multiset(Occurrences(ts, n - 1, f))[k] + (if k == n - 1 then Times(ts, n - 1, f) else 0)
  {
    var prev := Occurrences(ts, n - 1, f);
    var rep := Repeat(n - 1, Times(ts, n - 1, f));
    assert Occurrences(ts, n, f) == prev + rep;
    RepeatCount(n - 1, Times(ts, n - 1, f), k);
    MultisetConcat(prev, rep, k);
  }

  lemma MultisetConcat(a: seq<nat>, b: seq<nat>, k: nat)
    ensures multiset(a + b)[k] == multiset(a)[k] + multiset(b)[k]
  {
    assert multiset(a + b) == multiset(a) + multiset(b);
  }

  /** Both facts about the complete file index. */
  lemma OccurrencesFacts(ts: seq<Task>, f: string)
    ensures InRange(ts, Occurrences(ts, |ts|, f))
    ensures NonDecreasing(Occurrences(ts, |ts|, f))
    ensures forall k :: 0 <= k < |ts| ==> multiset(Occurrences(ts, |ts|, f))[k] == Times(ts, k, f)
  {
    OccurrencesOrdered(ts, |ts|, f);
    forall k | 0 <= k < |ts|
      ensures multiset(Occurrences(ts, |ts|, f))[k] == Times(ts, k, f)
    {
      OccurrencesCount(ts, |ts|, f, k);
    }
  }

  lemma {:induction false} RepeatCount(x: nat, n: nat, y: nat)
    ensures multiset(Repeat(x, n))[y] == if y == x then n else 0
  {
    if n > 0 {
      RepeatCount(x, n - 1, y);
      assert Repeat(x, n) == [x] + Repeat(x, n - 1);
      assert multiset(Repeat(x, n)) == multiset{x} + multiset(Repeat(x, n - 1));
    }
  }

  // ---------------------------------------------------------------------
  // The stable sort by priority (line 183)
  // ---------------------------------------------------------------------

  /** Priority of the task at position `a`. */
  function Pri(ts: seq<Task>, a: nat): int
    requires a < |ts|
  {
    ts[a].priority
  }

  /** Sort key of `sorted(..., key=priority)` together with its stability:
      `a` comes no later than `b` when it is more urgent, or equally urgent
      and earlier in insertion order. */
  predicate KeyLe(ts: seq<Task>, a: nat, b: nat)
    requires a < |ts| && b < |ts|
  {
    Pri(ts, a) < Pri(ts, b) || (Pri(ts, a) == Pri(ts, b) && a <= b)
  }

  predicate KeySorted(ts: seq<Task>, s: seq<nat>)
    requires InRange(ts, s)
  {
    forall i, j :: 0 <= i < j < |s| ==> KeyLe(ts, s[i], s[j])
  }

  /** Inserts `x` before the first element that is not more urgent. */
  function Insert(ts: seq<Task>, x: nat, s: seq<nat>): (r: seq<nat>)
    requires x < |ts| && InRange(ts, s)
    ensures InRange(ts, r)
    ensures multiset(r) == multiset(s) + multiset{x}
    decreases |s|
  {
    if |s| == 0 then [x]
    else if Pri(ts, x) <= Pri(ts, s[0]) then [x] + s
    else
      var rest := Insert(ts, x, s[1..]);
      assert s == [s[0]] + s[1..];
      [s[0]] + rest
  }

  /** Inserting an element that is no later in insertion order than any
      element of a sorted list keeps it sorted. */
  lemma {:induction false} InsertKeySorted(ts: seq<Task>, x: nat, s: seq<nat>)
    requires x < |ts| && InRange(ts, s) && KeySorted(ts, s)
    requires forall i :: 0 <= i < |s| ==> x <= s[i]
    ensures KeySorted(ts, Insert(ts, x, s))
    decreases |s|
  {
    if |s| > 0 && Pri(ts, x) > Pri(ts, s[0]) {
      var rest := Insert(ts, x, s[1..]);
      InsertKeySorted(ts, x, s[1..]);
      assert s == [s[0]] + s[1..];
      forall i | 0 <= i < |rest| ensures KeyLe(ts, s[0], rest[i]) {
        ElementOfInsert(ts, x, s[1..], i);
      }
      SortedCons(ts, s[0], rest);
    }
  }

  /** Every element of an insertion is the inserted one or an old one. */
  lemma ElementOfInsert(ts: seq<Task>, x: nat, s: seq<nat>, i: nat)
    requires x < |ts| && InRange(ts, s) && i < |Insert(ts, x, s)|
    ensures Insert(ts, x, s)[i] == x || Insert(ts, x, s)[i] in s
  {
    var r := Insert(ts, x, s);
    assert r[i] in multiset(r);
  }

  /** A sorted sequence stays sorted under a head that comes before all of it. */
  lemma SortedCons(ts: seq<Task>, a: nat, rest: seq<nat>)
    requires a < |ts| && InRange(ts, rest) && KeySorted(ts, rest)
    requires forall i :: 0 <= i < |rest| ==> KeyLe(ts, a, rest[i])
    ensures InRange(ts, [a] + rest) && KeySorted(ts, [a] + rest)
  {
    var r := [a] + rest;
    forall i, j | 0 <= i < j < |r| ensures KeyLe(ts, r[i], r[j]) {
      if i > 0 {
        assert r[i] == rest[i - 1] && r[j] == rest[j - 1];
      } else {
        assert r[j] == rest[j - 1];
      }
    }
  }

  /** `sorted(task_list, key=lambda t: tasks[t].priority)`: an insertion
      sort, stable like Python's. */
  function SortByPriority(ts: seq<Task>, s: seq<nat>): (r: seq<nat>)
    requires InRange(ts, s)
    ensures InRange(ts, r)
    ensures multiset(r) == multiset(s)
    decreases |s|
  {
    if |s| == 0 then []
    else
      assert s == [s[0]] + s[1..];
      Insert(ts, s[0], SortByPriority(ts, s[1..]))
  }

  /** Stability: a list already in insertion order comes out ordered by
      priority, and by insertion order among equal priorities. */
  lemma {:induction false} SortByPriorityStable(ts: seq<Task>, s: seq<nat>)
    requires InRange(ts, s) && NonDecreasing(s)
    ensures KeySorted(ts, SortByPriority(ts, s))
    decreases |s|
  {
    if |s| > 0 {
      var rest := SortByPriority(ts, s[1..]);
      SortByPriorityStable(ts, s[1..]);
      assert s == [s[0]] + s[1..];
      forall i | 0 <= i < |rest| ensures s[0] <= rest[i] {
        assert rest[i] in multiset(s[1..]);
        var j :| 0 <= j < |s[1..]| && s[1..][j] == rest[i];
        assert s[1..][j] == s[j + 1];
      }
      InsertKeySorted(ts, s[0], rest);
    }
  }

  // ---------------------------------------------------------------------
  // The conflict edges (lines 180-187)
  // ---------------------------------------------------------------------

  /** Files listed more than once, each with its priority-sorted list. */
  function ConflictLists(ts: seq<Task>): (c: map<string, seq<nat>>)
    ensures forall f :: f in c ==> InRange(ts, c[f])
  {
    var index := FileIndex(ts);
    assert forall f :: f in index ==> InRange(ts, index[f]) by {
      forall f | f in index ensures InRange(ts, index[f]) {
        OccurrencesFacts(ts, f);
      }
    }
    map f | f in index && |index[f]| > 1 :: SortByPriority(ts, index[f])
  }

  /** The ids the task at position `k` waits for: everything sorted before
      one of its entries in some conflict list. */
  function ImplicitDepsOf(ts: seq<Task>, k: nat): set<string> {
    var c := ConflictLists(ts);
    set f, i, j | f in c && 0 <= i < j < |c[f]| && c[f][j] == k :: ts[c[f][i]].id
  }

  /** `implicit_deps`: every task id, with its file-conflict dependencies. */
  function DetectImplicitDependencies(ts: seq<Task>): (implicit: map<string, set<string>>)
    ensures implicit.Keys == Ids(ts)
  {
    map id | id in Ids(ts) :: ImplicitDepsOf(ts, IndexOf(ts, id))
  }

  /** Task `b` is ahead of task `k` in the priority order: more urgent, or
      equally urgent and inserted earlier. */
  predicate PriorityBefore(ts: seq<Task>, b: nat, k: nat)
    requires b < |ts| && k < |ts|
  {
    ts[b].priority < ts[k].priority || (ts[b].priority == ts[k].priority && b < k)
  }

  /** Task `k` must wait for task `b` because of a shared file: `b` is ahead
      of `k`, or `b` is `k` itself listing the file twice. */
  predicate ConflictBefore(ts: seq<Task>, b: nat, k: nat)
    requires b < |ts| && k < |ts|
  {
    exists f :: f in ts[k].files && f in ts[b].files &&
      (PriorityBefore(ts, b, k) || (b == k && Times(ts, k, f) > 1))
  }

  /** The conflict lists, read back in terms of the tasks: `f` has a list
      exactly when it is listed at least twice, and the list holds each
      task as often as it lists `f`, ordered by priority and then by
      position. */
  lemma ConflictListFacts(ts: seq<Task>, f: string)
    ensures f in ConflictLists(ts) <==> |Occurrences(ts, |ts|, f)| > 1
    ensures f in ConflictLists(ts) ==> KeySorted(ts, ConflictLists(ts)[f])
  {
    OccurrencesFacts(ts, f);
    var index := FileIndex(ts);
    if f in index && |index[f]| > 1 {
      SortByPriorityStable(ts, index[f]);
    }
  }

  lemma ConflictListCount(ts: seq<Task>, f: string, k: nat)
    requires f in ConflictLists(ts) && k < |ts|
    ensures multiset(ConflictLists(ts)[f])[k] == Times(ts, k, f)
  {
    OccurrencesCount(ts, |ts|, f, k);
  }

  /** An entry sorted before an entry of task `k` gives a conflict. */
  lemma ImplicitDepsSound(ts: seq<Task>, k: nat, b: nat)
    requires DistinctIds(ts) && k < |ts| && b < |ts|
    requires ts[b].id in ImplicitDepsOf(ts, k)
    ensures ConflictBefore(ts, b, k)
  {
    var c := ConflictLists(ts);
    var f, i, j :| f in c && 0 <= i < j < |c[f]| && c[f][j] == k && ts[c[f][i]].id == ts[b].id;
    assert c[f][i] == b;
    ConflictEntryListsFile(ts, f, i);
    ConflictEntryListsFile(ts, f, j);
    ConflictEntriesOrdered(ts, f, i, j);
    if b == k {
      TwoPositionsCount(c[f], k, i, j);
      ConflictListCount(ts, f, k);
    }
  }

  /** Every entry of a conflict list is a task that lists the file. */
  lemma ConflictEntryListsFile(ts: seq<Task>, f: string, i: nat)
    requires f in ConflictLists(ts) && i < |ConflictLists(ts)[f]|
    ensures ConflictLists(ts)[f][i] < |ts| && f in ts[ConflictLists(ts)[f][i]].files
  {
    var s := ConflictLists(ts)[f];
    ConflictListCount(ts, f, s[i]);
    assert s[i] in multiset(s);
  }

  /** Entries of a conflict list follow the priority order. */
  lemma ConflictEntriesOrdered(ts: seq<Task>, f: string, i: nat, j: nat)
    requires f in ConflictLists(ts) && i < j < |ConflictLists(ts)[f]|
    ensures KeyLe(ts, ConflictLists(ts)[f][i], ConflictLists(ts)[f][j])
  {
    ConflictListFacts(ts, f);
  }

  /** A file listed by two tasks, or twice by one, has a conflict list. */
  lemma SharedFileHasList(ts: seq<Task>, k: nat, b: nat, f: string)
    requires k < |ts| && b < |ts|
    requires f in ts[k].files && f in ts[b].files
    requires b != k || Times(ts, k, f) > 1
    ensures f in ConflictLists(ts)
  {
    var occ := Occurrences(ts, |ts|, f);
    OccurrencesFacts(ts, f);
    assert k in multiset(occ) && b in multiset(occ);
    if |occ| <= 1 {
      ShortSequence(occ, k, b);
      assert false;
    }
    ConflictListFacts(ts, f);
  }

  /** In a sorted list, a task ahead of another in priority order sits
      before it. */
  lemma SortedPositions(ts: seq<Task>, s: seq<nat>, k: nat, b: nat) returns (i: nat, j: nat)
    requires k < |ts| && b < |ts| && InRange(ts, s) && KeySorted(ts, s)
    requires b in s && k in s && PriorityBefore(ts, b, k)
    ensures i < j < |s| && s[i] == b && s[j] == k
  {
    i :| 0 <= i < |s| && s[i] == b;
    j :| 0 <= j < |s| && s[j] == k;
    if j < i {
      assert false;
    }
  }

  /** In the conflict list of `f` an entry of `b` comes before an entry of `k`. */
  lemma EntriesInOrder(ts: seq<Task>, k: nat, b: nat, f: string) returns (i: nat, j: nat)
    requires k < |ts| && b < |ts|
    requires f in ts[k].files && f in ts[b].files
    requires PriorityBefore(ts, b, k) || (b == k && Times(ts, k, f) > 1)
    ensures f in ConflictLists(ts)
    ensures i < j < |ConflictLists(ts)[f]|
    ensures ConflictLists(ts)[f][i] == b && ConflictLists(ts)[f][j] == k
  {
    SharedFileHasList(ts, k, b, f);
    ConflictListFacts(ts, f);
    var s := ConflictLists(ts)[f];
    ConflictListCount(ts, f, k);
    ConflictListCount(ts, f, b);
    assert b in multiset(s) && k in multiset(s);
    if PriorityBefore(ts, b, k) {
      i, j := SortedPositions(ts, s, k, b);
    } else {
      i, j := TwoPositions(s, k);
    }
  }

  /** A conflict on file `f` makes `k` wait for `b`. */
  lemma ImplicitDepsComplete(ts: seq<Task>, k: nat, b: nat, f: string)
    requires k < |ts| && b < |ts|
    requires f in ts[k].files && f in ts[b].files
    requires PriorityBefore(ts, b, k) || (b == k && Times(ts, k, f) > 1)
    ensures ts[b].id in ImplicitDepsOf(ts, k)
  {
    var i, j := EntriesInOrder(ts, k, b, f);
    var c := ConflictLists(ts);
    assert f in c && 0 <= i < j < |c[f]| && c[f][j] == k;
  }

  /** File-conflict edges are exactly the pairs described by
      `ConflictBefore` (lines 172-187). */
  lemma ImplicitDepsExact(ts: seq<Task>, k: nat, b: nat)
    requires DistinctIds(ts) && k < |ts| && b < |ts|
    ensures ts[b].id in DetectImplicitDependencies(ts)[ts[k].id] <==> ConflictBefore(ts, b, k)
  {
    IndexOfUnique(ts, k);
    if ts[b].id in ImplicitDepsOf(ts, k) {
      ImplicitDepsSound(ts, k, b);
    }
    if ConflictBefore(ts, b, k) {
      var f :| f in ts[k].files && f in ts[b].files &&
        (PriorityBefore(ts, b, k) || (b == k && Times(ts, k, f) > 1));
      ImplicitDepsComplete(ts, k, b, f);
    }
  }

  /** A file-conflict dependency never points at a less urgent task. */
  lemma ImplicitDepsRespectPriority(ts: seq<Task>, k: nat, b: nat)
    requires DistinctIds(ts) && k < |ts| && b < |ts|
    requires ts[b].id in DetectImplicitDependencies(ts)[ts[k].id]
    ensures ts[b].priority <= ts[k].priority
  {
    ImplicitDepsExact(ts, k, b);
  }

  /** Every file-conflict dependency names a task. */
  lemma ImplicitDepsAreTasks(ts: seq<Task>, id: string)
    requires id in Ids(ts)
    ensures DetectImplicitDependencies(ts)[id] <= Ids(ts)
  {
    var c := ConflictLists(ts);
    forall d | d in DetectImplicitDependencies(ts)[id] ensures d in Ids(ts) {
      var f, i, j :| f in c && 0 <= i < j < |c[f]| && c[f][j] == IndexOf(ts, id) && ts[c[f][i]].id == d;
      assert ts[c[f][i]] in ts;
    }
  }
}
