/** Greedy barrier-separated grouping of an execution order
    (identify_parallel_groups, analyze_dependencies.py:285-337). */
module Grouping {
  import opened Seqs
  import opened Tasks
  import opened Graph
  import opened GroupNames

  /** The cap on `estimated_agents` (line 328). */
  const MaxAgents: nat := 5

  datatype ParallelGroup = ParallelGroup(
    groupId: string,
    tasks: seq<string>,
    barrierAfter: bool,
    estimatedAgents: nat)

  /** `graph.get(id, set())` (lines 306-307). */
  function Deps(g: DepGraph, id: string): set<string> {
    if id in g then g[id] else {}
  }

  /** Every id of the order names a task, so `tasks[id]` cannot fail. */
  predicate KnownIds(ts: seq<Task>, order: seq<string>) {
    forall i :: 0 <= i < |order| ==> order[i] in Ids(ts)
  }

  /** `set(tasks[id].files_modified)` (lines 318-319). */
  function FilesOf(ts: seq<Task>, id: string): set<string>
    requires id in Ids(ts)
  {
    Elems(TaskNamed(ts, id).files)
  }

  /** `can_parallel` (lines 309-314): neither task lists the other, and
      both have all of their dependencies processed. */
  predicate CanParallel(g: DepGraph, seed: string, other: string, processed: set<string>) {
    && seed !in Deps(g, other)
    && other !in Deps(g, seed)
    && Deps(g, other) <= processed
    && Deps(g, seed) <= processed
  }

  /** `other` may join the group seeded by `seed` (lines 306-321): it can
      run in parallel and modifies no file the seed modifies. */
  predicate Admits(ts: seq<Task>, g: DepGraph, seed: string, other: string, processed: set<string>)
    requires seed in Ids(ts) && other in Ids(ts)
  {
    CanParallel(g, seed, other, processed) && FilesOf(ts, seed) * FilesOf(ts, other) == {}
  }

  /** The inner `for other_id in execution_order` loop (lines 299-321):
      the admitted ids, in order of appearance. */
  function Companions(ts: seq<Task>, g: DepGraph, seed: string, candidates: seq<string>, processed: set<string>): (r: seq<string>)
    requires seed in Ids(ts) && KnownIds(ts, candidates)
    ensures forall x :: x in r ==> x in candidates
    ensures KeepsOrder(r, candidates)
  {
    if |candidates| == 0 then []
    else
      var other := candidates[0];
      var rest := Companions(ts, g, seed, candidates[1..], processed);
      if other !in processed && other != seed && Admits(ts, g, seed, other, processed) then
        KeepsOrderCons(rest, candidates);
        [other] + rest
      else
        KeepsOrderTail(rest, candidates);
        rest
  }

  /** `parallel_tasks`: the seed, then its companions (lines 296-321). */
  function Members(ts: seq<Task>, g: DepGraph, order: seq<string>, seed: string, processed: set<string>): seq<string>
    requires seed in Ids(ts) && KnownIds(ts, order)
  {
    [seed] + Companions(ts, g, seed, order, processed)
  }

  /** The group record of lines 324-329. */
  function MakeGroup(counter: nat, members: seq<string>): ParallelGroup {
    ParallelGroup(GroupName(counter), members, true, if |members| < MaxAgents then |members| else MaxAgents)
  }

  /** The outer loop (lines 291-335) from position `pos` of the order, with
      the ids `processed` so far and the next group number `counter`. */
  function GroupsFrom(ts: seq<Task>, g: DepGraph, order: seq<string>, pos: nat, processed: set<string>, counter: nat): (gs: seq<ParallelGroup>)
    requires pos <= |order| && KnownIds(ts, order)
    ensures forall k :: 0 <= k < |gs| ==> |gs[k].tasks| >= 1
    decreases |order| - pos
  {
    if pos == |order| then []
    else if order[pos] in processed then GroupsFrom(ts, g, order, pos + 1, processed, counter)
    else
      var members := Members(ts, g, order, order[pos], processed);
      [MakeGroup(counter, members)] + GroupsFrom(ts, g, order, pos + 1, processed + Elems(members), counter + 1)
  }

  /** `identify_parallel_groups(tasks, graph, execution_order)`. */
  function IdentifyParallelGroups(ts: seq<Task>, g: DepGraph, order: seq<string>): (gs: seq<ParallelGroup>)
    requires KnownIds(ts, order)
    ensures forall k :: 0 <= k < |gs| ==> |gs[k].tasks| >= 1
  {
    GroupsFrom(ts, g, order, 0, {}, 1)
  }

  /** The ids placed in the given groups. */
  function Covered(groups: seq<ParallelGroup>): set<string> {
    if |groups| == 0 then {} else Elems(groups[0].tasks) + Covered(groups[1..])
  }

  /** The groups' members one after another. */
  function Flatten(groups: seq<ParallelGroup>): seq<string> {
    if |groups| == 0 then [] else groups[0].tasks + Flatten(groups[1..])
  }

  /** Position `p` holds the first id at or after `pos` that is not in `before`. */
  predicate FirstFresh(order: seq<string>, pos: nat, before: set<string>, p: nat) {
    pos <= p < |order| && order[p] !in before &&
    forall q :: pos <= q < p ==> order[q] in before
  }

  // ---------------------------------------------------------------------
  // The inner loop

  /** An id is a companion exactly when it occurs among the candidates,
      is not processed, is not the seed, and is admitted. */
  lemma {:induction false} CompanionsMembers(ts: seq<Task>, g: DepGraph, seed: string, candidates: seq<string>, processed: set<string>, x: string)
    requires seed in Ids(ts) && KnownIds(ts, candidates)
    ensures x in Companions(ts, g, seed, candidates, processed) <==>
      x in candidates && x !in processed && x != seed && x in Ids(ts) && Admits(ts, g, seed, x, processed)
    decreases |candidates|
  {
    if |candidates| > 0 {
      CompanionsMembers(ts, g, seed, candidates[1..], processed, x);
      assert candidates == [candidates[0]] + candidates[1..];
    }
  }

  /** Companions of a repetition-free order are repetition-free. */
  lemma {:induction false} CompanionsDistinct(ts: seq<Task>, g: DepGraph, seed: string, candidates: seq<string>, processed: set<string>)
    requires seed in Ids(ts) && KnownIds(ts, candidates) && Distinct(candidates)
    ensures Distinct(Companions(ts, g, seed, candidates, processed))
    decreases |candidates|
  {
    if |candidates| > 0 {
      var rest := candidates[1..];
      assert Distinct(rest) by {
        forall i, j | 0 <= i < j < |rest| ensures rest[i] != rest[j] {
          assert rest[i] == candidates[i + 1] && rest[j] == candidates[j + 1];
        }
      }
      CompanionsDistinct(ts, g, seed, rest, processed);
      CompanionsMembers(ts, g, seed, rest, processed, candidates[0]);
      assert candidates[0] !in rest by {
        forall j | 0 <= j < |rest| ensures rest[j] != candidates[0] {
          assert rest[j] == candidates[j + 1];
        }
      }
    }
  }

  /** A seed that still waits for a dependency admits nobody. */
  lemma BlockedSeedAlone(ts: seq<Task>, g: DepGraph, seed: string, candidates: seq<string>, processed: set<string>)
    requires seed in Ids(ts) && KnownIds(ts, candidates)
    requires !(Deps(g, seed) <= processed)
    ensures Companions(ts, g, seed, candidates, processed) == []
  {
    var c := Companions(ts, g, seed, candidates, processed);
    if |c| > 0 {
      CompanionsMembers(ts, g, seed, candidates, processed, c[0]);
      assert false;
    }
  }

  // ---------------------------------------------------------------------
  // The outer loop

  lemma CoveredPrepend(first: ParallelGroup, rest: seq<ParallelGroup>, k: nat)
    requires k <= |rest|
    ensures Covered(([first] + rest)[..k + 1]) == Elems(first.tasks) + Covered(rest[..k])
  {
    var gs := [first] + rest;
    assert gs[..k + 1] == [first] + rest[..k];
    assert ([first] + rest[..k])[1..] == rest[..k];
  }

  /** Group `k` of `gs` is seeded at position `p` of the order and holds
      that seed's members, given what the earlier groups and `processed`
      cover. */
  predicate BuiltAt(ts: seq<Task>, g: DepGraph, order: seq<string>, pos: nat, processed: set<string>, counter: nat,
                    gs: seq<ParallelGroup>, k: nat, p: nat)
    requires KnownIds(ts, order) && k < |gs|
  {
    var before := processed + Covered(gs[..k]);
    && FirstFresh(order, pos, before, p)
    && gs[k] == MakeGroup(counter + k, Members(ts, g, order, order[p], before))
  }

  lemma GroupsFromSkip(ts: seq<Task>, g: DepGraph, order: seq<string>, pos: nat, processed: set<string>, counter: nat)
    requires pos < |order| && KnownIds(ts, order) && order[pos] in processed
    ensures GroupsFrom(ts, g, order, pos, processed, counter) == GroupsFrom(ts, g, order, pos + 1, processed, counter)
  {
  }

  lemma GroupsFromEmit(ts: seq<Task>, g: DepGraph, order: seq<string>, pos: nat, processed: set<string>, counter: nat)
    requires pos < |order| && KnownIds(ts, order) && order[pos] !in processed
    ensures var members := Members(ts, g, order, order[pos], processed);
      GroupsFrom(ts, g, order, pos, processed, counter) ==
        [MakeGroup(counter, members)] + GroupsFrom(ts, g, order, pos + 1, processed + Elems(members), counter + 1)
  {
  }

  /** The `k`-th group: its seed is the first id of the order not placed in
      an earlier group, and its other members are the companions of that
      seed given the earlier groups (lines 291-333). */
  lemma {:induction false} GroupsFromStep(ts: seq<Task>, g: DepGraph, order: seq<string>, pos: nat, processed: set<string>, counter: nat, k: nat)
    returns (p: nat)
    requires pos <= |order| && KnownIds(ts, order)
    requires k < |GroupsFrom(ts, g, order, pos, processed, counter)|
    ensures BuiltAt(ts, g, order, pos, processed, counter, GroupsFrom(ts, g, order, pos, processed, counter), k, p)
    decreases |order| - pos
  {
    if order[pos] in processed {
      GroupsFromSkip(ts, g, order, pos, processed, counter);
      p := GroupsFromStep(ts, g, order, pos + 1, processed, counter, k);
      SkipFresh(ts, g, order, pos, processed, counter, GroupsFrom(ts, g, order, pos, processed, counter), k, p);
    } else {
      GroupsFromEmit(ts, g, order, pos, processed, counter);
      var members := Members(ts, g, order, order[pos], processed);
      var rest := GroupsFrom(ts, g, order, pos + 1, processed + Elems(members), counter + 1);
      if k == 0 {
        p := pos;
        FirstGroup(ts, g, order, pos, processed, counter, rest);
      } else {
        p := GroupsFromStep(ts, g, order, pos + 1, processed + Elems(members), counter + 1, k - 1);
        LaterGroup(ts, g, order, pos, processed, counter, rest, k, p);
      }
    }
  }

  lemma SkipFresh(ts: seq<Task>, g: DepGraph, order: seq<string>, pos: nat, processed: set<string>, counter: nat,
                  gs: seq<ParallelGroup>, k: nat, p: nat)
    requires pos < |order| && KnownIds(ts, order) && order[pos] in processed && k < |gs|
    requires BuiltAt(ts, g, order, pos + 1, processed, counter, gs, k, p)
    ensures BuiltAt(ts, g, order, pos, processed, counter, gs, k, p)
  {
  }

  lemma FirstGroup(ts: seq<Task>, g: DepGraph, order: seq<string>, pos: nat, processed: set<string>, counter: nat,
                   rest: seq<ParallelGroup>)
    requires pos < |order| && KnownIds(ts, order) && order[pos] !in processed
    ensures var members := Members(ts, g, order, order[pos], processed);
      BuiltAt(ts, g, order, pos, processed, counter, [MakeGroup(counter, members)] + rest, 0, pos)
  {
    var gs := [MakeGroup(counter, Members(ts, g, order, order[pos], processed))] + rest;
    assert gs[..0] == [];
    assert processed + Covered(gs[..0]) == processed;
  }

  /** A group after the first: what the recursive call calls processed is
      what the earlier groups cover. */
  lemma LaterGroup(ts: seq<Task>, g: DepGraph, order: seq<string>, pos: nat, processed: set<string>, counter: nat,
                   rest: seq<ParallelGroup>, k: nat, p: nat)
    requires pos < |order| && KnownIds(ts, order) && order[pos] !in processed
    requires 0 < k <= |rest|
    requires var members := Members(ts, g, order, order[pos], processed);
      BuiltAt(ts, g, order, pos + 1, processed + Elems(members), counter + 1, rest, k - 1, p)
    ensures var members := Members(ts, g, order, order[pos], processed);
      BuiltAt(ts, g, order, pos, processed, counter, [MakeGroup(counter, members)] + rest, k, p)
  {
    var members := Members(ts, g, order, order[pos], processed);
    var first := MakeGroup(counter, members);
    var gs := [first] + rest;
    CoveredPrepend(first, rest, k - 1);
    assert processed + Covered(gs[..k]) == processed + Elems(members) + Covered(rest[..k - 1]);
    assert order[pos] in Elems(members);
    assert gs[k] == rest[k - 1];
  }

  /** The groups place exactly the ids from `pos` on that were not yet
      processed, provided everything before `pos` was. */
  lemma {:induction false} GroupsFromCovered(ts: seq<Task>, g: DepGraph, order: seq<string>, pos: nat, processed: set<string>, counter: nat, x: string)
    requires pos <= |order| && KnownIds(ts, order)
    requires forall q :: 0 <= q < pos ==> order[q] in processed
    ensures x in Covered(GroupsFrom(ts, g, order, pos, processed, counter)) <==>
      x in order[pos..] && x !in processed
    decreases |order| - pos
  {
    if pos < |order| {
      assert order[pos..] == [order[pos]] + order[pos + 1..];
      if order[pos] in processed {
        GroupsFromCovered(ts, g, order, pos + 1, processed, counter, x);
      } else {
        var seed := order[pos];
        var members := [seed] + Companions(ts, g, seed, order, processed);
        var rest := GroupsFrom(ts, g, order, pos + 1, processed + Elems(members), counter + 1);
        GroupsFromCovered(ts, g, order, pos + 1, processed + Elems(members), counter + 1, x);
        assert GroupsFrom(ts, g, order, pos, processed, counter) == [MakeGroup(counter, members)] + rest;
        assert ([MakeGroup(counter, members)] + rest)[1..] == rest;
        CompanionsMembers(ts, g, seed, order, processed, x);
        if x in Companions(ts, g, seed, order, processed) {
          var i :| 0 <= i < |order| && order[i] == x;
          assert i >= pos;
          assert x in order[pos..] by { assert order[pos..][i - pos] == x; }
        }
      }
    }
  }

  // ---------------------------------------------------------------------
  // Properties of identify_parallel_groups

  /** Shape of every group (lines 291-335): its seed is the first id of the
      order not in an earlier group, it is numbered `k + 1`, it always
      carries a barrier, its agent estimate is its size capped at 5, and
      the members after the seed appear in execution order. */
  lemma GroupShape(ts: seq<Task>, g: DepGraph, order: seq<string>, k: nat) returns (p: nat)
    requires KnownIds(ts, order)
    requires k < |IdentifyParallelGroups(ts, g, order)|
    ensures var gs := IdentifyParallelGroups(ts, g, order);
      && FirstFresh(order, 0, Covered(gs[..k]), p)
      && |gs[k].tasks| >= 1 && gs[k].tasks[0] == order[p]
      && gs[k].groupId == GroupName(k + 1)
      && gs[k].barrierAfter
      && gs[k].estimatedAgents == (if |gs[k].tasks| < 5 then |gs[k].tasks| else 5)
      && KeepsOrder(gs[k].tasks[1..], order)
  {
    p := GroupsFromStep(ts, g, order, 0, {}, 1, k);
    var gs := IdentifyParallelGroups(ts, g, order);
    var before := Covered(gs[..k]);
    assert {} + before == before;
    assert gs[k].tasks[1..] == Companions(ts, g, order[p], order, before);
  }

  /** Admission (lines 299-321): an id other than the seed belongs to group
      `k` exactly when it occurs in the order, is in no earlier group, and
      is admitted by the seed given the earlier groups. */
  lemma GroupAdmission(ts: seq<Task>, g: DepGraph, order: seq<string>, k: nat, x: string)
    requires KnownIds(ts, order)
    requires k < |IdentifyParallelGroups(ts, g, order)|
    ensures var gs := IdentifyParallelGroups(ts, g, order);
      var before := Covered(gs[..k]);
      var seed := gs[k].tasks[0];
      x in gs[k].tasks[1..] <==>
        x in order && x !in before && x != seed && x in Ids(ts) && seed in Ids(ts) &&
        Admits(ts, g, seed, x, before)
  {
    var p := GroupShape(ts, g, order, k);
    var gs := IdentifyParallelGroups(ts, g, order);
    var before := Covered(gs[..k]);
    var seed := order[p];
    var _ := GroupsFromStep(ts, g, order, 0, {}, 1, k);
    assert {} + before == before;
    assert gs[k].tasks[1..] == Companions(ts, g, seed, order, before);
    CompanionsMembers(ts, g, seed, order, before, x);
  }

  /** A seed with a dependency outside the earlier groups runs alone
      (lines 310-313). */
  lemma BlockedSeedSingleton(ts: seq<Task>, g: DepGraph, order: seq<string>, k: nat)
    requires KnownIds(ts, order)
    requires k < |IdentifyParallelGroups(ts, g, order)|
    requires var gs := IdentifyParallelGroups(ts, g, order);
      !(Deps(g, gs[k].tasks[0]) <= Covered(gs[..k]))
    ensures var gs := IdentifyParallelGroups(ts, g, order);
      gs[k].tasks == [gs[k].tasks[0]]
  {
    var p := GroupShape(ts, g, order, k);
    var gs := IdentifyParallelGroups(ts, g, order);
    var before := Covered(gs[..k]);
    var _ := GroupsFromStep(ts, g, order, 0, {}, 1, k);
    assert {} + before == before;
    BlockedSeedAlone(ts, g, order[p], order, before);
  }

  /** No member of a group is in an earlier group. */
  lemma MembersFresh(ts: seq<Task>, g: DepGraph, order: seq<string>, k: nat, x: string)
    requires KnownIds(ts, order)
    requires k < |IdentifyParallelGroups(ts, g, order)|
    requires x in IdentifyParallelGroups(ts, g, order)[k].tasks
    ensures x !in Covered(IdentifyParallelGroups(ts, g, order)[..k])
    ensures x in order
  {
    var p := GroupShape(ts, g, order, k);
    var gs := IdentifyParallelGroups(ts, g, order);
    if x != gs[k].tasks[0] {
      assert x in gs[k].tasks[1..] by {
        var i :| 0 <= i < |gs[k].tasks| && gs[k].tasks[i] == x;
        assert gs[k].tasks[1..][i - 1] == x;
      }
      GroupAdmission(ts, g, order, k, x);
    }
  }

  lemma CoveredPrefix(gs: seq<ParallelGroup>, j: nat, k: nat, x: string)
    requires j < k <= |gs| && x in gs[j].tasks
    ensures x in Covered(gs[..k])
    decreases j
  {
    var s := gs[..k];
    assert s[0] == gs[0];
    if j > 0 {
      CoveredPrefix(gs[1..], j - 1, k - 1, x);
      assert s[1..] == gs[1..][..k - 1];
    }
  }

  /** Distinct groups share no id. */
  lemma GroupsDisjoint(ts: seq<Task>, g: DepGraph, order: seq<string>, j: nat, k: nat, x: string)
    requires KnownIds(ts, order)
    requires j < k < |IdentifyParallelGroups(ts, g, order)|
    requires x in IdentifyParallelGroups(ts, g, order)[j].tasks
    ensures x !in IdentifyParallelGroups(ts, g, order)[k].tasks
  {
    var gs := IdentifyParallelGroups(ts, g, order);
    CoveredPrefix(gs, j, k, x);
    if x in gs[k].tasks {
      MembersFresh(ts, g, order, k, x);
    }
  }

  lemma {:induction false} CoveredMembers(gs: seq<ParallelGroup>, x: string) returns (k: nat)
    requires x in Covered(gs)
    ensures k < |gs| && x in gs[k].tasks
  {
    if x in Elems(gs[0].tasks) {
      k := 0;
    } else {
      var k' := CoveredMembers(gs[1..], x);
      k := k' + 1;
    }
  }

  /** Every id of the order lands in exactly one group, and groups hold
      nothing else (lines 291-335). */
  lemma GroupsPartitionOrder(ts: seq<Task>, g: DepGraph, order: seq<string>, x: string) returns (k: nat)
    requires KnownIds(ts, order)
    requires x in order
    ensures var gs := IdentifyParallelGroups(ts, g, order);
      k < |gs| && x in gs[k].tasks &&
      forall j :: 0 <= j < |gs| && x in gs[j].tasks ==> j == k
  {
    var gs := IdentifyParallelGroups(ts, g, order);
    GroupsFromCovered(ts, g, order, 0, {}, 1, x);
    assert order[0..] == order;
    k := CoveredMembers(gs, x);
    forall j | 0 <= j < |gs| && x in gs[j].tasks ensures j == k {
      if j < k {
        GroupsDisjoint(ts, g, order, j, k, x);
      } else if k < j {
        GroupsDisjoint(ts, g, order, k, j, x);
      }
    }
  }

  /** No member of a group with two or more members depends on a member of
      the same group, itself included: a group can run all at once. */
  lemma GroupIndependent(ts: seq<Task>, g: DepGraph, order: seq<string>, k: nat, x: string, y: string)
    requires KnownIds(ts, order)
    requires k < |IdentifyParallelGroups(ts, g, order)|
    requires var gs := IdentifyParallelGroups(ts, g, order);
      x in gs[k].tasks && y in gs[k].tasks && |gs[k].tasks| > 1
    ensures x !in Deps(g, y)
  {
    var gs := IdentifyParallelGroups(ts, g, order);
    var before := Covered(gs[..k]);
    var members := gs[k].tasks;
    var seed := members[0];
    var c := members[1];
    assert c in members[1..];
    GroupAdmission(ts, g, order, k, c);
    MembersFresh(ts, g, order, k, x);
    if y != seed {
      assert y in members[1..] by {
        var i :| 0 <= i < |members| && members[i] == y;
        assert members[1..][i - 1] == y;
      }
      GroupAdmission(ts, g, order, k, y);
    }
  }

  /** Members other than the seed have all of their dependencies in earlier
      groups, and so has the seed when the group has company (lines 309-314). */
  lemma CompanionDepsEarlier(ts: seq<Task>, g: DepGraph, order: seq<string>, k: nat, x: string)
    requires KnownIds(ts, order)
    requires k < |IdentifyParallelGroups(ts, g, order)|
    requires var gs := IdentifyParallelGroups(ts, g, order);
      x in gs[k].tasks && (x != gs[k].tasks[0] || |gs[k].tasks| > 1)
    ensures Deps(g, x) <= Covered(IdentifyParallelGroups(ts, g, order)[..k])
  {
    var gs := IdentifyParallelGroups(ts, g, order);
    var members := gs[k].tasks;
    var c := members[1];
    assert c in members[1..];
    GroupAdmission(ts, g, order, k, c);
    if x != members[0] {
      assert x in members[1..] by {
        var i :| 0 <= i < |members| && members[i] == x;
        assert members[1..][i - 1] == x;
      }
      GroupAdmission(ts, g, order, k, x);
    }
  }

  // ---------------------------------------------------------------------
  // The groups as a permutation of a repetition-free order

  lemma {:induction false} FlattenElems(gs: seq<ParallelGroup>)
    ensures Elems(Flatten(gs)) == Covered(gs)
  {
    if |gs| > 0 {
      FlattenElems(gs[1..]);
      ElemsAppend(gs[0].tasks, Flatten(gs[1..]));
    }
  }

  lemma DistinctAppend(a: seq<string>, b: seq<string>)
    requires Distinct(a) && Distinct(b)
    requires forall x :: x in a ==> x !in b
    ensures Distinct(a + b)
  {
    var s := a + b;
    forall i, j | 0 <= i < j < |s| ensures s[i] != s[j] {
      if i < |a| && j >= |a| {
        assert s[i] in a && s[j] == b[j - |a|];
      } else if i >= |a| {
        assert s[i] == b[i - |a|] && s[j] == b[j - |a|];
      }
    }
  }

  /** Each group repetition-free and no id in two groups: the concatenation
      is repetition-free. */
  lemma {:induction false} FlattenDistinct(gs: seq<ParallelGroup>)
    requires forall k :: 0 <= k < |gs| ==> Distinct(gs[k].tasks)
    requires forall j, k, x :: 0 <= j < k < |gs| && x in gs[j].tasks ==> x !in gs[k].tasks
    ensures Distinct(Flatten(gs))
  {
    if |gs| > 0 {
      var rest := gs[1..];
      forall k | 0 <= k < |rest| ensures Distinct(rest[k].tasks) {
        assert rest[k] == gs[k + 1];
      }
      forall j, k, x | 0 <= j < k < |rest| && x in rest[j].tasks ensures x !in rest[k].tasks {
        assert rest[j] == gs[j + 1] && rest[k] == gs[k + 1];
      }
      FlattenDistinct(rest);
      FlattenElems(rest);
      forall x | x in gs[0].tasks ensures x !in Flatten(rest) {
        if x in Covered(rest) {
          var k := CoveredMembers(rest, x);
        }
      }
      DistinctAppend(gs[0].tasks, Flatten(rest));
    }
  }

  /** Over a repetition-free order each group is repetition-free. */
  lemma GroupDistinct(ts: seq<Task>, g: DepGraph, order: seq<string>, k: nat)
    requires KnownIds(ts, order) && Distinct(order)
    requires k < |IdentifyParallelGroups(ts, g, order)|
    ensures Distinct(IdentifyParallelGroups(ts, g, order)[k].tasks)
  {
    var gs := IdentifyParallelGroups(ts, g, order);
    var p := GroupsFromStep(ts, g, order, 0, {}, 1, k);
    var before := {} + Covered(gs[..k]);
    var seed := order[p];
    var c := Companions(ts, g, seed, order, before);
    CompanionsDistinct(ts, g, seed, order, before);
    CompanionsMembers(ts, g, seed, order, before, seed);
    assert gs[k].tasks == [seed] + c;
    DistinctAppend([seed], c);
  }

  /** Over a repetition-free order the groups, read one after another, are
      a rearrangement of the order: every id exactly once. They need not
      be the order itself, since a companion can come from behind a later
      seed. */
  lemma GroupsPermuteOrder(ts: seq<Task>, g: DepGraph, order: seq<string>)
    requires KnownIds(ts, order) && Distinct(order)
    ensures Distinct(Flatten(IdentifyParallelGroups(ts, g, order)))
    ensures multiset(Flatten(IdentifyParallelGroups(ts, g, order))) == multiset(order)
  {
    var gs := IdentifyParallelGroups(ts, g, order);
    forall k | 0 <= k < |gs| ensures Distinct(gs[k].tasks) {
      GroupDistinct(ts, g, order, k);
    }
    forall j, k, x | 0 <= j < k < |gs| && x in gs[j].tasks ensures x !in gs[k].tasks {
      GroupsDisjoint(ts, g, order, j, k, x);
    }
    FlattenDistinct(gs);
    FlattenElems(gs);
    forall x ensures x in Flatten(gs) <==> x in order {
      GroupsFromCovered(ts, g, order, 0, {}, 1, x);
      assert order[0..] == order;
    }
    DistinctSameElements(Flatten(gs), order);
  }
}
