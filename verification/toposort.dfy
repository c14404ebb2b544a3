/** Deterministic Kahn ordering with lexical tie-break and a sorted tail for
    nodes caught in cycles (topological_sort, analyze_dependencies.py:247-282). */
module TopoSort {
  import opened Seqs
  import opened Lex
  import opened Graph

  /** The dependencies of `x` that are nodes of the graph: the only ones
      `in_degree` counts (lines 255-258). */
  function InDeps(g: DepGraph, x: string): set<string>
    requires x in g
  {
    g[x] * g.Keys
  }

  lemma RemoveOne(a: set<string>, x: string)
    requires x in a
    ensures |a - {x}| == |a| - 1
  {
    assert a == (a - {x}) + {x};
  }

  /** Nodes not output yet whose counted dependencies are all output: what
      `queue` holds between iterations. */
  function Ready(g: DepGraph, done: set<string>): (r: set<string>)
    ensures forall x {:trigger x in r} :: x in r <==> x in g && x !in done && InDeps(g, x) <= done
  {
    set x | x in g.Keys && x !in done && InDeps(g, x) <= done
  }

  predicate NodesOf(g: DepGraph, s: seq<string>) {
    forall i :: 0 <= i < |s| ==> s[i] in g
  }

  /** Outputting a ready node extends the output by one new node. */
  lemma OutputReady(g: DepGraph, done: seq<string>, next: string)
    requires Distinct(done) && NodesOf(g, done) && next in Ready(g, Elems(done))
    ensures Distinct(done + [next]) && NodesOf(g, done + [next])
    ensures Elems(done + [next]) == Elems(done) + {next}
    ensures |g.Keys - Elems(done + [next])| < |g.Keys - Elems(done)|
  {
    var d' := done + [next];
    assert Elems(d') == Elems(done) + {next};
    assert g.Keys - Elems(d') == (g.Keys - Elems(done)) - {next};
    RemoveOne(g.Keys - Elems(done), next);
  }

  /** The `while queue:` loop (lines 264-275) continued from the output
      `done`: repeatedly output the smallest ready node. */
  function KahnLoop(g: DepGraph, done: seq<string>): (r: seq<string>)
    requires Distinct(done) && NodesOf(g, done)
    ensures Distinct(r) && NodesOf(g, r)
    decreases |g.Keys - Elems(done)|
  {
    var ready := Ready(g, Elems(done));
    if ready == {} then done
    else
      var next := Least(ready);
      OutputReady(g, done, next);
      KahnLoop(g, done + [next])
  }

  /** One step of the loop. */
  lemma KahnLoopUnfold(g: DepGraph, done: seq<string>)
    requires Distinct(done) && NodesOf(g, done) && Ready(g, Elems(done)) != {}
    ensures Distinct(done + [Least(Ready(g, Elems(done)))])
    ensures NodesOf(g, done + [Least(Ready(g, Elems(done)))])
    ensures Elems(done + [Least(Ready(g, Elems(done)))]) == Elems(done) + {Least(Ready(g, Elems(done)))}
    ensures |g.Keys - Elems(done + [Least(Ready(g, Elems(done)))])| < |g.Keys - Elems(done)|
    ensures KahnLoop(g, done) == KahnLoop(g, done + [Least(Ready(g, Elems(done)))])
  {
    OutputReady(g, done, Least(Ready(g, Elems(done))));
  }

  /** The loop only appends. */
  lemma {:induction false} KahnLoopExtends(g: DepGraph, done: seq<string>)
    requires Distinct(done) && NodesOf(g, done)
    ensures |done| <= |KahnLoop(g, done)| && KahnLoop(g, done)[..|done|] == done
    decreases |g.Keys - Elems(done)|
  {
    if Ready(g, Elems(done)) != {} {
      KahnLoopUnfold(g, done);
      var d' := done + [Least(Ready(g, Elems(done)))];
      KahnLoopExtends(g, d');
      assert d'[..|done|] == done;
      PrefixTrans(KahnLoop(g, d'), done, d');
    }
  }

  /** The loop stops only when nothing is ready. */
  lemma {:induction false} KahnLoopStops(g: DepGraph, done: seq<string>)
    requires Distinct(done) && NodesOf(g, done)
    ensures Ready(g, Elems(KahnLoop(g, done))) == {}
    decreases |g.Keys - Elems(done)|
  {
    var ready := Ready(g, Elems(done));
    if ready != {} {
      var next := Least(ready);
      OutputReady(g, done, next);
      KahnLoopStops(g, done + [next]);
    }
  }

  /** From position `lo` on, every node of `r` is the smallest node ready
      after its predecessors. */
  predicate SmallestReadyFrom(g: DepGraph, r: seq<string>, lo: nat) {
    forall i :: lo <= i < |r| ==> IsLeast(r[i], Ready(g, Elems(r[..i])))
  }

  lemma SmallestReadyPrepend(g: DepGraph, done: seq<string>, next: string, r: seq<string>)
    requires IsLeast(next, Ready(g, Elems(done)))
    requires |done| + 1 <= |r| && r[..|done| + 1] == done + [next]
    requires SmallestReadyFrom(g, r, |done| + 1)
    ensures SmallestReadyFrom(g, r, |done|)
  {
    var n := |done|;
    assert r[..n] == r[..n + 1][..n];
    assert r[n] == r[..n + 1][n];
    assert IsLeast(r[n], Ready(g, Elems(r[..n])));
  }

  /** Each node the loop outputs after `done` is the smallest ready node at
      that point. */
  lemma {:induction false} KahnLoopSteps(g: DepGraph, done: seq<string>)
    requires Distinct(done) && NodesOf(g, done)
    ensures SmallestReadyFrom(g, KahnLoop(g, done), |done|)
    decreases |g.Keys - Elems(done)|
  {
    var ready := Ready(g, Elems(done));
    if ready != {} {
      var next := Least(ready);
      OutputReady(g, done, next);
      var d' := done + [next];
      KahnLoopSteps(g, d');
      KahnLoopExtends(g, d');
      SmallestReadyPrepend(g, done, next, KahnLoop(g, d'));
    }
  }

  /** The nodes output inside the loop. */
  function Scheduled(g: DepGraph): seq<string> {
    KahnLoop(g, [])
  }

  /** The nodes the loop never reaches: the cycle diagnostic of line 278. */
  function Leftovers(g: DepGraph): set<string> {
    g.Keys - Elems(Scheduled(g))
  }

  /** `topological_sort(graph)`: the loop's output, then the leftovers in
      ascending order (lines 277-280). */
  function TopoOrder(g: DepGraph): seq<string> {
    Scheduled(g) + SortedSet(Leftovers(g))
  }

  /** Every node precedes, or is not counted among, the dependencies of the
      nodes after it: `s` is a topological order of `g`. */
  predicate IsTopological(g: DepGraph, s: seq<string>) {
    forall i :: 0 <= i < |s| ==> s[i] in g && InDeps(g, s[i]) <= Elems(s[..i])
  }

  /** A non-empty set of nodes each of which waits for a member, possibly
      itself: no member can ever become ready. In a finite graph such a set
      exists exactly when the graph has a dependency cycle, a node that
      lists itself included. */
  predicate Stuck(g: DepGraph, s: set<string>) {
    s != {} && s <= g.Keys && forall x :: x in s ==> g[x] * s != {}
  }

  /** Output order: every node exactly once, cyclic ones included
      (lines 249-282). */
  lemma TopoOrderIsPermutation(g: DepGraph)
    ensures Distinct(TopoOrder(g))
    ensures forall x :: x in TopoOrder(g) <==> x in g
    ensures |TopoOrder(g)| == |g|
  {
    TopoOrderDistinct(g);
    TopoOrderElems(g);
    DistinctElemsCard(TopoOrder(g));
  }

  lemma TopoOrderElems(g: DepGraph)
    ensures Elems(TopoOrder(g)) == g.Keys
  {
    var loop := Scheduled(g);
    var tail := SortedSet(Leftovers(g));
    ElemsAppend(loop, tail);
    assert Elems(tail) == g.Keys - Elems(loop);
    assert Elems(loop) <= g.Keys by {
      forall x | x in Elems(loop) ensures x in g {
        var i :| 0 <= i < |loop| && loop[i] == x;
      }
    }
    UnionDifference(Elems(loop), g.Keys);
  }

  lemma UnionDifference(a: set<string>, b: set<string>)
    requires a <= b
    ensures a + (b - a) == b
  {
  }

  lemma TopoOrderDistinct(g: DepGraph)
    ensures Distinct(TopoOrder(g))
  {
    var loop := Scheduled(g);
    var tail := SortedSet(Leftovers(g));
    var r := loop + tail;
    forall i, j | 0 <= i < j < |r| ensures r[i] != r[j] {
      if j < |loop| {
      } else if i >= |loop| {
        assert Less(tail[i - |loop|], tail[j - |loop|]);
        LessIrreflexive(r[i]);
      } else {
        assert r[j] in Leftovers(g);
      }
    }
  }

  /** Loop steps: each node output inside the loop is the smallest ready
      node at that point, so it comes after all of its counted
      dependencies (lines 264-275). */
  lemma ScheduledSteps(g: DepGraph)
    ensures TopoOrder(g)[..|Scheduled(g)|] == Scheduled(g)
    ensures forall i :: 0 <= i < |Scheduled(g)| ==>
      IsLeast(TopoOrder(g)[i], Ready(g, Elems(TopoOrder(g)[..i])))
    ensures IsTopological(g, Scheduled(g))
  {
    var loop := Scheduled(g);
    var r := TopoOrder(g);
    KahnLoopSteps(g, []);
    assert r[..|loop|] == loop;
    forall i | 0 <= i < |loop| ensures r[..i] == loop[..i] {
      assert r[..i] == r[..|loop|][..i];
    }
  }

  /** The tail: exactly the leftovers, strictly ascending (line 280). */
  lemma LeftoverTail(g: DepGraph)
    ensures |TopoOrder(g)| == |Scheduled(g)| + |Leftovers(g)|
    ensures forall x :: x in TopoOrder(g)[|Scheduled(g)|..] <==> x in Leftovers(g)
    ensures Ascending(TopoOrder(g)[|Scheduled(g)|..])
  {
    assert TopoOrder(g)[|Scheduled(g)|..] == SortedSet(Leftovers(g));
  }

  /** Without leftovers the whole output is a topological order (line 277). */
  lemma NoLeftoversTopological(g: DepGraph)
    requires Leftovers(g) == {}
    ensures IsTopological(g, TopoOrder(g))
  {
    ScheduledSteps(g);
    var t := SortedSet(Leftovers(g));
    assert |t| == 0;
    assert TopoOrder(g) == Scheduled(g) + t == Scheduled(g);
  }

  lemma {:induction false} NotScheduledBefore(g: DepGraph, s: set<string>, i: nat)
    requires Stuck(g, s) && i < |Scheduled(g)|
    ensures Scheduled(g)[i] !in s
    decreases i
  {
    var loop := Scheduled(g);
    var x := loop[i];
    KahnLoopSteps(g, []);
    assert IsLeast(x, Ready(g, Elems(loop[..i])));
    if x in s {
      var d :| d in g[x] && d in s;
      assert d in Elems(loop[..i]);
      var j :| 0 <= j < i && loop[j] == d;
      NotScheduledBefore(g, s, j);
      assert false;
    }
  }

  /** A stuck set never becomes ready, so it ends among the leftovers:
      in particular a node that lists itself (lines 228 and 174-187 can
      produce one) is a leftover. */
  lemma StuckAreLeftovers(g: DepGraph, s: set<string>)
    requires Stuck(g, s)
    ensures s <= Leftovers(g)
  {
    forall x | x in s ensures x in Leftovers(g) {
      if x in Elems(Scheduled(g)) {
        var i :| 0 <= i < |Scheduled(g)| && Scheduled(g)[i] == x;
        NotScheduledBefore(g, s, i);
      }
    }
  }

  /** The leftovers, when there are any, form a stuck set: every leftover
      waits for a leftover, possibly itself. */
  lemma LeftoversAreStuck(g: DepGraph)
    requires Leftovers(g) != {}
    ensures Stuck(g, Leftovers(g))
  {
    var loop := Scheduled(g);
    KahnLoopStops(g, []);
    forall x | x in Leftovers(g) ensures g[x] * Leftovers(g) != {} {
      assert x !in Ready(g, Elems(loop));
      var d :| d in InDeps(g, x) && d !in Elems(loop);
      assert d in g[x] * Leftovers(g);
    }
  }

  /** A node that lists itself (an explicit self-dependency, line 228, or
      a file listed twice, lines 174-187) is never output by the loop and
      ends among the leftovers. */
  lemma SelfDependentLeftover(g: DepGraph, x: string)
    requires x in g && x in g[x]
    ensures x in Leftovers(g)
  {
    assert g[x] * {x} == {x};
    StuckAreLeftovers(g, {x});
  }

  /** The cycle diagnostic fires exactly when the graph has a stuck set. */
  lemma LeftoversIffStuck(g: DepGraph)
    ensures Leftovers(g) != {} <==> exists s :: Stuck(g, s)
  {
    if Leftovers(g) != {} {
      LeftoversAreStuck(g);
    }
    if exists s :: Stuck(g, s) {
      var s :| Stuck(g, s);
      StuckAreLeftovers(g, s);
    }
  }

  /** On an acyclic graph the result is a topological order. */
  lemma AcyclicTopological(g: DepGraph)
    requires forall s :: !Stuck(g, s)
    ensures Leftovers(g) == {}
    ensures IsTopological(g, TopoOrder(g))
  {
    LeftoversIffStuck(g);
    NoLeftoversTopological(g);
  }

  lemma SubsetDifferenceCard(a: set<string>, b: set<string>)
    requires b <= a
    ensures |a - b| == |a| - |b|
  {
    assert a == (a - b) + b;
  }

  /** The `for other_node, deps in graph.items()` loop of lines 271-275
      after `node` is output: every node that lists `node` loses one unit
      of in-degree, and those that reach zero join the queue. */
  method ReleaseDependents(g: DepGraph, inDegree: map<string, nat>, queue: set<string>, node: string)
    returns (inDegree': map<string, nat>, queue': set<string>)
    requires inDegree.Keys == g.Keys
    requires forall x {:trigger inDegree[x]} :: x in g && node in g[x] ==> inDegree[x] > 0
    ensures inDegree'.Keys == g.Keys
    ensures forall x {:trigger inDegree'[x]} :: x in g ==>
      inDegree'[x] + (if node in g[x] then 1 else 0) == inDegree[x]
    ensures forall x {:trigger x in queue'} :: x in queue' <==> x in queue || (x in g && node in g[x] && inDegree[x] == 1)
  {
    inDegree', queue' := inDegree, queue;
    var others := g.Keys;
    while others != {}
      invariant others <= g.Keys
      invariant inDegree'.Keys == g.Keys
      invariant forall x {:trigger inDegree'[x]} :: x in g ==>
        inDegree'[x] == if x in others || node !in g[x] then inDegree[x] else inDegree[x] - 1
      invariant forall x {:trigger x in queue'} :: x in queue' <==>
        x in queue || (x in g && x !in others && node in g[x] && inDegree[x] == 1)
      decreases others
    {
      var other :| other in others;
      if node in g[other] {
        inDegree' := inDegree'[other := inDegree'[other] - 1];
        if inDegree'[other] == 0 {
          queue' := queue' + {other};
        }
      }
      others := others - {other};
    }
  }

  /** Outputting `node` lowers the count of unmet dependencies of `x` by
      one exactly when `x` lists it; a node is ready when that count is
      zero. */
  lemma OneMoreDone(g: DepGraph, node: string, before: set<string>, x: string)
    requires node in g && node !in before && x in g
    ensures |InDeps(g, x) - (before + {node})| ==
      if node in g[x] then |InDeps(g, x) - before| - 1 else |InDeps(g, x) - before|
    ensures InDeps(g, x) <= before + {node} <==> |InDeps(g, x) - (before + {node})| == 0
    ensures InDeps(g, x) <= before <==> |InDeps(g, x) - before| == 0
  {
    var a := InDeps(g, x) - before;
    if node in g[x] {
      assert node in a;
      RemoveOne(a, node);
      assert InDeps(g, x) - (before + {node}) == a - {node};
    } else {
      assert InDeps(g, x) - (before + {node}) == a;
    }
    CardZero(InDeps(g, x), before + {node});
    CardZero(InDeps(g, x), before);
  }

  /** Nothing is missing from `b` exactly when `a - b` is empty. */
  lemma CardZero(a: set<string>, b: set<string>)
    ensures |a - b| == 0 <==> a <= b
  {
    if a <= b {
      assert a - b == {};
    } else {
      var y :| y in a && y !in b;
      assert y in a - b;
    }
  }

  /** `in_degree` counts, for every node, the dependencies not output yet. */
  predicate Counted(g: DepGraph, inDegree: map<string, nat>, done: set<string>) {
    && inDegree.Keys == g.Keys
    && (forall x {:trigger inDegree[x]} :: x in g ==> inDegree[x] == |InDeps(g, x) - done|)
  }

  /** Every output node had all of its counted dependencies output. */
  predicate Closed(g: DepGraph, done: set<string>) {
    forall x :: x in done ==> x in g && InDeps(g, x) <= done
  }

  /** The state between iterations of the outer loop: the counts are
      right and the queue holds exactly the ready nodes. */
  predicate Bookkeeping(g: DepGraph, inDegree: map<string, nat>, queue: set<string>, done: set<string>) {
    Counted(g, inDegree, done) && queue == Ready(g, done) && Closed(g, done)
  }

  /** Before outputting a ready node, every node that lists it still has a
      positive count. */
  lemma ReadyNodeCounted(g: DepGraph, inDegree: map<string, nat>, done: set<string>, node: string)
    requires Counted(g, inDegree, done) && node in Ready(g, done)
    ensures forall x {:trigger inDegree[x]} :: x in g && node in g[x] ==> inDegree[x] > 0
  {
    forall x | x in g && node in g[x] ensures inDegree[x] > 0 {
      assert node in InDeps(g, x) - done;
    }
  }

  /** Releasing `node` keeps the counts right. */
  lemma ReleaseKeepsCounts(g: DepGraph, inDegree: map<string, nat>, done: set<string>,
                           node: string, inDegree': map<string, nat>)
    requires Counted(g, inDegree, done) && node in g && node !in done
    requires inDegree'.Keys == g.Keys
    requires forall x {:trigger inDegree'[x]} :: x in g ==>
      inDegree'[x] + (if node in g[x] then 1 else 0) == inDegree[x]
    ensures Counted(g, inDegree', done + {node})
  {
    forall x | x in g ensures inDegree'[x] == |InDeps(g, x) - (done + {node})| {
      OneMoreDone(g, node, done, x);
    }
  }

  /** Releasing `node` leaves exactly the ready nodes in the queue. */
  lemma ReleaseKeepsQueue(g: DepGraph, inDegree: map<string, nat>, queue: set<string>, done: set<string>,
                          node: string, queue': set<string>)
    requires Counted(g, inDegree, done) && Closed(g, done)
    requires queue == Ready(g, done) && node in queue
    requires forall x {:trigger x in queue'} :: x in queue' <==>
      x in queue - {node} || (x in g && node in g[x] && inDegree[x] == 1)
    ensures queue' == Ready(g, done + {node})
  {
    ReleasedNodes(g, inDegree, done, node);
  }

  lemma ReleasedNodes(g: DepGraph, inDegree: map<string, nat>, done: set<string>, node: string)
    requires Counted(g, inDegree, done) && Closed(g, done)
    requires node in Ready(g, done)
    ensures forall x {:trigger x in Ready(g, done + {node})} :: x in Ready(g, done + {node}) <==>
      x in Ready(g, done) - {node} || (x in g && node in g[x] && inDegree[x] == 1)
  {
    forall x ensures x in Ready(g, done + {node}) <==>
      x in Ready(g, done) - {node} || (x in g && node in g[x] && inDegree[x] == 1)
    {
      ReleasedNode(g, inDegree, done, node, x);
    }
  }

  /** One node's membership in the queue after `node` is released. */
  lemma ReleasedNode(g: DepGraph, inDegree: map<string, nat>, done: set<string>, node: string, x: string)
    requires Counted(g, inDegree, done) && Closed(g, done)
    requires node in Ready(g, done)
    ensures x in Ready(g, done + {node}) <==>
      x in Ready(g, done) - {node} || (x in g && node in g[x] && inDegree[x] == 1)
  {
    if x in g {
      OneMoreDone(g, node, done, x);
      assert inDegree[x] == |InDeps(g, x) - done|;
      if x in done {
        assert node !in g[x];
      }
    }
  }

  /** Outputting a ready node keeps the output closed. */
  lemma ReleaseKeepsClosed(g: DepGraph, done: set<string>, node: string)
    requires Closed(g, done) && node in Ready(g, done)
    ensures Closed(g, done + {node})
  {
    forall x | x in done + {node} ensures x in g && InDeps(g, x) <= done + {node} {
      var d := if x == node then InDeps(g, node) else InDeps(g, x);
      assert d <= done;
      SubsetGrows(d, done, node);
    }
  }

  lemma SubsetGrows(a: set<string>, b: set<string>, y: string)
    requires a <= b
    ensures a <= b + {y}
  {
  }

  /** Removing `d` from the pending set adds `d` back to what `a` has
      beyond it exactly when `d` belongs to `a`. */
  lemma PendingOneLess(a: set<string>, pending: set<string>, d: string)
    requires d in pending
    ensures |a - (pending - {d})| == |a - pending| + (if d in a then 1 else 0)
  {
    if d in a {
      assert a - (pending - {d}) == (a - pending) + {d};
    } else {
      assert a - (pending - {d}) == a - pending;
    }
  }

  /** The inner loop of lines 256-258 for one node: one unit for every
      dependency that is itself a node of the graph. */
  method CountDependencies(g: DepGraph, node: string) returns (count: nat)
    requires node in g
    ensures count == |InDeps(g, node)|
  {
    count := 0;
    var pending := g[node];
    assert InDeps(g, node) - pending == {};
    while pending != {}
      invariant pending <= g[node]
      invariant count == |InDeps(g, node) - pending|
      decreases |pending|
    {
      var dep :| dep in pending;
      PendingOneLess(InDeps(g, node), pending, dep);
      if dep in g {
        count := count + 1;
      }
      pending := pending - {dep};
    }
    assert InDeps(g, node) - pending == InDeps(g, node);
  }

  /** `in_degree` after lines 249-258: every node starts at zero (line 249)
      and the nested loop adds its in-graph dependencies. The loop of
      lines 250-253 changes nothing. */
  method InitialInDegrees(g: DepGraph) returns (inDegree: map<string, nat>)
    ensures inDegree.Keys == g.Keys
    ensures forall x {:trigger inDegree[x]} :: x in g ==> inDegree[x] == |InDeps(g, x)|
  {
    inDegree := map x | x in g :: 0;
    var pending := g.Keys;
    while pending != {}
      invariant pending <= g.Keys && inDegree.Keys == g.Keys
      invariant forall x {:trigger inDegree[x]} :: x in g && x !in pending ==> inDegree[x] == |InDeps(g, x)|
      decreases |pending|
    {
      var node :| node in pending;
      var count := CountDependencies(g, node);
      inDegree := inDegree[node := count];
      pending := pending - {node};
    }
  }

  /** The counts before the first iteration, as `Counted` phrases them. */
  lemma InitialCounts(g: DepGraph, inDegree: map<string, nat>)
    requires inDegree.Keys == g.Keys
    requires forall x {:trigger inDegree[x]} :: x in g ==> inDegree[x] == |InDeps(g, x)|
    ensures Counted(g, inDegree, {})
  {
    forall x | x in g ensures inDegree[x] == |InDeps(g, x) - {}| {
      assert InDeps(g, x) - {} == InDeps(g, x);
    }
  }

  /** The queue before the first iteration (line 261). */
  lemma InitialQueue(g: DepGraph, inDegree: map<string, nat>, queue: set<string>)
    requires Counted(g, inDegree, {})
    requires queue == set x | x in inDegree && inDegree[x] == 0
    ensures queue == Ready(g, {})
  {
    forall x ensures x in queue <==> x in Ready(g, {}) {
      InitiallyReady(g, inDegree, x);
    }
  }

  lemma InitiallyReady(g: DepGraph, inDegree: map<string, nat>, x: string)
    requires Counted(g, inDegree, {})
    ensures x in Ready(g, {}) <==> x in inDegree && inDegree[x] == 0
  {
    if x in g {
      var a := InDeps(g, x);
      assert inDegree[x] == |a - {}|;
      CardZero(a, {});
      assert x in Ready(g, {}) <==> a <= {};
    }
  }

  /** When the queue runs dry the output is the whole loop output, and the
      leftovers are the nodes not output. */
  lemma LoopFinished(g: DepGraph, result: seq<string>)
    requires Distinct(result) && NodesOf(g, result)
    requires Ready(g, Elems(result)) == {}
    requires KahnLoop(g, result) == Scheduled(g)
    ensures Scheduled(g) == result
    ensures Leftovers(g) == g.Keys - Elems(result)
    ensures |result| == |g| ==> TopoOrder(g) == result && Leftovers(g) == {}
    ensures |result| != |g| ==> TopoOrder(g) == result + SortedSet(Leftovers(g))
  {
    assert Scheduled(g) == result;
    if |result| == |g| {
      DistinctElemsCard(result);
      assert Elems(result) <= g.Keys;
      SubsetDifferenceCard(g.Keys, Elems(result));
      assert |SortedSet(Leftovers(g))| == 0;
    }
  }

  /** The in-degree algorithm of lines 249-282, statement by statement:
      it outputs what `TopoOrder` describes and reports the leftovers. */
  method TopologicalSort(g: DepGraph) returns (result: seq<string>, missing: set<string>)
    ensures result == TopoOrder(g)
    ensures missing == Leftovers(g)
  {
    var inDegree := InitialInDegrees(g);
    var queue := set x | x in inDegree && inDegree[x] == 0;
    InitialCounts(g, inDegree);
    InitialQueue(g, inDegree, queue);
    result := [];
    assert Elems(result) == {};
    while queue != {}
      invariant Distinct(result) && NodesOf(g, result)
      invariant Bookkeeping(g, inDegree, queue, Elems(result))
      invariant KahnLoop(g, result) == Scheduled(g)
      decreases |g.Keys - Elems(result)|
    {
      var node := Least(queue);
      KahnLoopUnfold(g, result);
      ReadyNodeCounted(g, inDegree, Elems(result), node);
      var inDegree', queue' := ReleaseDependents(g, inDegree, queue - {node}, node);
      ReleaseKeepsCounts(g, inDegree, Elems(result), node, inDegree');
      ReleaseKeepsQueue(g, inDegree, queue, Elems(result), node, queue');
      ReleaseKeepsClosed(g, Elems(result), node);
      inDegree, queue := inDegree', queue';
      result := result + [node];
    }
    LoopFinished(g, result);
    missing := {};
    if |result| != |g| {
      missing := g.Keys - Elems(result);
      result := result + SortedSet(missing);
    }
  }
}
