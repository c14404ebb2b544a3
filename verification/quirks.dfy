/** A worked instance of `identify_parallel_groups` in which a later task
    joins an earlier group, so running the groups one after another does
    not follow the execution order. */
module Quirks {
  import opened Seqs
  import opened Tasks
  import opened Lex
  import opened Implicit
  import opened Graph
  import opened TopoSort
  import opened Grouping
  import opened Planner

  /** T1, T2, T3 of one phase, no files, T2 waiting for T1. */
  const Tasks3: seq<Task> := [
    Task("T1", "P1", [], [], [], 0),
    Task("T2", "P1", ["T1"], [], [], 0),
    Task("T3", "P1", [], [], [], 0)]

  const Graph3: DepGraph := map["T1" := {}, "T2" := {"T1"}, "T3" := {}]

  const Order3: seq<string> := ["T1", "T2", "T3"]

  /** No task of the example modifies a file, so no file puts one task
      behind another. */
  lemma NoConflicts3(k: nat, b: nat)
    requires k < 3 && b < 3
    ensures !ConflictBefore(Tasks3, b, k)
  {
    assert Tasks3[k].files == [];
  }

  lemma Tasks3Active()
    ensures DistinctIds(Tasks3)
    ensures FilterPhase(Tasks3, None) == Tasks3
    ensures Ids(Tasks3) == {"T1", "T2", "T3"} == Graph3.Keys
  {
    assert Tasks3[0].id == "T1" && Tasks3[1].id == "T2" && Tasks3[2].id == "T3";
    assert Tasks3[0] in Tasks3 && Tasks3[1] in Tasks3 && Tasks3[2] in Tasks3;
  }

  /** The only edge of the example: T2 waits for T1. */
  lemma Edge3(k: nat, b: nat)
    requires k < 3 && b < 3
    ensures DistinctIds(Tasks3)
    ensures Tasks3[b].id in BuildDependencyGraph(Tasks3, None)[Tasks3[k].id] <==> k == 1 && b == 0
  {
    Tasks3Active();
    GraphEdges(Tasks3, None, k, b);
    Depends3(k, b);
  }

  lemma Depends3(k: nat, b: nat)
    requires k < 3 && b < 3
    ensures DependsOn(Tasks3, k, b) <==> k == 1 && b == 0
  {
    NoConflicts3(k, b);
    assert Tasks3[b].phase !in Tasks3[k].phaseDeps;
    if k == 1 {
      assert Tasks3[1].deps == ["T1"];
      assert Tasks3[b].id == "T1" <==> b == 0;
    } else {
      assert Tasks3[k].deps == [];
    }
  }

  lemma Keys3()
    ensures DistinctIds(Tasks3)
    ensures BuildDependencyGraph(Tasks3, None).Keys == Graph3.Keys
  {
    Tasks3Active();
  }

  /** The dependencies the graph records for task `Tasks3[k]`. */
  lemma Row3(k: nat)
    requires k < 3
    ensures DistinctIds(Tasks3)
    ensures BuildDependencyGraph(Tasks3, None)[Tasks3[k].id] == if k == 1 then {"T1"} else {}
  {
    Keys3();
    var g := BuildDependencyGraph(Tasks3, None);
    var row := g[Tasks3[k].id];
    assert row <= {"T1", "T2", "T3"};
    assert Tasks3[0].id == "T1" && Tasks3[1].id == "T2" && Tasks3[2].id == "T3";
    Edge3(k, 0);
    Edge3(k, 1);
    Edge3(k, 2);
    assert "T2" !in row && "T3" !in row;
    assert "T1" in row <==> k == 1;
    AtMostT1(row);
  }

  lemma AtMostT1(row: set<string>)
    requires row <= {"T1", "T2", "T3"} && "T2" !in row && "T3" !in row
    ensures row == if "T1" in row then {"T1"} else {}
  {
  }

  /** `build_dependency_graph` gives the example graph: the only edge is
      T2's explicit dependency on T1. */
  lemma Graph3Built()
    ensures DistinctIds(Tasks3)
    ensures BuildDependencyGraph(Tasks3, None) == Graph3
  {
    Keys3();
    Row3(0);
    Row3(1);
    Row3(2);
    assert Tasks3[0].id == "T1" && Tasks3[1].id == "T2" && Tasks3[2].id == "T3";
    IsGraph3(BuildDependencyGraph(Tasks3, None));
  }

  lemma IsGraph3(g: DepGraph)
    requires g.Keys == Graph3.Keys
    requires g["T1"] == {} && g["T2"] == {"T1"} && g["T3"] == {}
    ensures g == Graph3
  {
  }

  lemma InDeps3()
    ensures InDeps(Graph3, "T1") == {} && InDeps(Graph3, "T2") == {"T1"} && InDeps(Graph3, "T3") == {}
  {
  }

  /** Which nodes are ready once `done` is output. */
  lemma Ready3(done: set<string>, ready: set<string>)
    requires done <= Graph3.Keys
    requires forall x :: x in ready <==> x in Graph3 && x !in done && ("T1" in done || x != "T2")
    ensures Ready(Graph3, done) == ready
  {
    InDeps3();
  }

  lemma Least3()
    ensures Least({"T1", "T3"}) == "T1" && Least({"T2", "T3"}) == "T2" && Least({"T3"}) == "T3"
  {
    assert Less("T1", "T3") && Less("T2", "T3");
    assert IsLeast("T1", {"T1", "T3"}) && IsLeast("T2", {"T2", "T3"}) && IsLeast("T3", {"T3"});
    LeastUnique({"T1", "T3"});
    LeastUnique({"T2", "T3"});
    LeastUnique({"T3"});
  }

  /** One iteration of the loop on the example: from `done`, output `next`. */
  lemma Step3(done: seq<string>, ready: set<string>, next: string)
    requires Distinct(done) && NodesOf(Graph3, done)
    requires Ready(Graph3, Elems(done)) == ready && ready != {} && Least(ready) == next
    ensures Distinct(done + [next]) && NodesOf(Graph3, done + [next])
    ensures KahnLoop(Graph3, done) == KahnLoop(Graph3, done + [next])
  {
    KahnLoopUnfold(Graph3, done);
  }

  lemma FirstStep3()
    ensures Distinct(["T1"]) && NodesOf(Graph3, ["T1"])
    ensures KahnLoop(Graph3, []) == KahnLoop(Graph3, ["T1"])
  {
    var s0: seq<string> := [];
    assert s0 + ["T1"] == ["T1"] && Elems(s0) == {};
    Least3();
    Ready3({}, {"T1", "T3"});
    Step3(s0, {"T1", "T3"}, "T1");
  }

  lemma SecondStep3()
    ensures Distinct(["T1", "T2"]) && NodesOf(Graph3, ["T1", "T2"])
    ensures KahnLoop(Graph3, ["T1"]) == KahnLoop(Graph3, ["T1", "T2"])
  {
    FirstStep3();
    assert ["T1"] + ["T2"] == ["T1", "T2"] && Elems(["T1"]) == {"T1"};
    Least3();
    Ready3({"T1"}, {"T2", "T3"});
    Step3(["T1"], {"T2", "T3"}, "T2");
  }

  lemma ThirdStep3()
    ensures Distinct(Order3) && NodesOf(Graph3, Order3)
    ensures KahnLoop(Graph3, ["T1", "T2"]) == KahnLoop(Graph3, Order3)
  {
    SecondStep3();
    assert ["T1", "T2"] + ["T3"] == Order3 && Elems(["T1", "T2"]) == {"T1", "T2"};
    Least3();
    Ready3({"T1", "T2"}, {"T3"});
    Step3(["T1", "T2"], {"T3"}, "T3");
  }

  lemma LastStep3()
    ensures Distinct(Order3) && NodesOf(Graph3, Order3)
    ensures KahnLoop(Graph3, Order3) == Order3
    ensures Elems(Order3) == Graph3.Keys
  {
    ThirdStep3();
    assert Elems(Order3) == {"T1", "T2", "T3"};
    Ready3({"T1", "T2", "T3"}, {});
  }

  /** `topological_sort` on the example graph: T1 and T3 start ready and
      the lexically smaller T1 goes first; T2 is then smaller than T3. */
  lemma Order3Sorted()
    ensures TopoOrder(Graph3) == Order3
  {
    FirstStep3();
    SecondStep3();
    ThirdStep3();
    LastStep3();
    assert Scheduled(Graph3) == Order3;
    assert Leftovers(Graph3) == {};
    assert SortedSet(Leftovers(Graph3)) == [];
  }

  lemma Known3()
    ensures KnownIds(Tasks3, Order3)
    ensures FilesOf(Tasks3, "T1") == {} && FilesOf(Tasks3, "T2") == {} && FilesOf(Tasks3, "T3") == {}
    ensures Deps(Graph3, "T1") == {} && Deps(Graph3, "T2") == {"T1"} && Deps(Graph3, "T3") == {}
  {
    assert Tasks3[0].id == "T1" && Tasks3[1].id == "T2" && Tasks3[2].id == "T3";
  }

  /** First group: T2 still waits for T1, T3 joins. */
  lemma FirstMembers3()
    ensures KnownIds(Tasks3, Order3)
    ensures Members(Tasks3, Graph3, Order3, "T1", {}) == ["T1", "T3"]
  {
    Known3();
    assert !Admits(Tasks3, Graph3, "T1", "T2", {});
    assert Admits(Tasks3, Graph3, "T1", "T3", {});
    assert Companions(Tasks3, Graph3, "T1", Order3[3..], {}) == [];
    assert Companions(Tasks3, Graph3, "T1", Order3[2..], {}) == ["T3"];
    assert Companions(Tasks3, Graph3, "T1", Order3[1..], {}) == ["T3"];
    assert Companions(Tasks3, Graph3, "T1", Order3, {}) == ["T3"];
  }

  /** Second group: T2 alone, everything else is processed. */
  lemma SecondMembers3()
    ensures KnownIds(Tasks3, Order3)
    ensures Members(Tasks3, Graph3, Order3, "T2", {"T1", "T3"}) == ["T2"]
  {
    Known3();
    var seen: set<string> := {"T1", "T3"};
    assert Companions(Tasks3, Graph3, "T2", Order3[3..], seen) == [];
    assert Companions(Tasks3, Graph3, "T2", Order3[2..], seen) == [];
    assert Companions(Tasks3, Graph3, "T2", Order3[1..], seen) == [];
    assert Companions(Tasks3, Graph3, "T2", Order3, seen) == [];
  }

  /** After the first group only T2 is left, and it forms the second group. */
  lemma RestGroups3()
    ensures KnownIds(Tasks3, Order3)
    ensures GroupsFrom(Tasks3, Graph3, Order3, 1, {"T1", "T3"}, 2) == [MakeGroup(2, ["T2"])]
  {
    SecondMembers3();
    var all: set<string> := {"T1", "T2", "T3"};
    assert {"T1", "T3"} + Elems(["T2"]) == all;
    assert GroupsFrom(Tasks3, Graph3, Order3, 3, all, 3) == [];
    assert GroupsFrom(Tasks3, Graph3, Order3, 2, all, 3) == [];
  }

  /** The groups are [T1, T3] then [T2]: together they run T1, T3, T2,
      which is not the order T1, T2, T3 they were built from. */
  lemma CompanionJumpsAhead()
    ensures KnownIds(Tasks3, Order3)
    ensures var gs := IdentifyParallelGroups(Tasks3, Graph3, Order3);
      |gs| == 2 && gs[0].tasks == ["T1", "T3"] && gs[1].tasks == ["T2"] &&
      Flatten(gs) == ["T1", "T3", "T2"] != Order3
  {
    Groups3();
    var gs := IdentifyParallelGroups(Tasks3, Graph3, Order3);
    assert Flatten(gs) == ["T1", "T3"] + (["T2"] + []);
    assert Flatten(gs)[1] != Order3[1];
  }

  /** Both groups of the example. */
  lemma Groups3()
    ensures KnownIds(Tasks3, Order3)
    ensures IdentifyParallelGroups(Tasks3, Graph3, Order3) == [MakeGroup(1, ["T1", "T3"]), MakeGroup(2, ["T2"])]
  {
    FirstMembers3();
    RestGroups3();
    assert {} + Elems(["T1", "T3"]) == {"T1", "T3"};
    assert Order3[0] == "T1" && "T1" !in {};
    var gs := IdentifyParallelGroups(Tasks3, Graph3, Order3);
    assert gs == [MakeGroup(1, ["T1", "T3"])] + GroupsFrom(Tasks3, Graph3, Order3, 1, {"T1", "T3"}, 2);
  }

  /** The whole pipeline on the example: the plan's execution order is
      T1, T2, T3, while its groups run T1, T3, T2. */
  lemma PlanJumpsAhead()
    ensures DistinctIds(Tasks3)
    ensures var plan := Analyze(Tasks3, None);
      plan.executionOrder == Order3 && plan.tasks == Tasks3 &&
      Flatten(plan.parallelGroups) == ["T1", "T3", "T2"]
  {
    Graph3Built();
    Order3Sorted();
    LastStep3();
    Tasks3Active();
    FilterIdsKeepsAll(Tasks3, Elems(Order3));
    CompanionJumpsAhead();
  }
}
