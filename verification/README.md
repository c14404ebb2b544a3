# Dependency scheduler: a verified model

This project models the planning engine of `scripts/po/analyze_dependencies.py`. The engine turns parsed task records into an execution plan in four stages:

1. **Dependency graph.** It merges three kinds of dependencies into one graph over task ids, keeping only the tasks of the selected phase:
   - explicit task dependencies;
   - phase dependencies, resolved to every task of the named phase except the task itself;
   - implicit dependencies from shared modified files. Among the tasks touching a file, ordered by priority, each task waits for every task before it.
2. **Order.** Kahn's algorithm, which always takes the lexically smallest ready id, produces an order. Ids it never reaches, because of a cycle, are appended in sorted order.
3. **Groups.** The order is cut greedily into parallel groups. Each group is led by the first id not yet processed (the seed). A later unprocessed id joins the group when all of the following hold:
   - neither it nor the seed lists the other as a dependency;
   - all of its dependencies are already processed;
   - all of the seed's dependencies are already processed;
   - it shares no file with the seed.
4. **Summary.** The plan record holds the version, the phase label, the kept tasks, the groups, the order and three counts.

The modules follow those stages:
- `Seqs` and `Lex` hold sequence helpers and Python's string order.
- `Tasks` holds the task record, the phase filter and dictionary lookups.
- `Phases` is `resolve_phase_dependencies`.
- `Implicit` is `detect_implicit_dependencies`: the file index, the stable priority sort and the edges.
- `Graph` is `build_dependency_graph`.
- `TopoSort` holds a functional reference for `topological_sort` and the in-degree algorithm itself, proved equal to it.
- `GroupNames` builds the `GROUP-001` identifiers.
- `Grouping` is `identify_parallel_groups`.
- `Planner` is the pure part of `analyze`.
- `Quirks` runs the whole pipeline on a three-task example.

The Python task dictionary is a `seq<Task>` with distinct ids in insertion order. The order matters: it breaks priority ties in the stable sort.

Properties proved, beyond what each operation computes:
- The order lists every active task exactly once.
- Without a cycle the order is topological. There are leftovers exactly when some non-empty set of tasks each waits for a member of the set, possibly itself.
- The groups partition the order.
- Two members of a group never depend on each other and never share a file.
- When the graph is acyclic, every dependency of a group's member lies in an earlier group, so the barrier after each group suffices.
- The counts add up to the number of tasks.

Behaviours of the code the model reproduces deliberately:
- **Self-dependencies are not suppressed.** They arise from an explicit self-dependency (line 228) or from a task that lists the same file twice (lines 174-187). Such a task never reaches in-degree zero, so it ends up among the cycle leftovers (`TopoSort.SelfDependentLeftover`).
- **Priority ties go to the task inserted first.** They are not broken by id order, because `sorted` is stable over the file index (line 183).
- **The groups together are a permutation of the order, not the order itself.** A companion may come from later in the order than an id that is still waiting (`Quirks.PlanJumpsAhead`).
- **Files are compared only against the seed (lines 316-321).** Members still never share a file, because shared files already put an implicit edge between any two tasks (`Planner.GroupMembersShareNoFile`).

## Model

| member | source | states |
|---|---|---|
| Lex.SortedSet | scripts/po/analyze_dependencies.py:280 | `sorted(missing)`: the sequence holds exactly the elements of the set, strictly ascending in Python's string order, one position per element |
| Lex.Least | scripts/po/analyze_dependencies.py:266-267 | `queue.sort(); queue.pop(0)` takes the element that is smaller than every other element of the queue |
| Tasks.FilterPhase | scripts/po/analyze_dependencies.py:222-223 | a task is kept exactly when it is in the input and its phase matches the filter; no filter or an empty filter keeps all; ids stay unique; kept tasks keep their input order |
| Tasks.FilterPhasePositions | scripts/po/analyze_dependencies.py:222-223 | among the kept tasks, one comes before another exactly when it was inserted before it |
| Tasks.FilterIds | scripts/po/analyze_dependencies.py:361 | a task is kept exactly when its id is in the key set; the kept ids are the input ids intersected with the key set; kept tasks keep their input order |
| Tasks.FilterIdsKeepsAll | scripts/po/analyze_dependencies.py:361 | keeping every id of the dictionary keeps the whole dictionary, in the same order |
| Tasks.TaskNamedUnique | scripts/po/analyze_dependencies.py:318-319 | looking up the id of any task in a dictionary with unique keys gives back that task |
| Phases.PhaseIndex | scripts/po/analyze_dependencies.py:198-203 | the phase index has an entry for exactly the phases that some task belongs to |
| Phases.ResolvePhaseDependencies | scripts/po/analyze_dependencies.py:206-208 | every task id gets an entry, and nothing else does |
| Phases.ResolveForMeaning | scripts/po/analyze_dependencies.py:209-214 | after the loop over a task's phase dependencies, an id is resolved exactly when it was already resolved, or it differs from the task and belongs to a listed phase present in the index |
| Phases.PhaseDepsExact | scripts/po/analyze_dependencies.py:192-216 | `d` is a resolved dependency of task `k` exactly when `d` is not `k` and some task with id `d` belongs to a phase that `k` lists |
| Implicit.AddFilesGet | scripts/po/analyze_dependencies.py:174-177 | adding a task's files appends its position to a file's list once for every time the task lists that file |
| Implicit.FileIndex | scripts/po/analyze_dependencies.py:172-177 | the index has an entry exactly for the files some task lists; an entry is the list of positions of the tasks listing it |
| Implicit.OccurrencesFacts | scripts/po/analyze_dependencies.py:172-177 | every file's list holds valid positions in non-decreasing order, and position `k` occurs as often as task `k` lists the file |
| Implicit.SortByPriority | scripts/po/analyze_dependencies.py:183 | sorting by priority permutes the list: same elements, same multiplicities |
| Implicit.SortByPriorityStable | scripts/po/analyze_dependencies.py:183 | a list that was in position order comes out ordered by priority, with equal priorities in position order, as a stable sort promises |
| Implicit.ConflictLists | scripts/po/analyze_dependencies.py:180-183 | the file-conflict lists: only files listed more than once, each list sorted by priority; `Implicit.ConflictListFacts` and `Implicit.ConflictListCount` characterise it |
| Implicit.ConflictListFacts | scripts/po/analyze_dependencies.py:180-183 | a file has a conflict list exactly when it is listed more than once in total, and the list is ordered by priority and then by position |
| Implicit.ConflictListCount | scripts/po/analyze_dependencies.py:180-183 | a conflict list holds each task as often as the task lists the file |
| Implicit.DetectImplicitDependencies | scripts/po/analyze_dependencies.py:169 | every task id has an entry, and nothing else does |
| Implicit.ImplicitDepsExact | scripts/po/analyze_dependencies.py:167-189 | task `k` implicitly depends on task `b` exactly when they share a file and `b` is ahead of `k` by priority and then position, or `b` is `k` and lists that file twice |
| Implicit.ImplicitDepsRespectPriority | scripts/po/analyze_dependencies.py:183-187 | an implicit dependency never has a larger priority number than its dependent |
| Implicit.ImplicitDepsAreTasks | scripts/po/analyze_dependencies.py:185-187 | implicit dependencies only name tasks of the input |
| Graph.ExplicitDeps | scripts/po/analyze_dependencies.py:228 | a task's explicit dependencies that are active tasks; `Graph.MergedDepsExact` characterises it |
| Graph.MergedDeps | scripts/po/analyze_dependencies.py:226-242 | the merged dependencies of a task only name active tasks |
| Graph.BuildDependencyGraph | scripts/po/analyze_dependencies.py:219-244 | the graph has a node exactly for each task that passes the phase filter, and every edge ends at a node of the graph |
| Graph.PhasePart | scripts/po/analyze_dependencies.py:231-236 | among the active tasks, `b` is a phase dependency of `k` exactly when `b` is not `k` and `k` lists `b`'s phase |
| Graph.MergedDepsExact | scripts/po/analyze_dependencies.py:226-242 | `b` is a merged dependency of `k` exactly when `k` lists `b` explicitly, or lists `b`'s phase and `b` is not `k`, or waits for `b` on a shared file |
| Graph.GraphEdges | scripts/po/analyze_dependencies.py:219-244 | in the built graph, active task `k` has an edge to active task `b` exactly when `k` depends on `b` by one of the three rules |
| Graph.EqualPriorityEarlierFirst | scripts/po/analyze_dependencies.py:172-187 | of two active tasks with the same priority that modify the same file, the one inserted first is a dependency of the other |
| TopoSort.KahnLoop | scripts/po/analyze_dependencies.py:264-275 | the loop's output; `TopoSort.KahnLoopSteps` and `TopoSort.KahnLoopStops` characterise it |
| TopoSort.TopoOrder | scripts/po/analyze_dependencies.py:247-282 | the reference order: the loop's output followed by the sorted leftovers; `TopoSort.TopoOrderIsPermutation`, `TopoSort.ScheduledSteps` and `TopoSort.LeftoverTail` characterise it |
| TopoSort.KahnLoopSteps | scripts/po/analyze_dependencies.py:264-268 | each id the loop outputs is the smallest id all of whose dependencies were output before it |
| TopoSort.KahnLoopStops | scripts/po/analyze_dependencies.py:264 | when the loop ends, no unprocessed node has all its dependencies processed |
| TopoSort.TopoOrderIsPermutation | scripts/po/analyze_dependencies.py:247-282 | the order lists every node of the graph exactly once and nothing else |
| TopoSort.ScheduledSteps | scripts/po/analyze_dependencies.py:264-275 | the order begins with the loop's output, each entry the least ready node, and that prefix is topological |
| TopoSort.LeftoverTail | scripts/po/analyze_dependencies.py:277-280 | after the loop's output come exactly the unreached nodes, strictly ascending |
| TopoSort.NoLeftoversTopological | scripts/po/analyze_dependencies.py:277 | when every node is reached, every node comes after all of its dependencies |
| TopoSort.StuckAreLeftovers | scripts/po/analyze_dependencies.py:264-278 | no node of a stuck set is ever reached by the loop; a stuck set is a non-empty set of nodes each of which waits for a member of the set, possibly itself |
| TopoSort.LeftoversAreStuck | scripts/po/analyze_dependencies.py:277-278 | the unreached nodes themselves form a stuck set: each waits for an unreached node, possibly itself |
| TopoSort.SelfDependentLeftover | scripts/po/analyze_dependencies.py:264-278 | a node that lists itself as a dependency is never output by the loop and ends among the leftovers |
| TopoSort.LeftoversIffStuck | scripts/po/analyze_dependencies.py:277-279 | the cycle warning is issued exactly when the graph has a stuck set |
| TopoSort.AcyclicTopological | scripts/po/analyze_dependencies.py:247-282 | on a graph without a stuck set there are no leftovers and the order is topological |
| TopoSort.CountDependencies | scripts/po/analyze_dependencies.py:256-258 | the inner counting loop adds one for each dependency of the node that is a node of the graph |
| TopoSort.InitialInDegrees | scripts/po/analyze_dependencies.py:249-258 | the counting loops give every node of the graph, and nothing else, an in-degree equal to the number of its dependencies inside the graph |
| TopoSort.InitialQueue | scripts/po/analyze_dependencies.py:261 | the initial queue is exactly the nodes with no dependency inside the graph |
| TopoSort.ReleaseDependents | scripts/po/analyze_dependencies.py:270-275 | after outputting `node`, each dependent of `node` loses one unit of in-degree and no other node changes; the queue gains exactly the dependents whose in-degree reaches zero |
| TopoSort.TopologicalSort | scripts/po/analyze_dependencies.py:247-282 | the in-degree algorithm returns the reference order, and the ids it reports as missing are exactly the leftovers |
| GroupNames.DecimalValue | scripts/po/analyze_dependencies.py:325 | the decimal digits of a counter denote that counter |
| GroupNames.ZeroPad | scripts/po/analyze_dependencies.py:325 | `:03d` pads with leading zeros to three characters, keeping the digits as the suffix, and leaves longer numbers alone |
| GroupNames.GroupNameRoundTrip | scripts/po/analyze_dependencies.py:325 | reading a generated group id back gives the counter it was made from |
| GroupNames.GroupNameInjective | scripts/po/analyze_dependencies.py:325 | different counters give different group ids |
| GroupNames.GroupNameWidth | scripts/po/analyze_dependencies.py:325 | group ids are at least `GROUP-` plus three digits long, and exactly that long below 1000 |
| Grouping.Companions | scripts/po/analyze_dependencies.py:299-321 | the ids that join a seed, drawn from the candidates and listed in the candidates' order; `Grouping.CompanionsMembers` says which ids they are |
| Grouping.CompanionsMembers | scripts/po/analyze_dependencies.py:299-321 | an id joins the seed exactly when it is in the order, unprocessed, not the seed, and can run in parallel with the seed without a shared file |
| Grouping.BlockedSeedAlone | scripts/po/analyze_dependencies.py:309-314 | a seed with an unprocessed dependency admits no companion |
| Grouping.GroupsFrom | scripts/po/analyze_dependencies.py:291-335 | the groups from a position of the order on; `Grouping.GroupsFromCovered`, `Grouping.GroupShape` and `Grouping.GroupAdmission` characterise it |
| Grouping.GroupsFromCovered | scripts/po/analyze_dependencies.py:291-335 | the groups built from a position on cover exactly the unprocessed ids of the rest of the order |
| Grouping.IdentifyParallelGroups | scripts/po/analyze_dependencies.py:285-337 | no group is empty |
| Grouping.GroupShape | scripts/po/analyze_dependencies.py:291-335 | group `k` is led by the first id of the order not in an earlier group; it is named `GROUP-` with counter `k+1`, has a barrier after it, its agent estimate is its size capped at 5, and its members after the seed appear in execution order |
| Grouping.GroupAdmission | scripts/po/analyze_dependencies.py:299-321 | an id other than the seed is in group `k` exactly when it is in the order, in no earlier group, and admitted by the seed given the earlier groups |
| Grouping.BlockedSeedSingleton | scripts/po/analyze_dependencies.py:309-314 | a group whose seed still waits for an id outside the earlier groups holds only its seed |
| Grouping.MembersFresh | scripts/po/analyze_dependencies.py:299-301 | every member of a group is in the order and in no earlier group |
| Grouping.GroupsDisjoint | scripts/po/analyze_dependencies.py:332-333 | an id in one group is in no later group |
| Grouping.GroupsPartitionOrder | scripts/po/analyze_dependencies.py:291-335 | every id of the order is in exactly one group |
| Grouping.GroupIndependent | scripts/po/analyze_dependencies.py:309-314 | in a group with company, no member depends on another member |
| Grouping.CompanionDepsEarlier | scripts/po/analyze_dependencies.py:312-313 | every member of a group with company, and every companion, has all its dependencies in earlier groups |
| Grouping.GroupDistinct | scripts/po/analyze_dependencies.py:297-321 | for an order without repetitions, no group lists an id twice |
| Grouping.GroupsPermuteOrder | scripts/po/analyze_dependencies.py:291-335 | for an order without repetitions, the groups' members one after another are a permutation of the order |
| Planner.Analyze | scripts/po/analyze_dependencies.py:340-378 | the plan; `Planner.PlanFacts`, `Planner.PlanTasks`, `Planner.PlanCoversTasks` and `Planner.PlanCountsAddUp` characterise it |
| Planner.OrderIdsKnown | scripts/po/analyze_dependencies.py:358-362 | every id of the order names a task kept for the grouper, so the lookup at lines 318-319 cannot fail |
| Planner.PlanFacts | scripts/po/analyze_dependencies.py:355-375 | the plan's order is the topological order of the graph, repetition-free and covering exactly the graph's nodes and the plan's tasks; the groups are those of the kept tasks |
| Planner.PlanTasks | scripts/po/analyze_dependencies.py:373 | a task is in the plan exactly when it is in the input and passes the phase filter |
| Planner.PlanCoversTasks | scripts/po/analyze_dependencies.py:373-376 | the order lists each planned task once, and the groups together are a permutation of the order |
| Planner.CountsShareMembers | scripts/po/analyze_dependencies.py:377-378 | for non-empty groups, the parallelizable count plus the sequential count is the total number of members |
| Planner.PlanCountsAddUp | scripts/po/analyze_dependencies.py:376-378 | parallelizable tasks plus sequential tasks equals the total task count |
| Planner.NodePosition | scripts/po/analyze_dependencies.py:361 | every node of the graph is an active task, and the plan holds that same task under its id |
| Planner.SharedFileEdge | scripts/po/analyze_dependencies.py:239-242 | two different active tasks that modify the same file are joined by an edge, one way or the other |
| Planner.SharedFileDependency | scripts/po/analyze_dependencies.py:239-242 | two different planned tasks whose file sets overlap are joined by an edge, one way or the other |
| Planner.MembersApart | scripts/po/analyze_dependencies.py:309-314 | two different members of a group are in the order, and neither lists the other as a dependency |
| Planner.GroupMembersShareNoFile | scripts/po/analyze_dependencies.py:316-321 | two different members of a planned group modify no common file, even though only the seed's files are compared |
| Planner.SeedDepsEarlier | scripts/po/analyze_dependencies.py:292-297 | in a topological order, the first id not yet grouped has all its dependencies grouped |
| Planner.TopologicalBarriers | scripts/po/analyze_dependencies.py:291-335 | over a topological order, every dependency of a group's member lies in an earlier group |
| Planner.BarriersSuffice | scripts/po/analyze_dependencies.py:324-333 | when no task is left over, every dependency of a planned group's member lies in an earlier group, so the barrier after each group is enough |
| Planner.AcyclicBarriersSuffice | scripts/po/analyze_dependencies.py:324-333 | on a graph without a stuck set, every dependency of a planned group's member lies in an earlier group |
| Quirks.Graph3Built | scripts/po/analyze_dependencies.py:219-244 | for T1, T2 and T3 of one phase with no files, where T2 lists T1, the only edge goes from T2 to T1 |
| Quirks.Order3Sorted | scripts/po/analyze_dependencies.py:247-282 | on that graph the order is T1, T2, T3: T1 and T3 start ready and the smaller T1 goes first |
| Quirks.CompanionJumpsAhead | scripts/po/analyze_dependencies.py:299-321 | with T2 waiting for T1 and an order T1, T2, T3, the groups are [T1, T3] then [T2], so their concatenation T1, T3, T2 differs from the order |
| Quirks.PlanJumpsAhead | scripts/po/analyze_dependencies.py:340-378 | the plan for those three tasks has the order T1, T2, T3 but groups that run T1, T3, T2 |

## Left out

- Locating and reading task files is not modelled: `find_factory_root`, `find_task_files` and `parse_task_file` (lines 60-164) read the file system and pull fields out of Markdown with regular expressions. The model starts from parsed task records.
- The command-line entry point and output are left out: `main`, its argument parsing, writing the plan as JSON, and the printed summary (lines 381-421).
- The `generated_at` timestamp (line 372) reads the clock. `Planner.ExecutionPlan` has no such field.
- The cycle warning on standard error (line 279) becomes the `missing` out-parameter of `TopoSort.TopologicalSort` and the set `TopoSort.Leftovers`.
- `parallelizable` and `sequential` (lines 365-366) are computed and never used, so they are not modelled.
- The task fields `title`, `file_path`, `test_delta` and `complexity` are never read by the scheduler and are dropped from `Tasks.Task`.
- Unique task ids are a precondition (`DistinctIds`), because the source keeps tasks in a dictionary keyed by id.
- The `KeyError` that `tasks[other_id]` would raise for an id without a task is excluded by the `KnownIds` precondition of the grouper. `Planner.OrderIdsKnown` proves that `analyze` always meets it.
- The work queue of `topological_sort` is modelled as a set. The source's list never holds an id twice: an id enters it once, when its in-degree first reaches zero. It is sorted before every pop, so only its contents matter.
- Grouping.IdentifyParallelGroups: its own contract only says that groups are non-empty. What the groups hold is stated by the lemmas that follow it in the table.
