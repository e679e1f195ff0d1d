# A verified model of the static analyses on goto programs

This project models the analysis layer of Deagle's program front-end (`src/analyses`, inherited from CBMC)
and proves what its graph and dataflow algorithms compute. It covers one goto function at a time:
instructions are numbered by position, which is also the order of their location numbers, and control flow
is a graph with successor lists and their inverse.

The parts build on each other:

- `Cfg`, `GotoProgram`, `SortedSets`, `Words`, `ThreeValued`, `Options`: graphs and paths, instructions and the
  two successor relations read off them, ordered sets as the analyses edit them, the order of words, three-valued truth.
- `Dominance`, `Dominators`: dominance as a statement about all paths, and the worklist that computes it in
  both directions, with the empty set for "not reached yet" and intersection in place.
- `NaturalLoops`, `LexicalLoops`, `SeseRegions`: loops found by walking backwards from dominated back edges,
  loops found by checking location bounds, and the single-entry single-exit regions on top.
  `CycleEquivalence` says what the tests on cycles are worth to the regions.
- `AbstractInterpreter`: the fixed-point engine with pluggable histories, domains and storage. Its invariant
  says that every stored history is settled or shares its state with a queued one; from it follows that all
  runs of the concrete program are covered. `Ahistorical`, `CallStackHistory` and
  `LocalControlFlowHistory` are the histories; `IsThreaded`, `ControlDependence` and `ReachingDefinitions`
  are analyses run by the engine. `PathTermination` says when the loop ends with the history of local decisions.
- `LocalBitvector`: the pointer-kind analysis with its own graph and its change-driven queue.
- `Conditions`, `UnionFind`, `InvariantSet`: the relational invariants, down to the forest of parent pointers
  that keeps the equalities.
- `GuardExpr`, `CallGraph`: guards edited as operand lists, and call graphs.

Objects whose methods update them are classes; each such method is tied to a function of the old state, and
what the source promises is proved of these functions. Loops over `std::set` and `std::map` in an order that
does not matter pick any element. `unsigned_union_find` keeps the set sizes it weighs by; the model counts the
members instead.

## Where the code does less than it says

The model follows the code. These are results, each with its exact condition where one is stated:

- `unsigned_union_find::intersection` is documented as the strongest implication of both partitions. It
  only ever joins a number with its root, so numbers that are together in both but apart from their root in
  the second are parted (`IntersectionIsMeetExactly`, `IntersectionCanBeFiner`). The invariant sets stay sound,
  as less is claimed.
- `unsigned_union_find::isolate` leaves the children of an inner node behind (`CutOffIsolatesExactly`), as after three
  unions (`CutOffLeavesChild`). The invariant sets look up every number after each union, which keeps the forest flat;
  `Invariants.Valid` is that fact.
- Making an invariant set true or threaded leaves its bounds (`MadeTrueIsTrueExactly`).
- Invariant sets know less than follows. Whatever is added exactly is implied afterwards and stays so (`Strengthen`,
  `KnownStays`); but a new equality carries inequalities over to its own two objects only (`EqualityMissesOthers`),
  bounds are not carried over (`BoundsAreNotShared`), `<=` does not refute the opposite `<` (`LtIsNotRefuted`), and
  the first bound of an unsigned variable hides its sign, so that 0 <= x can be implied before x <= 5 is learnt and
  not after (`SignIsForgotten`).
- An assignment to an if-expression overwrites the flags of both branches in the pointer analysis
  (`SoundIfTargetDefinite`), and a difference of pointers is taken for its first operand
  (`SoundUnlessMisread`).
- Regions are meant to have cycle equivalent ends: a cycle has both or neither. Even if all cycles are natural
  loops, only those through the exit are sure to have the entry (`ExitCyclesPassEntry`); the other half holds iff the
  exit post-dominates the entry with the tails of the loops around them as further exits (`CycleEquivalentExactly`),
  and it fails for a loop that is gone round again before the exit is come to (`EarlyTurnMissesExit`).
- The tests that are to rule out cycles other than natural loops look at locations only. A jump to itself makes its
  instruction a header, and another backwards edge to it passes unseen (`TestsSufficeExactly`, `SelfJumpHidesCycle`).
- A lexical loop is a natural loop except where threads are started: the walk follows the edge to a started thread,
  which the graph dominance is computed on lacks (`SameLoopExactly`, `ThreadStartWidensLoop`).
- Reaching definitions of thread-local variables are dropped after a thread start on both edges, also where
  the starting thread goes on. So the last writer is missed iff no path carries it (`CoveredExactly`), which is the
  case on a simple run (`ThreadStartForgetsLocals`). Killing up to an unknown end does nothing. The
  assertion in `kill` rejects ranges without bits (`AssertionRejectsExactly`); the model does what the code does
  without assertions, where such a range kills nothing.
- The guard operator `-=` never removes anything from a conjunction when the other guard is a single
  condition, as it compares the whole guard instead of each operand (`AddedIsTakenBack`); its contract holds all the
  same. `disjunction_may_simplify` misses one case and foretells one too many (`MaySimplifyMisses`,
  `MaySimplifyForetells`).
- The history of local decisions can answer "new" for its path-merge history again (`NewMayBeOldExactly`), and then it
  is queued though nothing changed. With a limit of two, the analysis of a program of five instructions never ends
  (`EndlessLoopIsNeverLeft`, `NothingGetsLess`). It always ends with a limit of one, and with a larger one if tracked
  jumps alone make up no cycle, as when only forward jumps are tracked (`LimitedIsTerminating`,
  `ForwardTrackingHasNoCycle`).
- Its step takes for granted that the head of a called function holds one history, of merged paths. That is so where
  only calls lead (`HeadHoldsMerged`), and not for a tracked loop at a head (`LoopAtHeadIsNotMerged`). It also takes for
  granted that a full location has merged paths, which a limit of one breaks at the entry and nowhere else
  (`NeverOverLimit`, `LimitOneFailsAtEntry`, `LimitOneHoldsElsewhere`).
- The rooted call graph goes over a function each time it was pushed, so a call can have more edges than call sites
  (`OneEdgePerSiteExactly`, `RepeatedCallsAreRepeated`); never if functions that make calls are called in one place each
  (`OnePlaceMeansOneEdge`).
- By the documentation of `dominates`, every program point dominates itself; an unreachable one is dominated by
  nothing (`QueryReflexiveExactly`).

## Model

| member | source | states |
|---|---|---|
| `GotoProgram.FlowGraph` | src/goto-programs/goto_program.h:1153-1208 | the graph of the successors the interpreter follows, with incoming edges as their exact inverse and no parallel edges |
| `GotoProgram.GraphsAgree` | src/goto-programs/cfg.h:453-520 | the procedure-local graph has only edges control can take, and lacks only those to started threads |
| `SortedSets.IntersectInPlace` | src/analyses/cfg_dominators.h:211-244 | the two-iterator walk erases exactly what the other set lacks, sparing the node itself, and reports whether it erased anything |
| `Dominance.DominatesAntisymmetric` | src/analyses/cfg_dominators.h:76-107 | two different reachable nodes never dominate each other |
| `Dominance.DominatorsFormChain` | src/analyses/cfg_dominators.h:29-34 | any two dominators of a reachable node are comparable |
| `Dominance.PostDominanceIsReverseDominance` | src/analyses/cfg_dominators.h:29-34 | post-dominance, defined on paths to the exits, is dominance in the reversed graph |
| `Dominators.StablePath` | src/analyses/cfg_dominators.h:190-258 | at a fixed point, what is stored for the end of a rooted path lies on that path |
| `Dominators.FixedPointIsExact` | src/analyses/cfg_dominators.h:146-258 | over-approximating sets no edge can shrink are exact: empty iff unreachable, else precisely the nodes on every rooted path |
| `Dominators.WeightsUpdate` | src/analyses/cfg_dominators.h:190-258 | the termination measure changes only by the weight of the set that is replaced |
| `Dominators.CfgDominators.Seed` | src/analyses/cfg_dominators.h:196-205 | an unreached node takes over the set of a reached predecessor, which over-approximates its dominators |
| `Dominators.CfgDominators.Intersect` | src/analyses/cfg_dominators.h:207-247 | afterwards every edge into the node is stable; a change makes its set smaller |
| `Dominators.CfgDominators.AddExits` | src/analyses/cfg_dominators.h:164-188 | in post-dominator mode, dead ends and self-loops become roots as well and the nodes they lead to are queued |
| `Dominators.CfgDominators.Step` | src/analyses/cfg_dominators.h:190-258 | one turn of the worklist keeps the invariant and makes the pair of set weights and queue length smaller |
| `Dominators.CfgDominators.Fixedpoint` | src/analyses/cfg_dominators.h:146-258 | terminates in both modes with exactly the dominators of every node |
| `Dominators.CfgDominators.DominatesQuery` | src/analyses/cfg_dominators.h:72-86 | once computed, the query says that the right node is reachable and the left one on all its rooted paths |
| `Dominators.CfgDominators.ProgramPointReachable` | src/analyses/cfg_dominators.h:88-107 | once computed, the query is reachability from the roots |
| `Dominators.CfgDominators.QueryReflexiveExactly` | src/analyses/cfg_dominators.h:72-86 | a node is said to dominate itself iff it is reachable |
| `NaturalLoops.OnlyEntryIsHeader` | src/analyses/natural_loops.h:30-41 | an edge from outside a loop into it leads to the header |
| `NaturalLoops.HeaderDominatesMembers` | src/analyses/natural_loops.h:30-41 | the header dominates every reachable instruction of its loop |
| `NaturalLoops.LoopsNest` | src/analyses/sese_regions.cpp:76-79 | of two loops that share a reachable instruction, the one whose header the other dominates lies in the other one, whose header it does not have |
| `NaturalLoops.OneLoopInOther` | src/analyses/sese_regions.cpp:76-79 | of any two loops that share a reachable instruction, one lies in the other |
| `NaturalLoops.WalkBackwards` | src/analyses/natural_loops.h:136-172 | the stack walk adds exactly the instructions that reach the tail without passing the header |
| `NaturalLoops.NaturalLoopAnalysis.ComputeNaturalLoop` | src/analyses/natural_loops.h:136-172 | a further back edge adds its loop to what the header already has and touches no other header |
| `NaturalLoops.NaturalLoopAnalysis.Compute` | src/analyses/natural_loops.h:103-133 | the loop map has exactly the dominating targets of backwards gotos, each with the union of its natural loops |
| `LexicalLoops.HeadDominatesTail` | src/analyses/lexical_loops.h:145-178 | if the location bounds hold for a back edge with reachable tail, its head dominates its tail |
| `LexicalLoops.WalkWithin` | src/analyses/lexical_loops.h:145-178 | the walk succeeds iff no instruction of the loop lies outside the region, and then has collected the natural loop |
| `LexicalLoops.LexicalLoopAnalysis.ComputeLexicalLoop` | src/analyses/lexical_loops.h:145-189 | a loop is recorded iff it is bounded and its head has none yet; earlier loops stay |
| `LexicalLoops.LexicalLoopAnalysis.Compute` | src/analyses/lexical_loops.h:115-142 | the map has the loop of the first lexical back edge of each head; the flag is set iff every backwards goto has one |
| `LexicalLoops.LexicalEdgeIsBackEdge` | src/analyses/lexical_loops.h:24-47 | a backwards goto that passes the bounds check is a back edge of a natural loop, if it is reachable |
| `LexicalLoops.SameLoopExactly` | src/analyses/lexical_loops.h:145-178 | its lexical loop has all of its natural loop, and no more iff each instruction in between that starts a thread in the loop gets to the tail by itself, too |
| `LexicalLoops.RecordedLoopIsNatural` | src/analyses/lexical_loops.h:24-47 | so the loop recorded for a head lies in its natural loop, and is that if the head has no other back edge |
| `LexicalLoops.LexicalFormIsNaturalExactly` | src/analyses/lexical_loops.h:24-47 | for a program in lexical loop form both analyses have the same loops iff all tails are reachable and started threads stay in |
| `LexicalLoops.ThreadStartWidensLoop` | src/analyses/lexical_loops.h:145-178 | a program where a thread start is in the lexical loop of an edge but not in its natural loop |
| `SeseRegions.ComputeInnermostLoops` | src/analyses/sese_regions.cpp:80-108 | every instruction in a loop is mapped to its smallest loop |
| `SeseRegions.SameInnermostSameLoops` | src/analyses/sese_regions.cpp:110-119 | instructions with the same innermost loop are in the same loops |
| `SeseRegions.CandidatesFormChain` | src/analyses/sese_regions.cpp:121-184 | the candidate exits of one entry dominate one another in turn |
| `SeseRegions.FewerDominators` | src/analyses/sese_regions.cpp:150-170 | along such a chain the number of dominators decides dominance |
| `SeseRegions.FewestDominatorsIsClosest` | src/analyses/sese_regions.cpp:150-170 | the candidate with fewest dominators dominates every other candidate, so it does not depend on the iteration order |
| `SeseRegions.ClosestExitUnique` | src/analyses/sese_regions.cpp:121-184 | there is at most one closest exit |
| `SeseRegions.ClosestExitExists` | src/analyses/sese_regions.cpp:121-184 | there is one whenever there is a candidate |
| `SeseRegions.FindExit` | src/analyses/sese_regions.cpp:135-171 | the search returns the closest exit, or none iff there is no candidate |
| `SeseRegions.CheckCycles` | src/analyses/sese_regions.cpp:41-68 | the two tests on locations, and no more: each backwards edge ends at a header, and no header has two of them |
| `SeseRegions.SeseRegionAnalysis.Analyse` | src/analyses/sese_regions.cpp:18-71 | if the tests pass, exactly the regions with entry dominating exit, exit post-dominating entry and the same innermost loop are recorded; otherwise none |
| `CycleEquivalence.NaturalExactly` | src/analyses/sese_regions.cpp:28-38 | every cycle of reachable instructions runs inside the loop of a header on it, and comes to it over back edges only, iff each cycle has a back edge |
| `CycleEquivalence.TestsSufficeExactly` | src/analyses/sese_regions.cpp:31-38 | where the tests pass, each backwards edge is itself a back edge iff what jumps to itself dominates whatever else jumps back to it; and then all cycles are natural loops |
| `CycleEquivalence.SelfJumpHidesCycle` | src/analyses/sese_regions.cpp:41-53 | a program that passes the tests although a cycle has two entries |
| `CycleEquivalence.ExitCyclesPassEntry` | src/analyses/sese_regions.cpp:23-26 | if all cycles are natural loops, each cycle through the exit of a region has its entry |
| `CycleEquivalence.CycleEquivalentExactly` | src/analyses/sese_regions.cpp:23-38 | then entry and exit are cycle equivalent iff the exit still post-dominates the entry when going back to the header of a loop around them counts as leaving |
| `CycleEquivalence.RecordedExactly` | src/analyses/sese_regions.cpp:23-38 | so it is for all that is recorded, if all cycles are natural loops |
| `CycleEquivalence.EarlyTurnMissesExit` | src/analyses/sese_regions.cpp:34-38 | a program where a region is recorded although a cycle has the entry and not the exit |
| `AbstractInterpreter.QuiescentIsSound` | src/analyses/ai.cpp:230-254 | with nothing queued, every state of every concrete run is described by a stored history at its location |
| `AbstractInterpreter.VisitedEdgeIsDone` | src/analyses/ai.cpp:329-412 | an edge lands at its target, describes all concrete steps over it, and queues the target history whenever its state grew |
| `AbstractInterpreter.EdgeKeepsInvariant` | src/analyses/ai.cpp:329-412 | an edge keeps every settled history settled or queued, although what `step` answers depends on what is stored |
| `AbstractInterpreter.EdgeProgress` | src/analyses/ai.cpp:329-412 | an edge that queues its target uses up some of the room left to grow |
| `AbstractInterpreter.MinimalExists` | src/analyses/ai.cpp:212-228 | a non-empty working set has a first history |
| `AbstractInterpreter.Interpreter.GetState` | src/analyses/ai_storage.h:107-125 | registers the history at its location and creates its state as bottom if it has none |
| `AbstractInterpreter.Interpreter.Merge` | src/analyses/ai.cpp:386-396 | joins into the stored state in place and reports what the domain reports |
| `AbstractInterpreter.Interpreter.EntryState` | src/analyses/ai.cpp:180-186 | the store then has the entry history with the entry state and nothing else |
| `AbstractInterpreter.Interpreter.VisitEdge` | src/analyses/ai.cpp:329-412 | the store and working set become what the edge function says |
| `AbstractInterpreter.VisitKeepsInvariant` | src/analyses/ai.cpp:268-327 | a visit settles the history or queues it again, and keeps every other one settled or queued |
| `AbstractInterpreter.Interpreter.Visit` | src/analyses/ai.cpp:268-327 | the store and working set become what the edges out of the history make of them in turn |
| `AbstractInterpreter.Interpreter.GetNext` | src/analyses/ai.cpp:212-228 | takes a history that none in the working set precedes |
| `AbstractInterpreter.FiniteIsTerminating` | src/analyses/ai.cpp:230-254 | with finitely many histories and states of bounded rank, each visit uses up room to grow, or makes the working set smaller |
| `AbstractInterpreter.Interpreter.Fixedpoint` | src/analyses/ai.cpp:230-254 | terminates whenever some measure gets less with each visit, with nothing left unsettled |
| `AbstractInterpreter.Interpreter.Run` | src/analyses/ai.cpp:230-254 | every state of every run from the entry is covered |
| `AhistoricalHistory.IsLawful` | src/analyses/ai_history.h:154-222 | the plain history meets the step contract and its order is strict |
| `AhistoricalHistory.IsFinite` | src/analyses/ai_history.h:171-193 | a new history is one of finitely many and was not there before |
| `AhistoricalHistory.CoveredByState` | src/analyses/ai_storage.h:152-223 | with one state per location, each run is described by the states where it is |
| `IsThreaded.IsSound` | src/analyses/is_threaded.cpp:18-93 | the two-flag domain over-approximates whether a thread has been started and says so only on the strength of a path |
| `IsThreaded.IsThreadedDomain.Join` | src/analyses/is_threaded.cpp:31-44 | joins both flags and reports whether one changed |
| `IsThreaded.Compute` | src/analyses/is_threaded.cpp:95-114 | exactly the instructions some path over a thread start leads to are threaded |
| `ControlDependence.SelectedIsDecided` | src/analyses/dependence_graph.cpp:52-125 | the test over stored post-dominators is the definition of control dependence |
| `ControlDependence.DepGraphDomain.ControlDependencies` | src/analyses/dependence_graph.cpp:52-125 | adds a control statement to the candidates and decides each of them |
| `ControlDependence.DepGraphDomain.Decide` | src/analyses/dependence_graph.cpp:86-123 | selected iff some successor has the instruction among its post-dominators and, assumptions excepted, some has not |
| `ControlDependence.DepGraphDomain.Join` | src/analyses/dependence_graph.cpp:22-50 | unites dependencies and candidates and reports whether anything was new |
| `ControlDependence.DependenciesExact` | src/analyses/dependence_graph.cpp:22-125 | at the fixed point the stored dependencies of each instruction are the real ones, in both directions |
| `ControlDependence.Compute` | src/analyses/dependence_graph.cpp:52-125 | an instruction depends on precisely the reachable gotos and assumptions that lead to it and that it post-dominates some, and not all, successors of |
| `ReachingDefinitions.OrderIsStrictAndTotal` | src/analyses/reaching_definitions.h:113-150 | definitions of one variable are strictly and totally ordered, so a lookup finds the definition itself |
| `ReachingDefinitions.OrderIsLexicographic` | src/analyses/reaching_definitions.h:113-149 | it is by instruction, then by the start of the range, then by its end, an unknown end coming first |
| `ReachingDefinitions.DefinitionContainer.Add` | src/analyses/reaching_definitions.h:51-62 | a definition gets a number of its own and keeps it; the container only grows |
| `ReachingDefinitions.DefinitionContainer.IsInjective` | src/analyses/reaching_definitions.h:42-81 | two numbers never mean the same definition |
| `ReachingDefinitions.DecodeStays` | src/analyses/reaching_definitions.h:42-81 | numbers held by other states keep their meaning when the container grows |
| `ReachingDefinitions.PiecesExact` | src/analyses/reaching_definitions.cpp:366-419 | what is left of a definition covers exactly its bits outside the killed range, unknown ends and two-way splits included |
| `ReachingDefinitions.KillIsExact` | src/analyses/reaching_definitions.cpp:341-439 | killing takes exactly the bits of a finite range away from exactly one variable |
| `ReachingDefinitions.AssertionRejectsExactly` | src/analyses/reaching_definitions.cpp:341-354 | the assertion fails for exactly the finite ranges without bits, and killing one takes nothing away |
| `ReachingDefinitions.GenIsExact` | src/analyses/reaching_definitions.cpp:479-496 | generating adds exactly the bits of its range for its instruction |
| `ReachingDefinitions.MergeInner` | src/analyses/reaching_definitions.cpp:584-632 | the hinted walk yields the ordered union and reports whether a number was new |
| `ReachingDefinitions.CutAll` | src/analyses/reaching_definitions.cpp:362-419 | erasing during the walk leaves just the pieces of all definitions, those kept in place and those to insert |
| `ReachingDefinitions.RdRangeDomain.Kill` | src/analyses/reaching_definitions.cpp:341-439 | the stored numbers stand for the killed definitions, after the loop and the hinted insertion |
| `ReachingDefinitions.RdRangeDomain.Gen` | src/analyses/reaching_definitions.cpp:479-542 | the stored numbers stand for the definitions and the new one; a range of no bits adds nothing |
| `ReachingDefinitions.RdRangeDomain.MakeEntry` | src/analyses/reaching_definitions.h:195-214 | nothing is defined, and the container shared by all states is emptied |
| `ReachingDefinitions.RdRangeDomain.TransformAssign` | src/analyses/reaching_definitions.cpp:303-339 | kills only for a single written object other threads cannot write, then generates; unknown symbols are skipped |
| `ReachingDefinitions.RdRangeDomain.TransformStartThread` | src/analyses/reaching_definitions.cpp:151-174 | only shared and dirty variables keep their definitions |
| `ReachingDefinitions.RdRangeDomain.Transform` | src/analyses/reaching_definitions.cpp:91-134 | the effect of one instruction on the decoded state |
| `ReachingDefinitions.RdRangeDomain.Join` | src/analyses/reaching_definitions.cpp:634-667 | the decoded union, with a change reported iff the state was bottom or the union is another state |
| `ReachingDefinitions.MoreMeansNew` | src/analyses/reaching_definitions.cpp:584-632 | numbers that are new are definitions that are new |
| `ReachingDefinitions.TransformIsExact` | src/analyses/reaching_definitions.cpp:91-134 | one instruction leaves exactly the written bits it does not take away, and adds exactly those it may write |
| `ReachingDefinitions.TransformIsGenuine` | src/analyses/reaching_definitions.cpp:91-134 | a stored definition is one its instruction makes, and control leads from there to here |
| `ReachingDefinitions.MergeGrows` | src/analyses/reaching_definitions.cpp:634-667 | a reported change makes the rank larger |
| `ReachingDefinitions.CoveredExactly` | src/analyses/reaching_definitions.cpp:303-439 | in the end a state has a bit of an instruction iff some path carries it there: from where it may be written, past nothing that takes it away |
| `ReachingDefinitions.LastWriterIsCarried` | src/analyses/reaching_definitions.cpp:91-174 | on every run the last writer of a bit is carried to where the run is, unless the variable is local and the thread has started another since |
| `ReachingDefinitions.Analyse` | src/analyses/reaching_definitions.cpp:303-439 | terminates with exactly the bits that are carried, so that it has the last writer of each bit with that one exception, and every definition is one its instruction makes |
| `ReachingDefinitions.ThreadStartForgetsLocals` | src/analyses/reaching_definitions.cpp:151-174 | a run that writes a local variable, starts a thread and goes on: it knows the writer, which no path carries past the thread start |
| `CallStackHistory.EqualityIsIdentity` | src/analyses/call_stack_history.cpp:216-233 | the comparison with its pointer shortcut is equality of stacks |
| `CallStackHistory.OrderIsTotal` | src/analyses/call_stack_history.cpp:173-214 | the order is strict and total, agrees with equality and does not depend on what is shared |
| `CallStackHistory.OrderIsTransitive` | src/analyses/call_stack_history.cpp:173-214 | the order is transitive |
| `CallStackHistory.OrderIsLexicographic` | src/analyses/call_stack_history.cpp:173-214 | it is that of words: by location, then by caller, a stack before what it begins |
| `CallStackHistory.Shorten` | src/analyses/call_stack_history.cpp:43-68 | the walk finds the most recent recurrence iff the call site has reached the limit |
| `CallStackHistory.CallIsPushedOnto` | src/analyses/call_stack_history.cpp:35-72 | a call is pushed onto the whole stack while its site is among the callers less often than the limit, and then onto the longest proper part that begins with the site |
| `CallStackHistory.Step` | src/analyses/call_stack_history.cpp:14-142 | new, merged with an equal history, or blocked, as the next stack says |
| `CallStackHistory.CallStringsAreBounded` | src/analyses/call_stack_history.cpp:37-72 | with a limit, no call site occurs more often among the callers of a reachable history |
| `CallStackHistory.HistoriesAreFinite` | src/analyses/call_stack_history.cpp:37-123 | so the depth is at most one more than the limit times the number of call sites, and the histories are finitely many |
| `CallStackHistory.CallStringsAreExact` | src/analyses/call_stack_history.cpp:14-142 | without a limit, the callers are exactly the calls of the trace that are not returned from, last first |
| `CallStackHistory.ExactUpToLimit` | src/analyses/call_stack_history.cpp:37-72 | a limit makes no difference along a trace iff no site has more calls open at any time than it allows |
| `CallStackHistory.BlockedExactly` | src/analyses/call_stack_history.cpp:74-114 | a step is refused iff it returns with no such call, or elsewhere than behind the last one |
| `LocalControlFlowHistory.HistoriesAreOrdered` | src/analyses/local_control_flow_history.cpp:156-205 | the order is strict and total, agrees with equality and does not depend on what is shared |
| `LocalControlFlowHistory.HistoriesTransitive` | src/analyses/local_control_flow_history.cpp:271-327 | the order is transitive |
| `LocalControlFlowHistory.DecisionsAreOrdered` | src/analyses/local_control_flow_history.cpp:271-357 | the same for lists of decisions, where merged paths come last |
| `LocalControlFlowHistory.OrderIsLexicographic` | src/analyses/local_control_flow_history.cpp:156-327 | it is by location, then that of decisions as words, where not taken comes before taken and a word after what it begins |
| `LocalControlFlowHistory.MergedIsGreatest` | src/analyses/local_control_flow_history.cpp:121-136 | the path-merge history is the greatest at its location |
| `LocalControlFlowHistory.StepFollowsPath` | src/analyses/local_control_flow_history.cpp:23-151 | without a limit, or with two places left, stepping the history of a path gives that of the path with the step, which is new iff it is not there yet; if it is there, it is the answer at any limit |
| `LocalControlFlowHistory.ReturnIsLikeSkipping` | src/analyses/local_control_flow_history.cpp:75-93 | at the end of a function the decisions of the caller come back: the answer is what not entering the call would give |
| `LocalControlFlowHistory.StoredIsOfPath` | src/analyses/local_control_flow_history.cpp:16-153 | in every run without a limit, each stored history has the decisions of some path to where it is |
| `LocalControlFlowHistory.PathsAreStored` | src/analyses/local_control_flow_history.cpp:16-153 | once no step adds anything, each path has its history stored where it ends |
| `LocalControlFlowHistory.PathsShareExactly` | src/analyses/local_control_flow_history.cpp:16-153 | so two paths to one location share a history there iff they have the same decisions: at which tracked jumps, and which were taken |
| `LocalControlFlowHistory.StepStaysWithinLimit` | src/analyses/local_control_flow_history.cpp:99-146 | for a limit of two or more, a step keeps a location within its limit, and at the limit answers with the path-merge history |
| `LocalControlFlowHistory.NeverOverLimit` | src/analyses/local_control_flow_history.cpp:16-153 | for a limit of two or more and along any edges, no location ever holds more histories, and a full one has the path-merge history as its greatest |
| `LocalControlFlowHistory.StaysMergedExactly` | src/analyses/local_control_flow_history.cpp:48-74 | where there are only merged paths, a step leaves it so iff it enters a function, its candidate is that of merged paths, or the limit leaves no place for another |
| `LocalControlFlowHistory.HeadHoldsMerged` | src/analyses/local_control_flow_history.cpp:63-70 | in every run, the head of a function that only calls lead to holds nothing but merged paths, which a call takes for granted |
| `LocalControlFlowHistory.LoopAtHeadIsNotMerged` | src/analyses/local_control_flow_history.cpp:63-70 | a tracked jump from such a head to itself gives it a second history |
| `LocalControlFlowHistory.NewMayBeOldExactly` | src/analyses/local_control_flow_history.cpp:105-119 | `step` answers new for a history that is there in one case only: the last place is left and the merged paths are in already |
| `LocalControlFlowHistory.LimitOneHoldsElsewhere` | src/analyses/local_control_flow_history.cpp:121-136 | with a limit of one, in every run each location but the entry holds merged paths at most, and the entry what it starts with |
| `LocalControlFlowHistory.LimitOneFailsAtEntry` | src/analyses/local_control_flow_history.cpp:121-136 | at the entry, a step back with a new history is then answered with one that is not that of merged paths; a tracked jump from the entry to itself is such a step |
| `LocalControlFlowHistory.IsLawful` | src/analyses/local_control_flow_history.cpp:16-153 | whatever is tracked and whatever the limit, the history meets the step contract of the interpreter |
| `LocalControlFlowHistory.PathSensitiveIsSound` | src/analyses/ai_storage.h:226-300 | with one state per history, a quiescent store covers every run |
| `PathTermination.NewAgain` | src/analyses/local_control_flow_history.cpp:99-119 | what is answered as new and is there already is merged paths, come to from other paths or over a tracked jump |
| `PathTermination.VisitEffect` | src/analyses/ai.cpp:268-327 | a visit stores more histories, or raises the rank of states, or queues nothing but merged paths at successors; no location gets over the limit |
| `PathTermination.QueueShrinks` | src/analyses/ai.cpp:230-254 | in the last case, the working set has fewer histories that are not merged, or as many and less weight of merged ones |
| `PathTermination.LimitedIsTerminating` | src/analyses/ai.cpp:230-254 | for every program and domain of bounded rank the loop ends if the limit is one, or if there is one and tracked jumps alone make up no cycle |
| `PathTermination.ForwardTrackingHasNoCycle` | src/analyses/local_control_flow_history.cpp:29-47 | they make up none if backward jumps are not tracked |
| `PathTermination.Analyse` | src/analyses/ai_storage.h:226-300 | a path-sensitive analysis terminates, covers every run with the state of some history where the run is, and has no more histories per location than allowed |
| `PathTermination.MergedLoopIsQueuedAgain` | src/analyses/local_control_flow_history.cpp:99-119 | a tracked jump to itself where merged paths came first and only the last place is left: its visit changes nothing and queues it again, for any limit and store |
| `PathTermination.EndlessLoopIsNeverLeft` | src/analyses/ai.cpp:230-254 | a program of five instructions and a limit of two: every run of the loop from the entry has something queued for ever, and nothing changes from the third turn on |
| `PathTermination.NothingGetsLess` | src/analyses/ai.cpp:230-254 | so no measure gets less with each visit, although the analysis meets its contract and its ranks are bounded |
| `GuardExpr.AddIsConjunction` | src/analyses/guard_expr.cpp:39-63 | `add` is conjunction |
| `GuardExpr.AddAppends` | src/analyses/guard_expr.cpp:39-63 | the operands of both come in a row, unless one of them is false |
| `GuardExpr.ReducedIsBetween` | src/analyses/guard_bdd.h:54 | the guard after `-=` is implied by the guard, and implies it together with the other one |
| `GuardExpr.ReduceCancels` | src/analyses/guard_expr.cpp:103-121 | of two conjunctions, what both begin with goes, and all else stays |
| `GuardExpr.SingleReduced` | src/analyses/guard_expr.cpp:65-90 | a single condition becomes true iff it is, or equals the other guard, or is one of its operands, and stays otherwise |
| `GuardExpr.AddedIsTakenBack` | src/goto-symex/symex_goto.cpp:870-872 | taking a guard away from what was added to it leaves what was added, if it is a conjunction; if it is a single condition, nothing is taken away |
| `GuardExpr.SplitMeans` | src/analyses/guard_expr.cpp:155-187 | the merging walk splits both operand lists into what is common and what is not, sorted or not and for any order |
| `GuardExpr.SplitExactly` | src/analyses/guard_expr.cpp:155-187 | for sorted lists, common is what is in both, and the rest what is in one of them only |
| `GuardExpr.JoinIsDisjunction` | src/analyses/guard_expr.cpp:135-211 | joining two guards is disjunction, for all operand lists |
| `GuardExpr.JoinFactorsOut` | src/analyses/guard_expr.cpp:155-211 | what sorted conjunctions have in common is an operand of the join |
| `GuardExpr.BranchJoinsAgain` | src/analyses/guard_expr.cpp:189-211 | the two sides of a branch join to what was known before it |
| `GuardExpr.JoinUnits` | src/analyses/guard_expr.cpp:135-153 | false is the unit, true absorbs, and a condition and its negation make true |
| `GuardExpr.MaySimplifyMisses` | src/analyses/guard_expr.cpp:124-133 | where no simplification is foretold there is none, but for one case: the second guard negates a negation |
| `GuardExpr.MaySimplifyForetells` | src/analyses/guard_expr.cpp:124-133 | where one is foretold and not both are conjunctions there is one, but for the case that the first guard negates a negation |
| `GuardExpr.Guarded` | src/analyses/guard_expr.cpp:19-37 | the result is the implication |
| `GuardExpr.GuardedIsSimple` | src/analyses/guard_expr.cpp:19-37 | it has the form of an implication iff the guard is not true and the expression not false |
| `GuardExpr.Guard.Add` | src/analyses/guard_expr.cpp:39-63 | edits the operand list into the conjunction |
| `GuardExpr.Guard.Reduce` | src/analyses/guard_expr.cpp:65-122 | erases the common prefix; leaves a conjunction as it is when the other guard is none, whose operands are never compared |
| `GuardExpr.Guard.Join` | src/analyses/guard_expr.cpp:135-211 | edits the operand list into the joined guard |
| `GuardExpr.TakeCommon` | src/analyses/guard_expr.cpp:155-187 | the iterator loop with erasure computes the split |
| `GuardExpr.EraseCommonPrefix` | src/analyses/guard_expr.cpp:105-117 | the loop erases the longest common prefix and no more |
| `GuardExpr.GuardIsPathCondition` | src/analyses/guard_expr.cpp:39-211 | a guard built over branches and joins holds iff all conditions along one of its paths do |
| `CallGraph.ClosedHasReachable` | src/analyses/call_graph.cpp:75-108 | a set with the root that is closed under calls has every reachable function |
| `CallGraph.TerminatesStep` | src/analyses/call_graph.cpp:84-107 | going over a function lowers the measure of calling functions without edges, pending functions with edges, and pending functions |
| `CallGraph.Graph.AddCalls` | src/analyses/call_graph.cpp:96-106 | each call of a body comes in with an edge of its own; pushed are the other functions called that have no edges, once for each call |
| `CallGraph.Graph.Complete` | src/analyses/call_graph.cpp:39-50 | as many edges as call sites, for all functions and their callees |
| `CallGraph.Graph.Rooted` | src/analyses/call_graph.cpp:75-108 | terminates; the nodes are the functions reachable from the root, and the edges the calls between them, each as often as its caller is gone over; one for each call site if functions that make calls are called in one place |
| `CallGraph.OneEdgePerSiteExactly` | src/analyses/call_graph.h:90-92 | there is one edge per call site iff no function that makes calls is gone over again |
| `CallGraph.OneTurnEach` | src/analyses/call_graph.cpp:84-107 | from any state of the walk: if each function that makes calls is called in one place at most, its own body aside, none of them is gone over twice |
| `CallGraph.OnePlaceMeansOneEdge` | src/analyses/call_graph.h:90-92 | then there is exactly one edge per call site of each reachable function |
| `CallGraph.GoneOverForEachSite` | src/analyses/call_graph.cpp:84-107 | from any state of the walk: a function that can only be got to through one caller is gone over at least once for each of the call sites there |
| `CallGraph.RepeatedCallsAreRepeated` | src/analyses/call_graph.cpp:84-107 | so each of its own calls has at least that many times as many edges as call sites |
| `CallGraph.RootedDone` | src/analyses/call_graph.cpp:75-108 | once nothing is pending, nodes and edges are those of the reachable part |
| `CallGraph.Graph.GetInverted` | src/analyses/call_graph.cpp:165-172 | the same nodes, and every edge turned round as often as it is there |
| `CallGraph.InverseTwice` | src/analyses/call_graph.cpp:165-172 | inverting twice restores the edges with their multiplicities |
| `CallGraph.Graph.GetDirectedGraph` | src/analyses/call_graph.cpp:209-235 | nodes are numbered one to one, edges are kept without parallels, and each has its call sites |
| `LocalBitvector.BuildCfg` | src/analyses/local_cfg.cpp:14-80 | the successors control can take, and those past assumptions that never hold |
| `LocalBitvector.MergeFlags` | src/analyses/local_bitvector_analysis.cpp:40-51 | unites flags pointer by pointer and reports whether any were new |
| `LocalBitvector.RightHandSideIsSound` | src/analyses/local_bitvector_analysis.cpp:112-235 | the flags of a right-hand side describe its value |
| `LocalBitvector.NoFlagTooMany` | src/analyses/local_bitvector_analysis.cpp:112-235 | each flag but the unknown bit is shown by some value the expression can have in an environment the state describes, if it is not misread |
| `LocalBitvector.UnknownExactly` | src/analyses/local_bitvector_analysis.cpp:112-235 | the unknown bit is there iff the expression is not classified, or copies a variable that has it |
| `LocalBitvector.FlagsDistribute` | src/analyses/local_bitvector_analysis.cpp:112-235 | the flags in a join are those in either state |
| `LocalBitvector.ExecutesAssignment` | src/analyses/local_bitvector_analysis.cpp:266-331 | the assignment an instruction is taken for does what the instruction does to pointers |
| `LocalBitvector.SoundUnlessMisread` | src/analyses/local_bitvector_analysis.cpp:200-210 | that is so for exactly the expressions that do not take the difference of two pointers for the first of them |
| `LocalBitvector.AssignLhsIs` | src/analyses/local_bitvector_analysis.cpp:61-99 | every tracked variable the left-hand side may be gets the flags, and no other |
| `LocalBitvector.SoundIfTargetDefinite` | src/analyses/local_bitvector_analysis.cpp:94-98 | an assignment is sound iff it leaves no choice of target; an if-expression on the left overwrites both |
| `LocalBitvector.ReachableIsVisited` | src/analyses/local_bitvector_analysis.cpp:237-341 | with a tracked pointer, every node on every path from the entry is visited and settled, as flags get there that are not zero |
| `LocalBitvector.MergeUsesUp` | src/analyses/local_bitvector_analysis.cpp:333-338 | a merge that changes something leaves fewer flags missing |
| `LocalBitvector.FixedPointIsSound` | src/analyses/local_bitvector_analysis.cpp:237-341 | as far as what a run has executed is treated soundly, the flags are right about each tracked pointer, or say they know nothing |
| `LocalBitvector.FixedPointIsExact` | src/analyses/local_bitvector_analysis.cpp:237-341 | a pointer has a flag at a node iff some path from the entry carries it there |
| `LocalBitvector.CarriedIsShown` | src/analyses/local_bitvector_analysis.cpp:237-341 | if nothing is misread, each flag but the unknown bit that a path carries is shown by a run along it |
| `LocalBitvector.BitvectorAnalysis.Seed` | src/analyses/local_bitvector_analysis.cpp:247-254 | every tracked pointer is unknown at the entry |
| `LocalBitvector.BitvectorAnalysis.Propagate` | src/analyses/local_bitvector_analysis.cpp:333-338 | the successors have the flags, and those that changed are queued |
| `LocalBitvector.BitvectorAnalysis.Build` | src/analyses/local_bitvector_analysis.cpp:237-341 | the change-driven queue terminates with exactly the flags that paths carry; they are sound for every run as far as what it executed is treated soundly, and shown by runs if nothing is misread |
| `Conditions.NnfKeepsMeaning` | src/analyses/invariant_set.cpp:693-805 | the normal form means the condition, or its negation if so asked |
| `Conditions.NnfHasForm` | src/analyses/invariant_set.cpp:693-805 | no >= and no > are left, and negation only of what cannot be looked into |
| `InvariantSet.LessEqual` | src/util/interval_template.h:202-210 | a known answer holds for all pairs of values |
| `InvariantSet.LessEqualExactly` | src/util/interval_template.h:202-210 | for intervals that are not empty, the answer is known iff it is the same for all pairs of values |
| `InvariantSet.ApproxUnionWith` | src/util/interval_template.h:187-198 | has the values of both intervals |
| `InvariantSet.UnionIsLeast` | src/util/interval_template.h:187-198 | and no wider bounds than any other interval that has both |
| `InvariantSet.TighterMeans` | src/util/interval_template.h:187-198 | to have no wider bounds is to have no other values, for an interval that has any |
| `InvariantSet.IntersectWith` | src/util/interval_template.h:117-144 | has exactly the values in both intervals |
| `InvariantSet.ImpliesIsSound` | src/analyses/invariant_set.cpp:584-667 | what is answered true holds, and what is answered false fails, in every valuation the state allows |
| `InvariantSet.KnownIsImplied` | src/analyses/invariant_set.cpp:584-667 | what is on record is answered true, unless the state allows nothing |
| `InvariantSet.OppositeIsRefuted` | src/analyses/invariant_set.cpp:278-308 | what has its opposite on record is answered false, but for `<` where that is a pair of the inequalities only |
| `InvariantSet.ApartIsAnswered` | src/analyses/invariant_set.cpp:636-662 | comparing objects whose bounds are apart is always answered |
| `InvariantSet.OneIsEnough` | src/analyses/invariant_set.cpp:616-621 | a disjunction is implied once one of its parts is known, and a negated conjunction once the negation of one is |
| `InvariantSet.KnownStays` | src/analyses/invariant_set.cpp:382-576 | what is on record stays on record when conditions are added |
| `InvariantSet.EqualThenLe` | src/analyses/invariant_set.cpp:181-201 | from `x == y` and then `y <= z` follows `x <= z` |
| `InvariantSet.LeThenEqual` | src/analyses/invariant_set.cpp:231-276 | and so it does from `y <= z` and then `x == y` |
| `InvariantSet.BoundsAreSound` | src/analyses/invariant_set.cpp:669-691 | the bounds read off for an object contain its value |
| `InvariantSet.AddPairs` | src/analyses/invariant_set.cpp:181-201 | relates everything equal to the one with everything equal to the other |
| `InvariantSet.Replicate` | src/analyses/invariant_set.cpp:231-276 | inserting during the walk terminates; every pair gets its variants, and each pair follows from one of the old ones |
| `InvariantSet.VariantsExactly` | src/analyses/invariant_set.cpp:240-276 | the variants of a pair are those with one number exchanged for the one it is equal to |
| `InvariantSet.TwoConstantsContradict` | src/analyses/invariant_set.cpp:208-229 | no valuation has two different constants in one set |
| `InvariantSet.Invariants.AddLe` | src/analyses/invariant_set.h:260-263 | the state allows what it did, less what lacks the inequality |
| `InvariantSet.Invariants.AddNe` | src/analyses/invariant_set.h:265-268 | the same for a disequality |
| `InvariantSet.Invariants.AddBounds` | src/analyses/invariant_set.h:198-201 | the same for bounds |
| `InvariantSet.Invariants.AddEq` | src/analyses/invariant_set.cpp:203-238 | the same for an equality, a contradiction of constants making the state false |
| `InvariantSet.Invariants.StrengthenRec` | src/analyses/invariant_set.cpp:382-576 | no allowed valuation with the condition is lost and none is won; conjunctions of comparisons of objects are taken over exactly, and are on record afterwards |
| `InvariantSet.Invariants.Strengthen` | src/analyses/invariant_set.cpp:375-380 | the same for conditions in any form; one that is taken over exactly is implied afterwards |
| `InvariantSet.UnionIsWeaker` | src/analyses/invariant_set.cpp:884-937 | what either state allows, the joined state does |
| `InvariantSet.UnionUnchanged` | src/analyses/invariant_set.cpp:914-937 | if the roots, sizes and bounds are as before, nothing was weakened |
| `InvariantSet.MakeUnionBoundsMap` | src/analyses/invariant_set.cpp:939-969 | keeps the common bounds, widened, and reports whether any changed |
| `InvariantSet.UnionKeepsShared` | src/analyses/invariant_set.cpp:884-933 | the join has whatever bounds both have of an object, and whatever pairs |
| `InvariantSet.Invariants.MakeUnion` | src/analyses/invariant_set.cpp:884-933 | both states are contained in the union, which is their join part by part, and no change is reported only if none was lost |
| `InvariantSet.ModifiedIsSound` | src/analyses/invariant_set.cpp:971-977 | what is known of other objects outlives a change of one |
| `InvariantSet.ForgotExactly` | src/analyses/invariant_set.cpp:967-1027 | everything that speaks of a target is given up, and nothing else |
| `InvariantSet.Invariants.ModifiesLhs` | src/analyses/invariant_set.cpp:975-1027 | that is what is left, and the state allows whatever is assigned to whichever target |
| `InvariantSet.Invariants.GetConstant` | src/analyses/invariant_set.cpp:824-867 | finds the value iff bounds or a constant in the same set fix it |
| `InvariantSet.Invariants.Simplify` | src/analyses/invariant_set.cpp:807-822 | the right-hand side is replaced if its value is known, and the new one has the same value in every allowed valuation |
| `InvariantSet.Invariants.Assignment` | src/analyses/invariant_set.cpp:1029-1044 | every outcome of the assignment is allowed, what is known of other objects stays known, and so is a tracked value |
| `InvariantSet.MadeTrueIsTrueExactly` | src/analyses/invariant_set.h:119-125 | a state made true allows everything iff its bounds, which stay, said nothing |
| `InvariantSet.EqualityMissesOthers` | src/analyses/invariant_set.cpp:231-276 | a new equality carries inequalities over to its two objects, and not to others that are equal to these |
| `InvariantSet.BoundsAreNotShared` | src/analyses/invariant_set.cpp:669-691 | bounds of an object are not carried over to what equals it |
| `InvariantSet.SignIsForgotten` | src/analyses/invariant_set.cpp:680-690 | the first bound of an unsigned variable hides that it is not negative: what was implied is not any more |
| `InvariantSet.LtIsNotRefuted` | src/analyses/invariant_set.cpp:292-308 | `a <= b` on record does not refute `b < a` |
| `UnionFind.UnionJoins` | src/util/union_find.cpp:13-39 | the two sets get one root, which is one of theirs, and others keep theirs |
| `UnionFind.LargerKeepsRoot` | src/util/union_find.cpp:22-38 | the root is that of the larger set, or of the first one if they are as large |
| `UnionFind.CutOffIsolatesExactly` | src/util/union_find.cpp:62-69 | cutting off a number that is no root isolates it iff it is the parent of no other |
| `UnionFind.CutOffLeavesChild` | src/util/union_find.cpp:62-69 | three unions of numbers from 0 to 3 give a forest where 2, cut off, keeps 3 |
| `UnionFind.IsolatedIsAlone` | src/util/union_find.cpp:41-69 | in a flat forest, isolating makes a set of its own and parts no others |
| `UnionFind.IntersectionIsMeetExactly` | src/util/union_find.cpp:120-139 | the intersection only keeps what both forests have together, and is their meet iff such numbers are together with their root |
| `UnionFind.IntersectionCanBeFiner` | src/util/union_find.h:51-54 | it is not always the strongest common implication: two numbers together in both are parted |
| `UnionFind.SameRootsSameSets` | src/util/union_find.h:118-125 | if the number of roots is the same after an intersection, nothing was parted |
## Left out

- GotoProgram.GraphsAgree: has no CATCH, whose handlers are successors in the local graph only, and no calls through expressions, from which the local graph has no edge.
- AbstractInterpreter.Interpreter.Visit: visits function calls and function ends as local edges, without the interprocedural visits.
- ControlDependence.DepGraphDomain.Join: joins control dependencies and candidates only, without the data dependencies and the flag for a pending change.
- ReachingDefinitions.RdRangeDomain.Transform: has no interprocedural branches, which pass arguments and clean up parameters.
- ReachingDefinitions.Analyse: takes a write to a single listed object to be of all its finite ranges; what other threads write meanwhile is not part of a run.
- CallStackHistory.Step: has not got the assertion that the history of the caller is consistent with the stack when a function returns.
- CallGraph.OneEdgePerSiteExactly: the exact condition is on the rounds of the walk; the one on call sites is `OnePlaceMeansOneEdge`, which goes one way.
- PathTermination.LimitedIsTerminating: the condition is sufficient; whether a program with a cycle of tracked jumps is left also depends on the domain and on the order of visits. Histories without a limit are not covered, whose number need not be bounded.
- LocalBitvector.SoundUnlessMisread: a constant, an address and a sum are typed as the front-end types them; an expression of any other kind may have any value.
- InvariantSet.Invariants.StrengthenRec: has no rules for bitwise and, structures and typecasts.
- InvariantSet.Invariants.Strengthen: has no rules for bitwise and, structures and typecasts.
- InvariantSet.Invariants.ModifiesLhs: has no dereferences among the targets, which make the state true.
- InvariantSet.Invariants.GetConstant: has no constant addresses and no pointer-typed zero.
- InvariantSet.Invariants.Simplify: rewrites variables and constants, not compound right-hand sides.
- InvariantSet.Invariants.Assignment: has no dereferences on the left and does not track compound right-hand sides.
- InvariantSet.Invariants.MakeUnion: claims nothing about which valuations remain when one of the sets is threaded, because the bounds are not cleared then.
- The order of `std::set` over instructions is the order of their location numbers; loops are identified by their headers.
- Output, JSON, XML, dot and logging of all analyses.
- Interprocedural analysis: `visit_edge_function_call` is its call-skipping default, and END_FUNCTION has no successor. The recursive engine does not queue returns again when the end state of a recursive callee grows, and the check of `call_stack_historyt::step` against the caller's history is not modelled.
- `concurrency_aware_ait::fixedpoint` and `merge_shared`.
- Data dependencies, and which values of three-valued `has_values` the dependence graph prints; its state is modelled as reached or not.
- Expression walking in `goto_rw`, value sets and dirtiness: the objects and ranges an instruction writes are given, and so is which variables are shared, dirty or threaded.
- The cache `export_cache`, which only output reads.
- Casts, bitand rules, type bounds, structures, pointers and constant addresses in invariant sets; the general simplifier, which leaves variables and constants alone; left-hand sides that are dereferences. The object store is an injection fixed in advance: a constant has the number it gets when it is first looked up.
- Left-hand sides other than symbols, dereferences, indices, members, casts and if-expressions in the pointer analysis, which it ignores.
- `constant_propagator`, `interval_domain`, `custom_bitvector_analysis`, the alias, escape and safe-pointer analyses, `flow_insensitive_analysis`, `does_remove_const`, `locals` and `dirty`: they depend on parts outside the analysis layer or would add only easy members.
- Guards as binary decision diagrams, which come from an external library.
- Deagle's own ordering-consistency solver and its memory models.
