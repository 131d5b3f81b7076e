# LLTA: a verified model of the WCET analyser's cores

LLTA computes worst-case execution times. This Dafny project models the three arguments its results
rest on and proves them.

* **The integer program over the interprocedural graph.** `GraphBlocks`, `ProgramGraphs`,
  `CallWiring`, `CallCycles`, `RecursionScan`, `RecursionBounds` and `ProgramTranslation` model how
  calls, returns, recursion and pruning turn the functions of a program into one state graph, and
  `FinalGraph` what of each block, call and finding is left at the end.
  `HighsModel` models how columns and rows are made from it; `WcetModel` and, over sets of edges,
  `RowMeaning` say what they mean.
  `Runs` defines the real executions of a program: a pushdown system in which calls push their site,
  returns go to that site's landing, and every activation of a loop or recursion header may be
  re-entered at most bound - 1 times. `IpetSoundness` proves that the counts of every such run satisfy
  all rows, so any optimum is an upper bound; `IrreducibleLoops` and `SharedLandings` show when a row
  fails. `FiniteWcet`, `EdgeSums`, `Leaks`, `BoundedCycles` and `CallProjection` prove that the rows keep
  the maximum finite and callers apart; `Circulations`, `FreeCycles`, `DeadCalls` and `DeadCode` when
  exactly they do not. `ProgramWcet` and `ProgramFiniteness` join the steps: from the blocks of a program
  to its WCET.
* **The abstract cache analysis.** `AgeDomain` and `ReplacementPolicy` hold the abstract sets (as
  values, and as the objects updated in place), `CacheStates`, `CacheAnalysis` and `WorklistSolver` the
  cache state, the engine and the fixpoint loop, `FRAMCacheAnalysis` the pass around them. `Hardware`
  and `Traces` define real caches: LRU and FIFO queues, and an adversary that may evict anything on
  an insertion; `Visits` runs a block on them instruction by instruction. `Fixpoint`, `SolverMeasure`, `SolverTheory`, `SolverMeaning` and `SolverExactness`
  prove the must direction sound at every moment of the iteration, the may direction sound at the
  fixpoint, termination, and exactly when the reported costs are safe; `SolverFailures` holds functions
  on which they are not. `ExactTraces`, `PolicyChain`, `SolverPrecision` and `FetchCost` prove exactness
  without joins, the order of the policies and of their converged results, and the cost of straight-line
  code.
* **What both rest on.** `BackEdges` is the depth-first scan for loop-closing edges with the loop
  bodies and flags derived from it, `Walks` the graph theory used throughout, `Routines` the library
  routines of an image and their runs, `LoopIntervals` and `AbiCost` their cycle bound, `AddressAlignment` the matching of instructions to
  disassembled entries and their fetch lengths.

Nodes, blocks, functions and cache lines are natural numbers. Code that updates objects or variables
in the original is a class or a method with loops here; each is specified by a function on values,
and the theorems are about those functions. What these functions mean is stated on the fields of the
inputs: a program and its costs on the blocks as they were added, executions on a block's instructions,
routines on the image.

## What the proofs show about the code

* The cache solver queues successors only when a block's state changes, and only the entry is seeded.
  Blocks behind one that ends with a barrier may never be looked at and are then charged nothing:
  `BehindBarrierUnderestimated` is such a function. `CostsSafeIff` says exactly when the block costs are
  safe, in terms of the function alone; `AccessEndingsCover` is a simpler sufficient condition.
* An entry block inside a loop gets its in-state from the back edge alone. The block of
  `EntryLoopUnderestimated` accesses a line and branches to itself; it is charged nothing although its
  first visit misses. `EntryAloneIsRight` and `EntryInLoopIsWrong` say which functions are affected.
* The loop-bound row of a header is sound exactly if the header dominates the sources of its flagged edges
  (`LoopRowSoundIff`, with the run of `EnteredPastHeader`). The pass for irreducible loops flags edges
  whose header the compiler did not recognise, that is, where this fails: every row it causes is broken by
  some run within the bound (`FlaggedRowIsUnsound`), so the WCET need not cover such runs.
* The same pass flags one edge per header (`AllFlaggedIff`). A header with two such edges keeps a cycle
  that meets it over no flagged edge (`SecondEdgeLeavesCycle`).
* Pruning follows return edges into the landings of callers that are themselves unreachable, so the tail
  of such a caller stays in the graph. The upper bound is not affected. Whether the maximum still exists
  depends on whether flow can come back to the return: `PlainProgramHasWcet` covers unreachable callers
  that are not recursive. With a dead recursive caller the model can be unbounded although nothing is
  reported, as the function's entry is pruned (`DeadRecursionUnbounds`). `ProgramOptimumIff` and
  `ProgramCountsCappedIff` are exact.
* Two call sites of one callee with the same landing break the matching rows, and so does a run that
  stops inside a call. `MatchingIff` is the exact condition, `SharedLandingBreaksRow` a concrete run.
  Splitting blocks at calls leaves at most one call block that falls through into any block, so shared
  landings reach the solver only from graphs built by hand.
* The comment on `wireEntryExit` promises a path from entry to exit. The code provides one exactly
  under the condition of `EntryExitConnectedIff`; `EndlessLoopUnconnected` is a function without one.
* The comment in `computeInstructionWords` speaks of capping a gap to the maximum width. The code counts
  one word instead, and one word for the last instruction; `CountCoversIff` says when that is enough.

## Model

| member | source | states |
|---|---|---|
| IpetSoundness.WcetIsUpperBound | lib/ILP/AbstractHighsSolver.cpp:86-197 | any value that is at least the objective at every point satisfying the rows is at least the cycle count of every complete run of the pushdown program: calls, returns to the caller's own landing, bounded loops and bounded recursion, with any subset of the true back edges flagged |
| IpetSoundness.RunIsFeasible | lib/ILP/AbstractHighsSolver.cpp:86-194 | the node and edge counts of every complete run satisfy every flow, entry, loop-bound and call/return matching row |
| IpetSoundness.ObjectiveIsCost | lib/ILP/AbstractHighsSolver.cpp:41-52 | the objective at the counts of a run is exactly the run's summed node cost, visit by visit |
| IpetSoundness.Inflow | lib/ILP/AbstractHighsSolver.cpp:91-107 | visits of a node are its arrivals over the predecessor list plus one for the start, on every run |
| IpetSoundness.Outflow | lib/ILP/AbstractHighsSolver.cpp:109-124 | visits of a node are its departures over the successor list plus one if the run stops there, on every run |
| IpetSoundness.LoopRow | lib/ILP/AbstractHighsSolver.cpp:133-157 | every run in which each activation of a header takes at most bound - 1 back edges satisfies the header's row, even when the graph flags fewer back edges than there are |
| IpetSoundness.ActivationsBound | lib/ILP/AbstractHighsSolver.cpp:134-135 | over a whole run with nested and recursive activations, back-edge entries of a header are at most bound - 1 times its other entries |
| IpetSoundness.CallsBalance | lib/ILP/AbstractHighsSolver.cpp:160-165 | calls made from a site are its returns plus its activations still on the stack, after every run |
| IpetSoundness.MatchingIff | lib/ILP/AbstractHighsSolver.cpp:160-194 | a run satisfies a site's matching row if and only if its unfinished calls from the site equal the returns that other sites with the same callee and landing received: the exact condition for the row to be sound |
| SharedLandings.SharedLandingBreaksRow | lib/ILP/AbstractHighsSolver.cpp:160-194 | a concrete complete run of a program with two call sites of one callee and one landing breaks the row of the site it never visits, because the return of the other site is counted there |
| IrreducibleLoops.LoopRowSoundIff | lib/ILP/AbstractHighsSolver.cpp:133-157 | for a header with a bound of at least 2, every run that takes at most bound - 1 flagged edges before the first and between consecutive other entries satisfies the header's row if and only if the header dominates the source of each of its flagged edges, over branches and calls from the entry |
| IrreducibleLoops.FlaggedRowIsUnsound | lib/MIRPasses/MachineLoopBoundAgregatorPass.cpp:445-483 | when the compiler recognises every header that dominates the source of an edge into it, each header the pass flags itself has an unsound row, once its function is reached: some run within the bound breaks it |
| IrreducibleLoops.EnteredPastHeader | lib/ILP/AbstractHighsSolver.cpp:133-157 | a concrete complete run of a two-entry loop that goes round once breaks the row for every bound, because it reaches the header over the back edge alone |
| HighsModel.BuildModel | lib/ILP/AbstractHighsSolver.cpp:36-194 | the columns and rows built by the loops admit exactly the feasible counts, their objective is the cost of the counts, and every assignment of counts is expressible as column values |
| HighsModel.MakeColumns | lib/ILP/AbstractHighsSolver.cpp:41-66 | every node and every edge gets its own column, no column stands for two, nodes first, and only node columns carry cost |
| HighsModel.InflowRow | lib/ILP/AbstractHighsSolver.cpp:90-107 | for all column values the row holds exactly when the node count equals the flow over its incoming edges |
| HighsModel.OutflowRow | lib/ILP/AbstractHighsSolver.cpp:109-124 | for all column values the row holds exactly when the node count equals the flow over its outgoing edges |
| HighsModel.LoopBoundRow | lib/ILP/AbstractHighsSolver.cpp:133-157 | for all column values the row holds exactly when (bound - 1) * count - bound * flagged flow is not negative |
| HighsModel.EntryRow | lib/ILP/AbstractHighsSolver.cpp:126-131 | for all column values the row holds exactly when the node runs once |
| HighsModel.RowsOfNode | lib/ILP/AbstractHighsSolver.cpp:86-158 | the rows of one node together say exactly what applies to it: conservation in unless entry, out unless exit, once if entry, bound if a bounded header |
| HighsModel.MatchingRow | lib/ILP/AbstractHighsSolver.cpp:165-194 | no row without a call edge or a return edge; otherwise the row holds exactly when the call's flow equals the flow returned to its landing |
| HighsModel.OptimumIsMaximum | lib/ILP/AbstractHighsSolver.cpp:196-201 | an optimum over column values is the largest objective over all counts that satisfy the rows |
| HighsModel.OptimumBoundsRuns | lib/ILP/AbstractHighsSolver.cpp:36-201 | whatever optimum is returned for the built model is at least the cost of every complete run |
| RowMeaning.FeasibleIff | lib/ILP/AbstractHighsSolver.cpp:86-194 | the rows hold exactly at the counts that obey the rules written over sets of edges: a node runs as often as it is entered and left, the entry once, a bounded header takes at most bound - 1 of every bound visits over flagged edges, and a call that some edge answers is answered as often as it is made |
| RowMeaning.ModelObeys | lib/ILP/AbstractHighsSolver.cpp:36-194 | the model that is built admits exactly the column values whose counts obey these rules |
| FiniteWcet.CountsAreBounded | lib/ILP/AbstractHighsSolver.cpp:134-194 | at every feasible point each node count is at most K to the power of the node's rank along unflagged branches and calls; returns to kept calls need no rank, as matching rows bound them, and returns to dropped calls either rise or carry at most one unit |
| FiniteWcet.NodeBelowForward | lib/ILP/AbstractHighsSolver.cpp:134-157 | the loop row makes a header's count at most its bound times its inflow over unflagged edges |
| FiniteWcet.ReturnBelowCall | lib/ILP/AbstractHighsSolver.cpp:160-165 | the flow back to a landing never exceeds the count of its own call block |
| FiniteWcet.WcetIsFinite | lib/ILP/AbstractHighsSolver.cpp:134-194 | the objective of all feasible points lies below one explicit number, under the same conditions |
| FiniteWcet.OptimumExists | lib/ILP/AbstractHighsSolver.cpp:196-215 | if any run completes and the rank exists, the model has an optimum: it is neither infeasible nor unbounded |
| EdgeSums.BorderBalance | lib/ILP/AbstractHighsSolver.cpp:90-131 | at every feasible point at most one unit more leaves any set of nodes than enters it |
| Leaks.SiteBalance | lib/ILP/AbstractHighsSolver.cpp:160-194 | the flow over a kept call that can be returned from equals the flow over all its return edges |
| Leaks.LeavesCutAtMostOnce | lib/ILP/AbstractHighsSolver.cpp:160-194 | a return to a dropped call that leaves a set of nodes closed under unbalanced flow carries at most one unit at every feasible point |
| Leaks.StrayAtMostOne | lib/ILP/AbstractHighsSolver.cpp:160-194 | a return to a dropped call carries at most one unit at every feasible point unless flow that no row balances can move from its landing back to it |
| Circulations.AddCirculation | lib/ILP/AbstractHighsSolver.cpp:90-194 | a circulation of the rows can be added to any feasible point any number of times, and adds its own cost each time |
| Circulations.BoundedIff | lib/ILP/AbstractHighsSolver.cpp:90-201 | if some counts satisfy the rows, the objective is bounded if and only if no circulation of the rows carries cost |
| Circulations.OptimumExistsIff | lib/ILP/AbstractHighsSolver.cpp:196-215 | if some counts satisfy the rows, an optimum of the built model exists if and only if no circulation of the rows carries cost |
| FreeCycles.FreeIff | lib/ILP/AbstractHighsSolver.cpp:160-194 | the unflagged edges in no matching row are exactly the branches, the returns to dropped calls only, and the calls from which nothing returns |
| FreeCycles.FreeCycleUnbounds | lib/ILP/AbstractHighsSolver.cpp:160-165 | a cycle of unflagged edges in no matching row, dead code included, makes the counts on it grow without limit |
| FreeCycles.CountsFiniteIff | lib/ILP/AbstractHighsSolver.cpp:134-194 | if the kept calls have no open cycle and no return to a dropped call comes back, the counts have a common limit if and only if every branch cycle is flagged |
| DeadCalls.CountsCappedIff | lib/Graph/ProgramGraph.cpp:705-748 | if the kept calls have no open cycle, blocks are reachable in their function and loops entered through their headers, the counts have a common limit if and only if no cycle of unflagged branches, returns to dropped calls and unanswered calls is left |
| DeadCalls.PlainDeadCodeDrains | lib/Graph/ProgramGraph.cpp:549-571 | if the dropped calls are not recursive and functions called without a landing do not return, nothing comes back over returns to dropped calls |
| DeadCode.DeadRecursionUnbounds | lib/Graph/ProgramGraph.cpp:705-748 | a concrete program with a dead recursive function that calls a live one: all branch and call cycles are cut, every other condition holds, and yet feasible counts have no limit |
| BoundedCycles.RankByFunction | lib/Graph/ProgramGraph.cpp:594-601 | flagging every branch cycle and every call cycle suffices for one rank over the whole interprocedural graph, recursion included |
| BoundedCycles.CutCyclesGiveWcet | lib/ILP/AbstractHighsSolver.cpp:134-194 | with all branch cycles and call cycles crossing flagged edges into bounded headers and no return to a dropped call coming back, an optimum exists and bounds every complete run |
| BoundedCycles.OpenCyclesGiveWcet | lib/ILP/AbstractHighsSolver.cpp:134-194 | the same if the unflagged branches and calls together with the returns to dropped calls that come back form no cycle |
| BoundedCycles.ScansCutBranches | lib/MIRPasses/MachineLoopBoundAgregatorPass.cpp:136-171 | flagging what the scan of each function returns leaves no unflagged branch cycle in the whole graph |
| CallProjection.InflowProjects | lib/ILP/AbstractHighsSolver.cpp:160-165 | at every feasible point, a block is reached exactly as often as its branches are taken once each call's returns are merged into the branch to its landing, plus the calls into it and the returns to dropped calls: a callee shared by many sites adds no caller flow |
| CallProjection.OutflowProjects | lib/ILP/AbstractHighsSolver.cpp:160-165 | at every feasible point, a block that does not stop is left exactly as often as those merged branches are taken, plus its returns and its call, if nothing returns from it |
| CallProjection.CallIsReturned | lib/ILP/AbstractHighsSolver.cpp:166-194 | the returns answering a call sum to the flow over its call edge |
| ProgramWcet.ProgramWcetIsUpperBound | lib/Graph/ProgramGraph.cpp:518-748 | for a graph as filled from the functions, the optimum computed after finalizing, pruning and translating it is at least what the visits of any run cost in the graph as filled: each visit its block's cycles plus the known costs of the body-less functions the block calls; runs stop in a block named Exit or without successors and respect the bounds the final graph states |
| ProgramWcet.CostsVisits | lib/Analysis/WorklistSolver.cpp:152-155 | the cost of a run in the state graph is what its visits cost in the graph as filled |
| FinalGraph.FinalCosts | lib/Graph/ProgramGraph.cpp:528-541 | finalizing adds to each block exactly the known costs of the body-less functions it calls, call by call, to both bounds, and changes no name |
| FinalGraph.FinalFlags | lib/Graph/ProgramGraph.cpp:573-703 | finalizing flags a predecessor only if it calls the function that starts at the block and a bound for it was supplied, which then becomes the block's bound; it flags every self call of such a function, and leaves all other blocks as they were |
| FinalGraph.FindingsMeaning | lib/Graph/ProgramGraph.cpp:754-812 | in terms of the recorded calls and supplied limits: an unbounded self-recursive function is reported exactly if it survived, calls itself and has no bound; some recursion is reported exactly of the survivors that call themselves or each other; unbounded mutual recursion only if a function on the cycle has no bound or no blocks; and an unsound callee exactly if a surviving block calls it and it has neither blocks nor a body nor a known cost |
| ProgramFiniteness.ProgramHasWcet | lib/Graph/ProgramGraph.cpp:594-748 | if in addition all branch cycles are flagged, finalizing reports no unbounded recursion and no return to a dropped call comes back, an optimum exists and bounds what the visits of every complete run cost in the graph as filled |
| ProgramFiniteness.PlainProgramHasWcet | lib/Graph/ProgramGraph.cpp:549-748 | unreachable functions may call live ones: the same holds if these calls are not recursive and no function that returns is called without a landing |
| ProgramFiniteness.ProgramCountsCappedIff | lib/Graph/ProgramGraph.cpp:594-748 | for an orderly program in which no unbounded recursion is reported, the counts have a common limit if and only if no cycle of unflagged branches, returns to dropped calls and unanswered calls is left |
| ProgramFiniteness.ProgramOptimumIff | lib/Graph/ProgramGraph.cpp:518-748 | for any finalized program that can complete, an optimum exists if and only if no circulation of the rows carries cost |
| ProgramWcet.FinalEmbeds | lib/Graph/ProgramGraph.cpp:549-571 | the final state graph has an edge for everything a kept node of the program can do, and the start is its only entry |
| ProgramWcet.FinalSites | lib/Analysis/WorklistSolver.cpp:213-224 | every call site that gets a matching row is a site of the program, and each kept callee is known with its entry and exactly its kept return blocks |
| ProgramWcet.FinalTight | lib/Graph/ProgramGraph.cpp:549-748 | the final graph has no edges beyond branches, calls and returns, and every kept call with a landing is carried to the integer program |
| ProgramWcet.StartNotCalled | lib/Graph/ProgramGraph.cpp:551-558 | no edge of the final graph calls the start function |
| ProgramWcet.GraphCyclesFlagged | lib/Graph/ProgramGraph.cpp:594-703 | if no unbounded recursion is reported, every cycle of kept calls crosses from one function to the next, or back to itself, over calls that are all flagged |
| ProgramWcet.NoOpenRecursion | lib/Graph/ProgramGraph.cpp:594-703 | if no unbounded recursion is reported, the unflagged calls of the final graph form no cycle |
| ProgramWcet.SelfCallsCut | lib/Graph/ProgramGraph.cpp:573-593 | every call a bounded self-recursive function makes to itself is flagged into its own entry with the supplied bound |
| ProgramGraphs.ProgramGraph.Finalize | lib/Graph/ProgramGraph.cpp:518-817 | adds exactly the call edge of each call into a function with blocks other than the start function, and the edges from all return blocks of the callee to the landing; adds to each block the known costs of the body-less functions it calls; flags and bounds recursion headers; then prunes; the findings are exactly those about functions and callees that survive |
| ProgramGraphs.ProgramGraph.AddNode | lib/Graph/ProgramGraph.cpp:103-117 | ids are handed out in order and the new block has no edges |
| ProgramGraphs.ProgramGraph.AddEdge | lib/Graph/ProgramGraph.cpp:138-143 | adds exactly one edge, in both directions, and keeps all labels |
| ProgramGraphs.ProgramGraph.RemoveEdge | lib/Graph/ProgramGraph.cpp:151-154 | removes exactly one edge, in both directions, and keeps all labels |
| ProgramGraphs.ProgramGraph.RemoveNode | lib/Graph/ProgramGraph.cpp:145-149 | removing a node without edges changes no edge of the graph |
| ProgramGraphs.ProgramGraph.WireEntryExit | lib/Graph/ProgramGraph.cpp:280-314 | adds exactly entry to first block, returns to exit, and the two fallbacks, successor by successor; always reports success |
| GraphBlocks.EntryExitConnectedIff | lib/Graph/ProgramGraph.cpp:280-314 | after the wiring, exit is reachable from entry if and only if the function is empty or some block wired to exit is reachable from the first block |
| GraphBlocks.EndlessLoopUnconnected | lib/Graph/ProgramGraph.cpp:280-314 | a concrete function that loops on its first block and has a second, unreachable end block gets no path from entry to exit |
| ProgramGraphs.ProgramGraph.WireCalls | lib/Graph/ProgramGraph.cpp:549-615 | adds exactly the edges the recorded calls run along, out to the callee's entry and back from each of its return blocks; self-recursive entries become headers of exactly their self calls; external calls are charged to their block or staged |
| ProgramGraphs.ProgramGraph.WireSite | lib/Graph/ProgramGraph.cpp:549-615 | one site adds exactly its call edge and an edge from each return block of the callee to its landing, and at most one change to one block's label |
| CallWiring.WiredEdgesLink | lib/Graph/ProgramGraph.cpp:549-571 | an edge is wired exactly if some recorded call, into a function with blocks other than the start function, goes along it, or one of the callee's return blocks goes back to the landing along it |
| CallWiring.WiredEdgesExact | lib/Graph/ProgramGraph.cpp:549-571 | an edge is wired exactly when some site wires it |
| CallWiring.WiredOneMore | lib/Graph/ProgramGraph.cpp:573-605 | self-call flags, bounds and external costs accumulate site by site to the set and sum over all sites |
| ProgramGraphs.ProgramGraph.Prune | lib/Graph/ProgramGraph.cpp:705-748 | keeps exactly the nodes reachable from the entry, with their labels and all edges among them; the removed nodes are edge-free when removed, self-loops included |
| ProgramGraphs.ProgramGraph.FindReachable | lib/Graph/ProgramGraph.cpp:713-726 | the worklist finds exactly the nodes reachable from the entry |
| ProgramGraphs.ProgramGraph.Detach | lib/Graph/ProgramGraph.cpp:736-745 | removes exactly the edges touching the node, so that it is free, and leaves the mirror of both edge sets intact |
| GraphBlocks.WalksUnchanged | lib/Graph/ProgramGraph.cpp:713-748 | a sequence of nodes from the entry is a walk after pruning exactly if it was one before |
| GraphBlocks.SuccessorsKept | lib/Graph/ProgramGraph.cpp:740-741 | a kept node keeps all its successors |
| RecursionBounds.CallAdjacency | lib/Graph/ProgramGraph.cpp:616-622 | the adjacency holds exactly the calls of the recorded sites |
| CallCycles.CallReaches | lib/Graph/ProgramGraph.cpp:623-639 | decides whether a chain of calls leads from one function to another |
| CallCycles.FunctionsInCycles | lib/Graph/ProgramGraph.cpp:641-648 | finds exactly the functions on call cycles of two or more functions |
| CallCycles.ComponentOf | lib/Graph/ProgramGraph.cpp:656-659 | collects exactly the functions that call and are called by the given one |
| CallCycles.GroupComponents | lib/Graph/ProgramGraph.cpp:650-660 | partitions the functions on such cycles into the classes of mutual reachability: complete, disjoint, nothing else |
| CallCycles.CycleEdge | lib/Graph/ProgramGraph.cpp:641-648 | every function on a cycle has a call to another function that leads back |
| RecursionBounds.ComponentEntries | lib/Graph/ProgramGraph.cpp:662-670 | exactly the members called from outside, and the start function |
| RecursionScan.FindSccBackEdges | lib/Graph/ProgramGraph.cpp:486-515 | every edge found closes a call cycle inside the component, and without them the component has no cycle, whatever the entries |
| RecursionScan.Scan.Dfs | lib/Graph/ProgramGraph.cpp:493-507 | scanning one function finishes it, keeps the chain of functions being scanned, and only adds edges and finished functions |
| RecursionScan.ClosesCycle | lib/Graph/ProgramGraph.cpp:499-500 | a call to a function still being scanned closes a cycle through it |
| RecursionScan.NoOpenCycle | lib/Graph/ProgramGraph.cpp:486-515 | finishing order falls along every call not found, so each cycle of the component contains one |
| RecursionBounds.ComponentCovered | lib/Graph/ProgramGraph.cpp:672-703 | in a component whose back edges all lead into bounded headers, every call cycle makes a call all of whose sites are flagged |
| RecursionBounds.CycleStays | lib/Graph/ProgramGraph.cpp:652-660 | a call cycle through a component stays inside it |
| RecursionBounds.CutStays | lib/Graph/ProgramGraph.cpp:573-703 | bounding further components never undoes a flag or changes a bound already set |
| RecursionBounds.ComponentExcused | lib/Graph/ProgramGraph.cpp:672-703 | a component is counted as unbounded only if one of its functions has no bound or no blocks |
| ProgramGraphs.ProgramGraph.FlagCalls | lib/Graph/ProgramGraph.cpp:687-698 | all sites along a back edge become flagged predecessors of the header's entry with its bound, and nothing else changes |
| ProgramGraphs.ProgramGraph.BoundComponent | lib/Graph/ProgramGraph.cpp:662-703 | a component counts as bounded exactly if it has back edges and all their headers have entries and bounds, and then all its call cycles are covered |
| ProgramGraphs.ProgramGraph.BoundCycles | lib/Graph/ProgramGraph.cpp:641-703 | every function on a mutual cycle is classed as bounded or unbounded, all call cycles through bounded ones are covered, and each unbounded one is on a cycle with a function that has no bound or no blocks |
| ProgramTranslation.InitializeGraph | lib/Analysis/WorklistSolver.cpp:124-224 | the state graph has exactly the kept blocks; each costs its block's upper-bound cycles, is an entry or exit if named so or without predecessors or successors, and a header with the block's bound if it has flagged predecessors; it has exactly the blocks' edges, flagged as their targets say; functions keep exactly their surviving entries and return blocks, and exactly the sites with a landing and both ends kept are carried over |
| ProgramTranslation.KeptNodesExact | lib/Analysis/WorklistSolver.cpp:208-214 | the kept return blocks are exactly the listed ones that survived, each as often as listed |
| ProgramTranslation.KeptSitesExact | lib/Analysis/WorklistSolver.cpp:219-226 | the carried sites are exactly those with a landing and both ends kept, each as often as recorded |
| ProgramTranslation.AddEdges | lib/Analysis/WorklistSolver.cpp:168-193 | all edges of the program graph, in both directions, each flagged exactly when its source is a back-edge predecessor of its target |
| ProgramTranslation.KeepReturns | lib/Analysis/WorklistSolver.cpp:213-219 | each function keeps exactly those of its recorded return blocks that survived, in order |
| BackEdges.FindBackEdges | lib/MIRPasses/MachineLoopBoundAgregatorPass.cpp:140-171 | every edge returned lies on a cycle of reachable blocks, and finishing order strictly decreases along every other edge of every reachable block |
| BackEdges.EveryCycleIsCut | lib/MIRPasses/MachineLoopBoundAgregatorPass.cpp:136-139 | every cycle reachable from the entry contains a returned edge, reducible or not |
| BackEdges.LoopIsCut | lib/MIRPasses/MachineLoopBoundAgregatorPass.cpp:136-171 | however control gets from the entry to a block and, over listed successors, back to it, it takes a returned edge on the way back |
| BackEdges.CutClosesLoop | lib/MIRPasses/MachineLoopBoundAgregatorPass.cpp:165-167 | each returned edge lies on such a way back to a block control can reach |
| BackEdges.NoneIffAcyclic | lib/MIRPasses/MachineLoopBoundAgregatorPass.cpp:140-171 | nothing is returned if and only if no cycle is reachable |
| BackEdges.OpenEdgesAcyclic | lib/MIRPasses/MachineLoopBoundAgregatorPass.cpp:136-139 | without the returned edges the reachable blocks form no cycle |
| BackEdges.StackWalk | lib/MIRPasses/MachineLoopBoundAgregatorPass.cpp:147-150 | the stack is always a walk, so each block on it reaches the top |
| BackEdges.Found | lib/MIRPasses/MachineLoopBoundAgregatorPass.cpp:165-167 | an edge to a block on the stack closes a cycle and keeps the invariant of the scan |
| BackEdges.ComputeLoopBody | lib/MIRPasses/MachineLoopBoundAgregatorPass.cpp:176-200 | the body is exactly the set of blocks that the header reaches and that reach the header |
| BackEdges.Sweep | lib/MIRPasses/MachineLoopBoundAgregatorPass.cpp:178-194 | one worklist finds exactly what is reachable over at least one edge |
| BackEdges.FlagIrreducible | lib/MIRPasses/MachineLoopBoundAgregatorPass.cpp:445-483 | an edge is flagged only if its header is unrecognised, had no bound and has a pragma, whose bound the header gets; each header with such an edge gets exactly one; existing bounds are kept and no others appear |
| BackEdges.AllFlaggedIff | lib/MIRPasses/MachineLoopBoundAgregatorPass.cpp:445-483 | all unrecognised loop-closing edges get flagged if and only if each header has a pragma and had no bound, and no two lead into the same header |
| BackEdges.SecondEdgeLeavesCycle | lib/MIRPasses/MachineLoopBoundAgregatorPass.cpp:452-457 | of two loop-closing edges into one header one stays unflagged, and with it a cycle that meets the header over no flagged edge |
| Walks.AncestorsGrow | lib/Graph/ProgramGraph.cpp:594-601 | in an acyclic graph the number of ancestors strictly increases along every edge |
| AgeDomain.LruUpdateMonotone | include/Analysis/Cache/ReplacementPolicy.h:248-261 | an LRU access keeps the order of two abstract sets, in the must and the may reading alike |
| AgeDomain.LruUpdatePacked | include/Analysis/Cache/ReplacementPolicy.h:248-261 | after an access at most a + 1 lines still have an age bound of at most a |
| AgeDomain.LruUpdateAged | include/Analysis/Cache/ReplacementPolicy.h:218-225 | after an access all ages are below the associativity and the accessed line has age 0 |
| AgeDomain.MustJoinPacked | include/Analysis/Cache/ReplacementPolicy.h:180-185 | the must join keeps the counting law |
| AgeDomain.PackedSize | include/Analysis/Cache/ReplacementPolicy.h:144-148 | a must set never lists more lines than there are ways |
| AgeDomain.JoinIsBound | include/Analysis/Cache/ReplacementPolicy.h:176-203 | the must join is the greatest lower bound and the may join the least upper bound of its arguments |
| AgeDomain.JoinMonotone | include/Analysis/Cache/ReplacementPolicy.h:176-203 | both joins are monotone |
| AgeDomain.OneWay | include/Analysis/Cache/ReplacementPolicy.h:78-90 | an access to a one-way must set leaves exactly the accessed line |
| Hardware.TouchAge | include/Analysis/Cache/ReplacementPolicy.h:240-261 | what an access does to the residence and age of every line of a real LRU queue |
| Hardware.MustAccess | include/Analysis/Cache/ReplacementPolicy.h:248-261 | an access keeps every must claim true on LRU hardware with at least as many ways, and with one way on any hardware, adversarial replacement included |
| Hardware.MayAccess | include/Analysis/Cache/ReplacementPolicy.h:248-261 | an access keeps every resident line listed at no more than its real age |
| ReplacementPolicy.SameEntriesSound | include/Analysis/Cache/ReplacementPolicy.h:167-170 | comparing sorted copies decides equality of the abstract sets, whatever the vector order |
| ReplacementPolicy.CacheSetState.InsertMiss | include/Analysis/Cache/ReplacementPolicy.h:218-225 | every line ages, those too old are dropped, the new line is youngest |
| ReplacementPolicy.CacheSetState.LruUpdate | include/Analysis/Cache/ReplacementPolicy.h:248-261 | the in-place loops compute the LRU transfer of the set's value |
| ReplacementPolicy.CacheSetState.FifoUpdate | include/Analysis/Cache/ReplacementPolicy.h:270-275 | a hit changes nothing, a miss inserts |
| ReplacementPolicy.CacheSetState.AgeJoin | include/Analysis/Cache/ReplacementPolicy.h:176-203 | the set becomes the join, and the result is true exactly when its value changed |
| ReplacementPolicy.MergeEntries | include/Analysis/Cache/ReplacementPolicy.h:179-195 | the merged vector lists the common lines at the larger age, or all lines at the smaller, each once |
| ReplacementPolicy.Policy.Contains | include/Analysis/Cache/ReplacementPolicy.h:114-117 | exactly membership in the abstract set, for all policies |
| ReplacementPolicy.Policy.Equals | include/Analysis/Cache/ReplacementPolicy.h:110-113 | exactly equality of the abstract sets, for all policies |
| ReplacementPolicy.Policy.Update | include/Analysis/Cache/ReplacementPolicy.h:118-120 | each policy's update is its transfer on the abstract set |
| ReplacementPolicy.Policy.JoinInto | include/Analysis/Cache/ReplacementPolicy.h:121-132 | joining is intersection for the single-line state too, and reports change exactly |
| CacheGeometry.IsPow2Exact | include/Analysis/Cache/CacheGeometry.h:33-36 | the bit test accepts exactly the powers of two |
| CacheGeometry.DecompositionIsDivMod | include/Analysis/Cache/CacheGeometry.h:22-30 | the two masks are rounding down to the line and remainder modulo the number of sets |
| CacheGeometry.SetIndexInRange | include/Analysis/Cache/CacheGeometry.h:27-30 | every line maps to an existing set |
| CacheStates.CacheState.Access | include/Analysis/Cache/CacheState.h:31-36 | only the line's own set changes, by the policy's transfer, and the result says whether it listed the line before |
| CacheStates.CacheState.Barrier | include/Analysis/Cache/CacheState.h:38-42 | all sets become empty |
| CacheStates.CacheState.Clone | include/Analysis/Cache/CacheState.h:44-49 | a fresh state with the same value that shares no set with the original |
| CacheStates.CacheState.Equals | include/Analysis/Cache/CacheState.h:51-59 | exactly equality of all sets |
| CacheStates.CacheState.JoinWith | include/Analysis/Cache/CacheState.h:61-68 | every set becomes the join, the other state is unchanged, and the result is true exactly when something changed |
| CacheAnalysis.Analysis.GetInitialState | lib/Analysis/Cache/CacheAnalysis.cpp:9-13 | a fresh cold state |
| CacheAnalysis.Analysis.Process | lib/Analysis/Cache/CacheAnalysis.cpp:15-43 | the state, the cycles charged and the lines reported are those of the whole event sequence |
| CacheAnalysis.SplitEvents | lib/Analysis/Cache/CacheAnalysis.cpp:21-42 | transfer, charge and reports of a concatenation are those of its parts in sequence |
| Traces.TransferIsLru | include/Analysis/Cache/ReplacementPolicy.h:78-90 | on all values it reaches the unknown policy is one-way LRU |
| Traces.MustTrace | lib/Analysis/Cache/CacheAnalysis.cpp:15-43 | whatever the hardware does, an event sequence takes at most the cycles charged, and the final value describes the final cache |
| Traces.MayTrace | lib/Analysis/Cache/CacheAnalysis.cpp:29-32 | along any barrier-free LRU execution every access to an unlisted line misses |
| ExactTraces.ColdTraceIsExact | include/Analysis/Cache/ReplacementPolicy.h:240-276 | from a cold cache and without joins, LRU and FIFO values equal the real queues and the cycles charged equal the time taken |
| ExactTraces.ExactAges | include/Analysis/Cache/ReplacementPolicy.h:150-153 | the ages of such a set are a permutation of 0 to n - 1 |
| PolicyChain.UnknownIsOneWay | include/Analysis/Cache/ReplacementPolicy.h:78-90 | over every history of accesses, joins and wipes the unknown policy equals one-way LRU |
| PolicyChain.MoreWaysGuaranteeMore | include/Analysis/Cache/ReplacementPolicy.h:176-261 | over every such history what j ways guarantee, k >= j ways guarantee at no greater age |
| PolicyChain.PreciseCostsLess | lib/Analysis/Cache/CacheAnalysis.cpp:15-43 | the unknown policy charges at least what LRU does, and fewer ways at least what more ways do, on every event sequence |
| SolverPrecision.PreciseSolverCostsLess | lib/Analysis/WorklistSolver.cpp:320-379 | for every function, each block the converged unknown or j-way analysis explores is explored by the converged k-way one, k >= j, and costs no more there |
| PolicyChain.HistoryShape | include/Analysis/Cache/ReplacementPolicy.h:176-225 | every must set reachable by accesses, joins and wipes obeys the age limit and the counting law |
| FetchCost.MapEvents | lib/Analysis/Cache/FRAMAccessMapper.cpp:10-32 | appends one access per code word in FRAM and one barrier for the data words |
| FetchCost.StraightEvents | lib/Analysis/Cache/FRAMAccessMapper.cpp:10-22 | how contiguous code is cut into instructions does not matter for the lines fetched |
| FetchCost.StraightLineCost | lib/Analysis/Cache/FRAMAccessMapper.cpp:10-22 | straight-line code over [a, b) costs exactly one miss per line touched from a cold cache, and at most that from any state |
| FetchCost.EventsAre | lib/Analysis/Cache/FRAMAccessMapper.cpp:10-32 | the events of one instruction are an access to the line of each of its words at or above the start of FRAM, in order, and then a barrier of the access cost times its data words; an instruction without address or length fetches nothing |
| FetchCost.InstructionCharge | lib/Analysis/Cache/FRAMAccessMapper.cpp:10-32 | one instruction costs, from a cold cache, one miss for each line its words in FRAM touch, also if it begins below FRAM, and never more from another state, plus the access cost times its data words, which leave the cache cold |
| Fixpoint.OutMonotone | lib/Analysis/WorklistSolver.cpp:331-364 | a block's equation is monotone in the states of its predecessors |
| Fixpoint.MustStartsFrom | lib/Analysis/WorklistSolver.cpp:331-348 | a block starts with exactly the lines guaranteed after all blocks that branch to it, at the largest of their ages, and with none if no block does |
| Fixpoint.MayStartsFrom | lib/Analysis/WorklistSolver.cpp:331-348 | a block starts with exactly the lines possible after some block that branches to it, at the smallest of their ages |
| Visits.EventPosition | lib/Analysis/WorklistSolver.cpp:357-368 | no event of a block is left out or moved: event k of instruction i stands behind the events of the earlier instructions and its own first k, and there are as many as the instructions have in all |
| Visits.VisitIsTrace | lib/Analysis/WorklistSolver.cpp:357-368 | the caches of a visit, one trace per instruction, each starting where the last ended, are exactly the traces of the block's events as one sequence |
| Visits.VisitTakes | lib/Analysis/WorklistSolver.cpp:357-368 | a visit takes the summed time of its instructions' traces |
| Fixpoint.MustAlongPath | lib/Analysis/WorklistSolver.cpp:320-379 | at every moment of the iteration, along every path of listed successors, from any cache and on any trusted hardware, in-values describe the real cache and each visit, instruction by instruction, takes at most the cycles charged |
| Fixpoint.MayAlongPath | lib/Analysis/WorklistSolver.cpp:320-379 | at the fixpoint, along every barrier-free path from a cold LRU cache, in-values list every resident line at no more than its age |
| SolverMeasure.ProgressLowersWeight | lib/Analysis/WorklistSolver.cpp:370-377 | each change of a block's value lowers the summed room left in all lines of all blocks |
| SolverTheory.StepChanged | lib/Analysis/WorklistSolver.cpp:325-378 | processing a block whose value changes and queueing its successors keeps the invariant, and the value only moves up |
| SolverTheory.StepUnchanged | lib/Analysis/WorklistSolver.cpp:325-378 | processing a block whose value does not change keeps the invariant |
| SolverTheory.InvariantFinally | lib/Analysis/WorklistSolver.cpp:325-379 | when the worklist is empty exactly the explored blocks were processed, and each satisfies its equation with the cost of its final in-value |
| WorklistSolver.Solver.AddToWorklist | lib/Analysis/WorklistSolver.cpp:11-16 | queues a block at the end unless it is queued already; queue and set stay consistent |
| WorklistSolver.Solver.TakeFromWorklist | lib/Analysis/WorklistSolver.cpp:18-23 | takes the first block; queue and set stay consistent |
| WorklistSolver.Solver.InitializeGraph | lib/Analysis/WorklistSolver.cpp:42-92 | one cold node per block, exactly the function's edges, and only the entry queued; loop and call information is left out |
| WorklistSolver.Solver.JoinPredecessors | lib/Analysis/WorklistSolver.cpp:331-355 | the in-state is the join of the predecessors' states, cold without predecessors, and shares nothing with them |
| WorklistSolver.Solver.ProcessBlock | lib/Analysis/WorklistSolver.cpp:357-368 | the in-state becomes the block's out-value and the cost is that of the in-value |
| WorklistSolver.Solver.Run | lib/Analysis/WorklistSolver.cpp:320-379 | terminates with explored blocks satisfying their equations, costs those of the final in-values, all other blocks untouched, and no value beyond what any bound on the equations allows |
| AbstractStateGraph.Graph.AddNode | lib/Analysis/AbstractStateGraph.cpp:7-12 | ids are handed out in order |
| AbstractStateGraph.Graph.AddEdge | lib/Analysis/AbstractStateGraph.cpp:14-17 | adds exactly one edge in both maps; an edge already there keeps its flag |
| AbstractStateGraph.Graph.RemoveEdge | lib/Analysis/AbstractStateGraph.cpp:19-30 | removes exactly one edge from both maps |
| AbstractStateGraph.AscendingExact | lib/Analysis/AbstractStateGraph.cpp:40-58 | iteration order is ascending and complete |
| SolverMeaning.SettledEverywhereIff | lib/Analysis/WorklistSolver.cpp:84-91 | the result solves the equations of all reachable blocks if and only if each was explored or is inert |
| SolverMeaning.ExploredIff | lib/Analysis/WorklistSolver.cpp:370-377 | if paths do not merge in blocks without events, the blocks explored are exactly those to which a path leads whose blocks all leave a line behind: the last block with events before each of them ends with an access |
| SolverMeaning.AccessEndingsCover | lib/Analysis/WorklistSolver.cpp:370-377 | if every reachable block with successors ends with an access, everything reachable is explored |
| SolverMeaning.MustCostsBoundTime | lib/Analysis/WorklistSolver.cpp:366-368 | on every execution the cache cycles spent are at most the summed block costs |
| SolverMeaning.EntryMustBeCold | lib/Analysis/WorklistSolver.cpp:331-348 | in-values are right on every execution if and only if the solver's in-value of the entry is cold |
| SolverFailures.EntryAloneIsRight | lib/Analysis/WorklistSolver.cpp:331-348 | if no branch leads to the entry, in-values are right on every execution |
| SolverFailures.EntryInLoopIsWrong | lib/Analysis/WorklistSolver.cpp:331-348 | if the entry has one predecessor, which is explored and ends with an access, in-values are wrong on some execution |
| SolverFailures.EntryLoopUnderestimated | lib/Analysis/WorklistSolver.cpp:331-368 | a concrete block that accesses a line and branches to itself is charged nothing, and its first visit misses |
| SolverFailures.BehindBarrierUnderestimated | lib/Analysis/WorklistSolver.cpp:370-377 | a concrete block behind one that ends with a barrier is never looked at, is charged nothing, and misses |
| SolverExactness.CostsSafeIff | lib/Analysis/WorklistSolver.cpp:366-377 | if no branch leads to the entry and paths do not merge in blocks without events, block costs bound every execution if and only if every reachable block is explorable, as read off the function, or costs nothing from a cold cache |
| SolverExactness.NeglectedIsUnderestimated | lib/Analysis/WorklistSolver.cpp:370-377 | for a reachable block that was not explored and can cost something there is an execution that ends in a block taking more than reported |
| FRAMCacheAnalysis.FoldPenalties | lib/Targets/MSP430/FRAMCacheAnalysisPass.cpp:131-160 | every block's latency grows by exactly its penalty and the total is their sum |
| FRAMCacheAnalysis.ReportAlwaysMiss | lib/Targets/MSP430/FRAMCacheAnalysisPass.cpp:73-92 | a block and line are reported exactly if some event of some instruction of the block accesses the line where the replay from the converged in-state does not list it |
| FRAMCacheAnalysis.MissedAtPlace | lib/Targets/MSP430/FRAMCacheAnalysisPass.cpp:57-92 | the lines collected by the replay are exactly those with such an access, by instruction and event |
| FRAMCacheAnalysis.UnlistedAccessMisses | lib/Targets/MSP430/FRAMCacheAnalysisPass.cpp:57-92 | every such access misses on every visit of every execution of a barrier-free function entered with a cold LRU cache |
| FRAMCacheAnalysis.AlwaysMissIsSound | lib/Targets/MSP430/FRAMCacheAnalysisPass.cpp:57-92 | every reported line is accessed at a place that misses on every visit of every execution |
| LoopIntervals.VisitsBound | scripts/derive_abi_costs.py:21-26 | an instruction inside d nested intervals runs at most 64 to the power d times |
| LoopIntervals.VisitsBelowTakings | scripts/derive_abi_costs.py:21-23 | between two visits of an instruction a backward jump across it is taken |
| LoopIntervals.ArrivalsBelowTakings | scripts/derive_abi_costs.py:21-23 | between two arrivals at a loop an enclosing loop's backward jump is taken |
| LoopIntervals.ChainBound | scripts/derive_abi_costs.py:24-27 | all takings in a chain of d nested loops, plus one, are at most 64 to the power d |
| AbiCost.Cost | scripts/derive_abi_costs.py:130-166 | from an empty stack a bound is returned if and only if the routine has instructions, none inside more than four loops, all calls enter symbols and chains of calls end; the bound is the charge read off the image: per instruction from the start up to the next symbol its cycles and its callee's entry, times 64 for each loop around it; the table only grows, and each entry is such a charge |
| AbiCost.RangeIs | scripts/derive_abi_costs.py:101-109 | an instruction belongs to a routine if and only if it is in the image at or behind the start and no symbol lies behind the start up to it |
| AbiCost.StartsAtSymbol | scripts/derive_abi_costs.py:101-109 | the instruction at the symbol comes first |
| AbiCost.RangeInOrder | scripts/derive_abi_costs.py:101-109 | the instructions are listed in address order, each once |
| AbiCost.LoopsAre | scripts/derive_abi_costs.py:138-144 | the intervals listed are exactly those of the jumps of the routine to an earlier or their own address inside it |
| AbiCost.ResolvedIs | scripts/derive_abi_costs.py:112-127 | a call resolves to its target, or else to what the last load of its register in the routine put there, if no call or return came since, and otherwise not at all |
| AbiCost.EntryIsCharge | scripts/derive_abi_costs.py:149-166 | a table entry is exactly the charge of its routine, read off the image |
| AbiCost.WithinBound | scripts/derive_abi_costs.py:24-27 | a whole run through the instructions of the image, nested calls included, costs at most the table entry of the routine it starts in |
| AbiCost.DepthIsCount | scripts/derive_abi_costs.py:146-147 | depth is the number of distinct intervals around an address |
| AbiCost.ByInsnBelowTotal | scripts/derive_abi_costs.py:149-154 | charged per visit the instructions cost no more than charged per possible round |
| AbiCost.TotalStable | scripts/derive_abi_costs.py:130-132 | adding entries to the table changes no charge already computed |
| AddressAlignment.AlignFunction | lib/MIRPasses/AdressResolverPass.cpp:518-620 | every code-emitting instruction is matched to the cursor or its re-synchronised entry until entries run out, and exactly the matched addresses and targets are recorded |
| AddressAlignment.Resync | lib/MIRPasses/AdressResolverPass.cpp:558-601 | the cursor moves only if the entry there has as many bytes as the instruction but others, and then to the first of the next 32 entries with the instruction's bytes, if there is one |
| AddressAlignment.AddressesAscend | lib/MIRPasses/AdressResolverPass.cpp:529-620 | instructions get strictly ascending entries and addresses |
| AddressAlignment.GapsAreSmall | lib/MIRPasses/AdressResolverPass.cpp:574-577 | at most 32 entries are skipped between consecutive matches |
| AddressAlignment.NoDriftIsIdentity | lib/MIRPasses/AdressResolverPass.cpp:529-620 | if each instruction's own entry has the instruction's bytes, or another number of bytes, or the instruction's bytes are unknown, every instruction is matched to its own entry |
| AddressAlignment.Recovers | lib/MIRPasses/AdressResolverPass.cpp:564-578 | up to 32 entries no instruction accounts for, before an anchor whose bytes none of them has, are skipped: the anchor and every other instruction that agrees with its own entry is matched to it |
| AddressAlignment.ComputeInstructionWords | lib/Utility/InstructionWords.cpp:20-52 | exactly the resolved instructions get a count, the one their place in address order gives them |
| AddressAlignment.SortByAddress | lib/Utility/InstructionWords.cpp:26-33 | the resolved instructions in address order, each once |
| AddressAlignment.RangesDisjoint | lib/Utility/InstructionWords.cpp:35-50 | with even gaps of at least 2, counts are between 1 and the maximum and word ranges do not overlap |
| AddressAlignment.CountCoversIff | lib/Utility/InstructionWords.cpp:35-50 | a count covers the real length if and only if the instruction is one word long or another one follows within the maximum distance |

## Left out

- The optimiser itself, floating point, rounding and the choice between integer and linear solving: an optimum is any admissible point no other exceeds.
- Recorded execution counts and the status text of a failed optimisation.
- ProgramTranslation.InitializeGraph: nodes keep their ids, while the original hands out new ids in the same order; the abstract states it also creates are not used by the integer program.
- Filling the graph from machine functions (`fillGraphWithFunction`): `ProgramWcet.IsFilled` states what it provides. Basic blocks named "Entry" are excluded there, because the translation recognises the entry by name.
- Library calls that exist only as symbols: they are charged or staged like calls to functions without a body. Staged callees form a set of node and function here.
- ProgramGraphs.ProgramGraph.BoundComponent: the back edges of a component are visited in an arbitrary order; the original orders them by memory address.
- BackEdges.FlagIrreducible: edges are visited in an arbitrary order, and the bound found in a loop body's source lines is a parameter.
- Loop bounds from scalar evolution, debug locations and JSON files.
- IpetSoundness.WcetIsUpperBound: runs end with no call unfinished, no two sites of a callee share a landing, and the start function is not called; `MatchingIff` says what happens otherwise.
- Blocks that are both a loop header and the entry of a recursive function: finalizing overwrites their bound, and runs are held to the bound the final graph states.
- DeadCalls.CountsCappedIff: not stated for programs with blocks their own function does not reach, loops entered past their header, or flagged calls without a landing, where flow can mix in more ways; for these `Circulations.OptimumExistsIff` is the exact condition.
- SolverExactness.CostsSafeIff: not stated for functions whose entry lies in a loop, where in-states are wrong, or in which paths merge in a block without events, where the join keeps less than every path does.
- Wrap-around of cycle counters and ids at 32 bits.
- FIFO across joins and in the fixpoint: an abstract miss inserts a line as youngest although it may be an old resident, so neither soundness nor monotonicity holds; FIFO is covered on join-free traces.
- Barriers in the may direction: wiping a may set claims that nothing is cached, which is not conservative, so may soundness is stated without barriers and for LRU only.
- Calls inside the cache analysis, which works function by function.
- WorklistSolver.Solver.InitializeGraph: loop information, exits and call sites of the per-function graph are not modelled; the cache analysis passes none and reads none.
- The fixpoint over the program graph (`run(PG)`), whose transfer never runs, and the analyses whose counters grow in loops.
- CacheGeometry.DecompositionIsDivMod: addresses are below 2^64 and the line size below 2^64; set counts are not truncated to 32 bits.
- Data accesses: which instructions touch memory with wait states, and with how many words, is a parameter of `FetchCost.MapEvents`.
- AbiCost.WithinBound: jumps that leave the routine or have no resolved target, and calls through registers that hold another value than the one last moved in, are not runs here; the disassembly itself is taken as given.
- The encoder behind `AddressAlignment.AlignFunction`, its coverage counters and its diagnostics.
- Option parsing, pass registration, latency tables, ELF and JSON reading, dumps and printing.
- The hardware pipeline stages, the graph adapter, the compiler plugin and the test programs.
