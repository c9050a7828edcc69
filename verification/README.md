# A verified model of ScaffCC's own tools

ScaffCC carries, beside its copy of LLVM and Clang, a handful of programs of its own and some vendored scripts
whose correctness is not obvious from their text. This project models the hardest of them in Dafny and proves
what they are meant to do. `dafny verify dfyconfig.toml` checks everything.

| component | source | modules |
|---|---|---|
| braid simulator | `braidflash/braidflash.cpp` | Mesh, Routes, Events, Dag, CriticalPath, Criticality, Scheduler, SchedulerInvariant, SchedulerSteps, SchedulerRuns, SelfConflict, SelfConflictRun, SchedulerCycles, PassRules, SerialRuns, Simulator |
| layout optimiser | `braidflash/arrange.py` | Arrange |
| hash table | `scripts/uthash.h` | PointerLists, HashSort, HashTable |
| call-frequency estimator | `scripts/frequency-estimation-hybrid.c` | Frequency |
| delta debugging | `clang/utils/token-delta.py` | DeltaDebugging |
| A/B bisection | `llvm/utils/abtest.py` | Bisection |
| case-fold compiler | `llvm/utils/unicode-case-fold.py` | CaseFold |
| file remapper | `clang/lib/ARCMigrate/FileRemapper.cpp` | FileRemapper |

Collections and Arithmetic hold what several of them share.

## The braid simulator

A run is a sequence of steps, one for each iteration of one of the simulator's loops: queue a ready gate, advance
the clock, reorder the lapsed events, do an event, find it blocked, switch its route, drop its gate. The invariant
`SchedulerInvariant.Inv` describes every gate on its own: it is done, blocked, ready or active; its pending events
are the tail of its program up to reroutes; it holds exactly what the events it has done leave it; it is not ahead
of its dependencies' completion plus the timers of its events so far. Each step keeps the invariant, so it holds in
every state of every run (`SchedulerRuns.RunKeepsInv`), and the safety, conservation, ordering and timing theorems
follow. The class `Simulator.Simulator` is the imperative program itself; every method extends a ghost history that
is a run in this sense, so the theorems about runs apply to what the program does. What one pass over the lapsed
events adds to that history, and which events it leaves, is said in `PassRules`.

Facts about the source that the model keeps:

- `set_code_distance` computes a local value and returns the zero-initialised global
  (braidflash/braidflash.cpp:1365-1374). The model takes any distance; with distance 0 the timers of cnot5 and cnot7
  are -1 and no CNOT ever completes (`SchedulerRuns.DistanceZeroStallsCnots`). The function exits on a distance below
  1, but only on the local one. With any other distance CNOTs do complete: a list in which every gate shares a tile
  with the next one finishes exactly if the distance is not 0 or there is no CNOT, after a number of cycles that is
  known beforehand (`SerialRuns.SerialFinishes`); that number is the critical path, plus two cycles for each CNOT at
  distance 1, where a timer of 0 still costs a cycle (`SerialRuns.SerialTime`).
- `Event::policy` is read by the comparison but never set by the constructor (braidflash/braidflash.cpp:288-291), so
  the sort of the lapsed events is an arbitrary reordering, and nothing proved depends on it.
- S and T gates are replaced by gates at the end of the list before the graph is built
  (braidflash/braidflash.cpp:2174-2203); order statements are about that expanded list. Only CNOT and H are left in
  it. Gates carry distinct numbers above 0, which serve as owner marks.
- A gate may hold one node from its rerouted cnot3 until cnot6, and an open event conflicts even with its own
  gate's resources. `SelfConflict.Cnot5SelfConflict` says exactly when that happens, and
  `SelfConflictRun.SelfConflictHappens` is a run of two CNOTs in which it does.
- `doneAt`, the clock value at which a gate completed, and `crossed`, the braid with which a gate's latest cnot3 was
  done, are history variables; the source does not store them.

## The other components

- Oracles are arbitrary functions: the answers of METIS (one line per node), the tests of delta debugging and of the
  bisection (deterministic; the delta test depends on the set of changes only), the hash function, the sort
  comparison, the file lookup.
- `braidflash/arrange.py` is Python 2, so `/` on integers is floor division.
- Bucket selection in `scripts/uthash.h` masks the hash value with the bucket count less one. The bucket count of a
  valid table is a power of two, where that is the remainder, and the model uses the remainder.
- Elements of the hash table are references into link fields that are maps, one per field of the hash handle, which
  the methods reassign; the lists those links stand for are ghost fields.
- A key may be added twice. A lookup then returns some element with that key; the table stands for a finite map as
  long as absent keys are added, as the frequency estimator does.
- The frequency estimator keeps its memos in the verified hash table.
- Labels produced by the layout step rank the places of a square, and the simulator reads a label as a tile number on
  its own grid, which is one column narrower than the square whenever that has room for all qubits
  (braidflash/braidflash.cpp:2038-2039). Place and tile agree exactly under `Arrange.KeepsTiles`, a condition on the
  number of qubits and on whether any interact (`Arrange.TilePlacement`); for five interacting qubits they do not
  (`Arrange.FiveMissTheirTiles`). Whether the labels are the cells of the square itself is a different condition,
  `Arrange.NoGaps` (`Arrange.CompactPlacement`). The default factory mode of the simulator sizes the grid anew and
  relocates tiles once more (braidflash/braidflash.cpp:2063-2126, 2159-2173); that step is not part of this model.
- When a name occurs twice in the list of choices, the sequential check and the bisection may disagree. They agree for
  every test under which choices do not interact exactly if every entry has the side B of its name's last entry, or
  that last entry has two equal sides (`Bisection.ChecksAgree`).
- Frequencies are unsigned 64-bit numbers and are added and multiplied modulo 2^64. A full or empty stack ends the
  program.
- The two maps of the file remapper: the inverse map is always sound, but not always complete. Two originals with
  one replacement lose an inverse entry (`FileRemapper.SharedReplacementLosesInverse`), and that is the only way
  (`FileRemapper.CompleteUnlessShared`).

## Model

| member | source | states |
|---|---|---|
| Mesh.CornerMoves | braidflash/braidflash.cpp:783-821 | from any corner of a tile the horizontal, vertical and diagonal moves end on the three other corners of that tile, the first two along mesh links, the diagonal is one of each in either order, and each move undoes itself |
| Mesh.NearestIsClosestCorner | braidflash/braidflash.cpp:824-843 | the corner chosen is a corner of the tile and no corner of the tile is fewer hops away |
| Mesh.BuildMesh | braidflash/braidflash.cpp:2210-2238 | the built mesh has exactly the grid's nodes and links, all without owner |
| Routes.BraidDor | braidflash/braidflash.cpp:941-991 | the routing loops produce the dimension-ordered route in either order, for all nodes |
| Routes.DorIsSimplePath | braidflash/braidflash.cpp:941-991 | that route is a walk over mesh links that ends at the destination, visits no node twice, and has exactly Manhattan-distance many nodes and links, the same for XY and YX |
| Routes.DorAt | braidflash/braidflash.cpp:941-991 | XY routing first changes the row in the source's column and then the column in the destination's row, YX the other way round, one step at a time towards the destination |
| Routes.WalkAtLeastManhattan | braidflash/braidflash.cpp:941-991 | no walk over mesh links between the same nodes is shorter |
| Routes.AncillasAreCorners | braidflash/braidflash.cpp:993-1027 | the two ancillas are corners of the source tile joined by a mesh link, on its vertical side for tiles that share a side and on a horizontal one otherwise |
| Routes.ShapesInMesh | braidflash/braidflash.cpp:875-939 | the L and S shapes from any corner of any tile name only nodes and links of the mesh |
| Routes.CnotRoutesInMesh | braidflash/braidflash.cpp:1029-1086 | for every pair of tiles and both routing orders, every node of both routes is in range and every link is a mesh link, so the unchecked edge lookups always succeed; routes are not empty |
| Routes.AdjacentRoutes | braidflash/braidflash.cpp:1033-1055 | for tiles that share a side route 1 takes the three vertical sides of the two tiles and ends in the target's far bottom corner; route 2 takes the source's two vertical sides and the target's bottom side, and the source's bottom corners |
| Routes.DistantRoutes | braidflash/braidflash.cpp:1057-1083 | for other tiles route 1 takes the vertical sides of both tiles and the links of the dimension-ordered walk, in the order asked for, from the corner opposite to the first ancilla to the target's nearest corner; route 2 takes the two far sides of the target, the links of the walk back, in the same order, and the source's vertical sides; the nodes of both are listed |
| Events.PlanIsClosedProtocol | braidflash/braidflash.cpp:1088-1149 | the seven braids of a CNOT, after any combination of reroutes, lie in the mesh and release all that they open: the pairs match except for one held node, released by cnot6, and one held link, released by cnot7 |
| Events.RouteEndsAgree | braidflash/braidflash.cpp:1582-1610 | XY and YX routing end route 1 in the same node and route 2 in the same link, so a reroute of one pair fits the other pair unchanged |
| Events.RerouteOfPlan | braidflash/braidflash.cpp:1582-1610 | rerouting a second time, or after the other pair was rerouted, gives the braids of one fixed plan |
| Events.SwitchedCnot5AvoidsHeldNode | braidflash/braidflash.cpp:1594-1607 | the first cnot5 names the node its gate may still hold; the rerouted cnot5 does not |
| Events.SwitchedCnot3Turns | braidflash/braidflash.cpp:1594-1601 | where route 1 has to turn, the first cnot3 names the turn in the target's row and not the one in the source's, the switched cnot3 the other way round |
| Events.SwitchedCnot5Turns | braidflash/braidflash.cpp:1602-1610 | the same for cnot5 and route 2, which turns in the source's row first and in the target's when switched |
| Events.EventsName | braidflash/braidflash.cpp:1088-1149 | what each event opens and closes: cnot1 and cnot2 the two ancillas and the side between them, cnot3 route 1 and the first ancilla unless switched, cnot5 route 2 and the held node (switched: without it and without the route's last node); cnot6 leaves of that exactly the held link, and cnot7 closes it with the ancillas |
| Events.ClosesNoMore | braidflash/braidflash.cpp:1118-1141 | cnot4 closes the first ancilla and else only what cnot3 opened; cnot6 closes the held node and else only what cnot5 opened |
| Events.HeldLinkOnce | braidflash/braidflash.cpp:1137-1146 | route 2 ends in the held link, in either order, and takes it only once unless both tiles are one |
| Dag.BuildDag | braidflash/braidflash.cpp:2255-2287 | the nested scan yields exactly the edges from a gate to the next user of one of its tiles |
| Dag.FindNextUse | braidflash/braidflash.cpp:2271-2285 | the inner scan stops at the first later gate that uses the tile |
| Dag.SparseReachabilityIsFull | braidflash/braidflash.cpp:2255-2287 | the next-use graph reaches exactly what the full order "earlier and shares a tile" reaches, and only forward, so it is acyclic |
| Dag.EdgesPerTile | braidflash/braidflash.cpp:2255-2287 | the graph is sparse: a gate has at most as many edges out, and at most as many in, as it has tiles |
| CriticalPath.LongestPaths | braidflash/braidflash.cpp:1651-1696 | the worklist terminates on every acyclic graph; its table is the longest path to every vertex and its result the overall maximum |
| CriticalPath.PathAtMostLongest | braidflash/braidflash.cpp:1651-1696 | no path that ends in a vertex outweighs the table entry |
| CriticalPath.LongestIsPath | braidflash/braidflash.cpp:1651-1696 | some path that ends in the vertex has exactly that weight |
| CriticalPath.OverallIsHeaviestPath | braidflash/braidflash.cpp:1651-1696 | the result bounds the weight of every path and, unless there are no gates, is the weight of one |
| Criticality.CriticalClk | braidflash/braidflash.cpp:1651-1696 | on the dependency graph the result is the latency sum of the heaviest dependency path |
| Criticality.AssignCriticality | braidflash/braidflash.cpp:1699-1736 | each gate's criticality is the latency sum of the heaviest path that starts in it: a bound on all of them and attained |
| Criticality.CriticalTimesAgree | braidflash/braidflash.cpp:2297-2317 | the largest criticality equals the critical path, and that is at most the serial completion time |
| SchedulerInvariant.LatencyIsTimerSum | braidflash/braidflash.cpp:1949-1974 | the latency of an operation is the sum of the timers of its events |
| SchedulerInvariant.NothingHeldAtEnd | braidflash/braidflash.cpp:1088-1149 | a gate that has done all its events holds nothing, on whichever routes it did them |
| SchedulerSteps.OwnedAfterDone | braidflash/braidflash.cpp:1543-1580 | a successful event changes what its own gate owns by exactly its braid and what every other gate owns not at all |
| SchedulerSteps.OwnedAfterPurge | braidflash/braidflash.cpp:1612-1648 | a purge leaves its gate without resources and every other gate with its own |
| SchedulerSteps.InFlightActive | braidflash/braidflash.cpp:2382-2417 | the gate of an event in flight is active and waits for nothing, so the assertion on removal from the graph holds |
| SchedulerSteps.UnblockedByCompletion | braidflash/braidflash.cpp:2404-2418 | a completion unblocks exactly the gates it puts on the ready list |
| SchedulerSteps.QueueFirstKeepsInv | braidflash/braidflash.cpp:2347-2370 | queueing the events of a ready gate keeps the invariant |
| SchedulerSteps.TickKeepsInv | braidflash/braidflash.cpp:1759-1791 | advancing the clock keeps the invariant |
| SchedulerSteps.ReorderKeepsInv | braidflash/braidflash.cpp:2378-2379 | any reordering of the lapsed events keeps the invariant |
| SchedulerSteps.SucceedKeepsInv | braidflash/braidflash.cpp:2382-2433 | doing an event keeps the invariant, whether it was its gate's last or not |
| SchedulerSteps.WaitKeepsInv | braidflash/braidflash.cpp:2436-2437 | counting a blocked attempt keeps the invariant |
| SchedulerSteps.SwitchRouteKeepsInv | braidflash/braidflash.cpp:1582-1610 | rerouting a cnot3 or cnot5 in flight is always possible and keeps the invariant |
| SchedulerSteps.DropKeepsInv | braidflash/braidflash.cpp:2454-2471 | dropping and reinjecting a gate keeps the invariant |
| SchedulerSteps.InitialInv | braidflash/braidflash.cpp:1750-1757 | the empty mesh with the full graph and the gates without predecessors ready satisfies the invariant |
| SchedulerRuns.RunKeepsInv | braidflash/braidflash.cpp:2332-2479 | the invariant holds in every state of every run, for any conflicts, reroutes, drops and sort orders |
| SchedulerRuns.OwnershipSafety | braidflash/braidflash.cpp:1543-1580 | a resource changes owner only to free, by a close event naming it or the drop of the gate that owns it, or from free, by an open event naming it |
| SchedulerRuns.BlockedByActiveGate | braidflash/braidflash.cpp:1548-1567 | in every state of a run an event conflicts if and only if its braid names something that an active gate holds: another gate, or, for an open event, also its own |
| SchedulerRuns.OnlyActiveGatesOwn | braidflash/braidflash.cpp:2382-2471 | no leaks: whatever is owned is owned by an active gate, never by one that is done, ready (so also dropped) or blocked |
| SchedulerRuns.GateHasOneStatus | braidflash/braidflash.cpp:2332-2479 | every gate is exactly one of done, blocked, ready and active |
| SchedulerRuns.EventsRunInOrder | braidflash/braidflash.cpp:1768-1790 | an event in flight is the next one of its gate's program and nothing else of that gate runs |
| SchedulerRuns.ProgressOfGate | braidflash/braidflash.cpp:2332-2479 | a step leaves a gate where it is, does its next event, starts it from its first event, or drops it back to ready |
| SchedulerRuns.CompletionIsFinal | braidflash/braidflash.cpp:2390-2425 | a completed gate stays completed at the same time, and completing takes the success of the gate's last event, so each gate completes at most once |
| SchedulerRuns.LiveGatesShareNoTile | braidflash/braidflash.cpp:2247-2287 | no two gates that are ready or active have a tile in common |
| SchedulerRuns.SharersCompleteInOrder | braidflash/braidflash.cpp:2404-2418 | gates on a tile complete in list order, the later one at least its latency after the earlier one |
| SchedulerRuns.CompletesAfterLongestPath | braidflash/braidflash.cpp:1651-1696 | no gate completes before the longest latency-weighted path that ends in it |
| SchedulerRuns.FinishedState | braidflash/braidflash.cpp:2332-2333 | when the loop's exit condition holds, every gate has completed no earlier than its longest path, every owner is 0, and the clock is at least the critical path |
| SchedulerRuns.RunsEndAfterCriticalPath | braidflash/braidflash.cpp:2332-2479 | the same for every run that reaches the exit |
| SchedulerRuns.DistanceZeroStallsCnots | braidflash/braidflash.cpp:1949-1958 | with distance 0, in no run does any CNOT ever complete |
| Events.FirstPairLeaves | braidflash/braidflash.cpp:1594-1600 | cnot4 releases all that cnot3 took, except that the rerouted pair leaves exactly the last node of the route, unless both tiles are one or they share a side |
| SelfConflict.Cnot5SelfConflict | braidflash/braidflash.cpp:1582-1610 | a cnot5 in flight conflicts with its own gate if and only if the gate did its cnot3 on the YX route, its tiles are two tiles that share no side, and cnot5 was not switched |
| SelfConflictRun.SelfConflictHappens | braidflash/braidflash.cpp:2332-2479 | two CNOTs in neighbouring columns, at distance 2 and with reroutes after the first conflict, reach such a conflict in the sixth cycle of the main loop |
| SerialRuns.SerialFinishes | braidflash/braidflash.cpp:2332-2479 | the cycles of a list in which every gate shares a tile with the next reach the loop's exit if and only if there is no negative timer and their number is the sum of the event durations; they never exceed it |
| SerialRuns.OneCnotFinishes | braidflash/braidflash.cpp:2332-2479 | one CNOT alone is finished after n cycles if and only if the distance is at least 1 and n is 5 + 2 max(1, distance - 1) |
| SerialRuns.SerialProgress | braidflash/braidflash.cpp:1759-1791 | after n cycles of a serial list the gate and the event of it that come next are those given by the timers of all events before |
| SerialRuns.OneCnotTimes | braidflash/braidflash.cpp:1949-1974 | with t = max(1, distance - 1), one CNOT alone does its first four events in the first four cycles, cnot5 in cycle 4 + t, cnot6 in cycle 5 + t and cnot7 in cycle 5 + 2t: route 2 is held for one cycle |
| SerialRuns.SerialTime | braidflash/braidflash.cpp:1949-1974 | that time is the critical path of the list, plus two cycles for each CNOT at distance 1, so the lower bound on the clock is attained |
| SerialRuns.AloneDoable | braidflash/braidflash.cpp:1543-1580 | an event of a gate that runs alone on its first routes never conflicts |
| SerialRuns.NextIsReady | braidflash/braidflash.cpp:2404-2416 | completing a gate of such a list makes exactly the next gate ready |
| Simulator.Simulator.constructor | braidflash/braidflash.cpp:2206-2321 | setup builds mesh, graph and ready list of the initial state of a run |
| Simulator.Simulator.DoEvent | braidflash/braidflash.cpp:1543-1580 | succeeds exactly when no resource of the braid is taken (open) or another gate's (close); then exactly the braid's owners change, otherwise nothing |
| Simulator.Simulator.Purge | braidflash/braidflash.cpp:1612-1648 | the sweep over rows and columns frees exactly what the gate owns |
| Simulator.Simulator.QueueReadyGates | braidflash/braidflash.cpp:2347-2370 | every ready gate gets its event queue and the ready list is empty |
| Simulator.Simulator.IncrementClock | braidflash/braidflash.cpp:1759-1791 | every running head event counts down; those that reach zero, and no others, leave their queue for the lapsed list |
| Simulator.Simulator.SortLapsed | braidflash/braidflash.cpp:2378-2379 | the lapsed events are a permutation of what they were, and nothing else changes |
| PassRules.PassFollowsRules | braidflash/braidflash.cpp:2380-2479 | whatever state a pass starts in, each failing event is counted once; it is switched, or its gate dropped, if and only if it is due and no failing event before it was; exactly the failed events that were not dropped stay, in their order, with one more attempt |
| PassRules.DropsFirstDue | braidflash/braidflash.cpp:2438-2471 | a pass drops the gate of an event if and only if the event fails with its attempts above the threshold and is the first to do so, and reroutes a cnot3 or cnot5 if and only if the same holds for the other threshold |
| PassRules.PassLeads | braidflash/braidflash.cpp:2380-2479 | the steps of these outcomes, a drop directly after the retry or the switch of its event, lead from the state before the pass to the state after it |
| Simulator.Simulator.Complete | braidflash/braidflash.cpp:2404-2416 | the gate's queue and edges are gone and exactly the successors without another open dependency are ready |
| Simulator.Simulator.FinishEvent | braidflash/braidflash.cpp:2390-2433 | after a successful event its gate is complete or its next event's timer runs |
| Simulator.Simulator.Blocked | braidflash/braidflash.cpp:2436-2453 | a blocked event counts the attempt and is rerouted if it is due and the first in this cycle |
| Simulator.Simulator.DropGate | braidflash/braidflash.cpp:2454-2471 | the gate holds nothing, has no events, and is ready |
| Simulator.Simulator.HandleEvent | braidflash/braidflash.cpp:2382-2478 | one event of the pass: done, or retried, switched if due and none was, dropped if due and none was; the steps added are those of its outcome |
| Simulator.Simulator.DoLapsedEvents | braidflash/braidflash.cpp:2380-2479 | the pass tries every lapsed event once, in order; what it adds to the history is exactly the steps of the outcomes, which follow the rules for switching and dropping, and exactly the events that wait are left |
| Simulator.Simulator.Cycle | braidflash/braidflash.cpp:2332-2479 | one iteration queues, ticks, reorders and handles, in that order, and extends the run |
| Simulator.Simulator.Run | braidflash/braidflash.cpp:2332-2479 | the loop makes whole cycles until its exit condition holds or the limit is reached; if it exits, every gate has completed, the mesh is free and the clock is at least the critical path; on a list in which every gate shares a tile with the next it exits if and only if there is no negative timer and the limit is at least the known number of cycles |
| Arrange.PartitionExact | braidflash/arrange.py:254-297 | for any METIS answer the two parts have exactly the asked sizes and together list every node once |
| Arrange.PartitionFollowsLabels | braidflash/arrange.py:277-297 | if METIS gives its first part the asked size, the parts are returned as they are; otherwise only the last nodes of the part that is too large change sides, and only as many as must |
| Arrange.LabelledExact | braidflash/arrange.py:277-284 | a part holds exactly the nodes with its label, in their order |
| Arrange.BalanceShrinks | braidflash/arrange.py:292-293 | what leaves the first list is its end, appended to the second last element first |
| Arrange.BalanceGrows | braidflash/arrange.py:294-295 | what leaves the second list is its end, appended to the first last element first |
| Arrange.PartsKeepApart | braidflash/arrange.py:224-238 | each part of the nodes is placed in its own part of the rectangle |
| Arrange.BisectHalves | braidflash/arrange.py:224-238 | the longer side is halved, the height of a square, the first part being the smaller one by at most one; the parts meet and the first has as many cells as nodes are asked for |
| Arrange.NoEdges | braidflash/arrange.py:243-251 | with symmetric weights and no node interacting with itself, no edge is counted if and only if no two nodes interact |
| Arrange.PartitionNodes | braidflash/arrange.py:277-297 | the label loop and the two balancing loops compute that partition |
| Arrange.BalanceLists | braidflash/arrange.py:292-295 | the two loops move elements from the end of one list to the end of the other until the first has the asked size |
| Arrange.FullRectanglePlaced | braidflash/arrange.py:177-240 | a node count equal to the area is placed injectively and onto the rectangle, for any METIS answer, and the recursion never reaches the assertion |
| Arrange.FirstCallPlaced | braidflash/arrange.py:209-222 | called from main with room for all nodes, placement terminates, its assertion holds, and every node has its own cell of the rectangle |
| Arrange.FillColumns | braidflash/arrange.py:193-200 | the nested loops give the i-th node the i-th cell, column by column |
| Arrange.FillPlaces | braidflash/arrange.py:193-200 | that gives every node its own cell of the rectangle, and uses every cell if there are as many nodes |
| Arrange.RowMajor | braidflash/arrange.py:24-33 | the scan lists every placed node once, in row-major order of its place |
| Arrange.Renumber | braidflash/arrange.py:309-314 | the i-th listed node gets the number i, and no other node gets one |
| Arrange.Layout | braidflash/arrange.py:16-34 | the new labels are a permutation of the old ones that numbers qubits by their place; no two qubits share a place of the square; every place is the tile of its label on the square, or on the simulator's grid, if and only if the respective condition holds |
| Arrange.TilePlacement | braidflash/braidflash.cpp:2038-2039 | the places are the first tiles of the simulator's grid if and only if there is at most one qubit, or at least three and: if some interact, the grid is the whole square; if none do, at most one of its tiles is free |
| Arrange.FiveMissTheirTiles | braidflash/braidflash.cpp:2038-2039 | five qubits are placed on a square of side 3 and simulated on a grid two tiles wide; the place of label 2 is not its tile there |
| Arrange.CompactPlacement | braidflash/arrange.py:183-222 | the first cells are filled without a gap if and only if there is at most one qubit, or at least three of which some interact or which leave at most one cell free |
| Arrange.FewCompact | braidflash/arrange.py:183-187 | two qubits get opposite corners of the square of side 2, which are not the first cells of either grid |
| Arrange.RowsPlaced | braidflash/arrange.py:209-222 | interacting qubits that do not fill the square fill its first cells, row by row, the first row completely |
| Arrange.FilledCompact | braidflash/arrange.py:193-200 | qubits filled in column by column take the first cells of their grid, counted row by row, if and only if at most one cell is free |
| Arrange.TilesOfCompact | braidflash/arrange.py:309-314 | on a grid of any width, ranks in row-major order are tile numbers of the places if and only if the places are the grid's first cells |
| PointerLists.LinkedAppend | scripts/uthash.h:176-187 | relinking at the tail yields the doubly linked list with the element appended |
| PointerLists.LinkedPush | scripts/uthash.h:611-622 | relinking at the head yields the doubly linked list with the element in front |
| PointerLists.LinkedRemove | scripts/uthash.h:232-242 | patching the neighbours yields the doubly linked list without the element |
| HashTable.ChainsPush | scripts/uthash.h:611-622 | adding at the head of the chain an element hashes to keeps every chain linked, counted and hashed right |
| HashTable.ChainsRemove | scripts/uthash.h:625-635 | so does removing an element from its chain |
| HashTable.DoubledBucket | scripts/uthash.h:686-687 | with twice the buckets a hash value selects its old bucket or the one n above |
| HashTable.AllMoved | scripts/uthash.h:681-700 | after the move the chains are sound, hold the same elements, and each element of bucket i is in bucket i or i + n |
| HashTable.IdealIsCeiling | scripts/uthash.h:677-679 | the ideal chain length is the item count over the doubled bucket count, rounded up |
| HashTable.CountsSelected | scripts/uthash.h:611-622 | a bucket counts the elements whose hash values select it |
| HashTable.MultipliersBound | scripts/uthash.h:647-649 | after a doubling with an ideal length below the threshold every chain is shorter than 10 times one more than its multiplier, the bound that adds and deletes then keep until expansion is given up |
| HashTable.ExcessOfPush | scripts/uthash.h:688-692 | an element moved to a chain is one more in excess exactly if the chain is then longer than the ideal |
| HashTable.Table.Find | scripts/uthash.h:94-105 | returns NULL exactly if no element has the key, otherwise an element with it; without duplicate keys it agrees with the finite map the table stands for |
| HashTable.Table.Add | scripts/uthash.h:173-196 | appends the element under any key and keeps the table valid; adding an absent key updates the finite map at that key only; the first element brings 32 buckets, and later the buckets double if and only if expansion was not given up and the elements whose hash selects this bucket, the new one included, are at least 10 times one more than the bucket's multiplier; the bound on the chains is kept |
| HashTable.Table.Delete | scripts/uthash.h:215-248 | removes the element from the insertion order and its key from the finite map, everything else stays; the last element takes the table with it |
| HashTable.Table.ExpandBuckets | scripts/uthash.h:666-712 | the bucket count doubles, the table stays valid, elements of bucket i are in i or i + n; the elements by which the new chains exceed the ideal length are counted, and each bucket's multiplier says how many times over it is too long; the count of ineffective expansions, and with it giving up, follows |
| HashTable.Table.AddToBucket | scripts/uthash.h:611-622 | the new element is in the chain its hash value selects and the table is valid; the buckets double exactly if that chain was full and expansion not given up |
| HashTable.Table.Fsck | scripts/uthash.h:278-328 | on any table whose forward links form lists, the check accepts exactly those whose back links, chain counts, sum of counts and item count are right |
| HashTable.Table.ValidPassesFsck | scripts/uthash.h:278-328 | every valid table, so every table reached by adds, deletes and sorts, is accepted |
| HashTable.CountsAddUp | scripts/uthash.h:301-308 | the bucket counts of a sound table add up to the number of items |
| HashTable.Table.Sort | scripts/uthash.h:719-804 | the insertion order becomes a permutation of itself, sorted and stable if the comparison is an ordering, with both links, head and tail consistent, and every lookup unchanged |
| HashSort.SortIsStable | scripts/uthash.h:719-804 | bottom-up mergesort returns a permutation that is sorted and keeps the order of equal elements |
| HashSort.SortPermutes | scripts/uthash.h:719-804 | for any comparison at all the result is a permutation |
| HashSort.PassRuns | scripts/uthash.h:729-791 | a pass turns stably sorted runs of length k into stably sorted runs of length 2k |
| HashSort.MergeSorted | scripts/uthash.h:745-789 | merging two stably sorted runs gives a stably sorted run |
| HashSort.StepOver | scripts/uthash.h:735-743 | the stepping loop finds the end and the size of the first run |
| HashSort.MergeRuns | scripts/uthash.h:744-790 | the pointer loop appends the merge of the two runs to the output, links it both ways, and leaves the rest of the list as it was |
| HashSort.SortPass | scripts/uthash.h:729-794 | one pass over the links leaves a well linked list of the merged runs; a single merge was enough exactly when two runs held everything |
| HashSort.MergeSort | scripts/uthash.h:724-801 | the whole loop terminates with a well linked sorted list and the right head and tail |
| Frequency.WeightIsUnrolledCount | scripts/frequency-estimation-hybrid.c:217-281 | multiplying repeat counts along the call tree counts the invocations of the fully unrolled program |
| Frequency.TraceCounts | scripts/frequency-estimation-hybrid.c:217-292 | from any stack, a well-bracketed trace within the depth limit restores the stack and adds to each key its invocations times the enclosing repeat counts; a deeper one ends the program |
| Frequency.EstimateIsUnrolledCount | scripts/frequency-estimation-hybrid.c:217-318 | for every program of nested calls within the limit each key's frequency is its number of invocations with every call unrolled, modulo 2^64, the table lists exactly main and the keys called, and the stack ends as it began |
| Frequency.Estimator.constructor | scripts/frequency-estimation-hybrid.c:297-318 | main is on the stack and in the table, invoked once |
| Frequency.Estimator.AddMemo | scripts/frequency-estimation-hybrid.c:138-161 | a key that is not in the hash table gets an element of its own there, and the memos change at that key only |
| Frequency.Estimator.StackPush | scripts/frequency-estimation-hybrid.c:61-68 | appends to the stack; a full stack ends the program |
| Frequency.Estimator.StackPop | scripts/frequency-estimation-hybrid.c:70-81 | removes the top of the stack; an empty stack ends the program |
| Frequency.Estimator.Accumulate | scripts/frequency-estimation-hybrid.c:246-249 | the product loop multiplies all repeat counts above main, modulo 2^64 |
| Frequency.Estimator.MemoizeCall | scripts/frequency-estimation-hybrid.c:217-281 | on the hash table, is one step of the trace semantics: creates or raises the entry and pushes the repeat count |
| Frequency.Estimator.LeaveScope | scripts/frequency-estimation-hybrid.c:286-292 | is the closing step of the trace semantics |
| Frequency.Estimator.Perform | scripts/frequency-estimation-hybrid.c:217-292 | a whole sequence of memoize and exit_scope calls on the hash table runs as the trace semantics says |
| Frequency.Estimate | scripts/frequency-estimation-hybrid.c:217-318 | for every program of nested calls, the hash table ends with exactly main and the keys called, each with its number of invocations with every call unrolled, modulo 2^64; the program is ended exactly if it nests too deep |
| DeltaDebugging.DeltaReduces | clang/utils/token-delta.py:64-81 | for any test that fails on nothing, the result is part of the input, passes unless nothing was removed, and is 1-minimal |
| DeltaDebugging.SearchReduces | clang/utils/token-delta.py:83-94 | what a search finds passes and is 1-minimal |
| DeltaDebugging.SearchNone | clang/utils/token-delta.py:83-94 | a search that finds nothing has seen every piece, and with more than two pieces every complement, fail |
| DeltaDebugging.SinglesAreMinimal | clang/utils/token-delta.py:76-79 | when no piece can be split further and nothing was found, no single element can be removed |
| DeltaDebugging.Split | clang/utils/token-delta.py:49-62 | one piece, or two halves that concatenate to the input and differ in size by at most one, the second being the larger |
| DeltaDebugging.DeltaAlgorithm.GetTestResult | clang/utils/token-delta.py:21-32 | the answer is the test's own, cached or not, and exactly the failing sets are remembered |
| DeltaDebugging.DeltaAlgorithm.Run | clang/utils/token-delta.py:34-47 | fails exactly if not forced and the initial test fails; an unforced result passes and is 1-minimal; a forced one is reduced likewise unless nothing was removed |
| DeltaDebugging.DeltaAlgorithm.DeltaMethod | clang/utils/token-delta.py:64-81 | with the cache the recursion returns what it returns without it, and terminates by the size of c and that size less the number of sets |
| DeltaDebugging.DeltaAlgorithm.SearchMethod | clang/utils/token-delta.py:83-94 | the same for the search loop |
| Bisection.Bisector.TestPartition | llvm/utils/abtest.py:134-151 | a passing partition becomes known good, a failing one is settled or put in front; every bound announced so far still holds |
| Bisection.Bisector.MaxRemaining | llvm/utils/abtest.py:136-140 | the announced number is the bound for this partition, the upcoming one and all that wait to be split |
| Bisection.Bisector.TestHalves | llvm/utils/abtest.py:159-169 | the first half, rounded down, and the rest are tested in this order; what is known good and what waits to be split afterwards is exactly what the two answers say |
| Bisection.HalvesOwe | llvm/utils/abtest.py:162-164 | splitting a partition into halves leaves the tests it owes, its bad names times its levels, two per bad name lower |
| Bisection.LevelsAreLogarithm | llvm/utils/abtest.py:162-164 | the number of times a partition can be halved is the binary logarithm of its size, rounded up |
| Bisection.Bisector.CheckBisect | llvm/utils/abtest.py:126-171 | every name left out failed on its own; every name kept was in a set that passed; each announced bound is at least the number of tests from there to the end; at most 2n-2 tests; if choices do not interact the result is the set of names that pass alone, found with at most twice as many tests as there are bad names times the rounded-up binary logarithm of n (two if there are none) |
| Bisection.Bisector.CheckSequentially | llvm/utils/abtest.py:111-123 | the names of the entries that pass on their own; this is the set bisection returns when choices do not interact if no later entry of a name hides a side B, as when names are distinct |
| Bisection.ChecksAgree | llvm/utils/abtest.py:111-171 | for every test under which choices do not interact the two checks find the same names, if and only if every entry has the side B of its name's last entry or that last entry has equal sides: a condition on the list of choices alone |
| Bisection.SidesDisagree | llvm/utils/abtest.py:111-132 | otherwise there is a test under which choices do not interact and the two checks differ |
| Bisection.DuplicateNamesDisagree | llvm/utils/abtest.py:111-132 | two entries of one name with different sides B, of which the last matters, are such a list |
| Bisection.OnePick | llvm/utils/abtest.py:131-144 | picking side B for a name gives it side B of its last entry in the all-A selection and changes nothing else |
| CaseFold.Compile | llvm/utils/unicode-case-fold.py:101-123 | succeeds exactly on non-empty strictly increasing tables; the emitted chain returns, for every integer, the table's image or the integer itself; it is the statements of blocks that make up the table, and no division of the table into blocks has fewer |
| CaseFold.DumpBlockTranslates | llvm/utils/unicode-case-fold.py:66-99 | the statements of a block, in each of the four forms, map every listed character to its image, leave all others alone, and let everything above the block fall through |
| CaseFold.AppendBlock | llvm/utils/unicode-case-fold.py:66-99 | a chain for a table followed by a block above it translates both together |
| CaseFold.GreedyIsShortest | llvm/utils/unicode-case-fold.py:101-123 | a division into blocks that starts a new one only when the next mapping does not fit has no more blocks than any other that starts no later |
| FileRemapper.RunKeepsInv | clang/lib/ARCMigrate/FileRemapper.cpp:212-226 | under any sequence of remaps every inverse entry points back along a forward entry, and every installed buffer is the target of exactly one file or was deleted exactly once |
| FileRemapper.SharedReplacementLosesInverse | clang/lib/ARCMigrate/FileRemapper.cpp:220-226 | two originals remapped to one file leave a forward entry without inverse |
| FileRemapper.CompleteUnlessShared | clang/lib/ARCMigrate/FileRemapper.cpp:220-226 | a remap keeps the inverse map complete if and only if no other original already has that replacement |
| FileRemapper.FileRemapper.RemapBuffer | clang/lib/ARCMigrate/FileRemapper.cpp:212-218 | the old target is given up and the buffer becomes the file's target |
| FileRemapper.FileRemapper.RemapFile | clang/lib/ARCMigrate/FileRemapper.cpp:220-226 | the old target is given up, the new file becomes the target, and the inverse entry is set |
| FileRemapper.FileRemapper.GetOriginalFile | clang/lib/ARCMigrate/FileRemapper.cpp:228-242 | a replacement resolves to an original whose forward entry leads back to it, so the assertion holds; anything else resolves to itself |
| FileRemapper.FileRemapper.ResetTarget | clang/lib/ARCMigrate/FileRemapper.cpp:244-254 | a buffer is deleted once more, a file loses its inverse entry |
| FileRemapper.FileRemapper.Clear | clang/lib/ARCMigrate/FileRemapper.cpp:30-35 | both maps end empty, as the assertion demands, and every buffer ever installed was deleted exactly once |

## Left out

- Simulator.Simulator.Run: takes a limit on the number of cycles in place of the STUCK exit, because the source's main loop need not terminate; that it finishes is claimed only for lists in which every gate shares a tile with the next.
- Simulator.Simulator.SortLapsed: the order is arbitrary, because the comparison reads a field that is never set; the priority policies have no effect to state.
- HashTable.Table.Add: keys are abstract values and allocation always succeeds; key bytes, `keylen` and out-of-memory exits are not modelled.
- Widths of unsigned numbers other than the 64-bit frequency counters (owners, attempts, bucket counts, run lengths of the sort).
- Aliasing of C pointers: elements are references into maps of link fields, so writes through a stale pointer are not captured.
- Option parsing, file parsing, printing, visualisation and statistics of the simulator.
- Surface-code, distillation and mesh-utilisation arithmetic: floating point with logarithms and powers; distance and thresholds are parameters.
- Expansion of S and T gates, `find_closest_magic` and the placement of factories: the gate list is the input.
- `update_highest_criticality` and the policies that read it: they influence the sort order only, which is arbitrary here.
- HASH_SELECT, HASH_REPLACE, the Bloom filter and the hash functions themselves: any deterministic hash function is covered.
- The report of the frequency estimator and the packing of arguments into keys.
- The command line, tokenizer and subprocess calls of delta debugging and of the A/B tester, and `check_sanity`.
- Parsing of the case-folding database and the text layout of the generated C++.
- The disk side of the file remapper: initFromDisk, flushToFile, flushToDisk, overwriteOriginal, applyMappings.
- The reading of traces into interaction graphs and the textual rewriting of traces in arrange.py: weights are an oracle, the renumbering is modelled.
- The vendored LLVM, Clang and Scaffold libraries, the algorithms and the rkqc tools.
