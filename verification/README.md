# C11Tester / PCT engine: a verified model

This project models the weak-memory runtime in `pctwm/C11_PCT_PCTWM` and the
assertion runtime beside it, and proves that its fast indexes agree with the
relations they stand for. What the original updates step by step is a class or
method with its loops and field updates, proved against a specification (but for
the allocator's tries, which are rebuilt as values); the theorems are about the
specification and hold for all inputs and all runs.

What is proved, part by part:

- **Modification order** (`Clocks`, `MoGraph`, `MoGraphLaws`, `Propagation`,
  `EdgeSets`, `GraphRuns`, `CycleGraph`, `ModificationOrder`, `MarkedRuns`). For
  one location, over every run of `addEdge`, `addEdges` and `addRMWEdge` whose
  stores come in the order of their threads, the clock comparison of
  `checkReachable` holds exactly when a path exists, in all states, exactly when
  each read-modify-write learnt something from what it read or had no edges to
  take over. In every run that heeds the filter on what a read-modify-write may
  read, its clocks right or wrong, no store is read by two of them, a second one
  would close a cycle, and every state extends to a total modification order
  that puts each read-modify-write right behind what it reads exactly when it is
  acyclic. An edge keeps the graph acyclic exactly when the target does not
  reach the end of the source's chain of read-modify-writes; with that guard
  runs stay acyclic and there is always a store to read. The worklist ends on
  every graph.
- **Loads and stores of a location** (`Coherence`, `Execution`, `RmwGaps`). In
  every run of relaxed, acquire and release loads and stores, a load always
  finds a store to read, the guard accepts exactly the stores that coherence
  allows and makes reachable exactly what they imply (also with the shortcut
  that skips threads whose clock has not moved), and the four coherence axioms,
  acyclicity and exactness of the index hold afterwards. With read-modify-writes
  this can fail; two runs show how.
- **Happens-before** (`HappensBefore`, `ReleaseSequences`). The clock comparison
  is exactly the reflexive-transitive closure of program order, thread creation
  and synchronization. The memoised walk of `get_hb_from_write` computes the
  join over the heads of all release sequences behind a write.
- **Data races** (`RaceDetector`, `RaceRecord`, `ShadowMemory`, `MemoryTrace`,
  `RaceCausality`). Up to its first report the detector reports an access
  exactly when on some byte an earlier conflicting access has not been heard of
  since by the engine's clocks, although it forgets most of the past; the packed
  word, the expanded record and the wide-access shortcut are forms of one state.
- **Indexes and memory** (`ActionTrie`, `LinkedCells`, `ActionList`,
  `HashSlots`, `HashTable`, `Arithmetic`, `TreeBinIndex`, `SizeTrie`,
  `TreeBins`, `LargeMalloc`, `BinaryHeap`, `CandidateQueues`, `BucketQueues`).
  The action list, a radix trie over a doubly linked list, is at all times the
  stable sort of its members. The open-addressing table with backward-shift
  deletion is a finite map. The heap with stale entries selects the greatest
  current score; the tiered queues lose nothing, keep their bounds and fail only
  when empty. The allocator's size tries keep their shape under insert and
  unlink, allocation takes the best fit over all bins, and blocks handed out
  overlap nothing that is free. The bin index is right exactly for the sizes the
  32-bit intermediate value keeps.
- **Scheduling** (`PctOrder`, `PctScheduler`, `WaitGraph`, `LockProtocol`,
  `LockGaps`). The highest available thread runs; at a change point it sinks
  below all others and nothing else moves. No thread waits for itself until the
  step that reports it, but to lock a recursive mutex again; the search that
  reports it ends exactly if no cycle lies ahead that the thread is not on; and
  no thread sleeps at a free mutex as long as owners do the unlocking.
- **Assertions** (`ExprGrammar`, `VerifyRuntime`). Every rendering of a boolean
  expression is read back whole, with its value under the last stored variables.

Where the code falls short of what it seems to promise, the model keeps the code
and a theorem gives the exact condition: see `GraphRuns.RunExactIff`,
`MoGraphLaws.EdgeKeepsAcyclicIff`, `MoGraphLaws.RmwLinkKeepsAcyclicIff`,
`TreeBinIndex.IndexRightIff`, `LockProtocol.Threads.StepUnlock`,
`WaitGraph.SearchEndsIff`, `VerifyRuntime.StoresKeptIff` and
`BucketQueues.MaxHeapBucketQueue.Select`. The runs in `RmwGaps` and `LockGaps`,
`TreeBinIndex.FirstWrongIndex`, `VerifyRuntime.LongNameIsLost` and
`BucketQueues.ThresholdAboveGood` are instances.

## Model

| member | source | states |
|---|---|---|
| Clocks.JoinIsLeastUpperBound | pctwm/C11_PCT_PCTWM/clockvector.cc:44-62 | merging gives the least clock above both |
| Clocks.Merge | pctwm/C11_PCT_PCTWM/clockvector.cc:44-62 | the loop computes the pointwise maximum, zero-extending the shorter vector, and reports a change exactly when the argument knew something new |
| Clocks.NewClock | pctwm/C11_PCT_PCTWM/clockvector.cc:19-31 | the constructor inherits the parent's entries and sets the action's own, for any combination of missing arguments |
| MoGraph.IndexIsExact | pctwm/C11_PCT_PCTWM/cyclegraph.cc:271-274 | the clock comparison between two nodes holds exactly when there is a path between them |
| MoGraph.AcyclicAntisymmetric | pctwm/C11_PCT_PCTWM/cyclegraph.cc:62-95 | in an acyclic graph two stores that reach each other are one |
| MoGraph.ReachWithEdge | pctwm/C11_PCT_PCTWM/cyclegraph.cc:62-95 | exactly which pairs one more edge makes reachable |
| MoGraph.AbsorbedClocks | pctwm/C11_PCT_PCTWM/cyclegraph.cc:81-94 | after propagation every node's clock is joined with the merged clock exactly if the target reaches it |
| MoGraphLaws.NodeKeepsIndex | pctwm/C11_PCT_PCTWM/cyclegraph.cc:46-54 | a node created on first use keeps clocks ordered along edges, every node known to itself and every clock entry attained by an ancestor |
| MoGraphLaws.EdgeKeepsIndex | pctwm/C11_PCT_PCTWM/cyclegraph.cc:62-95 | adding an edge keeps the clocks ordered along edges and every entry attained by a real ancestor |
| MoGraphLaws.EdgeReach | pctwm/C11_PCT_PCTWM/cyclegraph.cc:62-95 | what becomes reachable: exactly what leads from before the end of the source's chain to behind the target |
| MoGraphLaws.EdgeKeepsAcyclicIff | pctwm/C11_PCT_PCTWM/cyclegraph.cc:73-79 | an edge keeps the graph acyclic exactly when the target does not reach the end of the source's chain of read-modify-writes |
| MoGraphLaws.EdgeKeepsRmws | pctwm/C11_PCT_PCTWM/cyclegraph.cc:62-95 | a store that was read by a read-modify-write keeps it as its only successor |
| MoGraphLaws.RmwReach | pctwm/C11_PCT_PCTWM/cyclegraph.cc:109-138 | a new read-modify-write sits right behind the store it reads and leaves reachability among the others unchanged |
| MoGraphLaws.RmwKeepsAcyclic | pctwm/C11_PCT_PCTWM/cyclegraph.cc:109-138 | adding a read-modify-write closes no cycle |
| MoGraphLaws.RmwKeepsRmws | pctwm/C11_PCT_PCTWM/cyclegraph.cc:109-138 | every read-modify-write stays the only successor of what it reads |
| MoGraphLaws.SecondRmwCloses | pctwm/C11_PCT_PCTWM/cyclegraph.cc:109-138 | a second read-modify-write on one store closes a cycle at once |
| MoGraphLaws.RmwLinkKeepsAcyclicIff | pctwm/C11_PCT_PCTWM/cyclegraph.cc:109-138 | `addRMWEdge` keeps the graph acyclic exactly on a store that none has read yet |
| MoGraphLaws.RmwIndexIff | pctwm/C11_PCT_PCTWM/cyclegraph.cc:128-137 | the clocks stay right through the moved edges exactly when the merge changed something or there were none; otherwise the index denies a store that the read-modify-write precedes |
| Propagation.MergeStep | pctwm/C11_PCT_PCTWM/cyclegraph.cc:84-93 | one merge of the worklist, on any graph, keeps the news spreading: clocks grow only behind the target, and no edge gets out of order but those whose source is queued |
| Propagation.MergeUsesHeadroom | pctwm/C11_PCT_PCTWM/cyclegraph.cc:84-93 | and leaves strictly less for the clocks to learn, so the worklist ends on any graph |
| Propagation.SpreadEnds | pctwm/C11_PCT_PCTWM/cyclegraph.cc:84-93 | when it is empty no edge is out of order but those that were, from nodes the news has not changed |
| Propagation.WaveEnds | pctwm/C11_PCT_PCTWM/cyclegraph.cc:84-93 | where the clocks were in order, every node behind the target has then absorbed the news, and nothing else has changed |
| EdgeSets.EdgesKeepIndex | pctwm/C11_PCT_PCTWM/cyclegraph.cc:140-168 | a whole set of edges into one store keeps clocks ordered and attained, all paths, and each read-modify-write the only successor of what it reads |
| EdgeSets.EdgesHold | pctwm/C11_PCT_PCTWM/cyclegraph.cc:140-168 | each requested predecessor, dropped as redundant or not, reaches the store afterwards |
| EdgeSets.EdgesKeepAcyclic | pctwm/C11_PCT_PCTWM/cyclegraph.cc:140-168 | edges into a store that reaches none of their sources close no cycle |
| GraphRuns.NodeKeepsTracked | pctwm/C11_PCT_PCTWM/cyclegraph.cc:46-54 | the first store of a thread to enter the graph leaves the stores of each thread chained, and so the index exact |
| GraphRuns.LinkAllKeepsTracked | pctwm/C11_PCT_PCTWM/cyclegraph.cc:140-168 | a store linked behind predecessors that cover the earlier stores of its thread leaves all threads chained and the clocks right, read-modify-writes or not |
| GraphRuns.RmwExactIff | pctwm/C11_PCT_PCTWM/cyclegraph.cc:109-138 | with a read-modify-write added, `checkReachable` is exact on all pairs exactly when the merge taught it something or there were no edges to move |
| GraphRuns.StepExactIff | pctwm/C11_PCT_PCTWM/cyclegraph.cc:62-204 | one request of any kind leaves the index exact, and its invariant in place, exactly when it is no unrepaired read-modify-write |
| GraphRuns.RunExactIff | pctwm/C11_PCT_PCTWM/cyclegraph.cc:62-204 | over every run of `addEdge`, `addEdges` and `addRMWEdge` from the empty graph, the index is exact in all states exactly when every read-modify-write was repaired |
| GraphRuns.TrackedIsSound | pctwm/C11_PCT_PCTWM/cyclegraph.cc:149-159 | the comparisons that prune a set of predecessors tell the truth |
| MarkedRuns.RunImmediate | pctwm/C11_PCT_PCTWM/cyclegraph.cc:62-138 | in every state of every run, its clocks right or wrong, a store read by a read-modify-write has it as only successor |
| MarkedRuns.NoSecondRmw | pctwm/C11_PCT_PCTWM/execution.cc:1481-1493 | over every run no store is read by two read-modify-writes |
| MarkedRuns.RunOrderableIff | pctwm/C11_PCT_PCTWM/cyclegraph.cc:62-138 | every state of every run extends to a total modification order with each read-modify-write right behind what it reads, exactly when it is acyclic |
| MarkedRuns.GuardedByIndex | pctwm/C11_PCT_PCTWM/cyclegraph.cc:62-79 | where the index is exact, comparing the target with the end of the source's chain tells whether an edge is safe |
| MarkedRuns.SafeKeepsAcyclic | pctwm/C11_PCT_PCTWM/cyclegraph.cc:62-168 | a request whose edges pass that guard closes no cycle, and a single edge that does not pass it does |
| MarkedRuns.SafeRunAcyclic | pctwm/C11_PCT_PCTWM/cyclegraph.cc:62-168 | a run whose edges pass it stays acyclic, read-modify-writes or not |
| MarkedRuns.SomeStoreCanBeRead | pctwm/C11_PCT_PCTWM/execution.cc:412-435 | in every state of such a run, from any store, there is one that a load or read-modify-write may read: whatever must precede it, all edges pass the guard |
| CycleGraph.CycleGraph.IsReachable | pctwm/C11_PCT_PCTWM/cyclegraph.cc:282-291 | answers by the index, and false for an action without a node |
| CycleGraph.CycleGraph.GetNode | pctwm/C11_PCT_PCTWM/cyclegraph.cc:46-54 | finds or creates the node of an action with its initial clock |
| CycleGraph.CycleGraph.AppendEdge | pctwm/C11_PCT_PCTWM/cyclegraph.cc:376-383 | the scan adds the edge unless it is there and touches nothing else |
| CycleGraph.CycleGraph.Propagate | pctwm/C11_PCT_PCTWM/cyclegraph.cc:84-93 | the worklist loop ends on every graph, cyclic or with edges out of clock order; it leaves no edge out of order that it touched, and exactly the flooded clocks where the graph was in order |
| CycleGraph.CycleGraph.AddNodeEdge | pctwm/C11_PCT_PCTWM/cyclegraph.cc:62-95 | on any graph the edge is added at the end of the source's chain unless the index already implies it; its clocks are propagated, rightly where they were right |
| CycleGraph.CycleGraph.AddEdge | pctwm/C11_PCT_PCTWM/cyclegraph.cc:195-204 | the same between actions |
| CycleGraph.CycleGraph.AddRmwEdge | pctwm/C11_PCT_PCTWM/cyclegraph.cc:109-138 | sets the mark unless there is one, moves the out-edges and links the read-modify-write behind the chain; the index is then exact exactly as `RmwExactIff` says |
| CycleGraph.CycleGraph.AddEdges | pctwm/C11_PCT_PCTWM/cyclegraph.cc:140-168 | on any graph, links the members of the set that are kept; where the index is sound, those dropped reach one that is kept |
| CycleGraph.CycleGraph.Prune | pctwm/C11_PCT_PCTWM/cyclegraph.cc:141-163 | the pairwise pruning loop keeps at least one member and, where the index is sound, drops only members covered by others |
| ModificationOrder.OrderableIffAcyclic | pctwm/C11_PCT_PCTWM/cyclegraph.cc:109-138 | a graph whose read-modify-writes are only successors has a total order with each right behind its source exactly when it is acyclic |
| Coherence.CoherenceAxioms | pctwm/C11_PCT_PCTWM/execution.cc:911-1029 | write-write, read-write, read-read and write-read coherence hold in every consistent state |
| Coherence.CheckReachableExact | pctwm/C11_PCT_PCTWM/cyclegraph.cc:271-274 | in every state of a run the index is exact on any two stores |
| Coherence.StoreStep | pctwm/C11_PCT_PCTWM/execution.cc:1055-1140 | linking a store behind what happens before it keeps the state coherent, acyclic and exactly indexed |
| Coherence.LoadStep | pctwm/C11_PCT_PCTWM/execution.cc:391-435 | a load whose predecessors are at or before what it reads keeps the state so |
| Coherence.MaximalStoreExists | pctwm/C11_PCT_PCTWM/execution.cc:405-435 | from any store one reaches a store nothing follows |
| Coherence.MaximalIsReadable | pctwm/C11_PCT_PCTWM/execution.cc:405-435 | such a store always passes the guard |
| Coherence.MaximalIsUnread | pctwm/C11_PCT_PCTWM/execution.cc:1481-1493 | no read-modify-write has read such a store, so there is one for the next to read |
| Execution.LocationExecution.RModificationOrder | pctwm/C11_PCT_PCTWM/execution.cc:911-1029 | accepts a store exactly when every access that happens before the load is at or before it, skipping unmoved threads, and returns the stores to order before it, each the source of such an access; a load may go unlisted exactly if the last access of its thread that happens before is a load of the same store |
| Execution.LocationExecution.BuildMayReadFrom | pctwm/C11_PCT_PCTWM/execution.cc:1450-1512 | returns exactly the stores that no later store of their thread hides, less those already read by a read-modify-write when this load is about to update them |
| Execution.LocationExecution.ProcessRead | pctwm/C11_PCT_PCTWM/execution.cc:391-435 | the loop always ends with an accepted store, whatever order candidates are tried in and whatever the load is the start of |
| Execution.LocationExecution.AddPriors | pctwm/C11_PCT_PCTWM/execution.cc:418-420 | all prior stores end up before the one read, exactly what that implies becomes reachable, and the graph stays acyclic and exactly indexed |
| Execution.PriorsAreEnough | pctwm/C11_PCT_PCTWM/execution.cc:945-950 | with threads skipped and one access per thread, the edges make reachable exactly what those of all accesses that happen before would |
| Execution.SkippingChangesNothing | pctwm/C11_PCT_PCTWM/execution.cc:945-950 | two scans that account for all that happens before leave the same reachability, whichever threads they skipped |
| Execution.LocationExecution.WModificationOrder | pctwm/C11_PCT_PCTWM/execution.cc:1055-1140 | gathers only stores observed by accesses that happen before the store, and per thread what covers all of them |
| Execution.LocationExecution.AddToLists | pctwm/C11_PCT_PCTWM/execution.cc:1211-1240 | the access joins its thread's lists in order, unless it can be pruned |
| Execution.LocationExecution.Load | pctwm/C11_PCT_PCTWM/execution.cc:391-435 | a load reads a readable store and the next state is consistent; what becomes reachable is exactly that all the accesses which happen before it observed precedes the store read; it is listed unless the last of its thread that happens before it read the same store |
| Execution.LocationExecution.Store | pctwm/C11_PCT_PCTWM/execution.cc:584-588 | a store ends behind exactly what the accesses that happen before it observed, nothing else becomes ordered, and the next state is consistent; it is listed last of its thread |
| Execution.StoreReach | pctwm/C11_PCT_PCTWM/execution.cc:1055-1140 | the edges gathered for a store make reachable exactly that store from what the accesses that happen before it observed |
| RmwGaps.UnseenSuccessor | pctwm/C11_PCT_PCTWM/cyclegraph.cc:128-137 | a run of `addEdge` and `addRMWEdge`, sound until the last step, after which a read-modify-write precedes a store and the index denies it |
| RmwGaps.CycleBehindRmw | pctwm/C11_PCT_PCTWM/execution.cc:1000-1017 | a run of `addRMWEdge` and two `addEdge`, sound until the last step, whose guard passes and whose edge closes a cycle |
| HappensBefore.ProgramOrder | pctwm/C11_PCT_PCTWM/execution.cc:1408-1414 | actions of one thread are ordered as they were created |
| HappensBefore.HbIffWay | pctwm/C11_PCT_PCTWM/execution.cc:1408-1414 | the closure over next actions of a thread is that over all earlier ones, creators and synchronizations |
| HappensBefore.HappensBeforeIsHb | pctwm/C11_PCT_PCTWM/action.cc:665-668 | the clock test holds exactly when the action is or precedes the other by the edges of program order, creation and synchronization |
| HappensBefore.ClockOrderIsHb | pctwm/C11_PCT_PCTWM/clockvector.cc:19-62 | clocks are ordered pointwise exactly as the actions are |
| HappensBefore.CreatedOk | pctwm/C11_PCT_PCTWM/action.cc:559-565 | a new action's clock is exact |
| HappensBefore.SyncedOk | pctwm/C11_PCT_PCTWM/action.cc:646-652 | and stays exact when it synchronizes |
| HappensBefore.ActionTrace.GetParentAction | pctwm/C11_PCT_PCTWM/execution.cc:1408-1414 | the last action of the thread, or the one that created it |
| HappensBefore.ActionTrace.Create | pctwm/C11_PCT_PCTWM/execution.cc:717-719 | creating an action keeps all clocks exact |
| HappensBefore.ActionTrace.Synchronize | pctwm/C11_PCT_PCTWM/execution.cc:766-773 | synchronizing the current action with an earlier one keeps the clocks exact and changes nothing else of the trace |
| HappensBefore.ActionTrace.HappensBefore | pctwm/C11_PCT_PCTWM/action.cc:665-668 | true exactly when a way through the trace leads from one action to the other, each step to a later action of the same thread, from the creator to the first action of its thread, or to an action that synchronized |
| ReleaseSequences.HbFromWriteIsLeastUpperBound | pctwm/C11_PCT_PCTWM/execution.cc:1150-1202 | what a reader inherits is the least clock above the clock of every releasing write behind the value and, for the other writes, of the last release fence of their threads |
| ReleaseSequences.InheritedByOrder | pctwm/C11_PCT_PCTWM/execution.cc:1168-1194 | a reader of a plain store inherits its clock if it releases, else that of the last release fence, else nothing; from a read-modify-write also what readers of the write before inherit |
| ReleaseSequences.WriteAction.Rmw | pctwm/C11_PCT_PCTWM/execution.cc:740-751 | a read-modify-write that acquires covers what it read, so its own clock may stand for the chain; any other keeps its clock |
| ReleaseSequences.WriteAction.GetHbFromWrite | pctwm/C11_PCT_PCTWM/execution.cc:1150-1202 | the walk ends, returns that least clock, and every cached clock stays right |
| ReleaseSequences.WriteAction.CollectUncached | pctwm/C11_PCT_PCTWM/execution.cc:1152-1159 | the first loop stops at a plain store, an acquiring and releasing one or a cached one |
| ReleaseSequences.WriteAction.Contribute | pctwm/C11_PCT_PCTWM/execution.cc:1165-1194 | each case of the second loop turns what precedes a write into what it gives its readers |
| RaceDetector.StillNeededMembers | pctwm/C11_PCT_PCTWM/datarace.cc:478-499 | the reads kept are exactly those the new read does not subsume |
| RaceDetector.RecordedRemembers | pctwm/C11_PCT_PCTWM/datarace.cc:230-526 | after any trace the record holds the last write, not marked atomic, and for every later read one that covers it |
| RaceDetector.ReportsExactly | pctwm/C11_PCT_PCTWM/datarace.cc:128-132 | up to the first race the detector reports an access exactly when it races with an earlier one |
| RaceDetector.SilentIffRaceFree | pctwm/C11_PCT_PCTWM/datarace.cc:128-132 | a trace draws no report exactly when it has no race |
| RaceRecord.PowerOfTwo | pctwm/C11_PCT_PCTWM/datarace.cc:501-501 | the population-count test holds exactly at the sizes where the arrays are full |
| RaceRecord.RoomForOneMore | pctwm/C11_PCT_PCTWM/datarace.cc:501-517 | though capacity is not stored, the entry written next always fits |
| RaceRecord.RaceRecord.constructor | pctwm/C11_PCT_PCTWM/datarace.cc:138-164 | expansion keeps what the packed word said |
| RaceRecord.RaceRecord.FullRaceCheckWrite | pctwm/C11_PCT_PCTWM/datarace.cc:230-270 | verdict and new record of a write |
| RaceRecord.RaceRecord.FullRaceCheckRead | pctwm/C11_PCT_PCTWM/datarace.cc:462-526 | verdict and new record of a read, compacting in place within the arrays |
| RaceRecord.Compact | pctwm/C11_PCT_PCTWM/datarace.cc:478-499 | the in-place loop leaves exactly the reads still needed, in order |
| ShadowMemory.DecodeEncode | pctwm/C11_PCT_PCTWM/datarace.h:89-117 | fields in range survive packing |
| ShadowMemory.EncodeDecode | pctwm/C11_PCT_PCTWM/datarace.h:89-117 | every packed word is the packing of its fields |
| ShadowMemory.ReadWordLayout | pctwm/C11_PCT_PCTWM/datarace.h:91-116 | a read goes to the low half of the packed word, at its places, and leaves the high half |
| ShadowMemory.ReadWordView | pctwm/C11_PCT_PCTWM/datarace.cc:591-660 | a read on the packed word does to the record what a read on the expanded one does |
| ShadowMemory.WriteWordView | pctwm/C11_PCT_PCTWM/datarace.cc:849-919 | likewise for a write |
| ShadowMemory.CheckedSame | pctwm/C11_PCT_PCTWM/datarace.cc:738-766 | a byte holding the first byte's old word may take its new word unchecked |
| ShadowMemory.ShadowMemory.ExpandRecord | pctwm/C11_PCT_PCTWM/datarace.cc:138-164 | expanding an entry changes no byte's record |
| ShadowMemory.ShadowMemory.CheckRead | pctwm/C11_PCT_PCTWM/datarace.cc:591-725 | one byte's read check: verdict and record are the detector's in every form; a word stays packed exactly if thread and clock fit and the recorded read is subsumed, and only its low half changes |
| ShadowMemory.ShadowMemory.CheckWrite | pctwm/C11_PCT_PCTWM/datarace.cc:849-986 | one byte's write check, likewise; a word stays packed exactly if thread and clock fit |
| ShadowMemory.ShadowMemory.CheckReadWide | pctwm/C11_PCT_PCTWM/datarace.cc:727-835 | the 16-, 32- and 64-bit reads leave the shadow of byte-by-byte checks and report if any byte races |
| ShadowMemory.ShadowMemory.CheckWriteWide | pctwm/C11_PCT_PCTWM/datarace.cc:988-1096 | so do the writes |
| MemoryTrace.ByteRecorded | pctwm/C11_PCT_PCTWM/datarace.cc:58-73 | in a run of accesses of any widths each byte's record is the one its own accesses leave |
| MemoryTrace.AccessReportedIff | pctwm/C11_PCT_PCTWM/datarace.cc:727-779 | up to the first race an access is reported exactly when it races on some byte it touches |
| RaceCausality.OrderedIsHeardSince | pctwm/C11_PCT_PCTWM/datarace.cc:128-132 | the detector's clock test means that the other thread has heard of a later action |
| RaceCausality.ClocksAreCausal | pctwm/C11_PCT_PCTWM/execution.cc:1421-1425 | the engine's clocks have the properties the detector relies on |
| RaceCausality.ReportsUnheardConflicts | pctwm/C11_PCT_PCTWM/datarace.cc:128-132 | a report is given, before any other, exactly for a conflicting access not ordered by happens-before |
| RaceCausality.ReportsUnheardAccesses | pctwm/C11_PCT_PCTWM/datarace.cc:128-132 | over all of memory and accesses of any width: up to its first report an access is reported exactly when on some byte it conflicts with an earlier one that has not been heard of since |
| HashSlots.ProbeEnds | pctwm/C11_PCT_PCTWM/hashtable.h:187-208 | a probe meets an empty slot before it comes round |
| HashSlots.ProbeMisses | pctwm/C11_PCT_PCTWM/hashtable.h:236-251 | an empty slot on the way means the key is absent |
| HashSlots.PlaceThere | pctwm/C11_PCT_PCTWM/hashtable.h:210-217 | placing a key there keeps every key findable |
| HashSlots.StaysIff | pctwm/C11_PCT_PCTWM/hashtable.h:304-310 | the code's wrap-around test says exactly that the hole is not on the key's way |
| HashSlots.ShiftingMoves | pctwm/C11_PCT_PCTWM/hashtable.h:313-315 | moving a key back leaves only the new hole to mend |
| HashSlots.ShiftingEnds | pctwm/C11_PCT_PCTWM/hashtable.h:300-302 | at an empty slot every remaining key is findable again |
| HashTable.HashTable.Probe | pctwm/C11_PCT_PCTWM/hashtable.h:187-208 | the probe loop ends at the key or an empty slot |
| HashTable.HashTable.Get | pctwm/C11_PCT_PCTWM/hashtable.h:225-252 | the value in the map, or 0 |
| HashTable.HashTable.Contains | pctwm/C11_PCT_PCTWM/hashtable.h:337-358 | membership in the map |
| HashTable.HashTable.Put | pctwm/C11_PCT_PCTWM/hashtable.h:169-218 | updates the map, doubling the table first exactly when more keys than the threshold are in it |
| HashTable.HashTable.Remove | pctwm/C11_PCT_PCTWM/hashtable.h:259-322 | removes from the map and returns the old value, or 0 |
| HashTable.HashTable.CloseHole | pctwm/C11_PCT_PCTWM/hashtable.h:291-316 | the shifting loops end and keep every other pair |
| HashTable.HashTable.Resize | pctwm/C11_PCT_PCTWM/hashtable.h:364-401 | re-insertion keeps the map |
| ActionTrie.FindPrev | pctwm/C11_PCT_PCTWM/actionlist.cc:33-88 | climbing and then descending, finds the greatest clock with a leaf below the given one, or none if there is none |
| ActionTrie.PathNodeShape | pctwm/C11_PCT_PCTWM/actionlist.cc:145-150 | a node created on the way to a clock is the only one that may be empty |
| ActionTrie.PathNodeCounts | pctwm/C11_PCT_PCTWM/actionlist.cc:145-150 | and the child counts stay right |
| ActionTrie.WithLeafOk | pctwm/C11_PCT_PCTWM/actionlist.cc:127-130 | with the leaf in place no node below the root is empty and every count is right |
| ActionTrie.DecrementCount | pctwm/C11_PCT_PCTWM/actionlist.cc:157-171 | after a leaf goes, exactly the nodes left empty go, and every count is right again |
| ActionTrie.EmptyIffNoChildren | pctwm/C11_PCT_PCTWM/actionlist.cc:246-248 | the root has no children exactly when there are no leaves |
| LinkedCells.SplicedValues | pctwm/C11_PCT_PCTWM/actionlist.cc:104-126 | the pointer updates of an insertion put the new action at its place, read forward and backward |
| LinkedCells.UnlinkedValues | pctwm/C11_PCT_PCTWM/actionlist.cc:194-205 | those of a removal take out just that cell |
| ActionList.InsertAllIsStableSort | pctwm/C11_PCT_PCTWM/actionlist.cc:90-155 | a run of insertions sorts the actions by clock and keeps equal clocks in order of insertion |
| ActionList.InsertPlace | pctwm/C11_PCT_PCTWM/actionlist.cc:103-106 | behind the last cell of the greatest clock not above is where the action belongs |
| ActionList.RemoveSplit | pctwm/C11_PCT_PCTWM/actionlist.cc:189-222 | what removal leaves is the list without the last occurrence |
| ActionList.ActionList.AddAction | pctwm/C11_PCT_PCTWM/actionlist.cc:90-155 | the list becomes the stable insertion of the action; each leaf is the last cell of its clock |
| ActionList.ActionList.RemoveAction | pctwm/C11_PCT_PCTWM/actionlist.cc:173-225 | the last occurrence of the action goes, if there is one, and nothing else |
| ActionList.ActionList.WalkBack | pctwm/C11_PCT_PCTWM/actionlist.cc:191-222 | the backward walk over one clock finds the last cell that holds the action |
| ActionList.ActionList.IsEmpty | pctwm/C11_PCT_PCTWM/actionlist.cc:246-248 | the root's count tells whether the list is empty |
| BinaryHeap.Push | datastructs/max_heap.hpp:34-41 | keeps the heap order and adds the item |
| BinaryHeap.Pop | datastructs/max_heap.hpp:48-51 | removes an item that none other precedes and keeps the heap order |
| CandidateQueues.MaxHeapQueue.Insert | datastructs/max_heap.hpp:34-41 | sets the candidate's score in the map |
| CandidateQueues.MaxHeapQueue.Select | datastructs/max_heap.hpp:43-65 | despite stale heap entries, removes the candidate with the greatest current score, the greatest id among equals, and fails exactly when there is none |
| CandidateQueues.Admit | datastructs/structure2.hpp:53-70 | the runner-up tier stays sorted and bounded, nothing is lost, the bad pile stays below it, and a full tier gives up its lowest for a better item only |
| CandidateQueues.RunnerUpQueue.Insert | datastructs/structure2.hpp:32-51 | adds the item, to a full good pile only in the place of a lower one, keeps the bounds, and keeps the tiers in order until the first selection |
| CandidateQueues.RunnerUpQueue.Select | datastructs/structure2.hpp:72-110 | takes the last of the good pile, which the best runner-up joins; from the bad pile it takes one that nothing left there exceeds; it fails only when empty |
| CandidateQueues.TopSplit | datastructs/structure1.hpp:14-34 | splits off the best items, losing none |
| BucketQueues.ThresholdBucketQueue.Insert | datastructs/structure1.hpp:67-91 | adds the item, to a full good pile only in the place of its lowest, keeps the bound, and keeps the good pile above the bad one until the first selection |
| BucketQueues.ThresholdBucketQueue.Select | datastructs/structure1.hpp:93-113 | takes the last of the good pile, one of the best if only insertions came before, and fails only on an empty queue |
| BucketQueues.ThresholdBucketQueue.Rebuild | datastructs/structure1.hpp:119-143 | afterwards the good pile is the best `m`, and nothing is lost |
| BucketQueues.ThresholdBucketQueue.CountOperation | datastructs/structure1.hpp:87-90 | a rebuild comes just when `T` operations have passed |
| BucketQueues.MaxHeapBucketQueue.Insert | datastructs/structure3.hpp:34-62 | adds the item, to a full good pile in the place of its last exactly if it is above the threshold; the threshold stays a lower bound of the good pile exactly when the pile was full or filling, or the score reaches it |
| BucketQueues.MaxHeapBucketQueue.Select | datastructs/structure3.hpp:84-135 | removes the best of the good pile, fails only on an empty queue, and keeps the threshold a lower bound exactly when no runner-up below it comes in |
| BucketQueues.ThresholdAboveGood | datastructs/structure3.hpp:84-135 | two insertions and a selection that leave the threshold above the good pile |
| BucketQueues.Promote | datastructs/structure3.hpp:127-132 | the best runner-up joins the good pile, nothing is lost, and the threshold stays a lower bound exactly when that one is not below it |
| TreeBinIndex.BinsAreOrdered | pctwm/C11_PCT_PCTWM/malloc.c:2895-2897 | a lower bin holds smaller sizes |
| TreeBinIndex.IndexRightIff | pctwm/C11_PCT_PCTWM/malloc.c:2822-2834 | the index is the bin of the size exactly when the size is below 2^40 or its truncation still falls in the last bin |
| TreeBinIndex.FirstWrongIndex | pctwm/C11_PCT_PCTWM/malloc.c:2822-2834 | the first wrong index is that of 2^40, which goes to the bin of the smallest sizes |
| SizeTrie.BitsStep | pctwm/C11_PCT_PCTWM/malloc.c:3640-3646 | the top bit of the shifted size says in which half of the range the size lies |
| SizeTrie.InsertKeepsTrie | pctwm/C11_PCT_PCTWM/malloc.c:3625-3674 | insertion keeps the trie's ranges and one node per size |
| SizeTrie.InsertHolds | pctwm/C11_PCT_PCTWM/malloc.c:3625-3674 | and adds exactly the chunk |
| SizeTrie.PopLeafKeepsTrie | pctwm/C11_PCT_PCTWM/malloc.c:3709-3720 | taking the last leaf keeps the trie, and its size occurs nowhere else |
| SizeTrie.ReplacementKeepsTrie | pctwm/C11_PCT_PCTWM/malloc.c:3723-3760 | a leaf can stand in for any node above it |
| SizeTrie.UnlinkKeepsTrie | pctwm/C11_PCT_PCTWM/malloc.c:3693-3762 | unlinking keeps the trie |
| SizeTrie.UnlinkHolds | pctwm/C11_PCT_PCTWM/malloc.c:3693-3762 | and removes exactly the chunk |
| TreeBins.StartBitsAt | pctwm/C11_PCT_PCTWM/malloc.c:2890-2892 | the initial shift drops just the bits common to the bin |
| TreeBins.SmallestOf | pctwm/C11_PCT_PCTWM/malloc.c:4448-4455 | the leftmost path holds the smallest chunk of a subtree |
| TreeBins.FollowBits | pctwm/C11_PCT_PCTWM/malloc.c:4415-4437 | the descent ends on an exact fit or with the subtree that holds the next larger sizes |
| LargeMalloc.MallocState.InsertLargeChunk | pctwm/C11_PCT_PCTWM/malloc.c:3625-3674 | adds the chunk to its bin and marks the map |
| LargeMalloc.MallocState.UnlinkLargeChunk | pctwm/C11_PCT_PCTWM/malloc.c:3693-3762 | removes the chunk and clears the map if the bin empties |
| LargeMalloc.MallocState.FindLarge | pctwm/C11_PCT_PCTWM/malloc.c:4409-4455 | the smallest chunk of sufficient size over all bins, or none |
| LargeMalloc.MallocState.TmallocLarge | pctwm/C11_PCT_PCTWM/malloc.c:4409-4477 | allocates from the best fit, or fails exactly when nothing fits or the designated victim fits at least as well; the block is the first bytes asked for if at least 32 remain, which stay free, and else the whole chunk |
| LargeMalloc.MallocState.TmallocSmall | pctwm/C11_PCT_PCTWM/malloc.c:4480-4515 | allocates a small request from the smallest chunk; a rest of at least 32 bytes becomes the victim and the old victim goes to a small bin |
| LargeMalloc.CarvedOk | pctwm/C11_PCT_PCTWM/malloc.c:4458-4473 | cutting a free chunk leaves free chunks disjoint from each other and from what is handed out |
| LargeMalloc.VictimFitsWorse | pctwm/C11_PCT_PCTWM/malloc.c:4458-4458 | the unsigned comparison means what it should, wrap-around included |
| PctOrder.EmptiedSlot | pctwm/C11_PCT_PCTWM/schedule.cc:262-278 | emptying a thread's slot takes just that thread out of the order |
| PctOrder.WithoutKeepsOthers | pctwm/C11_PCT_PCTWM/schedule.cc:259-285 | lowering one thread changes no other pair |
| PctScheduler.SetChgPts | pctwm/C11_PCT_PCTWM/schedule.cc:83-110 | the change points are distinct, increasing, between 1 and the expected length, and what the first draws give; it fails only when the draws give too few |
| PctScheduler.BubbleSort | pctwm/C11_PCT_PCTWM/schedule.cc:98-106 | the nested loops sort |
| PctScheduler.HighestIsHighest | pctwm/C11_PCT_PCTWM/schedule.cc:223-256 | no available thread has a higher priority than the one found |
| PctScheduler.FirstAvailable | pctwm/C11_PCT_PCTWM/schedule.cc:228-238 | the scan of a row of slots finds the first available thread |
| PctScheduler.Scheduler.AddThread | pctwm/C11_PCT_PCTWM/schedule.cc:180-209 | a new thread takes the slot drawn, above all lowered threads, and leaves the others in order |
| PctScheduler.Scheduler.SetEnabled | pctwm/C11_PCT_PCTWM/schedule.cc:300-313 | sleeping and waking change no priority, and keep the invariant exactly for threads that have one, or are disabled |
| PctScheduler.Scheduler.MoveThread | pctwm/C11_PCT_PCTWM/schedule.cc:259-285 | the thread moves to the very end of the order; no occupied slot is overwritten |
| PctScheduler.Scheduler.FindChgIdx | pctwm/C11_PCT_PCTWM/schedule.cc:164-170 | the index of the change point reached, if any |
| PctScheduler.Scheduler.FindHighest | pctwm/C11_PCT_PCTWM/schedule.cc:223-256 | the highest available thread over both rows, or 0 |
| PctScheduler.Scheduler.SelectNextThread | pctwm/C11_PCT_PCTWM/schedule.cc:455-525 | runs the highest runnable thread and lowers it exactly at change points, everywhere below five times the expected length; at multiples of that and past ten of them the draw decides; with none runnable the draw wakes a sleeper |
| WaitGraph.RankedIsAcyclic | pctwm/C11_PCT_PCTWM/threads.cc:523-537 | with ranks along waiting edges a chain of blocked threads leads back to where it began only by locking a recursive mutex again |
| WaitGraph.WaitsIffChain | pctwm/C11_PCT_PCTWM/threads.cc:523-561 | following the waiting thread by thread finds exactly the chains of threads that join the next or lock a mutex the next owns |
| WaitGraph.IsWaitingOnItself | pctwm/C11_PCT_PCTWM/threads.cc:546-561 | wherever the search ends, it tells exactly whether a chain of threads, each joining the next or locking a mutex the next owns, leads back to the thread, a relock aside |
| WaitGraph.SearchEndsIff | pctwm/C11_PCT_PCTWM/threads.cc:557-559 | the search for a cycle ends exactly if the thread waits for itself or nobody that it waits for does |
| WaitGraph.RankedSearchEndsIff | pctwm/C11_PCT_PCTWM/threads.cc:546-561 | with everyone else ranked it goes on for ever exactly if the chain meets another thread about to lock a recursive mutex again |
| WaitGraph.StashedRank | pctwm/C11_PCT_PCTWM/model.cc:508-511 | an action that closes no cycle leaves the graph acyclic |
| WaitGraph.SinkRank | pctwm/C11_PCT_PCTWM/execution.cc:473-487 | a running thread may become the owner others wait for |
| LockProtocol.Threads.Stash | pctwm/C11_PCT_PCTWM/model.cc:484-511 | a deadlock is reported exactly when a chain of threads, each with a stashed join of the next or a lock of a mutex the next owns, leads back to the thread, but not just to lock a recursive mutex again |
| LockProtocol.Threads.CheckAll | pctwm/C11_PCT_PCTWM/model.cc:411-453 | exactly the threads are put to sleep that join an unfinished thread or lock a mutex that is owned, but for a recursive one of their own |
| LockProtocol.Threads.StepLock | pctwm/C11_PCT_PCTWM/execution.cc:472-487 | a lock step runs only on a free mutex, or a recursive one that the thread holds |
| LockProtocol.Threads.StepTryLock | pctwm/C11_PCT_PCTWM/execution.cc:463-487 | a trylock succeeds exactly on a free mutex |
| LockProtocol.Threads.StepUnlock | pctwm/C11_PCT_PCTWM/execution.cc:536-549 | nobody is left asleep for the freed mutex exactly when its owner unlocks it or nobody slept |
| LockProtocol.Threads.StepWait | pctwm/C11_PCT_PCTWM/execution.cc:488-511 | a condition wait frees the mutex, wakes its waiters and sleeps; nobody is left asleep for it exactly when the thread held it or nobody slept |
| LockProtocol.Threads.StepNotify | pctwm/C11_PCT_PCTWM/execution.cc:550-571 | a notification wakes the waiting threads it names |
| LockProtocol.Threads.Rouse | pctwm/C11_PCT_PCTWM/model.cc:541-547 | a woken thread drops its wait |
| LockProtocol.Threads.StepJoin | pctwm/C11_PCT_PCTWM/execution.cc:648-659 | a join step runs only when the other thread has finished |
| LockProtocol.Threads.StepFinish | pctwm/C11_PCT_PCTWM/execution.cc:661-680 | a finishing thread wakes exactly its joiners; the initial thread wakes nobody and ends the execution |
| LockProtocol.Threads.StepCreate | pctwm/C11_PCT_PCTWM/execution.cc:624-647 | a created thread waits for nobody and nobody waits for it |
| LockProtocol.Threads.NobodyStuck | pctwm/C11_PCT_PCTWM/execution.cc:786-822 | in every reachable state nobody waits for itself but to relock, and every sleeper at a lock or join waits for another thread |
| LockGaps.AsleepAtFreeMutex | pctwm/C11_PCT_PCTWM/execution.cc:536-549 | a run of the protocol that leaves a thread asleep at a free mutex, unlocked by a thread that did not hold it |
| LockGaps.RelockGoesRound | pctwm/C11_PCT_PCTWM/threads.cc:550-559 | a run to a state from which one more lock action sends the search round for ever, through a pending relock |
| LockGaps.DeadlockGoesRound | pctwm/C11_PCT_PCTWM/model.cc:508-511 | a run that reports a deadlock, after which the next lock action sends the search round for ever |
| ExprGrammar.ReadBack | pctwm/verify_runtime.cpp:120-152 | any operand is read back as its value, to its end |
| ExprGrammar.ReadChain | pctwm/verify_runtime.cpp:69-118 | a left-associative chain is read back one operand at a time |
| ExprGrammar.RoundTrip | pctwm/verify_runtime.cpp:65-152 | the whole text of any expression, with any spacing, is consumed and gives its value |
| ExprGrammar.OpsSay | pctwm/verify_runtime.cpp:69-118 | what each operator is written as, which operands it takes and what it means |
| ExprGrammar.NameSays | pctwm/verify_runtime.cpp:136-152 | `true` and `1` are true, `false` and `0` false, any other name what was stored, and false if nothing was |
| ExprGrammar.SaidIsRead | pctwm/verify_runtime.cpp:65-152 | a text put together by these rules is consumed whole and gives the value they say |
| ExprGrammar.AndBeforeOr | pctwm/verify_runtime.cpp:69-93 | conjunction binds tighter than disjunction |
| VerifyRuntime.Variables.StoreVar | pctwm/verify_runtime.cpp:19-33 | the scan overwrites the first entry of that name or, cut off at 63 characters, takes the first free one of 64 |
| VerifyRuntime.StoresKeptIff | pctwm/verify_runtime.cpp:10-33 | the table holds the last value stored under each name exactly when there are at most 64 names, of at most 63 characters |
| VerifyRuntime.LongNameIsLost | pctwm/verify_runtime.cpp:19-33 | a value stored under a name of 64 characters is not found again |
| VerifyRuntime.ExprParser.Match | pctwm/verify_runtime.cpp:51-58 | skips spaces and consumes the token exactly if it comes next |
| VerifyRuntime.ExprParser.ParseOr | pctwm/verify_runtime.cpp:69-80 | on any string the method ends within bounds and agrees with the parser function |
| VerifyRuntime.ExprParser.ParseUnary | pctwm/verify_runtime.cpp:120-126 | so does the method for unary operators |
| VerifyRuntime.ExprParser.ParsePrimary | pctwm/verify_runtime.cpp:128-152 | and that for operands |
| VerifyRuntime.VerifyAssert | pctwm/verify_runtime.cpp:159-180 | an assertion on an expression's text gives the expression's value under the values last stored |

## Left out

- The cycle graph's nodes and the clock vectors are values in tables owned by the graph and the lists, not heap objects with shared pointers; `inedges`, `freeAction` and trace pruning (`collectActions`, `computeMinimalCV`, `minmerge`) are not modelled.
- Execution.LocationExecution.Load: covers relaxed, acquire and release loads of one location in runs without read-modify-writes, since the claim fails with them (see `RmwGaps`); sequentially consistent loads, fences as actions and lazily converted non-atomic stores are not modelled. An action's parent clock is any clock the thread may have.
- Execution.LocationExecution.Store: covers relaxed and release stores, not sequentially consistent ones.
- Execution.LocationExecution.RModificationOrder: the cases for sequentially consistent accesses and fences (section 29.3 of C++11) are not modelled.
- Execution.LocationExecution.WModificationOrder: likewise.
- Execution.LocationExecution.BuildMayReadFrom: the filter for sequentially consistent loads is not modelled; values are compared whole, at one size.
- Execution.LocationExecution.ProcessRead: non-atomic stores are not converted to candidates.
- HappensBefore.ActionTrace.Create: reserved clocks for lazily converted stores, which give an action a smaller sequence number than its creation order, are not modelled.
- ReleaseSequences.WriteAction.GetHbFromWrite: an action's own clock and release fence are fixed when it is created as an object, as they are by the time another action reads it.
- RaceDetector.ReportsExactly: non-atomic accesses only; checks against atomic accesses, `recordWrite`, `recordCalloc`, the memory-range checks and the reporting, hashing and deduplication of races are not modelled.
- ShadowMemory.ShadowMemory.CheckReadWide: the chain of labels for the remaining bytes is a loop; the page tables behind the shadow are one map that is zero at first; accesses whose thread's clock is still 0 do not occur, since every thread starts with an action.
- HashTable.HashTable.Put: `capacity << 1` does not overflow; masking with `capacitymask` is the remainder by the capacity, as it is for powers of two; allocation failure and the `reset` variants are not modelled.
- SizeTrie.Insert: the tries are values rebuilt along the path; child and parent pointers updated in place, and the `fd`/`bk` links of a ring, are not captured, and a chunk is found by its size instead of by address.
- LargeMalloc.MallocState.InsertLargeChunk: covers the sizes with a right tree index (see `TreeBinIndex.IndexRightIff`); any other goes to a bin whose searches miss it.
- LargeMalloc.MallocState.FindLarge: covers requests of such sizes; for any other the search starts from the wrong bin.
- LargeMalloc.MallocState.TmallocLarge: the request and what is left of the chunk must have a right tree index (see `TreeBinIndex.IndexRightIff`), as must a chunk that is inserted; in-use bits, footers, small bins as lists, the top chunk and `RTCHECK` failures are not modelled; a bin map is a set of indices, so the bit tricks that isolate its least bit are not.
- PctScheduler.Scheduler.AddThread: the copy of the old priorities is taken as intended, although the source copies into a vector it never resizes; random draws are parameters, and drawing change points ends with no result when the given draws run out.
- PctScheduler.Scheduler.SelectNextThread: paused threads are not modelled.
- LockProtocol.Threads.Stash: covers the actions for which the search for a deadlock ends (see `WaitGraph.RankedSearchEndsIff`); with the others the original goes on for ever.
- LockProtocol.Threads.StepWait: timed waits, waits that fail spuriously and sleeping threads are not modelled.
- VerifyRuntime.Variables.StoreVar: strings hold no NUL; a name of more than 63 characters is stored truncated and never found again, as in the source.
- ActionTrie.FindPrev: trie nodes are named by level and prefix in tables, so parent pointers, `fixupParent` and freeing memory are not captured; the search index is represented by its bits at and above the current shift, those below being all ones.
- ActionList.ActionList.AddAction: list cells are records in a table named by numbers, not heap objects; clocks are below 2^32.
- CandidateQueues.RunnerUpQueue.Select: scores are real numbers, so NaN and rounding are not modelled, a good pile has room for at least one item (in all the bucket queues), and the library's heap and selection algorithms are written out.
- The fuzzer's choices are parameters or arbitrary.
- Thread contexts, snapshots, output, option parsing, plotting and the experiment scripts are not part of this model.
