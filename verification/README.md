# Verified model of the Dynamo-style key-value store

This project models four parts of the Go program and proves what they guarantee over all
runs: Ricart-Agrawala mutual exclusion with the replicated write it protects, the wait-for-graph
deadlock manager, the consistent hash ring with its partition manager, and the bully election.

Classes (`Nodes.Node`, `DagManager.DagManager`, `ConsistentHash.ConsistentHash`,
`PartitionManager.PartitionManager`, `BullyElection.BullyElection`) carry the fields and loops of
the Go structs. Each method is proved against functions on values, and the theorems about
protocols and histories are stated about those functions. The deadlock manager and the ring keep
a ghost history, so that theorems about all sequences of operations apply to the objects. A round
of the election manager is proved to be a sequence of steps of the election protocol, the
requester's two ways into the critical section are the two entry steps of the mutual-exclusion
protocol, and the section of a `MutexPut` has the effect of the replication model's events.

## The pieces

- **Mutual exclusion** (`RequestState`, `RicartAgrawala`, `MutualExclusion`, `RequestOrder`,
  `WeakestEntry`, `Hypotheses`, `NodeSteps`). A transition system over any finite set of nodes. Clock
  update and decision of the `RequestCS` handler are two steps; raising the flag and taking the timestamp are one; release
  clears flag and queue in one. Messages stay available for ever, which covers delay, loss,
  duplication and stale arrival. The "deferred reply", which the program sends as another
  `RequestCS` call with a fresh timestamp, is in the model: it can be queued like a request, and
  its answer is ignored. `Tick` and `Observe` stand for every other clock change (heartbeats,
  puts, release notifications, client timestamps).
- **What is assumed and what is not.** A node has at most one outstanding request (`Begin` needs
  an idle node), because the program does not serialise two local callers. Entry on timeout and
  counting a silent node as dead are governed by `Rules`. `wait` says what a timeout entry has
  waited for: nothing; the releases of the live nodes known to have deferred the request; everybody,
  which means that every other live node has granted the request, or has deferred it and released
  since, whether or not its answer has been received; or only that no other live node is ahead any
  more. `accurate` lets only crashed nodes be counted. `Hypotheses.SafeIff` shows that exclusion holds
  exactly when entry waits for one of the last two and `accurate` is in force (or there is at most
  one node); waiting for the known deferrers alone is not enough, as `BothOnTimeout` shows.
- **The weakest condition.** `WeakestEntry.EntrySafeIff` needs neither rule: a single entry, by count or
  on timeout, is safe for all that can follow exactly when no other live node has a request that
  precedes the entering one or could still make one. Both hypotheses imply this condition. Grants,
  queues, the order of requests and the absence of deadlock hold without any hypothesis.
- **Replicated writes** (`Replication`, `MutexPut`, `PutProgress`). `MutexPut` as events on top of the
  protocol: local store, one replica at a time, release. No node crashes, replication calls succeed, and all writes go
  through `MutexPut`. Where keys live is a parameter; `RingIsWellPlaced` shows that the ring fits it.
- **Deadlock manager** (`WaitForGraph`, `DagState`, `DagHistory`, `DagManager`). Depth-first search with the
  shared `visited` and `recStack` maps, for any iteration order of the Go maps. "Blocked" means
  being a key of `waitingFor`.
- **Hash ring** (`Ring`, `RingTheorems`, `Labels`, `ConsistentHash`, `PartitionManager`). The hash is any
  function to 64-bit values; absence of collisions among labels is assumed only where stated.
  With the program's own labels it means exactly that the hash tells the finitely many labels of
  the nodes concerned apart (`Labels.OnlyTheHashCollides`).
- **Election** (`Bully`, `BullyElection`). A fixed set of live nodes. `acked` is the hypothesis that an
  election of a node with live higher nodes ends only after at least one of them has acknowledged.
  Late heartbeat replies and late further acknowledgements do no harm.

## Where the code differs from its description

- `RequestCriticalSection` always ends in entry (the timeout branch returns true), so the
  "failed to acquire" reply of `MutexPut` cannot occur.
- Handling an `ELECTION` message only logs that an own election will start; none is started.
- With partitioning enabled and an empty ring, `IsOwner` answers true for everybody and
  `IsPrimaryOwner` singles out node 1, as if partitioning were off. `SwitchOnAfterSetUp` shows that
  switching partitioning on after set-up gives such a ring exactly when it was off during set-up or
  no node is configured.
- A node that already waits and asks for a second resource with another holder leaves the
  wait-for graph wrong: `SecondWaitMakesFalseDeadlock` gives the scenario and
  `ExactIffDisciplined` the exact condition.
- Adding and removing a node is not a round trip when labels collide: `RemoveUndoesAdd` gives the
  exact condition, and `RoundTripLost` a case in which another node loses its only position.

## Model

| member | source | states |
|---|---|---|
| `MutualExclusion.ExclusionAlways` | mutex/ricart_agrawala.go:30-121 | in every interleaving with any number of nodes, delays, losses, duplicates and crashes, two live nodes are never both between entry and release, if at a timeout entry every other live node has sent a grant, or a deferral and released since, or is just not ahead any more, and only crashed nodes count as dead |
| `MutualExclusion.CarefulRunsExclude` | mutex/ricart_agrawala.go:30-167 | with no hypothesis on timing or failures, exclusion holds in every run whose entries are made with no other live node ahead |
| `WeakestEntry.EntrySafeIff` | mutex/ricart_agrawala.go:104-166 | an entry, by count or on timeout, is safe for every careful continuation if and only if no other live node has, or can still make, a request that precedes the entering one |
| `WeakestEntry.NodeAheadGetsIn` | mutex/ricart_agrawala.go:104-166 | otherwise a node that is ahead can be led in too, by steps that all hypotheses allow |
| `Hypotheses.SafeIff` | mutex/ricart_agrawala.go:87-167 | of the eight combinations of what a timeout entry waits for and whom it may count as dead, mutual exclusion holds in all runs exactly for those that wait for everybody, or for nobody being ahead, and count only crashed nodes; or with at most one node |
| `Hypotheses.BothOnTimeout` | mutex/ricart_agrawala.go:161-166 | for any two nodes, forced entry that waits for nothing, or only for the releases of the nodes known to have deferred, has a run with both inside, even if only crashed nodes count as dead |
| `Hypotheses.BothByCount` | mutex/ricart_agrawala.go:141-149 | for any two nodes, counting a slow node as dead has a run with both inside |
| `MutualExclusion.NoMutualGrants` | node/rpc_handlers.go:332-370 | two outstanding requests never hold each other's grant, with no assumption on timing, failures or stale and spurious messages |
| `MutualExclusion.QueuesAlways` | mutex/ricart_agrawala.go:170-219 | in every reachable state a nonempty queue belongs to an outstanding request and holds only later requests, and deferrals = queued + started + sent deferred replies for each target |
| `MutualExclusion.RepliesAreCalls` | mutex/ricart_agrawala.go:176-213 | for every pair of nodes, all deferrals so far are queued, or their reply has been started, or it is on the network as one call of its own under a timestamp of its own |
| `MutualExclusion.InvAlways` | node/rpc_handlers.go:332-370 | the protocol invariants hold in every reachable state under any rules |
| `MutualExclusion.StrictAlways` | mutex/ricart_agrawala.go:30-194 | under both hypotheses, in every reachable state no live node is ahead of one that is inside, and only crashed nodes are counted as dead |
| `MutualExclusion.ClearedAlways` | mutex/ricart_agrawala.go:30-194 | under both hypotheses, whoever is inside has been cleared by every other live node in every reachable state |
| `MutualExclusion.ClearedOrders` | node/rpc_handlers.go:343-355 | a node that granted, or deferred and released since, has only later requests of its own and will make only later ones |
| `MutualExclusion.CountMeansAll` | mutex/ricart_agrawala.go:95-110 | the counts reach the expected number exactly when every other node granted or is counted dead |
| `RequestOrder.EveryWaiterGetsIn` | mutex/ricart_agrawala.go:30-194 | no deadlock and no lockout: from every state that any run reaches, with or without hypotheses, every live node that waits can be led into its section on the request it has, by steps that all hypotheses allow, with no crash, no new request and no call handled again |
| `RequestOrder.LeastGetsIn` | mutex/ricart_agrawala.go:30-167 | the live node with the least request gets in by such steps while nobody else moves |
| `RequestOrder.GrantsLetIn` | mutex/ricart_agrawala.go:58-110 | when every other node has sent a grant or crashed, receiving the answers and counting the deaths leads to entry by count, without anybody else moving |
| `RequestOrder.ArrivedIsHandled` | node/rpc_handlers.go:332-370 | a request that has arrived is between its clock update and its decision, or has been answered |
| `RequestOrder.NoCircularDeferral` | node/rpc_handlers.go:343-355 | in every reachable state each nonempty group of nodes has a member held up by no member |
| `RequestOrder.LaterRequestsLose` | node/node.go:160-169 | once a node has answered a request, every later request of that node comes after it |
| `RequestOrder.OvertakenAtMostOnce` | node/rpc_handlers.go:332-370 | while a request waits, a node that has answered it cannot be inside on a newer request |
| `RequestOrder.LaterRequests` | node/node.go:152-169 | clocks never go back and a new request is newer than any earlier clock of its node |
| `RequestState.ShouldDefer` | node/rpc_handlers.go:341-355 | the nested comparisons defer exactly the requests lexicographically after one's own outstanding one |
| `RequestState.QueueInvariantKept` | node/rpc_handlers.go:343-362 | each locked section keeps the queue invariant |
| `Replication.ReplicasAgree` | node/rpc_handlers.go:411-420 | whenever nobody is inside, every holder of every key holds the item of the last completed `MutexPut` |
| `Replication.ReplicasMidSection` | node/rpc_handlers.go:411-420 | during a section the reached holders have the new item, all other holders and keys the last completed one |
| `Replication.ClusterInvAlways` | node/rpc_handlers.go:398-433 | the replication invariant holds after every possible sequence of events |
| `Replication.TargetsFit` | node/rpc_handlers.go:85-109 | the targets are exactly the holders without the writer, each once |
| `Replication.LastWriteIsLast` | node/rpc_handlers.go:411-420 | the last completed item of a key is that of a write with no later write to the key |
| `PutProgress.EveryPutCompletes` | node/rpc_handlers.go:398-433 | from every state of every history, every `MutexPut` that has begun can be completed, nothing completed before being lost |
| `PutProgress.EveryPutCanBeMade` | node/rpc_handlers.go:398-433 | from every state of every history an idle node can begin any write, and it can be completed |
| `PutProgress.HistoryIsRun` | mutex/ricart_agrawala.go:241-254 | every history of writes is a run of the mutual-exclusion protocol under both hypotheses |
| `Replication.RingIsWellPlaced` | node/node.go:121-134 | owner lists of the configured ring are distinct configured nodes, collisions or not |
| `MutexPut.CarryOutPut` | node/rpc_handlers.go:411-420 | the node objects end as the history extended by the section's events says: all configured nodes or all owners and the writer have the item, all other stores are as before, and every holder of every key holds the item of the last completed write |
| `MutexPut.SectionRuns` | node/rpc_handlers.go:85-141 | storing, sending to every target once and leaving are possible events, with this effect on every store, clock and queue |
| `Nodes.Node.constructor` | node/node.go:136-149 | a new node has clock 0, no leader, no request, an empty queue and no data |
| `Nodes.Node.IncrementClock` | node/node.go:153-158 | adds one and returns the new clock |
| `Nodes.Node.UpdateClock` | node/node.go:161-169 | the clock becomes the least time after both itself and the received time |
| `Nodes.Node.RequestCS` | node/rpc_handlers.go:332-370 | merges the clock; defers exactly when an own request is outstanding and the argument has a later time, or the same time and a higher ID; the deferred request goes to the end of the queue and nothing else changes |
| `NodeSteps.ReceiptIsTwoSteps` | node/rpc_handlers.go:332-370 | this is the effect of the protocol's arrival and decision, and the answer is the message that the decision sends |
| `NodeSteps.RequestIsAStep` | mutex/ricart_agrawala.go:30-81 | raising the flag under a fresh time is the protocol's request step, which sends one request to every other node and starts with nothing collected |
| `NodeSteps.ReleaseIsAStep` | mutex/ricart_agrawala.go:170-187 | a release is the protocol's step, its started replies being those in the outbox |
| `NodeSteps.ReplyIsAStep` | mutex/ricart_agrawala.go:197-219 | a deferred reply is a `RequestCS` call under a fresh timestamp and leaves the outbox |
| `NodeSteps.ClockIsAStep` | node/node.go:152-169 | all other clock changes touch nothing but the clock |
| `Nodes.Node.RequestCriticalSection` | mutex/ricart_agrawala.go:30-121 | records the request under a fresh timestamp, always enters, and enters by force exactly when some call neither granted nor died |
| `Nodes.Node.CountReplies` | mutex/ricart_agrawala.go:62-101 | the two counters count grants and dead nodes, and add up to all calls exactly when there is no other outcome |
| `Nodes.EntryIsAStep` | mutex/ricart_agrawala.go:87-121 | the requester's outcomes let it in by count, or else on timeout, exactly when the protocol's entry steps are enabled |
| `Nodes.Node.ReleaseCriticalSection` | mutex/ricart_agrawala.go:170-194 | clears flag and queue, starts one reply per queue entry in order and one notification per other node |
| `Nodes.Node.DeferredReplyArgs` | mutex/ricart_agrawala.go:207-210 | the deferred reply carries the sender and a fresh timestamp |
| `Nodes.Node.GetOtherNodes` | node/node.go:221-229 | the configured IDs without one's own, in order |
| `Nodes.Node.GetHigherNodes` | node/node.go:232-240 | the configured IDs above one's own, in order |
| `Nodes.HigherSplits` | node/node.go:232-240 | higher IDs are kept entry by entry, in order and with repetitions |
| `Nodes.Node.SetLeader` | node/node.go:179-189 | records the leader, whoever it is, and whether it is oneself |
| `Nodes.Node.Election` | node/rpc_handlers.go:273-286 | acknowledges and updates the clock, nothing else |
| `Nodes.Node.Coordinator` | node/rpc_handlers.go:289-298 | adopts the announced leader unconditionally |
| `Nodes.Node.PutReplica` | node/rpc_handlers.go:53-68 | overwrites the item whatever the timestamps are |
| `Nodes.Node.TargetNodes` | node/rpc_handlers.go:88-109 | with partitioning off all configured nodes, with it on the key's owners, in order and without oneself |
| `Nodes.Node.ReplicateToPartitionNodes` | node/rpc_handlers.go:85-141 | exactly the reachable targets get the item and a clock update per call, every other store and clock and all other fields are unchanged, and the report says which |
| `Nodes.Node.SendToAll` | node/rpc_handlers.go:112-138 | the sending loop writes to each reachable target and skips the others; of the other nodes only stores and clocks can change |
| `Nodes.Node.StoreAndReplicate` | node/rpc_handlers.go:411-420 | the writer ends with the item, and so does every reachable configured node when partitioning is off, every reachable owner when it is on; no other store changes, and the clocks of the reached nodes are updated once per call |
| `Nodes.ReceivedOnce` | node/rpc_handlers.go:53-54 | a replica named once has the clock that the protocol's `Observe` step gives |
| `DagManager.DagManager.DetectCycle` | deadlock/dag.go:96-118 | for every graph and iteration order: true exactly when the graph has a cycle, with a walk ending where it has already been; in disciplined histories true exactly when some group of nodes is deadlocked |
| `DagManager.DagManager.BreakCycles` | deadlock/dag.go:96-183 | detecting and aborting some node of the cycle found, until none is found, takes at most as many rounds as nodes waited and ends with an acyclic graph without deadlock |
| `DagManager.DagManager.OnCycle` | deadlock/dag.go:131-134 | picks a node of the cycle that the reported walk ends in, never of the walk's lead-in |
| `DagManager.DagManager.Dfs` | deadlock/dag.go:121-140 | terminates; a nil return leaves the node and all its successors finished and the stack equal to the path, otherwise a lasso that extends the path |
| `DagManager.Search.Enter` | deadlock/dag.go:122-124 | starting on a node extends the path, the stack and the visited set together |
| `DagManager.Search.Finish` | deadlock/dag.go:138-139 | a node whose successors have finished leaves the stack and is finished after them |
| `DagManager.DagManager.Lock` | deadlock/dag.go:32-65 | a free or own resource is granted and no wait changes; a refused request appends the holder to the node's list and is remembered, and no lock changes |
| `DagManager.DagManager.Unlock` | deadlock/dag.go:68-93 | only the holder releases; exactly the waits of the nodes that asked for that resource last are dropped |
| `DagManager.DagManager.ClearWaiters` | deadlock/dag.go:83-92 | removes both entries of exactly the nodes waiting for the resource |
| `DagManager.DagManager.Resolve` | deadlock/dag.go:143-183 | frees the aborted node's resources and drops its waits and all waits for it |
| `DagManager.DagManager.ReleaseAll` | deadlock/dag.go:151-159 | exactly the resources held by others remain held |
| `DagManager.DagManager.DropEdgesTo` | deadlock/dag.go:165-178 | filters every wait list and removes the lists that become empty |
| `DagManager.DagManager.RemoveFrom` | deadlock/dag.go:167-172 | copies a wait list without the aborted node, in order |
| `DagManager.DagManager.Reset` | deadlock/dag.go:229-239 | back to the empty state |
| `WaitForGraph.LassoEndsInCycle` | deadlock/dag.go:131-134 | the returned walk has a real cycle as its suffix |
| `WaitForGraph.CycleIffStuck` | deadlock/dag.go:8-11 | a graph has a cycle exactly when some nonempty set of nodes each waits for a member |
| `WaitForGraph.TopologicalMeansAcyclic` | deadlock/dag.go:103-117 | when all waiting nodes finished in an order in which successors come first, there is no cycle |
| `DagState.AlwaysWellFormed` | deadlock/dag.go:32-183 | with no discipline at all: no self edges, no empty lists, every waiting node has a resource entry |
| `DagHistory.HeldIff` | deadlock/dag.go:32-93 | a node holds a resource exactly if it was granted it and has neither unlocked it nor been aborted since |
| `DagHistory.EdgeIff` | deadlock/dag.go:47-57 | an edge is in the graph exactly if a refused request made it and since then neither the resource last asked for was released nor one of the two nodes aborted nor all reset |
| `DagHistory.AskedStep` | deadlock/dag.go:55-57 | a request is remembered from its refusal until another is refused, its resource is released, or the node is aborted |
| `DagHistory.RefusalStays` | deadlock/dag.go:38-57 | a refused request keeps its edge to the holder through everything else, locks granted in between included |
| `DagState.ExactStep` | deadlock/dag.go:55-57 | from an exact graph an operation gives an exact graph if and only if it does not send a waiting node to a second holder |
| `DagState.ExactIffDisciplined` | deadlock/dag.go:32-93 | over a whole history every edge leads to the present holder of what its source asked for, in every state, if and only if every request keeps the discipline |
| `DagState.SecondWaitMakesFalseDeadlock` | deadlock/dag.go:83-92 | a history outside the discipline with a reported cycle and no deadlock |
| `DagState.CycleIffDeadlock` | deadlock/dag.go:95-118 | in disciplined histories a cycle exists exactly when a group is deadlocked, and otherwise every chain of holders ends at a node that is not blocked |
| `DagState.ResolveIsExact` | deadlock/dag.go:151-178 | an abort removes exactly the incident edges and exactly the held resources |
| `DagState.AbortRunsAreShort` | deadlock/dag.go:143-183 | aborting a node of some cycle again and again takes at most as many rounds as nodes waited at the start |
| `DagState.AbortRunCanContinue` | deadlock/dag.go:96-183 | the rounds can go on as long as there is a cycle, so they end with an acyclic graph |
| `Ring.InvariantAlways` | partition/consistent_hash.go:33-75 | after any additions and removals, even with collisions, the list is sorted, holds exactly the ring's positions, and every position leads to a current node |
| `Ring.NodesForAreCurrent` | partition/consistent_hash.go:100-135 | a lookup names current nodes only, each once, at most as many as asked for |
| `Labels.LabelInjective` | partition/consistent_hash.go:42 | different virtual nodes have different labels, negative node IDs included |
| `Labels.DigitsStandFor` | partition/consistent_hash.go:42 | numbers in labels are decimal, most significant digit first, without leading zeros |
| `Labels.SomeLabels` | partition/consistent_hash.go:42 | labels as the format string prints them, for three virtual nodes |
| `Labels.OnlyTheHashCollides` | partition/consistent_hash.go:42 | no two virtual nodes of a set of nodes collide if and only if the hash tells their labels apart |
| `ConsistentHash.RingIsCanonical` | partition/consistent_hash.go:33-75 | a ring object whose hash tells the labels of all nodes it was ever given apart holds exactly the labels of its present nodes |
| `ConsistentHash.RingsAgree` | partition/consistent_hash.go:33-75 | two such ring objects are equal exactly when their nodes are, whatever their histories |
| `ConsistentHash.OwnersAreNearest` | partition/consistent_hash.go:100-135 | on such a ring object the owners of a key are the first entries of any list of all nodes by least clockwise distance |
| `RingTheorems.PreferenceIsNearestFirst` | partition/consistent_hash.go:109-132 | binary search, wrap-around and skipping list all nodes by least clockwise distance modulo 2^64 |
| `RingTheorems.NodesForRefinesNearest` | partition/consistent_hash.go:100-135 | the answer is the first min(count, nodes) entries of the nearest-first list, which is unique |
| `RingTheorems.NodesForIsNearest` | partition/consistent_hash.go:100-135 | on every ring, colliding or not: as many nodes as asked for and present on the ring, each nearer to the key than all that follow and all that are left out |
| `RingTheorems.NearestOnRingUnique` | partition/consistent_hash.go:109-132 | there is only one such list of a given length |
| `RingTheorems.MinimalMovement` | partition/consistent_hash.go:33-75 | with and without a node the owners agree in order, up to that node and at most the last entry |
| `RingTheorems.AddMovesLittle` | partition/consistent_hash.go:33-51 | minimal movement when a node is added |
| `RingTheorems.RemoveMovesLittle` | partition/consistent_hash.go:54-75 | minimal movement when a node is removed |
| `RingTheorems.CanonicalAlways` | partition/consistent_hash.go:33-75 | without collisions the ring holds exactly the labels of the current nodes after every history |
| `RingTheorems.HistoryIndependence` | partition/consistent_hash.go:33-75 | two histories leave the same ring exactly when they leave the same nodes |
| `RingTheorems.RemoveUndoesAdd` | partition/consistent_hash.go:33-75 | removal undoes addition if and only if no label hits an occupied position and no position was listed twice |
| `RingTheorems.RoundTripLost` | partition/consistent_hash.go:43 | when all labels share a position, adding and removing a node takes another one off the ring |
| `RingTheorems.LoadedRing` | node/node.go:131-134 | the ring loaded from a list of nodes is empty exactly for the empty list, collisions or not |
| `RingTheorems.AnyLoadingOrderAgrees` | node/node.go:131-134 | nodes that load the same IDs in different orders compute the same owners for every key |
| `RingTheorems.NodesForMonotone` | partition/consistent_hash.go:100-135 | a larger factor only appends owners |
| `RingTheorems.HeadOfPreference` | partition/consistent_hash.go:78-96 | the first owner is the node at the first position met clockwise |
| `RingTheorems.NoOwnersIffEmpty` | partition/consistent_hash.go:101-103 | a lookup of at least one node is empty exactly on an empty ring |
| `ConsistentHash.ConsistentHash.constructor` | partition/consistent_hash.go:20-30 | an empty ring; a count of zero or less means 160 virtual nodes |
| `ConsistentHash.ConsistentHash.AddNode` | partition/consistent_hash.go:33-51 | a new node takes exactly the positions its labels hash to, occupied or not, and each is listed once more; a known node changes nothing; the object follows the history function |
| `ConsistentHash.ConsistentHash.PlaceVirtualNodes` | partition/consistent_hash.go:41-45 | each label takes its position, overwriting, and is appended to the list |
| `ConsistentHash.ConsistentHash.RemoveNode` | partition/consistent_hash.go:54-75 | the positions its labels hash to leave the ring, whoever has them, and the list is the rest, each once and ascending; an unknown node changes nothing |
| `ConsistentHash.ConsistentHash.DropVirtualNodes` | partition/consistent_hash.go:61-65 | exactly the positions of the node's labels leave the ring |
| `ConsistentHash.ConsistentHash.RebuildSortedHashes` | partition/consistent_hash.go:67-74 | for any iteration order the list becomes the ring's positions in ascending order |
| `ConsistentHash.ConsistentHash.Search` | partition/consistent_hash.go:86-88 | binary search finds the first position at or after the hash |
| `ConsistentHash.ConsistentHash.GetNode` | partition/consistent_hash.go:78-96 | the node at a position with the least clockwise distance from the key, -1 on an empty ring |
| `ConsistentHash.ConsistentHash.GetNodes` | partition/consistent_hash.go:100-135 | as many of the ring's nodes as asked for, or all, nearest first and nearer than all others; none on an empty ring |
| `ConsistentHash.ConsistentHash.CollectDistinct` | partition/consistent_hash.go:120-134 | the walk returns the first distinct owners, stopping when it has enough |
| `PartitionManager.PartitionManager.constructor` | partition/partition_manager.go:20-30 | an empty ring with 160 virtual nodes per node; a factor below 1 means 3 |
| `PartitionManager.PartitionManager.FromConfig` | node/node.go:121-134 | every configured node joins the ring, if and only if partitioning is on |
| `PartitionManager.PartitionManager.AddNode` | partition/partition_manager.go:33-40 | changes the ring only while enabled |
| `PartitionManager.PartitionManager.RemoveNode` | partition/partition_manager.go:43-50 | changes the ring only while enabled |
| `PartitionManager.PartitionManager.GetPartitionOwners` | partition/partition_manager.go:56-65 | when enabled, as many of the ring's nodes as the factor says, or all, nearest first; without collisions exactly the first ones of the list of all nodes by least distance; empty when off or when the ring is empty |
| `PartitionManager.PartitionManager.IsOwner` | partition/partition_manager.go:68-82 | membership in the owner list, true for all when that list is empty |
| `PartitionManager.PartitionManager.IsPrimaryOwner` | partition/partition_manager.go:85-94 | exactly the node `GetNode` names; node 1 when the owner list is empty |
| `PartitionManager.PartitionManager.SetReplicationFactor` | partition/partition_manager.go:121-129 | clamps to at least 1; owner lists only grow or shrink at their end |
| `PartitionManager.SwitchOnAfterSetUp` | partition/partition_manager.go:33-40 | after switching partitioning on, ring and owner lists are empty exactly when it was off during set-up or no node is configured |
| `PartitionManager.LoadedManagersAgree` | node/node.go:131-134 | two managers that loaded the same IDs in different orders compute the same owners for every key if the hash tells their labels apart |
| `Bully.OnlyHighestLeads` | election/bully.go:28-98 | if some live higher node acknowledges each election in time, only the highest live node ever leads, every leader is the initial one or that node, and all agree once its announcements have arrived |
| `Bully.RunSafeIff` | election/bully.go:86-97 | for each single run with no hypothesis: only the highest live node leads in all its states if and only if no node with live higher nodes ended an election without an acknowledgement |
| `Bully.DeliveryIsBelieved` | node/rpc_handlers.go:289-298 | in every run without hypothesis an announcement stays under way until delivered, and then its receiver follows its sender, whoever that is, and nobody else changes |
| `Bully.FlagsAlwaysAgree` | node/node.go:179-189 | in every state of every run exactly the nodes that name themselves as leader take themselves for it |
| `Bully.AgreementStays` | election/bully.go:173-195 | after agreement no later step, not even an election already triggered or one that a late heartbeat triggers, changes a leader |
| `Bully.AgreementReachable` | election/bully.go:28-144 | from every reachable state agreement on the highest live node can still be reached |
| `Bully.SafeIff` | election/bully.go:86-97 | over all runs: only the highest can come to lead if and only if an election never ends unacknowledged while a higher node lives, or it is the only live node |
| `Bully.RoundRuns` | election/bully.go:173-195 | what a whole round of the monitor does to a world, and that its steps are allowed under the network hypothesis |
| `BullyElection.RoundContinuesRun` | election/bully.go:28-98 | rounds of managers continue runs of the protocol, so all theorems about runs apply to them; if some live higher node acknowledges, only the highest live node's round announces a leader |
| `BullyElection.TakeOver` | election/bully.go:173-195 | when all live nodes have no leader or a dead one, one round of the highest live node's monitor makes it leader and puts its announcements to all other configured nodes under way, whatever replies the live nodes give |
| `BullyElection.BullyElection.MonitorRound` | election/bully.go:182-191 | a follower whose leader is unknown, unreachable or silent takes the lead exactly if no election is running and no higher node acknowledges; a leader only sends heartbeats; in every world the round has the effect of its protocol steps; the clock ticks once per call |
| `BullyElection.BullyElection.StartElection` | election/bully.go:28-98 | the node ends as the protocol's peer after an election with the acknowledgements that arrive, announces exactly when it takes the lead, and ticks once per reachable higher node |
| `BullyElection.BullyElection.AskHigher` | election/bully.go:54-86 | a response counts exactly when some reachable higher node acknowledges, with one tick per reachable higher node |
| `BullyElection.BullyElection.BecomeLeader` | election/bully.go:135-144 | sets oneself as leader as the protocol does and announces to all other nodes |
| `BullyElection.BullyElection.CheckLeaderAlive` | election/bully.go:221-260 | no known leader counts as dead, oneself as alive, and another node as alive exactly if it can be reached and answers; the clock ticks exactly when a heartbeat is sent |
| `BullyElection.BullyElection.SendHeartbeats` | election/bully.go:198-218 | one heartbeat, with a tick, to every other node that can be reached |
| `BullyElection.BullyElection.TriggerElectionOnStartup` | election/bully.go:268-276 | at start-up an election is held, as steps of the protocol, exactly when no leader is known |

## Left out

- Two callers of `ExecuteInCriticalSection` on one node at a time: excluded by hypothesis, since the program keeps one flag and one timestamp per node.
- Restart of a crashed node: it would come back with clock 0 and is not modelled.
- Nodes.Node.RequestCriticalSection: the concurrent calls to other nodes are a parameter (their outcomes); their interleavings are the subject of the transition system, and `EntryIsAStep` relates the two.
- BullyElection.BullyElection.StartElection: which nodes can be reached and which acknowledge in time are parameters; calls that are still under way when the election times out tick the clock before it ends instead of after.
- BullyElection.BullyElection.AskHigher: which nodes can be reached and which acknowledge are parameters, and the calls run one after the other instead of concurrently.
- BullyElection.BullyElection.CheckLeaderAlive: whether the heartbeat is answered in time is a parameter.
- BullyElection.BullyElection.MonitorRound: replies are parameters; heartbeats are sent one after the other instead of concurrently.
- Sending a `COORDINATOR` message: `Announcement` carries the sender's ID, and its tick of the sender's clock is left out, since no leader depends on the clock.
- Network dialling, `net/rpc` encoding, goroutine scheduling, wall-clock timers, logs and printed output.
- MD5: the hash is a parameter, and nothing is claimed about load balance.
- 64-bit overflow of the Lamport clock: timestamps are unbounded integers.
- Plain `Put` and `Delete` from clients: `Put` overwrites without comparing timestamps and deletes propagate asynchronously, so replicas need not agree under them.
- Switching partitioning on during a run: nodes added while it is off never join the ring.
- The client, status and listing handlers, configuration loading, and `ReleaseCS` and `Heartbeat` beyond their clock update.
