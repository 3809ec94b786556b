# iota-core: chain manager, storage, fork choice and committee accounts in Dafny

This project models the parts of iota-core that decide which chain of slot commitments a node follows and which history it keeps, and proves what they promise.

**Chain manager.** Slot commitments arrive in any order, from peers and from the node's own engine. Unknown parents become placeholders with an outstanding request; chain membership and solidity are pushed down the tree when gaps close; the main chain can be switched onto a fork across several nested forking points; old slots are evicted. `ChainState` describes the manager as a value: commitments are named by their IDs and chains by their position in the list of all chains ever created. `ChainStructure`, `ChainForks`, `ChainProcess`, `ChainSwitch`, `ChainReorg`, `ChainOps` and `ChainRuns` define every operation on that value and prove what it keeps; `ChainSwitchTheorems`, `ChainEffects`, `ChainSteps`, `ChainSeparation`, `ChainSolidity`, `ChainLatest`, `ChainTips`, `ChainMainLatest`, `ChainReports` and `ChainReachable` hold the main results, and `ChainExamples` the runs from an initial root that lead to a state in which a promise fails. `ChainObjects` and `ChainManager` are the linked objects that are updated in place, as in the program; every method of `Manager` is proved to compute the corresponding function on the value. `LockOrder` is the protocol of the eviction lock and the per-commitment locks for any number of concurrent calls.

**Storage.** `EpochStores`, `Buckets`, `Prunables` and `StoragePruning` are the epoch stores, the slot buckets, and the prune and rollback operations on them, with `PruningState` and `Rollbacks` as their specification; `PruningEffects` says exactly what each way of pruning removes, and `StorageRuns` has the results over whole runs of prune calls with any errors, writes, rollbacks and restarts. `KeyValueStores` has realm views over one replaceable database instance, with batched mutations.

**Fork choice and committee.** `ForkChoice` is the decision loop over the slots of a fork, `CommitmentVerifier` the attestation counting behind it, `UnsolidBuffers` the buffer for blocks of unsolid commitments, `RangeSend` the gap-filling stream, `Accounts` and `Seats` the committee's pools, byte encoding and seat numbers. `Options`, `Sets`, `Recency` and `Eviction` are small helpers.

Assumptions: a commitment ID determines the contents and the slot of its commitment, and a commitment's slot is its predecessor's slot plus one; the protocol version check passes; callers do not request commitments of evicted slots; where the program panics, the method has a precondition; epochs have equal length and start at slot 0. Signatures, Merkle proofs and block IDs are given as truth values, directory sizes and byte estimates as numbers, errors of the disk as an explicit fault. Caches evict the least recently used entry. Events are ghost traces.

Where the program does not meet its own promise, there is a lemma with a concrete run, state or input, and one with the exact condition:

- A switch through a branch that an earlier switch separated is refused, possibly after its first rounds have already moved commitments; then the chains are left out of order (`RefusedSwitchBreaksChains` in the state of `SeparatedReached`; `RefusedSwitchBreaksIff`).
- A switch that leaves the main chain at or below the root takes the root off the main chain (`SwitchBelowRootLosesRoot` in the state of `RootedReached`; `SwitchKeepsInvIff`). Evicting up to the slot before the root rules it out (`EvictionProtectsRoot`).
- After a switch to a shorter branch, the main chain's latest commitment is still one of the old branch (`LatestIsStale`; `SwitchedLatestIff`). No other chain in use is ever stale (`ReachableTips`).
- The fork-choice rule speaks of slots in a row; the program counts heavier minus lighter slots since the last tie. It can switch without enough slots in a row (`SwitchWithoutThreeInARow`; `SwitchIsInARowIff`) and miss a switch when there are enough (`ThreeInARowWithoutSwitch`; `InARowSwitchesIff`).
- The storage wants to keep one full epoch; with a finalized epoch below 2 it still prunes epoch 0 (`FirstEpochPrunedTooEarly`; `FullEpochKeptIff`).
- A pruning that an error interrupts after its first epoch cannot be continued until the next restart (`PruningStuckUntilRestart`; `RetrySucceedsIff` for direct retries, `RestartResumesPruning` for those after a restart).
- After a restart the two pruning indices disagree when the oldest bucket is the one of epoch 1 (`RestartForgetsEpochZero`; `RestoreAgreesIff`, `RestartKeepsInvIff`).
- A rollback into a pruned epoch creates that epoch's bucket again (`RollbackRecreatesBucket`; `RollbackKeepsInvIff`).
- The comment on rolling back committees says that all committees after the next epoch are removed; the program removes at most the next epoch's (`LaterCommitteeSurvives`; `RollbackCommittees`).
- Rolling back leaves the buckets behind a gap (`DataBehindGapSurvives`; `RollbackSlots`).
- Evicting an earlier slot from the buffer of unsolid commitments re-opens evicted slots (`EvictedSlotReopened`; `EvictReopensIff`).
- Seat numbers have 8 bits, so members of a large committee share seats (`TooManyMembers`; `SeatsUniqueIff`); `Set` does not check whether a seat is taken (`SeatGivenTwice`; `SetKeepsUniqueIff`).

## Model

| member | source | states |
|---|---|---|
| ChainReachable.ReachableChains | pkg/protocol/chainmanager/manager.go:389-507 | In every state reachable by allowed operations (arrivals, loads, root moves to solid commitments of the main chain, evictions below the root, and switches that succeed above the root or are refused before their first round), a commitment shares its parent's chain if and only if it is the parent's main child, and otherwise it is the forking point of its own chain |
| ChainReachable.ReachablePaths | pkg/protocol/chainmanager/manager.go:389-507 | In every state reachable by allowed operations the members of a live chain are exactly the main-child path from its forking point |
| ChainReachable.ReachableIndex | pkg/protocol/chainmanager/chain.go:39-70 | In every state reachable by allowed operations a live chain's per-slot index yields, for each slot from the forking point to the tip of the main-child path, the commitment that the walk reaches |
| ChainReachable.ReachableRequests | pkg/protocol/chainmanager/manager.go:389-410 | After every run of allowed operations, followed or not by a switch with any outcome, a request above the root slot is outstanding if and only if the commitment is known but not published |
| ChainReachable.ReachableReports | pkg/protocol/chainmanager/manager.go:319-369 | Over every run of allowed operations, followed or not by a switch with any outcome, each fork event was true in the state in which the run triggered it: a branch left the main chain at the forking point, its chain had the reported latest commitment, and that one was heavier than the main chain's latest; events of one forking point carry strictly increasing latest slots |
| ChainReachable.ReachableRecords | pkg/protocol/chainmanager/manager.go:337-366 | After every run of allowed operations a forking point has a record if and only if it was reported and its slot is not evicted; the record is that of its last report, and all its reports name the same peer, main chain and forked chain |
| ChainReachable.ReachableStored | pkg/protocol/chainmanager/manager.go:131-171 | After every run of allowed operations the root is the commitment it was last moved to, a slot is evicted if and only if an eviction reached it, and exactly the known commitments of other slots can be looked up |
| ChainReports.DetectExactly | pkg/protocol/chainmanager/manager.go:319-369 | Fork detection triggers an event if and only if the branch leaves the main chain at a forking point with a stored parent, that chain's latest commitment is heavier than the main chain's, and it is later than the one last reported; a first event names the peer, the main chain and the forked chain, a further one what the record names; otherwise nothing changes |
| ChainReports.PeerReports | pkg/protocol/chainmanager/manager.go:74-90 | A commitment from a peer leads to an event if and only if one is due for its branch once it has joined the tree, and to exactly that one |
| ChainReachable.ReachableForkingPoints | pkg/protocol/chainmanager/manager.go:371-387 | In every state reachable by allowed operations the walk over forking points from a solid commitment finds nothing if and only if the commitment is on the main chain; otherwise exactly one ancestor-or-self is off the main chain while its parent is on it, and the walk finds that one, or fails with an error if and only if that parent is no longer stored |
| ChainRuns.StepKeepsInv | pkg/protocol/chainmanager/manager.go:74-251 | Every allowed operation keeps the whole invariant: links, chain membership, per-slot index, solidity, root, requests and reports |
| ChainRuns.ReachableInv | pkg/protocol/chainmanager/manager.go:60-251 | The invariant holds after every sequence of allowed operations from a state that satisfies it |
| ChainRuns.SwitchKeepsCommitments | pkg/protocol/chainmanager/manager.go:412-461 | Whatever its outcome, a switch changes only chains and links to children: contents, solidity, requests, reports and eviction stay, and no commitment loses its chain |
| ChainRuns.DetectKeepsReports | pkg/protocol/chainmanager/manager.go:319-369 | Reporting a fork keeps the promises about all earlier reports |
| ChainRuns.SetRootKeepsInvIff | pkg/protocol/chainmanager/manager.go:152-171 | Moving the root up keeps the invariant if and only if the new root is solid and on the main chain |
| ChainRuns.EvictKeeps | pkg/protocol/chainmanager/manager.go:131-141 | Evicting below the root keeps the invariant and the promises about reports |
| ChainOps.InitInv | pkg/protocol/chainmanager/manager.go:60-68 | The initialized manager satisfies the invariant |
| ChainOps.ProcessKeepsInv | pkg/protocol/chainmanager/manager.go:253-299 | Processing any commitment in any state keeps the invariant |
| ChainSteps.ProcessAnswers | pkg/protocol/chainmanager/manager.go:253-299 | The caller learns the commitment, whether it is solid afterwards, and whether it forked, which it does if and only if it is new and has siblings; the root commitment changes nothing, and one below the root only stops its request |
| ChainSteps.ProcessLinks | pkg/protocol/chainmanager/manager.go:389-410 | A new commitment becomes a child of its parent, its main child if and only if the parent had none, and no other link or content changes and no chain is taken away |
| ChainSteps.ProcessChains | pkg/protocol/chainmanager/manager.go:463-474 | A chain is started if and only if the commitment forks, and it starts at the commitment |
| ChainSteps.RepeatedArrival | pkg/protocol/chainmanager/manager.go:389-397 | A commitment that is published already changes nothing |
| ChainSteps.EngineIsFollowed | pkg/protocol/chainmanager/manager.go:108-129 | A new commitment of the main engine is on the main chain afterwards, and on the main-child path from the initial root, if and only if it has siblings or its parent is on the main chain |
| ChainSteps.EngineRepeats | pkg/protocol/chainmanager/manager.go:108-129 | Any other commitment of the main engine leaves the tree as it is |
| ChainSteps.StepRequests | pkg/protocol/chainmanager/manager.go:193-203 | Exactly which requests each operation starts and stops, above and below the root |
| ChainSteps.StepRootAndEvicted | pkg/protocol/chainmanager/manager.go:131-171 | Only an eviction evicts, exactly up to its slot, and only a root move moves the root |
| ChainOps.LoadKeepsInv | pkg/protocol/chainmanager/manager.go:193-203 | Loading an unknown commitment on demand keeps the invariant and makes it known |
| ChainOps.SwitchKeepsTree | pkg/protocol/chainmanager/manager.go:412-461 | A successful switch across any number of nested forking points leaves links, chains, index and solidity in order |
| ChainProcess.AcceptKeepsTree | pkg/protocol/chainmanager/manager.go:279-298 | Publishing a commitment, registering it and pushing its chain and solidity down leaves the whole tree in order, whatever had arrived before |
| ChainProcess.AcceptAt | pkg/protocol/chainmanager/manager.go:389-410 | Accepting a commitment publishes exactly that one and takes neither chain nor solidity from any other |
| ChainStructure.ChainIsMainPath | pkg/protocol/chainmanager/manager.go:476-507 | The commitments that carry a chain are exactly the main-child path from its forking point |
| ChainStructure.SharesChainIffMainChild | pkg/protocol/chainmanager/chaincommitment.go:79-92 | Sharing the parent's chain is equivalent to being its main child |
| ChainStructure.IndexFollowsPath | pkg/protocol/chainmanager/chain.go:39-70 | The per-slot index agrees with the walk along main children |
| ChainForks.JumpsFindDeparture | pkg/protocol/chainmanager/manager.go:371-387 | Jumping over forking points ends at the same commitment as walking back one parent at a time, and fails exactly when that commitment's parent is not stored |
| ChainForks.DepartureIsUnique | pkg/protocol/chainmanager/manager.go:371-387 | At most one ancestor-or-self is off the main chain while its parent is on it |
| ChainForks.DepartureIsBelow | pkg/protocol/chainmanager/manager.go:371-387 | The commitment found is an ancestor-or-self off the main chain whose parent is on it |
| ChainSwitchTheorems.SwitchReachesHead | pkg/protocol/chainmanager/manager.go:412-461 | After a successful switch the head is on the chain of the initial root |
| ChainSwitchTheorems.SwitchedMainChain | pkg/protocol/chainmanager/manager.go:412-461 | After a successful switch the commitments on the main chain are exactly the main-child path from the initial root, and it runs through the head |
| ChainSwitchTheorems.DisplacedHeadsFreshChain | pkg/protocol/chainmanager/manager.go:432-455 | Every main child that a switch displaces heads a chain that did not exist before, and that chain covers its whole main-child path |
| ChainSwitchTheorems.SwitchKeepsSolidity | pkg/protocol/chainmanager/manager.go:412-461 | A switch changes no commitment's contents or solidity and leaves none without a chain, whatever its outcome |
| ChainSwitchTheorems.SwitchSucceedsIff | pkg/protocol/chainmanager/manager.go:412-461 | A switch succeeds if and only if the head is solid, the walk stays within the stored slots and every forking point on it is still registered with its parent |
| ChainSwitchTheorems.RefusedSwitchBreaksIff | pkg/protocol/chainmanager/manager.go:432-440 | A refused switch leaves the chains in order if and only if it is refused before its first round, and then it changes nothing |
| ChainEffects.SwitchChildren | pkg/protocol/chainmanager/manager.go:428-458 | For every commitment the children after a switch are those before it, less the old main child where the new branch leaves the main chain, and only if the switch succeeds and moves something |
| ChainEffects.SwitchKeepsAttachedBut | pkg/protocol/chainmanager/manager.go:457-458 | Whatever was registered with its parent before a successful switch is so afterwards, if and only if it is not that one old main child |
| ChainEffects.SwitchRelinks | pkg/protocol/chainmanager/manager.go:432-440 | The parent of every forking point that the switch gets to has it as its main child afterwards, and the main child it had before heads the chain that this round created, also when the switch is refused later |
| ChainEffects.SwitchKeepsOtherLinks | pkg/protocol/chainmanager/manager.go:432-440 | Every other commitment keeps its main child, whatever the outcome |
| ChainEffects.SwitchMovesOnly | pkg/protocol/chainmanager/manager.go:442-448 | A successful switch creates one chain for each forking point, and a commitment changes chains only onto the main chain or along the path of a displaced main child |
| ChainEffects.SwitchErrors | pkg/protocol/chainmanager/manager.go:371-440 | Which of the three errors a switch ends with, each with its exact condition; one that moves nothing changes nothing |
| ChainEffects.SwitchToStored | pkg/protocol/chainmanager/manager.go:241-251 | A head that cannot be looked up is an error and changes nothing |
| ChainSwitchTheorems.SwitchSeparatesOldBranch | pkg/protocol/chainmanager/manager.go:428-458 | A successful switch takes the old main branch off its parent |
| ChainSeparation.SeparatedForEver | pkg/protocol/chainmanager/manager.go:412-461 | After such a switch and any further run of allowed operations the old main branch is still not registered with its parent, and every switch to it or to anything below it is refused |
| ChainSeparation.SwitchBelowSeparatedFails | pkg/protocol/chainmanager/manager.go:432-440 | In any state in order, a switch to a commitment with an ancestor that is not registered with its parent is refused |
| ChainSeparation.StepKeepsSeparated | pkg/protocol/chainmanager/manager.go:74-251 | No allowed operation registers a published commitment with its parent again |
| ChainSwitchTheorems.RootStaysIff | pkg/protocol/chainmanager/manager.go:412-461 | The root stays on the main chain if and only if the new branch leaves it above the root |
| ChainSwitchTheorems.SwitchKeepsInvIff | pkg/protocol/chainmanager/manager.go:412-461 | A successful switch keeps the whole invariant if and only if the new branch leaves the main chain above the root |
| ChainSwitchTheorems.EvictionProtectsRoot | pkg/protocol/chainmanager/manager.go:131-141 | When everything below the root is evicted, every switch leaves the main chain above the root |
| ChainExamples.SeparatedReached | pkg/protocol/chainmanager/manager.go:92-251 | Four arrivals and a switch lead from the initial root to a tree with a branch that the switch separated |
| ChainExamples.RootedReached | pkg/protocol/chainmanager/manager.go:92-251 | Two arrivals and a root move lead from the initial root to a tree with a fork below the root |
| ChainExamples.RefusedSwitchBreaksChains | pkg/protocol/chainmanager/manager.go:432-458 | A reachable state in which a switch is refused at its second round and the chains are left out of order |
| ChainExamples.SwitchBelowRootLosesRoot | pkg/protocol/chainmanager/manager.go:412-461 | A reachable state in which a switch succeeds and takes the root off the main chain |
| ChainExamples.LatestIsStale | pkg/protocol/chainmanager/chain.go:53-70 | A reachable state after a switch in which the main chain reports a commitment of the old branch as its latest |
| ChainLatest.LatestIsTipIff | pkg/protocol/chainmanager/chain.go:53-70 | A chain's latest commitment is the tip of its main-child path if and only if the latest slot is the tip's |
| ChainTips.ReachableTips | pkg/protocol/chainmanager/chain.go:53-70 | In every state reachable by allowed operations, each chain in use other than the main chain has the tip of its main-child path as its latest commitment |
| ChainMainLatest.ReachableMainLatest | pkg/protocol/chainmanager/chain.go:60-70 | The latest slot of the main chain is the highest that its tip has had over the whole run of allowed operations |
| ChainTips.AcceptKeepsTips | pkg/protocol/chainmanager/manager.go:279-298 | Accepting a commitment and pushing its chain down keeps every chain but the main one up to its tip |
| ChainTips.SwitchKeepsTips | pkg/protocol/chainmanager/manager.go:432-458 | So does a successful switch across any number of forking points, including the fresh chains of the displaced branches |
| ChainLatest.SwitchLatest | pkg/protocol/chainmanager/manager.go:494-507 | After a switch the main chain's latest slot is the higher of the old one and the new tip's |
| ChainLatest.SwitchedLatestIff | pkg/protocol/chainmanager/manager.go:494-507 | After a switch the main chain's latest commitment is its tip if and only if the new branch is at least as long as the old main chain's latest slot |
| ChainSolidity.SolidIffTaken | pkg/protocol/chainmanager/manager.go:253-299 | After any run of allowed operations, with any order, repeats, loads, switches, root moves and evictions, and however a last switch ended, a commitment is solid if and only if it and all its predecessors back to the initial root were above the root when they arrived, and every solid commitment has a chain |
| ChainSolidity.SolidIffArrived | pkg/protocol/chainmanager/manager.go:253-299 | While the root stays where it was initialized, a commitment is solid if and only if it and all its predecessors back to the initial root have arrived |
| ChainSolidity.ArrivalOrderDoesNotMatter | pkg/protocol/chainmanager/manager.go:253-299 | Two such runs to which the same commitments arrive make the same commitments solid |
| ChainObjects.Chain.AddCommitment | pkg/protocol/chainmanager/chain.go:60-70 | The latest slot only grows and the index entry of the commitment's slot is set |
| ChainObjects.ChainCommitment.PublishCommitment | pkg/protocol/chainmanager/chaincommitment.go:68-77 | Only the first published commitment is kept |
| ChainObjects.ChainCommitment.RegisterChild | pkg/protocol/chainmanager/chaincommitment.go:79-92 | The first child becomes the main child, every further one forks |
| ChainObjects.ChainCommitment.SetMainChild | pkg/protocol/chainmanager/chaincommitment.go:108-118 | Only a registered child can become the main child; otherwise nothing changes |
| ChainObjects.ChainCommitment.PublishChain | pkg/protocol/chainmanager/chaincommitment.go:120-129 | Only the first published chain is kept |
| ChainManager.Manager.constructor | pkg/protocol/chainmanager/manager.go:42-68 | A new manager stands for the initial state |
| ChainManager.Manager.LoadCommitmentOrRequestMissing | pkg/protocol/chainmanager/manager.go:193-203 | Computes the on-demand load on the manager's state |
| ChainManager.Manager.ProcessArriving | pkg/protocol/chainmanager/manager.go:253-299 | Computes the arrival of a commitment, with the branches for the root and below it, and returns whether it forked, is solid and which commitment it is |
| ChainManager.Manager.RegisterLoaded | pkg/protocol/chainmanager/manager.go:389-410 | Publishes a commitment once, registers it with its parent and stops the request |
| ChainManager.Manager.PublishChainToMainPath | pkg/protocol/chainmanager/manager.go:284-288 | The walk publishes the chain to exactly the main-child path |
| ChainManager.Manager.ReplaceChainOfMainPath | pkg/protocol/chainmanager/manager.go:442-448 | The walk moves exactly the main-child path to the chain |
| ChainManager.Manager.SpreadSolidity | pkg/protocol/chainmanager/manager.go:290-296 | The walk over the children terminates and makes exactly the commitments solid that can be reached |
| ChainManager.Manager.ForkingPointAgainstMainChain | pkg/protocol/chainmanager/manager.go:371-387 | The walk terminates, because the slot falls at each jump, and returns the last forking point or the right error |
| ChainManager.Manager.SwitchRound | pkg/protocol/chainmanager/manager.go:433-448 | One round relinks the parent and moves both paths, or is refused and changes nothing |
| ChainManager.Manager.SwitchRounds | pkg/protocol/chainmanager/manager.go:432-455 | The loop over nested forking points terminates and computes all rounds, or stops at the refused one |
| ChainManager.Manager.SwitchMainChainToCommitment | pkg/protocol/chainmanager/manager.go:412-461 | Computes the whole switch on the manager's state, including the state after an error |
| ChainManager.Manager.SwitchMainChain | pkg/protocol/chainmanager/manager.go:241-251 | Computes the switch to a stored head, with the error for an unknown one |
| ChainManager.Manager.ProcessCandidateCommitment | pkg/protocol/chainmanager/manager.go:92-106 | Computes the arrival of a candidate engine's commitment and returns its solidity and chain |
| ChainManager.Manager.ProcessCommitment | pkg/protocol/chainmanager/manager.go:108-129 | Computes the arrival of the main engine's commitment followed by the switch where it forks |
| ChainManager.Manager.ProcessCommitmentFromSource | pkg/protocol/chainmanager/manager.go:74-90 | Computes the arrival of a peer's commitment followed by fork detection |
| ChainManager.Manager.DetectForks | pkg/protocol/chainmanager/manager.go:319-369 | Computes fork detection, with the record and the event for a heavier and longer fork |
| ChainManager.Manager.SetRootCommitment | pkg/protocol/chainmanager/manager.go:152-171 | Moves the root to a stored commitment above it |
| ChainManager.Manager.EvictUntil | pkg/protocol/chainmanager/manager.go:131-141 | The slot-by-slot loop forgets exactly the commitments, forks and requests up to the slot |
| LockOrder.StepKeepsInv | pkg/protocol/chainmanager/manager.go:260-299 | Every step of any call keeps that each lock has at most one holder, that every wanted lock is at a strictly greater slot than all held ones, and that nobody is inside while another one evicts |
| LockOrder.RunInv | pkg/protocol/chainmanager/manager.go:260-299 | The same in every interleaving of any number of calls |
| LockOrder.NoCircularWait | pkg/protocol/chainmanager/manager.go:476-518 | No chain of waiting calls leads back to its start |
| LockOrder.NoDeadlock | pkg/protocol/chainmanager/manager.go:74-299 | In every interleaving of calls that share the eviction lock and calls that hold it alone, as long as a call is unfinished some call can take a step; a call may process a commitment and then switch under the same eviction lock |
| LockOrder.ChildrenAreOneSlotUp | pkg/protocol/chainmanager/manager.go:476-518 | The commitments that a walk finds are one slot above the one it comes from |
| EpochStores.PruneNext | pkg/storage/prunable/epochstore/store.go:108-135 | Pruning an epoch and then a later one equals pruning the later one |
| EpochStores.EpochStore.Prune | pkg/storage/prunable/epochstore/store.go:108-135 | The loop drops exactly the epochs that the store's own delay allows and never moves its index back |
| EpochStores.EpochStore.Load | pkg/storage/prunable/epochstore/store.go:44-61 | Loading fails exactly on pruned epochs and otherwise finds exactly what is stored |
| EpochStores.EpochStore.Store | pkg/storage/prunable/epochstore/store.go:63-69 | Writing is refused exactly for pruned epochs |
| Buckets.BucketManager.GetDBInstance | pkg/storage/prunable/bucket_manager.go:175-194 | At most the allowed number of buckets is open, the least recently used one is closed, and a missing bucket is created empty |
| Buckets.BucketManager.RestoreFromDisk | pkg/storage/prunable/bucket_manager.go:143-167 | Everything before the oldest bucket counts as pruned, the latest buckets are left open, and the sizes of all others are known |
| Buckets.BucketManager.Get | pkg/storage/prunable/bucket_manager.go:59-74 | Access fails if and only if the epoch is pruned |
| Buckets.BucketManager.BucketSize | pkg/storage/prunable/bucket_manager.go:112-134 | A known size is the bucket's actual size, and looking up an open bucket makes it the most recently used one |
| Buckets.BucketManager.Prune | pkg/storage/prunable/bucket_manager.go:196-209 | The bucket is deleted and the index set, unless the epoch lies below the index |
| Buckets.BucketManager.DeleteBucket | pkg/storage/prunable/bucket_manager.go:213-237 | Exactly the epoch's bucket is deleted, and the result tells whether there was one |
| Buckets.BucketManager.RollbackBucket | pkg/storage/prunable/bucket_manager.go:240-250 | Exactly the slots after the target up to the epoch's end are removed |
| PruningState.PruneUntilIsAtOnce | pkg/storage/storage_pruning.go:213-227 | Pruning epoch by epoch equals pruning everything up to the target at once |
| PruningEffects.PruneByEpochExactly | pkg/storage/storage_pruning.go:57-81 | Pruning by epoch ends exactly at the given epoch: the buckets up to it are gone, the stores lose the epochs up to 7 or 365 before it, and nothing else; it is refused as too new or too old with the exact conditions, and then changes nothing |
| PruningEffects.PruneByDepthExactly | pkg/storage/storage_pruning.go:83-114 | For every depth, also 0, pruning by depth keeps exactly that many full epochs, at least one, and of each store as many as its own delay if that is more; its two refusals with their exact conditions |
| PruningEffects.PruneBySizeExactly | pkg/storage/storage_pruning.go:116-188 | Pruning by size ends at the first epoch with which the freed bytes suffice, or at the last prunable one if there is none; only then can it report a full database; its two refusals |
| PruningEffects.PruneFailsIff | pkg/storage/storage_pruning.go:213-227 | A pruning fails if and only if an error comes up in one of its epochs |
| PruningEffects.PruneBySizeFailsIff | pkg/storage/storage_pruning.go:153-180 | Pruning by size fails if and only if an error comes up in one of the epochs it would prune, and keeps what it pruned before |
| PruningEffects.FaultLeaves | pkg/storage/prunable/prunable.go:93-119 | After an error the buckets up to its epoch are gone, the stores before the failing component are pruned for that epoch and the others for the one before |
| StorageRuns.PruneCallKeepsInv | pkg/storage/storage_pruning.go:57-188 | Every prune call without errors keeps both indices equal and at most the latest prunable epoch, keeps each epoch store's delay, and removes exactly the buckets its index says; a refused one changes nothing |
| StorageRuns.PruneCallKeepsWhole | pkg/storage/storage_pruning.go:57-227 | Whatever errors come up, in this call or before, a prune call prunes nothing that has to be kept and never moves the storage's index back or past the bucket store's; when it succeeds, the indices agree |
| StorageRuns.FullEpochKeptIff | pkg/storage/storage_pruning.go:199-209 | Whatever prune call moves the index, one full epoch is kept if and only if the finalized epoch is at least 2 |
| StorageRuns.RollbackKeepsInvIff | pkg/storage/prunable/bucket_manager.go:240-250 | A rollback, also one after errors, keeps what holds if and only if the target's epoch is not pruned |
| StorageRuns.RestartKeepsInvIff | pkg/storage/storage_prunable.go:68-79 | A restart, also one after errors, ends with both indices in agreement if and only if the oldest bucket is not epoch 1 and lies within what could be pruned |
| StorageRuns.RestartLosesNothing | pkg/storage/storage_prunable.go:68-79 | A restart loses nothing that is stored and leaves the epoch stores pruned as far as they were |
| StorageRuns.RestartResumesPruning | pkg/storage/prunable/bucket_manager.go:143-167 | After an interrupted pruning and a restart the invariant holds if and only if the restart finds such a bucket; then every pruning that may be asked for succeeds |
| StorageRuns.PerformKeepsInv | pkg/storage/storage_pruning.go:57-188 | Prune calls with any errors, writes, rollbacks into epochs that are not pruned and such restarts keep what has to be kept; calls without errors keep the indices in agreement, and restarts restore it |
| StorageRuns.RunKeepsInv | pkg/storage/storage_pruning.go:57-227 | The same over every run of these calls while finalization advances: without errors, or without any since the last restart, the indices agree; between restarts the index never moves back |
| StorageRuns.FirstEpochPrunedTooEarly | pkg/storage/storage_pruning.go:199-209 | In an empty storage with finalized epoch 0, pruning by epoch and by size both end at epoch 0 |
| StorageRuns.PruningStuckUntilRestart | pkg/storage/storage_pruning.go:213-227 | With five buckets and an error in epoch 1 of a pruning up to epoch 2, every direct retry fails, and after a restart the pruning succeeds |
| StorageRuns.RestartForgetsEpochZero | pkg/storage/storage_prunable.go:68-79 | With epoch 1 as the oldest on disk, after a restart the bucket store has epoch 0 as pruned and the storage has not |
| StorageRuns.RollbackRecreatesBucket | pkg/storage/prunable/bucket_manager.go:240-250 | A rollback to slot 2 creates the bucket of epoch 1 although everything up to epoch 3 is pruned |
| StorageRuns.LaterCommitteeSurvives | pkg/storage/prunable/prunable.go:195-220 | A rollback to epoch 0 keeps the committee of epoch 2 |
| StorageRuns.DataBehindGapSurvives | pkg/storage/prunable/prunable.go:164-190 | A rollback to slot 0 leaves the data of slot 4 when the epoch in between has no bucket |
| PruningState.PruneByDepthKeepsDepth | pkg/storage/storage_pruning.go:83-114 | A pruning by depth ends exactly at the finalized epoch minus one minus the depth, succeeds if and only if that is possible, and touches nothing above |
| PruningState.RetrySucceedsIff | pkg/storage/prunable/bucket_manager.go:196-209 | After an interrupted pruning a direct retry succeeds if and only if the error came up in the first epoch; otherwise every retry without a restart in between fails and changes nothing |
| PruningState.RestoreAgreesIff | pkg/storage/storage_prunable.go:68-79 | After a restart the storage's index equals the bucket store's if and only if the oldest bucket, if any, is not epoch 1; the bucket store's index is the one from before if and only if the oldest bucket is the first unpruned one, and no existing bucket counts as pruned |
| Prunables.Prunable.Prune | pkg/storage/prunable/prunable.go:93-119 | Computes the pruning of one epoch in all components, up to the one that fails |
| Prunables.Prunable.Rollback | pkg/storage/prunable/prunable.go:145-193 | The loop terminates and computes the rollback, including the wrap-around at epoch 0 and the error path |
| Prunables.Prunable.ShouldRollbackCommittee | pkg/storage/prunable/prunable.go:197-220 | Computes whether the next epoch's committee goes, and fails when it is pruned |
| Rollbacks.RollbackSlots | pkg/storage/prunable/prunable.go:145-193 | All data up to the target is unchanged; nothing after the target is left if and only if no bucket behind a gap holds data |
| Rollbacks.RollbackEpochs | pkg/storage/prunable/prunable.go:164-190 | With contiguous buckets, the reward, stats and upgrade-signal epochs removed are exactly those from the first uncommitted one to the last existing bucket, and nothing after the target is left |
| Rollbacks.RollbackExactly | pkg/storage/prunable/prunable.go:145-193 | With or without gaps, an entry of the reward, stats and upgrade-signal stores is removed if and only if its epoch ends after the target and the buckets reach up to it without a gap; later buckets go in the same case; no pruning index changes |
| Rollbacks.BeforePointOfNoReturn | pkg/storage/prunable/prunable.go:197-220 | The target lies before the point of no return if and only if it is more than the maximum committable age before the end of its epoch, or that age exceeds the end of the epoch, where the subtraction wraps around |
| Rollbacks.RollbackFails | pkg/storage/prunable/prunable.go:145-193 | A rollback fails if and only if the next epoch's committee has to be consulted and is pruned, and has then removed only the later slots of the target's epoch and that epoch's entries if it was not committed |
| Rollbacks.RollbackCommittees | pkg/storage/prunable/prunable.go:195-220 | A committee is removed if and only if it is the next epoch's, was reused, and the target lies before the point of no return; the others stay as they are |
| Rollbacks.RollbackTwice | pkg/storage/prunable/prunable.go:145-193 | Rolling back to the same slot again changes nothing |
| StoragePruning.StorageManager.RestoreFromDisk | pkg/storage/storage_prunable.go:68-79 | Computes the restart: takes over the bucket store's index, except that epoch 0 counts as none |
| StoragePruning.StorageManager.RollbackPrunable | pkg/storage/storage_prunable.go:81-83 | Computes the rollback on the storage's value, with its error |
| StoragePruning.StorageManager.PruneUntilEpoch | pkg/storage/storage_pruning.go:213-227 | Computes the pruning of all epochs up to the target; the index moves only when all succeed |
| StoragePruning.StorageManager.PruneByEpochIndex | pkg/storage/storage_pruning.go:57-81 | Computes the pruning by epoch with its errors |
| StoragePruning.StorageManager.PruneByDepth | pkg/storage/storage_pruning.go:83-114 | Computes the pruning by depth with its errors and the pruned range |
| StoragePruning.StorageManager.PruneBySize | pkg/storage/storage_pruning.go:116-188 | Computes the pruning by size with its errors |
| KeyValueStores.ApplyAllThroughView | pkg/storage/database/openablekvstore.go:82-96 | Mutations with a realm's prefix change the realm's sub-map like the mutations themselves and nothing outside the prefix |
| KeyValueStores.SubOfSub | pkg/storage/database/openablekvstore.go:44-56 | The view of an extended realm shows the sub-map of the view |
| KeyValueStores.MergeNext | pkg/storage/database/openablekvstore.go:127-149 | The collected set and delete maps amount to the mutations in the order they were issued |
| KeyValueStores.OpenableKVStore.Replace | pkg/storage/database/openablekvstore.go:34-42 | Replacing the instance through any view replaces it for the root and so for all views |
| KeyValueStores.OpenableKVStore.GetInstance | pkg/storage/database/openablekvstore.go:26-32 | Every view uses the instance of its root |
| KeyValueStores.OpenableKVStore.WithExtendedRealm | pkg/storage/database/openablekvstore.go:54-56 | The new view shows the part of this view below the realm |
| KeyValueStores.OpenableKVStore.Mutate | pkg/storage/database/openablekvstore.go:82-92 | Setting or deleting a key changes the view like a map and nothing outside its prefix |
| KeyValueStores.OpenableKVStore.DeletePrefix | pkg/storage/database/openablekvstore.go:94-96 | Removes exactly what the view shows below the prefix |
| KeyValueStores.BatchedMutations.Set | pkg/storage/database/openablekvstore.go:127-137 | The batch stands for the mutations issued so far followed by this one |
| KeyValueStores.BatchedMutations.Delete | pkg/storage/database/openablekvstore.go:139-149 | The batch stands for the mutations issued so far followed by this one |
| KeyValueStores.BatchedMutations.Cancel | pkg/storage/database/openablekvstore.go:151-157 | A cancelled batch stands for no mutation |
| KeyValueStores.BatchedMutations.Operations | pkg/storage/database/openablekvstore.go:168-178 | Whatever order the maps are walked in, the list has the same effect |
| KeyValueStores.BatchedMutations.Commit | pkg/storage/database/openablekvstore.go:159-181 | Committing changes the view like the issued mutations one by one in their order and leaves every key outside the prefix unchanged |
| ForkChoice.ProcessFork | pkg/protocol/protocol_fork.go:221-274 | The loop stops at the first slot at which verification fails or the net count of heavier slots since the last tie reaches the threshold either way, and decides accordingly |
| ForkChoice.DecisionIsUnique | pkg/protocol/protocol_fork.go:221-274 | There is one decision, so the rule never decides both ways |
| ForkChoice.DecisionIsStable | pkg/protocol/protocol_fork.go:238-270 | Further slots do not change a decision |
| ForkChoice.SwitchNeedsHeavierSlots | pkg/protocol/protocol_fork.go:221-270 | A switch needs the threshold of heavier-or-longer slots more than lighter ones after the last tie |
| ForkChoice.StayNeedsLighterSlots | pkg/protocol/protocol_fork.go:221-270 | Giving a fork up needs the threshold of lighter slots more than heavier ones after the last tie |
| ForkChoice.SteadyForks | pkg/protocol/protocol_fork.go:238-270 | A fork that is heavier or longer in every slot is switched to after exactly the threshold of slots, and one that is lighter in every slot is given up after as many |
| ForkChoice.TieStartsOver | pkg/protocol/protocol_fork.go:257-265 | When nothing was settled before a tie, what follows it is decided as if it were the whole fork |
| ForkChoice.FailureIsError | pkg/protocol/protocol_fork.go:238-256 | A slot that cannot be verified ends an unsettled fork with an error |
| ForkChoice.NetIsInARowIff | pkg/protocol/protocol_fork.go:257-265 | The counter is the number of slots in a row if and only if heavier and lighter slots balance out between the last tie and the last run |
| ForkChoice.LeftOver | pkg/protocol/protocol_fork.go:257-265 | The counter is the number of slots in a row plus the heavier minus the lighter slots between the last tie and the last run |
| ForkChoice.SwitchIsInARowIff | pkg/protocol/protocol_fork.go:221-270 | Where the program switches, the slots in a row reach the threshold if and only if the heavier slots between the last tie and the last run do not outnumber the lighter ones |
| ForkChoice.InARowSwitchesIff | pkg/protocol/protocol_fork.go:221-270 | When a threshold of heavier slots in a row comes up and nothing was settled before them, the program switches by then if and only if the lighter slots between the last tie and that run do not outnumber the heavier ones |
| ForkChoice.ThreeInARowWithoutSwitch | pkg/protocol/protocol_fork.go:221-222 | A concrete fork that is not switched to at threshold 3 although three slots in a row are heavier |
| ForkChoice.SwitchWithoutThreeInARow | pkg/protocol/protocol_fork.go:221-222 | A concrete fork that is switched to at threshold 3 although at most two slots in a row are heavier |
| CommitmentVerifier.VerifyAttestations | pkg/protocol/commitment_verifier.go:108-171 | A list is refused if and only if an attestation spoils it or a known key attests twice for an issuer; otherwise each issuer with a seat is counted once |
| CommitmentVerifier.CountedBound | pkg/protocol/commitment_verifier.go:113-168 | Only validators known at the fork are counted, so at most the size of the committee |
| CommitmentVerifier.RefusedIff | pkg/protocol/commitment_verifier.go:108-171 | The exact reasons for refusing a list of attestations |
| CommitmentVerifier.CountedIff | pkg/protocol/commitment_verifier.go:113-168 | An issuer is counted if and only if it attests with a known key and has a seat in the slot of its block |
| CommitmentVerifier.Verifier.VerifyCommitment | pkg/protocol/commitment_verifier.go:33-106 | A returned weight is the verifier's and at most the claimed one; the weight also grows when the claim is refused as too low |
| CommitmentVerifier.WeightBounds | pkg/protocol/commitment_verifier.go:100-105 | Over any run of k calls the weight never falls and grows by at most k times the committee size, as long as that fits into 64 bits |
| CommitmentVerifier.WeightIsSum | pkg/protocol/commitment_verifier.go:100-105 | Over any run the weight is the one from before the fork plus all seats behind the calls, modulo 2^64, and a commitment is verified if and only if its proof and attestations are in order and it claims at least that weight |
| CommitmentVerifier.WeightFallsIff | pkg/protocol/commitment_verifier.go:100-105 | A call lowers the weight if and only if its sum does not fit into 64 bits |
| UnsolidBuffers.RunInv | pkg/core/buffer/unsolid_commitment_buffer.go:41-138 | In every run each commitment with values is tracked, none is of an evicted slot, and the tracked ones are exactly the most recent distinct ones that got a value |
| UnsolidBuffers.BufferedBound | pkg/core/buffer/unsolid_commitment_buffer.go:41-45 | At most the allowed number of commitments have values |
| UnsolidBuffers.AddKeepsOthers | pkg/core/buffer/unsolid_commitment_buffer.go:63-77 | Adding a value takes another commitment's values if and only if that one is the least recently used and a new one needs the room |
| UnsolidBuffers.StepDrops | pkg/core/buffer/unsolid_commitment_buffer.go:41-109 | A commitment loses its values if and only if its slot is evicted or it is the least recently used one and a new commitment needs its place; otherwise none of its values is lost |
| UnsolidBuffers.EvictReopensIff | pkg/core/buffer/unsolid_commitment_buffer.go:103-109 | Evicting a slot re-opens refused slots if and only if it lies below the last evicted one |
| UnsolidBuffers.EvictedSlotReopened | pkg/core/buffer/unsolid_commitment_buffer.go:103-109 | After evicting up to slot 5 and then up to slot 3, a value for slot 4 is accepted again |
| UnsolidBuffers.UnsolidCommitmentBuffer.Add | pkg/core/buffer/unsolid_commitment_buffer.go:50-77 | Computes the addition on the buffer's value and refuses exactly evicted slots |
| UnsolidBuffers.UnsolidCommitmentBuffer.AddWithFunc | pkg/core/buffer/unsolid_commitment_buffer.go:79-94 | Adds a value if and only if the slot is open and the condition holds, and otherwise changes nothing |
| UnsolidBuffers.UnsolidCommitmentBuffer.EvictUntil | pkg/core/buffer/unsolid_commitment_buffer.go:96-109 | The slot-by-slot loop drops exactly the commitments up to the slot |
| UnsolidBuffers.AddedSinceDropped | pkg/core/buffer/unsolid_commitment_buffer.go:50-109 | In every run the values that count as added for a commitment are exactly the accepted ones, in order, after the last position of the run at which it had none |
| UnsolidBuffers.UnsolidCommitmentBuffer.GetValues | pkg/core/buffer/unsolid_commitment_buffer.go:111-122 | Returns the latest values added for the commitment since it was last dropped, within the limit, or each one once without a limit |
| UnsolidBuffers.LatestAreLast | pkg/core/buffer/unsolid_commitment_buffer.go:63-77 | The values kept within the limit are the last ones added, in their order |
| UnsolidBuffers.UnsolidCommitmentBuffer.GetValuesAndEvict | pkg/core/buffer/unsolid_commitment_buffer.go:124-138 | Returns the same and evicts the commitment's slot and everything below |
| Recency.UseKeepsMostRecent | pkg/core/buffer/unsolid_commitment_buffer.go:73-77 | A bounded list that evicts the least recently used entry holds exactly the most recent distinct entries of its whole history |
| Recency.LatestFirstByUse | pkg/core/buffer/unsolid_commitment_buffer.go:73-77 | That reference lists every entry of the history once, ordered by its last use |
| RangeSend.HandleKeepsUpToDate | components/inx/rangesend.go:29-75 | One update brings the stream up to the update's slot or to the end, without gaps or repeats |
| RangeSend.StreamSendsRange | components/inx/rangesend.go:29-75 | For increasing updates each slot from the first unsent one to the last update or the end is sent exactly once and in order, and the stream is done if and only if its end is reached |
| RangeSend.OpenedStreamSendsRange | components/inx/server_utxo.go:243-292 | The same from opening the stream on, including what was available already |
| RangeSend.ErrorKeepsUpToDateIff | components/inx/rangesend.go:29-75 | After an error in catching up or sending, later updates neither skip nor repeat a slot if and only if catching up had not sent anything or it was the update itself that failed |
| RangeSend.ErrorSends | components/inx/rangesend.go:29-75 | What was sent when an error comes up and what counts as sent |
| RangeSend.UnrangedUpdate | components/inx/rangesend.go:29-75 | Without a requested range every update up to the end is sent by itself |
| RangeSend.RepeatedUpdate | components/inx/rangesend.go:29-75 | An update for a slot that was sent already is sent again, and the stream goes back to it |
| RangeSend.StreamRange.HandleRangedSend | components/inx/rangesend.go:29-75 | Computes the handling of one update, with the errors of catching up and of sending |
| Accounts.PoolRoundTrip | pkg/core/account/pool.go:20-51 | Decoding undoes encoding of a pool |
| Accounts.PoolLayout | pkg/core/account/pool.go:44-51 | Pool stake, validator stake and fixed cost in this order, each in eight bytes with the least significant one first |
| Accounts.AccountsRoundTrip | pkg/core/account/accounts.go:125-211 | For every order in which the map is walked and any bytes that follow, decoding gives back the pools and the flag and consumes exactly the encoding |
| Accounts.AccountsLayout | pkg/core/account/accounts.go:184-211 | Four bytes for the number of accounts, 56 bytes for each with the ID before the pool, and one byte for the flag |
| Accounts.DecodesIff | pkg/core/account/accounts.go:129-182 | Any bytes can be decoded if and only if they are as many as the number at their start calls for; the flag and the number of bytes consumed |
| Accounts.LastEntryWins | pkg/core/account/accounts.go:149-171 | Exactly the accounts with an entry are read, and of several entries for one account the last one is kept |
| Accounts.TotalUpdate | pkg/core/account/accounts.go:74-91 | Setting a pool exchanges its stake in the sum over all pools, and the validator's own stake in the other sum |
| Accounts.Accounts.Set | pkg/core/account/accounts.go:74-91 | The running totals stay the sums over the stored pools modulo 2^64 under inserts and overwrites |
| Accounts.Accounts.Bytes | pkg/core/account/accounts.go:184-211 | The loop produces the encoding for some order of the accounts, each exactly once |
| Accounts.ReadAccounts | pkg/core/account/accounts.go:129-182 | The loop decodes exactly what the decoding function says, with the right totals and number of bytes, and fails exactly when it does |
| Seats.NewSeatedAccounts | pkg/core/account/seated_accounts.go:33-47 | Every member's seat is its rank among the members, cut to 8 bits |
| Seats.SeatsDoNotDependOnOrder | pkg/core/account/seated_accounts.go:33-47 | The same members in any order get the same seats |
| Seats.SeatsAreBijection | pkg/core/account/seated_accounts.go:33-47 | Up to 256 different members have the seats from 0 on, each exactly once |
| Seats.SeatsFollowOrder | pkg/core/account/seated_accounts.go:33-47 | Up to 256 entries, the member with the lower ID has the lower seat |
| Seats.LessIff | pkg/core/account/seated_accounts.go:33-47 | IDs are ordered by the first byte in which they differ |
| Seats.SeatsUniqueIff | pkg/core/account/seated_accounts.go:14-47 | For any list of members, with repeats, different members have different seats if and only if for no two of them the number of entries above the one and up to the other is a multiple of 256 |
| Seats.DifferentSeatsIff | pkg/core/account/seated_accounts.go:14-47 | Without repeats, different members have different seats if and only if there are at most 256 |
| Seats.SmallCommitteesHaveUniqueSeats | pkg/core/account/seated_accounts.go:14-47 | Up to 256 entries, repeated or not, give different members different seats |
| Seats.TooManyMembers | pkg/core/account/seated_accounts.go:14-47 | Of 257 given members two share a seat |
| Seats.SeatGivenTwice | pkg/core/account/seated_accounts.go:49-63 | A seat that one account has can be given to another |
| Seats.SeatedAccounts.Set | pkg/core/account/seated_accounts.go:49-63 | Only known accounts get a seat and none moves |
| Seats.SetKeepsUniqueIff | pkg/core/account/seated_accounts.go:49-63 | Giving out a seat keeps seats unique if and only if nobody else has it |
| Seats.SeatedAccounts.SeatedPools | pkg/core/account/seated_accounts.go:81-94 | The seated accounts with exactly their pools and correct totals |

## Left out

- ChainRuns.ReachableInv: covers runs whose switches succeed above the root or are refused before their first round, because other switches break the invariant; the exact conditions are in RefusedSwitchBreaksIff and SwitchKeepsInvIff.
- ChainRuns.StepKeepsInv: the same restriction to allowed operations.
- ChainReachable.ReachableChains: the same restriction; it can be false after other switches.
- ChainReachable.ReachablePaths: the same restriction; it can be false after other switches.
- ChainReachable.ReachableIndex: the same restriction; it can be false after other switches.
- ChainReachable.ReachableForkingPoints: the same restriction; it needs the chains in order.
- ChainReachable.ReachableRequests: a switch with any outcome may end the run; runs that go on after one that left the chains out of order are not modelled, because the walks over forking points and the rounds of a later switch are only defined on chains in order.
- ChainReachable.ReachableReports: ends with a switch of any outcome, like ReachableRequests.
- ChainSeparation.SeparatedForEver: covers switches and runs of allowed operations, like ReachableInv.
- ChainTips.ReachableTips: the same restriction to allowed operations.
- ChainMainLatest.ReachableMainLatest: the same restriction to allowed operations.
- ChainReachable.ReachableRecords: the same restriction to allowed operations.
- ChainReachable.ReachableStored: the same restriction to allowed operations.
- ChainSteps.EngineIsFollowed: a commitment whose switch fails is excluded, like in ProcessCommitment.
- ChainSolidity.SolidIffTaken: ends with a switch of any outcome, like ReachableRequests.
- ChainSolidity.SolidIffArrived: covers runs in which the root stays where it is, because arrivals at or below a moved root are dropped by design; SolidIffTaken covers the others.
- ChainSolidity.ArrivalOrderDoesNotMatter: the same restriction as SolidIffArrived.
- ChainOps.LoadKeepsInv: the ID of an evicted slot is excluded; such a load would create a second node for a commitment that others may still point at.
- ChainManager.Manager.LoadCommitmentOrRequestMissing: excludes the IDs of evicted slots, like LoadKeepsInv.
- ChainManager.Manager.ProcessCommitment: the panic on a failed switch is a precondition.
- ChainManager.Manager.SetRootCommitment: the three panics are preconditions.
- Prunables.Prunable.Prune: an error inside a store leaves that store as it was; what a store had removed before its own error is not modelled.
- Prunables.Prunable.Rollback: epochs are below the largest 32-bit number, so the loop counter does not wrap there.
- StoragePruning.StorageManager.RollbackPrunable: the same bound on epochs.
- StoragePruning.StorageManager.RestoreFromDisk: the epoch stores' own indices are persisted with their data and stay as they are; reading them back is not modelled.
- UnsolidBuffers.UnsolidCommitmentBuffer.Add: concurrent calls are not modelled.
- Seats.SeatedAccounts.Set: the return value for an accepted seat comes from a map that is not part of this model; here it is true.
- Walkers visit a commitment once even when it is pushed twice; the tree never pushes one twice, so the walks here keep no list of visited ones.
- Chains live in the manager's list for ever; reclaiming memory is not modelled.
- EvictionIndex is a value that its owner replaces, not an object of its own.
- The list of ancestors (`Commitments`), tickers, workers, event hooks, retry limits and timeouts.
- Sizes of directories and the estimates of pruning by size: they are numbers given from outside.
- Health tracking, copying and flushing of databases, and iteration over a realm.
- The block IDs that the verifier collects for a fork; the fork decision never uses them.
- Switching engines, candidate engines, snapshots, the network, the APIs and all other components.
