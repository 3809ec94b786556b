/**
 The storage's prune operations, each proved to compute the corresponding function on its state.
 */
module StoragePruning {
  import opened Options
  import opened Eviction
  import opened Buckets
  import opened PruningState
  import opened Prunables
  import opened Rollbacks
  import opened StorageRuns

  class StorageManager {
    const prunable: Prunable
    var lastPrunedEpoch: EvictionIndex
    var isPruning: bool

    ghost predicate Valid()
      reads this, prunable.Repr
    {
      this !in prunable.Repr && prunable.Valid()
    }

    ghost function Value(): Storage
      reads this, prunable.Repr
    {
      Storage(prunable.Value(), lastPrunedEpoch)
    }

    constructor (maxOpenDBs: nat, directorySize: Bucket -> nat)
      requires 0 < maxOpenDBs
      ensures Valid() && Inv(Value(), 0) && !isPruning
    {
      prunable := new Prunable(maxOpenDBs, directorySize);
      lastPrunedEpoch, isPruning := NOTHING_EVICTED, false;
    }

    /** Starts over from what is on disk; a last pruned epoch of 0 counts as none. */
    method RestoreFromDisk(dbInfos: seq<nat>)
      requires Valid() && lastPrunedEpoch == NOTHING_EVICTED
      requires prunable.prunableSlotStore.lastPrunedEpoch == NOTHING_EVICTED && prunable.prunableSlotStore.openDBs == []
      requires forall e :: e in dbInfos <==> e in prunable.prunableSlotStore.disk
      modifies this`lastPrunedEpoch, prunable.prunableSlotStore
      ensures Valid() && Value() == Restarted(old(Value()), dbInfos)
    {
      var lastPruned := prunable.prunableSlotStore.RestoreFromDisk(dbInfos);
      if lastPruned == 0 {
        return;
      }
      lastPrunedEpoch := lastPrunedEpoch.MarkEvicted(lastPruned);
    }

    /** Rolls the prunable storage back to a slot. */
    method RollbackPrunable(targetSlot: nat, tp: TimeProvider, maxCommittableAge: nat) returns (error: Option<Error>)
      requires Valid() && tp.Valid()
      requires tp.EpochFromSlot(targetSlot) + 1 < MODULUS && forall e :: e in prunable.Value().buckets ==> e + 1 < MODULUS
      modifies prunable.Repr
      ensures Valid() && Result(Value(), error) == RolledBack(old(Value()), tp, targetSlot, maxCommittableAge)
    {
      var ok := prunable.Rollback(targetSlot, tp, maxCommittableAge);
      error := if ok then None else Some(CommitteePruned);
    }

    /** The first epoch to prune, unless everything up to the given epoch is pruned. */
    function GetPruningStart(epoch: nat): Option<nat>
      reads this
    {
      if lastPrunedEpoch.index.Some? && epoch <= lastPrunedEpoch.index.value then None else Some(lastPrunedEpoch.NextIndex())
    }

    /** Prunes one epoch after the other; the index only moves when all of them succeed. */
    method PruneUntilEpoch(startEpoch: nat, targetEpoch: nat, pruningDelay: nat, fault: Fault) returns (ok: bool)
      requires Valid()
      modifies prunable.Repr, this`lastPrunedEpoch
      ensures Valid() && Outcome(prunable.Value(), ok) == PruneUntil(old(prunable.Value()), startEpoch, targetEpoch, pruningDelay, fault)
      ensures lastPrunedEpoch == if ok then EvictionIndex(Some(targetEpoch)) else old(lastPrunedEpoch)
    {
      hide PruneEpoch;
      var currentEpoch := startEpoch;
      while currentEpoch <= targetEpoch
        invariant Valid() && lastPrunedEpoch == old(lastPrunedEpoch)
        invariant PruneUntil(old(prunable.Value()), startEpoch, targetEpoch, pruningDelay, fault)
               == PruneUntil(prunable.Value(), currentEpoch, targetEpoch, pruningDelay, fault)
        decreases targetEpoch - currentEpoch
      {
        ok := PruneEpochEverywhere(currentEpoch, pruningDelay, fault);
        if !ok {
          return;
        }
        currentEpoch := currentEpoch + 1;
      }
      lastPrunedEpoch := lastPrunedEpoch.MarkEvicted(targetEpoch);
      ok := true;
    }

    /** Prunes an epoch in the prunable storage and then in the ledger. */
    method PruneEpochEverywhere(epoch: nat, pruningDelay: nat, fault: Fault) returns (ok: bool)
      requires Valid()
      modifies prunable.Repr
      ensures Valid() && Outcome(prunable.Value(), ok) == PruneEpoch(old(prunable.Value()), epoch, pruningDelay, fault)
    {
      ok := prunable.Prune(epoch, pruningDelay, if fault == FaultAt(epoch, 5) then NoFault else fault);
      if ok && fault == FaultAt(epoch, 5) {
        ok := false;
      }
    }

    method PruneByEpochIndex(epoch: nat, finalizedEpoch: nat, fault: Fault) returns (error: Option<Error>)
      requires Valid()
      modifies this, prunable.Repr
      ensures Valid() && Result(Value(), error) == PruningState.PruneByEpochIndex(old(Value()), finalizedEpoch, epoch, fault)
      ensures isPruning == (if error == None || error == Some(Failed) then false else old(isPruning))
    {
      if epoch > LatestPrunable(finalizedEpoch) {
        return Some(TooNew);
      }
      var start := GetPruningStart(epoch);
      if start.None? {
        return Some(TooOld);
      }
      isPruning := true;
      var ok := PruneUntilEpoch(start.value, epoch, 0, fault);
      isPruning := false;
      error := if ok then None else Some(Failed);
    }

    method PruneByDepth(epochDepth: nat, finalizedEpoch: nat, fault: Fault)
      returns (firstPruned: nat, lastPruned: nat, error: Option<Error>)
      requires Valid()
      modifies this, prunable.Repr
      ensures Valid() && Result(Value(), error) == PruningState.PruneByDepth(old(Value()), finalizedEpoch, epochDepth, fault)
      ensures error.None? ==> firstPruned == old(lastPrunedEpoch).NextIndex() && lastPrunedEpoch.index == Some(lastPruned)
    {
      var depth := epochDepth;
      if depth == 0 {
        depth := 1;
      }
      if depth > LatestPrunable(finalizedEpoch) {
        return 0, 0, Some(NoPruningNeeded);
      }
      var end := LatestPrunable(finalizedEpoch) - (depth - 1);
      var start := GetPruningStart(end);
      if start.None? {
        return 0, 0, Some(Error.EpochPruned);
      }
      isPruning := true;
      var ok := PruneUntilEpoch(start.value, end, depth, fault);
      isPruning := false;
      if !ok {
        return 0, 0, Some(Failed);
      }
      return start.value, end, None;
    }

    /** Prunes the oldest epochs until enough bytes are taken to be free. */
    method PruneBySize(z: Sizes, finalizedEpoch: nat, fault: Fault) returns (error: Option<Error>)
      requires Valid()
      modifies this, prunable.Repr
      ensures Valid() && Result(Value(), error) == PruningState.PruneBySize(old(Value()), finalizedEpoch, z, fault)
    {
      if !z.due {
        return Some(NoPruningNeeded);
      }
      var latestPrunableEpoch := LatestPrunable(finalizedEpoch);
      var start := GetPruningStart(latestPrunableEpoch);
      if start.None? {
        return Some(Error.EpochPruned);
      }
      isPruning := true;
      error := PruneEpochs(start.value, latestPrunableEpoch, z, fault);
      isPruning := false;
    }

    method PruneEpochs(start: nat, latestPrunableEpoch: nat, z: Sizes, fault: Fault) returns (error: Option<Error>)
      requires Valid() && start == lastPrunedEpoch.NextIndex()
      modifies prunable.Repr, this`lastPrunedEpoch
      ensures Valid() && Result(Value(), error) == PruneWhileFull(old(Value()), start, latestPrunableEpoch, z, fault)
    {
      hide PruneUntil;
      var totalBytesToPrune := z.bytesToPrune;
      var prunedEpoch := start;
      while prunedEpoch <= latestPrunableEpoch
        invariant Valid() && prunedEpoch == lastPrunedEpoch.NextIndex()
        invariant PruneWhileFull(old(Value()), start, latestPrunableEpoch, z, fault)
               == PruneWhileFull(Value(), prunedEpoch, latestPrunableEpoch, z.(bytesToPrune := totalBytesToPrune), fault)
        decreases latestPrunableEpoch - prunedEpoch
      {
        totalBytesToPrune := totalBytesToPrune - z.freed(prunedEpoch);
        var ok := PruneUntilEpoch(prunedEpoch, prunedEpoch, 0, fault);
        if !ok {
          return Some(Failed);
        }
        if totalBytesToPrune <= 0 {
          return None;
        }
        prunedEpoch := prunedEpoch + 1;
      }
      error := if z.stillFull then Some(DatabaseFull) else None;
    }
  }
}
