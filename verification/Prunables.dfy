/**
 The prunable part of the storage: slot buckets and epoch stores that are pruned and rolled back together.
 */
module Prunables {
  import opened Options
  import opened EpochStores
  import opened Buckets
  import opened PruningState
  import opened Rollbacks

  class Prunable {
    const prunableSlotStore: BucketManager
    const decidedUpgradeSignals: EpochStore<Data>
    const poolRewards: EpochStore<Data>
    const poolStats: EpochStore<Data>
    const committee: EpochStore<bool>

    ghost const Repr: set<object> := {prunableSlotStore, decidedUpgradeSignals, poolRewards, poolStats, committee}

    ghost predicate Valid()
      reads Repr
    {
      && decidedUpgradeSignals != poolRewards && decidedUpgradeSignals != poolStats && poolRewards != poolStats
      && decidedUpgradeSignals.pruningDelay == SIGNALS_DELAY && poolRewards.pruningDelay == REWARDS_DELAY
      && poolStats.pruningDelay == STATS_DELAY && committee.pruningDelay == COMMITTEE_DELAY
      && prunableSlotStore.Valid()
      && Clean(decidedUpgradeSignals.Value()) && Clean(poolRewards.Value()) && Clean(poolStats.Value()) && Clean(committee.Value())
    }

    ghost function Value(): History
      reads Repr
    {
      History(prunableSlotStore.disk, prunableSlotStore.lastPrunedEpoch,
              decidedUpgradeSignals.Value(), poolRewards.Value(), poolStats.Value(), committee.Value())
    }

    constructor (maxOpenDBs: nat, directorySize: Bucket -> nat)
      requires 0 < maxOpenDBs
      ensures Valid() && Value() == NO_HISTORY && fresh(Repr)
    {
      prunableSlotStore := new BucketManager(maxOpenDBs, directorySize);
      decidedUpgradeSignals := new EpochStore<Data>(SIGNALS_DELAY);
      poolRewards := new EpochStore<Data>(REWARDS_DELAY);
      poolStats := new EpochStore<Data>(STATS_DELAY);
      committee := new EpochStore<bool>(COMMITTEE_DELAY);
    }

    /** Prunes an epoch in one component after the other until one of them reports an error. */
    method Prune(epoch: nat, defaultPruningDelay: nat, fault: Fault) returns (ok: bool)
      requires Valid() && (Real(fault) && fault.epoch == epoch ==> fault.component < 5)
      modifies Repr
      ensures Valid() && Outcome(Value(), ok) == PruneEpoch(old(Value()), epoch, defaultPruningDelay, fault)
    {
      ok := prunableSlotStore.Prune(epoch);
      if !ok || fault == FaultAt(epoch, 1) {
        return false;
      }
      decidedUpgradeSignals.Prune(epoch, defaultPruningDelay);
      if fault == FaultAt(epoch, 2) {
        return false;
      }
      poolRewards.Prune(epoch, defaultPruningDelay);
      if fault == FaultAt(epoch, 3) {
        return false;
      }
      poolStats.Prune(epoch, defaultPruningDelay);
      if fault == FaultAt(epoch, 4) {
        return false;
      }
      committee.Prune(epoch, defaultPruningDelay);
    }

    /** Whether the committee of an epoch has to go; fails when the committee to consult is pruned. */
    method ShouldRollbackCommittee(epoch: nat, targetSlot: nat, tp: TimeProvider, maxCommittableAge: nat) returns (r: Option<bool>)
      requires Valid() && tp.Valid() && epoch > tp.EpochFromSlot(targetSlot)
      ensures Valid()
      ensures if CommitteeGone(Value(), tp, targetSlot, maxCommittableAge) then r.None?
              else r == Some(CommitteesToDrop(Value(), tp, targetSlot, maxCommittableAge) != {})
    {
      var targetSlotEpoch := tp.EpochFromSlot(targetSlot);
      var pointOfNoReturn := (tp.EpochEnd(targetSlotEpoch) - maxCommittableAge) % MODULUS;
      if epoch >= targetSlotEpoch + 1 {
        if targetSlot < pointOfNoReturn {
          var loaded := committee.Load(targetSlotEpoch + 1);
          match loaded
          case EpochPruned => return None;
          case Missing => return Some(false);
          case Found(reused) => return Some(reused);
        }
        return Some(false);
      }
      return Some(true);
    }

    /** Removes the entries of an epoch from the reward, stats and upgrade-signal stores. */
    method DeleteEpoch(epoch: nat)
      requires Valid()
      modifies poolRewards, poolStats, decidedUpgradeSignals
      ensures Valid() && Value() == DropEpochs(old(Value()), epoch, epoch + 1)
    {
      ghost var h := Value();
      poolRewards.DeleteEpoch(epoch);
      poolStats.DeleteEpoch(epoch);
      decidedUpgradeSignals.DeleteEpoch(epoch);
      assert Minus(h.rewards.values, epoch, epoch + 1) == h.rewards.values - {epoch};
      assert Minus(h.stats.values, epoch, epoch + 1) == h.stats.values - {epoch};
      assert Minus(h.signals.values, epoch, epoch + 1) == h.signals.values - {epoch};
    }

    /** Removes the committee and the bucket of an epoch after the target's; tells whether there was a bucket. */
    method DeleteLater(epoch: nat, targetSlot: nat, tp: TimeProvider, maxCommittableAge: nat) returns (failed: bool, deleted: bool)
      requires Valid() && tp.Valid() && epoch > tp.EpochFromSlot(targetSlot)
      requires epoch > tp.EpochFromSlot(targetSlot) + 1 ==> CommitteesToDrop(Value(), tp, targetSlot, maxCommittableAge) == {}
      modifies prunableSlotStore, committee
      ensures Valid() && failed == CommitteeGone(old(Value()), tp, targetSlot, maxCommittableAge)
      ensures deleted == (!failed && epoch in old(Value()).buckets)
      ensures Value() == if failed then old(Value())
                         else old(Value()).(buckets := old(Value()).buckets - {epoch},
                                            committee := WithoutCommittees(old(Value()), tp, targetSlot, maxCommittableAge))
    {
      ghost var h := Value();
      var shouldRollback := ShouldRollbackCommittee(epoch, targetSlot, tp, maxCommittableAge);
      if shouldRollback.None? {
        return true, false;
      }
      if shouldRollback.value {
        committee.DeleteEpoch(epoch);
      }
      deleted := prunableSlotStore.DeleteBucket(epoch);
      failed := false;
      assert WithoutCommittees(h, tp, targetSlot, maxCommittableAge).values == committee.values;
    }

    /** Removes the later slots of the target's epoch, and closes all buckets. */
    method CutTarget(targetSlot: nat, tp: TimeProvider)
      requires Valid() && tp.Valid()
      modifies prunableSlotStore
      ensures Valid() && Value() == old(Value()).(buckets := CutBucket(old(Value()), tp, targetSlot))
    {
      SlotInEpoch(tp, targetSlot, 0);
      var epoch := tp.EpochFromSlot(targetSlot);
      prunableSlotStore.RollbackBucket(epoch, targetSlot, tp.EpochEnd(epoch));
      prunableSlotStore.Shutdown();
    }

    /** One epoch of a rollback: tells whether the rollback ends here, and how. */
    method RollEpoch(epoch: nat, targetSlot: nat, tp: TimeProvider, maxCommittableAge: nat, ghost h: History) returns (finished: bool, ok: bool)
      requires Valid() && tp.Valid() && FirstUncommitted(tp, targetSlot) <= epoch <= EndOfBuckets(h, tp, targetSlot)
      requires Value() == Rolling(h, tp, targetSlot, maxCommittableAge, epoch)
      requires epoch > tp.EpochFromSlot(targetSlot) + 1 ==> !CommitteeGone(h, tp, targetSlot, maxCommittableAge)
      modifies Repr
      ensures Valid()
      ensures finished ==> Outcome(Value(), ok) == RollBack(h, tp, targetSlot, maxCommittableAge)
      ensures !finished ==> epoch < EndOfBuckets(h, tp, targetSlot) && Value() == Rolling(h, tp, targetSlot, maxCommittableAge, epoch + 1)
      ensures !finished && epoch > tp.EpochFromSlot(targetSlot) ==> !CommitteeGone(h, tp, targetSlot, maxCommittableAge) && epoch in h.buckets
    {
      hide Rolling, RollBack, DropEpochs, CommitteeGone, CommitteesToDrop, WithoutCommittees, CutBucket,
           EndOfBuckets, FirstUncommitted, TimeProvider.EpochFromSlot;
      if epoch <= tp.EpochFromSlot(targetSlot) {
        RollingEpoch(h, tp, targetSlot, maxCommittableAge, epoch);
      } else {
        RollingCommittees(h, tp, targetSlot, maxCommittableAge, epoch);
        RollingLater(h, tp, targetSlot, maxCommittableAge, epoch);
        RollingBucket(h, tp, targetSlot, maxCommittableAge, epoch);
        var failed, deleted := DeleteLater(epoch, targetSlot, tp, maxCommittableAge);
        if failed {
          RollingFails(h, tp, targetSlot, maxCommittableAge);
          return true, false;
        }
        if !deleted {
          RollingEnds(h, tp, targetSlot, maxCommittableAge);
          return true, true;
        }
      }
      DeleteEpoch(epoch);
      finished, ok := false, true;
    }

    /** Rolls everything back to a slot: removes what was stored for later slots and for epochs that were not committed. */
    method Rollback(targetSlot: nat, tp: TimeProvider, maxCommittableAge: nat) returns (ok: bool)
      requires Valid() && tp.Valid()
      requires tp.EpochFromSlot(targetSlot) + 1 < MODULUS && forall e :: e in Value().buckets ==> e + 1 < MODULUS
      modifies Repr
      ensures Valid() && Outcome(Value(), ok) == RollBack(old(Value()), tp, targetSlot, maxCommittableAge)
    {
      hide Rolling, RollBack, DropEpochs, CommitteeGone, CommitteesToDrop, WithoutCommittees, CutBucket,
           EndOfBuckets, FirstUncommitted, LastCommittedEpoch, TimeProvider.EpochFromSlot;
      ghost var h := Value();
      SlotInEpoch(tp, targetSlot, 0);
      var targetSlotEpoch := tp.EpochFromSlot(targetSlot);
      var lastCommittedEpoch := LastCommittedEpoch(tp, targetSlot);
      CutTarget(targetSlot, tp);

      var epoch := (lastCommittedEpoch + 1) % MODULUS;
      ghost var first, next := FirstUncommitted(tp, targetSlot), EndOfBuckets(h, tp, targetSlot);
      RollingStarts(h, tp, targetSlot, maxCommittableAge);
      while true
        invariant Valid() && first <= epoch <= next && (epoch > targetSlotEpoch + 1 ==> !CommitteeGone(h, tp, targetSlot, maxCommittableAge))
        invariant Value() == Rolling(h, tp, targetSlot, maxCommittableAge, epoch)
        decreases next - epoch
      {
        var finished;
        finished, ok := RollEpoch(epoch, targetSlot, tp, maxCommittableAge, h);
        if finished {
          return;
        }
        epoch := (epoch + 1) % MODULUS;
      }
    }
  }
}
