/**
 The slot data of the node, in one bucket per epoch: a bounded number of buckets is
 open at a time, and buckets are pruned, deleted or rolled back as a whole.
 */
module Buckets {
  import opened Options
  import opened Eviction
  import opened Recency

  type Data = seq<bv8>
  type Bucket = map<nat, Data>  // what is stored for each slot

  /** The slots of a bucket outside a range. */
  function Without(b: Bucket, first: nat, last: nat): Bucket {
    map slot | slot in b && !(first <= slot <= last) :: b[slot]
  }

  /** What counts as pruned when the given buckets are found on disk. */
  function RestoredBuckets(dbInfos: seq<nat>): EvictionIndex {
    if dbInfos != [] && dbInfos[0] > 0 then EvictionIndex(Some(dbInfos[0] - 1)) else NOTHING_EVICTED
  }

  class BucketManager {
    const maxOpenDBs: nat
    const directorySize: Bucket -> nat

    var disk: map<nat, Bucket>          // the directories of the buckets
    var openDBs: seq<nat>               // the open buckets, most recently used first
    var dbSizes: map<nat, nat>          // the measured sizes of closed buckets
    var lastPrunedEpoch: EvictionIndex

    /** The open buckets are bounded, and a closed bucket's cached size is its actual size. */
    ghost predicate Valid()
      reads this
    {
      && 0 < maxOpenDBs && |openDBs| <= maxOpenDBs && Distinct(openDBs)
      && (forall e :: e in openDBs ==> e in disk)
      && (forall e :: e in dbSizes ==> e !in openDBs && e in disk && dbSizes[e] == directorySize(disk[e]))
    }

    constructor (maxOpenDBs: nat, directorySize: Bucket -> nat)
      requires 0 < maxOpenDBs
      ensures Valid() && disk == map[] && lastPrunedEpoch == NOTHING_EVICTED
      ensures this.maxOpenDBs == maxOpenDBs && this.directorySize == directorySize
    {
      this.maxOpenDBs, this.directorySize := maxOpenDBs, directorySize;
      disk, openDBs, dbSizes, lastPrunedEpoch := map[], [], map[], NOTHING_EVICTED;
    }

    predicate IsTooOld(epoch: nat)
      reads this
    {
      epoch < lastPrunedEpoch.NextIndex()
    }

    /** Closes the least recently used bucket when there is no room for another one. */
    method MakeRoom()
      requires Valid()
      modifies this`openDBs, this`dbSizes
      ensures Valid() && openDBs == First(old(openDBs), maxOpenDBs - 1)
      ensures forall e :: e in openDBs || e in dbSizes <==> e in old(openDBs) || e in old(dbSizes)
    {
      if |openDBs| == maxOpenDBs {
        var last := openDBs[|openDBs| - 1];
        openDBs := openDBs[..|openDBs| - 1];
        dbSizes := dbSizes[last := directorySize(disk[last])];
      }
    }

    /** Opens the bucket of an epoch, which is created when it does not exist. */
    method GetDBInstance(epoch: nat)
      requires Valid()
      modifies this`disk, this`openDBs, this`dbSizes
      ensures Valid() && openDBs == Use(old(openDBs), maxOpenDBs, epoch) && openDBs != [] && openDBs[0] == epoch
      ensures forall e :: e in openDBs || e in dbSizes <==> e == epoch || e in old(openDBs) || e in old(dbSizes)
      ensures disk == if epoch in old(disk) then old(disk) else old(disk)[epoch := map[]]
    {
      if epoch in openDBs {
        RemoveKeepsDistinct(openDBs, epoch);
        openDBs := [epoch] + Remove(openDBs, epoch);
      } else {
        if epoch !in disk {
          disk := disk[epoch := map[]];
        }
        dbSizes := dbSizes - {epoch};
        MakeRoom();
        openDBs := [epoch] + openDBs;
      }
    }

    /** Starts over from the buckets on disk, given in ascending order: everything before the oldest one counts as pruned. All
        buckets are opened in turn, so that the latest ones stay open and the sizes of the others are known. */
    method RestoreFromDisk(dbInfos: seq<nat>) returns (lastPruned: nat)
      requires Valid() && lastPrunedEpoch == NOTHING_EVICTED && openDBs == []
      requires forall e :: e in dbInfos <==> e in disk
      modifies this`openDBs, this`dbSizes, this`lastPrunedEpoch, this`disk
      ensures Valid() && disk == old(disk) && lastPrunedEpoch == RestoredBuckets(dbInfos)
      ensures lastPruned == if lastPrunedEpoch.index.Some? then lastPrunedEpoch.index.value else 0
      ensures openDBs == First(LatestFirst(dbInfos), maxOpenDBs)
      ensures forall e :: e in disk ==> e in openDBs || e in dbSizes
    {
      lastPruned := 0;
      if |dbInfos| == 0 {
        return;
      }
      if dbInfos[0] > 0 {
        lastPruned := dbInfos[0] - 1;
        lastPrunedEpoch := lastPrunedEpoch.MarkEvicted(lastPruned);
      }
      OpenAll(dbInfos);
    }

    /** Opens all buckets one after the other. */
    method OpenAll(dbInfos: seq<nat>)
      requires Valid() && maxOpenDBs > 0 && openDBs == [] && forall e :: e in dbInfos <==> e in disk
      modifies this`openDBs, this`dbSizes, this`disk
      ensures Valid() && disk == old(disk) && openDBs == First(LatestFirst(dbInfos), maxOpenDBs)
      ensures forall e :: e in disk ==> e in openDBs || e in dbSizes
    {
      hide Valid, Use;
      for i := 0 to |dbInfos|
        invariant Valid() && disk == old(disk) && openDBs == First(LatestFirst(dbInfos[..i]), maxOpenDBs)
        invariant forall e :: e in dbInfos[..i] ==> e in openDBs || e in dbSizes
        invariant maxOpenDBs > 0
      {
        assert dbInfos[..i + 1] == dbInfos[..i] + [dbInfos[i]];
        UseKeepsMostRecent(dbInfos[..i], maxOpenDBs, dbInfos[i]);
        GetDBInstance(dbInfos[i]);
      }
      assert dbInfos[..|dbInfos|] == dbInfos;
    }

    /** Access to a bucket is refused exactly when its epoch has been pruned. */
    method Get(epoch: nat) returns (ok: bool)
      requires Valid()
      modifies this`disk, this`openDBs, this`dbSizes
      ensures Valid() && ok == !lastPrunedEpoch.IsEvicted(epoch)
      ensures disk == if !ok || epoch in old(disk) then old(disk) else old(disk)[epoch := map[]]
      ensures ok ==> epoch in openDBs
    {
      if IsTooOld(epoch) {
        return false;
      }
      GetDBInstance(epoch);
      ok := true;
    }

    /** The size of a bucket as far as it is known: of an open or a measured one. Looking up an open bucket uses it. */
    method BucketSize(epoch: nat) returns (size: nat)
      requires Valid()
      modifies this`openDBs
      ensures Valid() && size == if epoch in old(openDBs) || epoch in dbSizes then directorySize(disk[epoch]) else 0
      ensures openDBs == if epoch in old(openDBs) then Use(old(openDBs), maxOpenDBs, epoch) else old(openDBs)
    {
      if epoch in dbSizes {
        return dbSizes[epoch];
      }
      if epoch !in openDBs {
        return 0;
      }
      RemoveKeepsDistinct(openDBs, epoch);
      openDBs := [epoch] + Remove(openDBs, epoch);
      size := directorySize(disk[epoch]);
    }

    method Shutdown()
      requires Valid()
      modifies this`openDBs
      ensures Valid() && openDBs == []
    {
      openDBs := [];
    }

    /** Deletes the bucket of an epoch; tells whether there was one. */
    method DeleteBucket(epoch: nat) returns (deleted: bool)
      requires Valid()
      modifies this`disk, this`openDBs, this`dbSizes
      ensures Valid() && deleted == (epoch in old(disk)) && disk == old(disk) - {epoch}
    {
      if epoch !in disk {
        return false;
      }
      RemoveKeepsDistinct(openDBs, epoch);
      openDBs := Remove(openDBs, epoch);
      disk := disk - {epoch};
      dbSizes := dbSizes - {epoch};
      deleted := true;
    }

    /** Deletes the bucket of an epoch for good; only an epoch below the last pruned one is refused. */
    method Prune(epoch: nat) returns (ok: bool)
      requires Valid()
      modifies this`disk, this`openDBs, this`dbSizes, this`lastPrunedEpoch
      ensures Valid()
      ensures ok == (old(lastPrunedEpoch).index.None? || epoch >= old(lastPrunedEpoch).index.value)
      ensures disk == if ok then old(disk) - {epoch} else old(disk)
      ensures lastPrunedEpoch == if ok then EvictionIndex(Some(epoch)) else old(lastPrunedEpoch)
    {
      if epoch < (if lastPrunedEpoch.index.Some? then lastPrunedEpoch.index.value else 0) {
        return false;
      }
      var deleted := DeleteBucket(epoch);
      lastPrunedEpoch := lastPrunedEpoch.MarkEvicted(epoch);
      ok := true;
    }

    /** Removes a slot from the bucket that was opened last. */
    method ClearSlot(epoch: nat, slot: nat)
      requires Valid() && openDBs != [] && openDBs[0] == epoch
      modifies this`disk
      ensures Valid() && disk == old(disk)[epoch := old(disk)[epoch] - {slot}]
    {
      disk := disk[epoch := disk[epoch] - {slot}];
    }

    /** Removes the slots after a target from the bucket of an epoch, one slot at a time. */
    method RollbackBucket(epoch: nat, targetSlot: nat, epochEndSlot: nat)
      requires Valid()
      modifies this`disk, this`openDBs, this`dbSizes
      ensures Valid()
      ensures var b := if epoch in old(disk) then old(disk)[epoch] else map[];
              disk == old(disk)[epoch := Without(b, targetSlot + 1, epochEndSlot)]
    {
      hide Valid, Use;
      GetDBInstance(epoch);
      ghost var b := disk[epoch];
      var clearSlot := targetSlot + 1;
      assert Without(b, targetSlot + 1, targetSlot) == b;
      while clearSlot <= epochEndSlot
        invariant clearSlot > targetSlot && (clearSlot <= epochEndSlot + 1 || clearSlot == targetSlot + 1)
        invariant Valid() && openDBs != [] && openDBs[0] == epoch
        invariant disk == old(disk)[epoch := Without(b, targetSlot + 1, clearSlot - 1)]
        decreases epochEndSlot - clearSlot
      {
        ClearSlot(epoch, clearSlot);
        assert Without(b, targetSlot + 1, clearSlot - 1) - {clearSlot} == Without(b, targetSlot + 1, clearSlot);
        clearSlot := clearSlot + 1;
      }
      assert Without(b, targetSlot + 1, clearSlot - 1) == Without(b, targetSlot + 1, epochEndSlot);
    }
  }
}
