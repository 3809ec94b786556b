/**
 Pruning of the node's history as functions on its state, and what holds over whole runs of prune calls.
 */
module PruningState {
  import opened Options
  import opened Eviction
  import opened EpochStores
  import opened Buckets

  const SIGNALS_DELAY := 7
  const REWARDS_DELAY := 365
  const STATS_DELAY := 365
  const COMMITTEE_DELAY := 365

  /** The slot buckets and the epoch stores; of a committee only matters whether it was reused. */
  datatype History = History(
    buckets: map<nat, Bucket>,
    bucketsPruned: EvictionIndex,
    signals: Entries<Data>,
    rewards: Entries<Data>,
    stats: Entries<Data>,
    committee: Entries<bool>)

  const NO_HISTORY := History(map[], NOTHING_EVICTED, NO_ENTRIES, NO_ENTRIES, NO_ENTRIES, NO_COMMITTEES)
  const NO_ENTRIES: Entries<Data> := Entries(map[], NOTHING_EVICTED)
  const NO_COMMITTEES: Entries<bool> := Entries(map[], NOTHING_EVICTED)

  /** An error reported while an epoch is pruned, by the epoch stores in their order (1 to 4) or by the ledger (5). */
  datatype Fault = NoFault | FaultAt(epoch: nat, component: nat)

  /** An error that some component reports. */
  predicate Real(f: Fault) {
    f.FaultAt? && 1 <= f.component <= 5
  }

  datatype Outcome = Outcome(history: History, ok: bool)

  /** The bucket store refuses epochs below the last one it pruned. */
  predicate Refused(h: History, epoch: nat) {
    h.bucketsPruned.index.Some? && epoch < h.bucketsPruned.index.value
  }

  function PruneBucket(h: History, epoch: nat): History {
    h.(buckets := h.buckets - {epoch}, bucketsPruned := h.bucketsPruned.MarkEvicted(epoch))
  }

  /** The epoch stores before the given component prune. */
  function PruneStores(h: History, epoch: nat, delay: nat, component: nat): History {
    h.(signals := if component > 1 then PruneEntries(h.signals, SIGNALS_DELAY, epoch, delay) else h.signals,
       rewards := if component > 2 then PruneEntries(h.rewards, REWARDS_DELAY, epoch, delay) else h.rewards,
       stats := if component > 3 then PruneEntries(h.stats, STATS_DELAY, epoch, delay) else h.stats,
       committee := if component > 4 then PruneEntries(h.committee, COMMITTEE_DELAY, epoch, delay) else h.committee)
  }

  function PruneEpoch(h: History, epoch: nat, delay: nat, f: Fault): Outcome {
    if Refused(h, epoch) then Outcome(h, false)
    else if Real(f) && f.epoch == epoch then Outcome(PruneStores(PruneBucket(h, epoch), epoch, delay, f.component), false)
    else Outcome(PruneStores(PruneBucket(h, epoch), epoch, delay, 5), true)
  }

  function PruneUntil(h: History, start: nat, target: nat, delay: nat, f: Fault): Outcome
    decreases target + 1 - start
  {
    if start > target then Outcome(h, true)
    else
      var r := PruneEpoch(h, start, delay, f);
      if !r.ok then r else PruneUntil(r.history, start + 1, target, delay, f)
  }

  /** Everything up to the target pruned at once: the reference for pruning epoch by epoch. */
  function PrunedAtOnce(h: History, target: nat, delay: nat): History {
    PruneStores(h.(buckets := (map e | e in h.buckets && e > target :: h.buckets[e]), bucketsPruned := h.bucketsPruned.MarkEvicted(target)),
                target, delay, 5)
  }

  /** Nothing is stored for a pruned epoch. */
  ghost predicate Tidy(h: History) {
    && (forall e :: e in h.buckets ==> !h.bucketsPruned.IsEvicted(e))
    && Clean(h.signals) && Clean(h.rewards) && Clean(h.stats) && Clean(h.committee)
  }

  /** Continuing where the last pruning ended, pruning epoch by epoch amounts to pruning at once. */
  lemma {:induction false} PruneUntilIsAtOnce(h: History, start: nat, target: nat, delay: nat, f: Fault)
    requires Tidy(h) && start == h.bucketsPruned.NextIndex() && start <= target
    requires Real(f) ==> !(start <= f.epoch <= target)
    ensures PruneUntil(h, start, target, delay, f) == Outcome(PrunedAtOnce(h, target, delay), true)
    ensures Tidy(PrunedAtOnce(h, target, delay))
    decreases target - start
  {
    var h1 := PruneEpoch(h, start, delay, f).history;
    assert h1.buckets == map e | e in h.buckets && e > start :: h.buckets[e];
    if start < target {
      PruneUntilIsAtOnce(h1, start + 1, target, delay, f);
      PruneNext(h.signals, SIGNALS_DELAY, start, target, delay);
      PruneNext(h.rewards, REWARDS_DELAY, start, target, delay);
      PruneNext(h.stats, STATS_DELAY, start, target, delay);
      PruneNext(h.committee, COMMITTEE_DELAY, start, target, delay);
      assert PrunedAtOnce(h1, target, delay).buckets == PrunedAtOnce(h, target, delay).buckets;
    }
  }

  /** A fault stops the pruning at its epoch, whose bucket is already gone. */
  lemma {:induction false} PruneUntilFault(h: History, start: nat, target: nat, delay: nat, f: Fault)
    requires start == h.bucketsPruned.NextIndex() && Real(f) && start <= f.epoch <= target
    ensures var r := PruneUntil(h, start, target, delay, f);
            !r.ok && r.history.bucketsPruned == EvictionIndex(Some(f.epoch))
    decreases f.epoch - start
  {
    if start < f.epoch {
      PruneUntilFault(PruneEpoch(h, start, delay, f).history, start + 1, target, delay, f);
    }
  }

  // ----- The storage -----

  datatype Storage = Storage(history: History, lastPruned: EvictionIndex)

  datatype Error = TooNew | TooOld | NoPruningNeeded | EpochPruned | DatabaseFull | CommitteePruned | Failed

  datatype Result = Result(storage: Storage, error: Option<Error>)

  /** The newest epoch that may be pruned when the given epoch is the finalized one. */
  function LatestPrunable(finalized: nat): nat {
    if finalized < 2 then 0 else finalized - 2
  }

  function Prune(s: Storage, target: nat, delay: nat, f: Fault): Result {
    var r := PruneUntil(s.history, s.lastPruned.NextIndex(), target, delay, f);
    if r.ok then Result(Storage(r.history, s.lastPruned.MarkEvicted(target)), None)
    else Result(s.(history := r.history), Some(Failed))
  }

  function PruneByEpochIndex(s: Storage, finalized: nat, epoch: nat, f: Fault): Result {
    if epoch > LatestPrunable(finalized) then Result(s, Some(TooNew))
    else if s.lastPruned.IsEvicted(epoch) then Result(s, Some(TooOld))
    else Prune(s, epoch, 0, f)
  }

  function PruneByDepth(s: Storage, finalized: nat, epochDepth: nat, f: Fault): Result {
    var depth := if epochDepth == 0 then 1 else epochDepth;
    if depth > LatestPrunable(finalized) then Result(s, Some(NoPruningNeeded))
    else
      var end := LatestPrunable(finalized) - (depth - 1);
      if s.lastPruned.IsEvicted(end) then Result(s, Some(Error.EpochPruned)) else Prune(s, end, depth, f)
  }

  /** What pruning by size goes by: whether it is due, the bytes to free, the bytes that each epoch is taken to free,
      and whether the database is still too big when nothing prunable is left. */
  datatype Sizes = Sizes(due: bool, bytesToPrune: int, freed: nat -> int, stillFull: bool)

  /** Prunes one epoch at a time until the freed bytes suffice or nothing prunable is left. */
  function PruneWhileFull(s: Storage, next: nat, latest: nat, z: Sizes, f: Fault): Result
    decreases latest + 1 - next
  {
    if next > latest then Result(s, if z.stillFull then Some(DatabaseFull) else None)
    else
      var r := Prune(s, next, 0, f);
      if r.error.Some? || z.bytesToPrune - z.freed(next) <= 0 then r
      else PruneWhileFull(r.storage, next + 1, latest, z.(bytesToPrune := z.bytesToPrune - z.freed(next)), f)
  }

  function PruneBySize(s: Storage, finalized: nat, z: Sizes, f: Fault): Result {
    if !z.due then Result(s, Some(NoPruningNeeded))
    else if s.lastPruned.IsEvicted(LatestPrunable(finalized)) then Result(s, Some(Error.EpochPruned))
    else PruneWhileFull(s, s.lastPruned.NextIndex(), LatestPrunable(finalized), z, f)
  }

  /** Nothing beyond the newest prunable epoch is pruned, and each epoch store keeps as many full epochs as its delay says. */
  ghost predicate Within(h: History, finalized: nat) {
    && Tidy(h)
    && (h.bucketsPruned.index.Some? ==> h.bucketsPruned.index.value <= LatestPrunable(finalized))
    && Keeps(h.signals.pruned, SIGNALS_DELAY, finalized)
    && Keeps(h.rewards.pruned, REWARDS_DELAY, finalized)
    && Keeps(h.stats.pruned, STATS_DELAY, finalized)
    && Keeps(h.committee.pruned, COMMITTEE_DELAY, finalized)
  }

  /** What holds even after errors: the storage's index may lag behind the bucket store's, but never passes it. */
  ghost predicate Whole(s: Storage, finalized: nat) {
    Within(s.history, finalized) && s.lastPruned.NextIndex() <= s.history.bucketsPruned.NextIndex()
  }

  /** Both indices agree and never pass the newest prunable epoch; each epoch store keeps as many full epochs as its delay says. */
  ghost predicate Inv(s: Storage, finalized: nat) {
    Within(s.history, finalized) && s.lastPruned == s.history.bucketsPruned
  }

  /** At least `epochs` full epochs before the finalized one are not pruned. */
  predicate Keeps(pruned: EvictionIndex, epochs: nat, finalized: nat) {
    pruned.index.Some? ==> pruned.index.value + epochs < finalized
  }

  /** Only buckets up to the new index are gone, and nothing else is, when an index moves from one state to another. */
  ghost predicate PrunedExactly(s: Storage, u: Storage) {
    && s.lastPruned.NextIndex() <= u.lastPruned.NextIndex()
    && u.history.buckets == map e | e in s.history.buckets && !u.lastPruned.IsEvicted(e) :: s.history.buckets[e]
  }

  /** One successful pruning up to a target that respects the delay it is called with. */
  lemma PruneKeepsInv(s: Storage, finalized: nat, target: nat, delay: nat)
    requires Inv(s, finalized) && !s.lastPruned.IsEvicted(target) && target <= LatestPrunable(finalized)
    requires delay > 0 ==> target + delay < finalized
    ensures var r := Prune(s, target, delay, NoFault);
            && r.error.None? && Inv(r.storage, finalized) && PrunedExactly(s, r.storage)
            && r.storage == Storage(PrunedAtOnce(s.history, target, delay), EvictionIndex(Some(target)))
  {
    PruneUntilIsAtOnce(s.history, s.lastPruned.NextIndex(), target, delay, NoFault);
  }

  // ----- Pruning by size and by depth -----

  lemma {:induction false} PruneWhileFullKeepsInv(s: Storage, finalized: nat, z: Sizes)
    requires Inv(s, finalized)
    ensures var r := PruneWhileFull(s, s.lastPruned.NextIndex(), LatestPrunable(finalized), z, NoFault);
            && Inv(r.storage, finalized) && PrunedExactly(s, r.storage)
            && (r.error.None? || (r.error == Some(DatabaseFull) && r.storage.lastPruned.NextIndex() > LatestPrunable(finalized)))
    decreases LatestPrunable(finalized) + 1 - s.lastPruned.NextIndex()
  {
    hide Prune, PrunedAtOnce, Keeps, Clean;
    var next := s.lastPruned.NextIndex();
    if next <= LatestPrunable(finalized) {
      PruneKeepsInv(s, finalized, next, 0);
      if z.bytesToPrune - z.freed(next) > 0 {
        PruneWhileFullKeepsInv(Prune(s, next, 0, NoFault).storage, finalized, z.(bytesToPrune := z.bytesToPrune - z.freed(next)));
      }
    }
  }

  /** A pruning by depth never touches an epoch above the finalized one minus one minus the depth. */
  lemma PruneByDepthKeepsDepth(s: Storage, finalized: nat, depth: nat)
    requires Inv(s, finalized) && depth >= 1
    ensures var r := PruneByDepth(s, finalized, depth, NoFault);
            && (r.error.None? ==> r.storage.lastPruned.index == Some(finalized - 1 - depth))
            && (r.error.None? <==> depth + 2 <= finalized && !s.lastPruned.IsEvicted(finalized - 1 - depth))
            && (forall e :: e in s.history.buckets && e + depth >= finalized ==> e in r.storage.history.buckets)
  {
    if depth <= LatestPrunable(finalized) && !s.lastPruned.IsEvicted(finalized - 1 - depth) {
      PruneKeepsInv(s, finalized, finalized - 1 - depth, depth);
    }
  }

  // ----- After an error -----

  lemma {:induction false} PruneUntilSucceeds(h: History, start: nat, target: nat, delay: nat)
    requires start <= target && !Refused(h, start)
    ensures PruneUntil(h, start, target, delay, NoFault).ok
    decreases target - start
  {
    if start < target {
      PruneUntilSucceeds(PruneEpoch(h, start, delay, NoFault).history, start + 1, target, delay);
    }
  }

  /** A pruning may be asked for: the target is prunable and respects the delay it comes with. */
  predicate Askable(finalized: nat, target: nat, delay: nat) {
    target <= LatestPrunable(finalized) && (delay > 0 ==> target + delay < finalized)
  }

  lemma PruneEpochWithin(h: History, epoch: nat, delay: nat, f: Fault, finalized: nat)
    requires Within(h, finalized) && epoch <= h.bucketsPruned.NextIndex() && Askable(finalized, epoch, delay)
    ensures var r := PruneEpoch(h, epoch, delay, f);
            && Within(r.history, finalized)
            && (if Refused(h, epoch) then r == Outcome(h, false) else r.history.bucketsPruned == EvictionIndex(Some(epoch)))
  {
  }

  /** Whatever error comes up, and wherever the bucket store stands ahead: what is kept stays kept. */
  lemma {:induction false} PruneUntilWithin(h: History, start: nat, target: nat, delay: nat, f: Fault, finalized: nat)
    requires Within(h, finalized) && start <= h.bucketsPruned.NextIndex() && start <= target && Askable(finalized, target, delay)
    ensures var r := PruneUntil(h, start, target, delay, f);
            && Within(r.history, finalized) && h.bucketsPruned.NextIndex() <= r.history.bucketsPruned.NextIndex()
            && (r.ok ==> r.history.bucketsPruned == EvictionIndex(Some(target)))
    decreases target - start
  {
    PruneEpochWithin(h, start, delay, f, finalized);
    hide Within;
    var r := PruneEpoch(h, start, delay, f);
    if r.ok && start < target {
      PruneUntilWithin(r.history, start + 1, target, delay, f, finalized);
    }
  }

  /** A pruning with any error keeps all but the agreement of the indices; one that succeeds restores it. */
  lemma PruneKeepsWhole(s: Storage, finalized: nat, target: nat, delay: nat, f: Fault)
    requires Whole(s, finalized) && !s.lastPruned.IsEvicted(target) && Askable(finalized, target, delay)
    ensures var r := Prune(s, target, delay, f);
            && Whole(r.storage, finalized) && s.lastPruned.NextIndex() <= r.storage.lastPruned.NextIndex()
            && (if r.error.None? then Inv(r.storage, finalized) && r.storage.lastPruned.index == Some(target)
                else r.storage.lastPruned == s.lastPruned)
  {
    PruneUntilWithin(s.history, s.lastPruned.NextIndex(), target, delay, f, finalized);
  }

  /** Pruning by size with any error. */
  lemma {:induction false} PruneWhileFullKeepsWhole(s: Storage, finalized: nat, z: Sizes, f: Fault)
    requires Whole(s, finalized)
    ensures var next := s.lastPruned.NextIndex(); var r := PruneWhileFull(s, next, LatestPrunable(finalized), z, f);
            && Whole(r.storage, finalized) && next <= r.storage.lastPruned.NextIndex()
            && (r.error != Some(Failed) && (next <= LatestPrunable(finalized) || Inv(s, finalized)) ==> Inv(r.storage, finalized))
    decreases LatestPrunable(finalized) + 1 - s.lastPruned.NextIndex()
  {
    var next := s.lastPruned.NextIndex();
    if next <= LatestPrunable(finalized) {
      PruneKeepsWhole(s, finalized, next, 0, f);
      hide Prune, Within;
      var r := Prune(s, next, 0, f);
      if r.error.None? && z.bytesToPrune - z.freed(next) > 0 {
        PruneWhileFullKeepsWhole(r.storage, finalized, z.(bytesToPrune := z.bytesToPrune - z.freed(next)), f);
      }
    }
  }

  /** After a pruning that an error interrupted, a direct retry succeeds exactly when the error came up in the first epoch;
      otherwise the bucket store refuses every further attempt until it is restored from disk. */
  lemma RetrySucceedsIff(s: Storage, finalized: nat, target: nat, delay: nat, f: Fault, again: nat, delayAgain: nat)
    requires Inv(s, finalized) && Real(f) && s.lastPruned.NextIndex() <= f.epoch <= target && s.lastPruned.NextIndex() <= again
    ensures var r := Prune(s, target, delay, f);
            && r.error == Some(Failed) && r.storage.lastPruned == s.lastPruned
            && (Prune(r.storage, again, delayAgain, NoFault).error.None? <==> f.epoch == s.lastPruned.NextIndex())
            && (f.epoch > s.lastPruned.NextIndex() ==> Prune(r.storage, again, delayAgain, NoFault).storage == r.storage)
  {
    var start := s.lastPruned.NextIndex();
    PruneUntilFault(s.history, start, target, delay, f);
    var h := Prune(s, target, delay, f).storage.history;
    if f.epoch == start {
      PruneUntilSucceeds(h, start, again, delayAgain);
    }
  }

  // ----- After a restart -----

  /** The storage takes a last pruned epoch of 0 for none. */
  function RestoredStorage(restored: EvictionIndex): EvictionIndex {
    if restored.index == Some(0) then NOTHING_EVICTED else restored
  }

  /** The buckets found on disk, in ascending order. */
  ghost predicate OnDisk(h: History, dbInfos: seq<nat>) {
    && (forall e :: e in dbInfos <==> e in h.buckets)
    && forall i, j :: 0 <= i < j < |dbInfos| ==> dbInfos[i] < dbInfos[j]
  }

  /** After a restart the two indices agree exactly when the oldest bucket on disk is not the one of epoch 1. The bucket store still
      knows what was pruned exactly when the oldest bucket is the first that was not pruned, and it never takes a bucket for pruned. */
  lemma RestoreAgreesIff(h: History, dbInfos: seq<nat>)
    requires OnDisk(h, dbInfos)
    ensures var restored := RestoredBuckets(dbInfos);
            && (RestoredStorage(restored) == restored <==> dbInfos == [] || dbInfos[0] != 1)
            && (restored == h.bucketsPruned <==>
                if dbInfos == [] then h.bucketsPruned == NOTHING_EVICTED else dbInfos[0] == h.bucketsPruned.NextIndex())
            && (forall e :: e in h.buckets ==> !restored.IsEvicted(e))
  {
    forall e | e in h.buckets ensures dbInfos[0] <= e {
      var i :| 0 <= i < |dbInfos| && dbInfos[i] == e;
    }
  }
}
