/**
 Whole runs of the storage: prune calls with any errors, writes, rollbacks and restarts while finalization advances.
 */
module StorageRuns {
  import opened Options
  import opened Eviction
  import opened EpochStores
  import opened Buckets
  import opened PruningState
  import opened Rollbacks

  datatype Call =
    | ByEpochIndex(epoch: nat, fault: Fault)
    | ByDepth(depth: nat, fault: Fault)
    | BySize(sizes: Sizes, fault: Fault)
    | Write(history: History)   // any writes to buckets and stores
    | Rollback(tp: TimeProvider, targetSlot: nat, maxCommittableAge: nat)
    | Restart(dbInfos: seq<nat>)

  predicate Prunes(c: Call) {
    c.ByEpochIndex? || c.ByDepth? || c.BySize?
  }

  predicate Faultless(c: Call) {
    Prunes(c) ==> c.fault.NoFault?
  }

  /** Writes are refused for pruned epochs and do not prune. */
  ghost predicate Respectful(h: History, u: History) {
    && Tidy(u) && u.bucketsPruned == h.bucketsPruned
    && u.signals.pruned == h.signals.pruned && u.rewards.pruned == h.rewards.pruned
    && u.stats.pruned == h.stats.pruned && u.committee.pruned == h.committee.pruned
  }

  function RolledBack(s: Storage, tp: TimeProvider, targetSlot: nat, maxCommittableAge: nat): Result
    requires tp.Valid()
  {
    var r := RollBack(s.history, tp, targetSlot, maxCommittableAge);
    Result(s.(history := r.history), if r.ok then None else Some(CommitteePruned))
  }

  /** What is on disk stays; the indices are taken from the oldest bucket. */
  function Restarted(s: Storage, dbInfos: seq<nat>): Storage {
    Storage(s.history.(bucketsPruned := RestoredBuckets(dbInfos)), RestoredStorage(RestoredBuckets(dbInfos)))
  }

  function Perform(s: Storage, finalized: nat, c: Call): Result
    requires c.Rollback? ==> c.tp.Valid()
  {
    match c
    case ByEpochIndex(epoch, fault) => PruneByEpochIndex(s, finalized, epoch, fault)
    case ByDepth(depth, fault) => PruneByDepth(s, finalized, depth, fault)
    case BySize(sizes, fault) => PruneBySize(s, finalized, sizes, fault)
    case Write(history) => Result(s.(history := history), None)
    case Rollback(tp, targetSlot, maxCommittableAge) => RolledBack(s, tp, targetSlot, maxCommittableAge)
    case Restart(dbInfos) => Result(Restarted(s, dbInfos), None)
  }

  /** Every prune call without errors keeps the invariant; one that is not refused succeeds and removes exactly what its index says. */
  lemma PruneCallKeepsInv(s: Storage, finalized: nat, c: Call)
    requires Inv(s, finalized) && Prunes(c) && Faultless(c)
    ensures var r := Perform(s, finalized, c);
            && Inv(r.storage, finalized) && r.error != Some(Failed) && PrunedExactly(s, r.storage)
            && (r.error.Some? && r.error != Some(DatabaseFull) ==> r.storage == s)
  {
    hide Prune, PrunedAtOnce, PruneWhileFull;
    match c
    case ByEpochIndex(epoch, _) =>
      if epoch <= LatestPrunable(finalized) && !s.lastPruned.IsEvicted(epoch) {
        PruneKeepsInv(s, finalized, epoch, 0);
      }
    case ByDepth(epochDepth, _) =>
      var depth := if epochDepth == 0 then 1 else epochDepth;
      if depth <= LatestPrunable(finalized) {
        var end := LatestPrunable(finalized) - (depth - 1);
        if !s.lastPruned.IsEvicted(end) {
          PruneKeepsInv(s, finalized, end, depth);
        }
      }
    case BySize(sizes, _) =>
      PruneWhileFullKeepsInv(s, finalized, sizes);
  }

  /** Whatever errors come up: a prune call never moves the storage's index back or past the bucket store's, and it prunes nothing
      that has to be kept. When it succeeds, the indices agree, even if they did not before. */
  lemma PruneCallKeepsWhole(s: Storage, finalized: nat, c: Call)
    requires Whole(s, finalized) && Prunes(c)
    ensures var r := Perform(s, finalized, c);
            && Whole(r.storage, finalized) && s.lastPruned.NextIndex() <= r.storage.lastPruned.NextIndex()
            && (r.error.None? ==> Inv(r.storage, finalized))
  {
    hide Prune, PruneWhileFull, Within;
    match c
    case ByEpochIndex(epoch, fault) =>
      if epoch <= LatestPrunable(finalized) && !s.lastPruned.IsEvicted(epoch) {
        PruneKeepsWhole(s, finalized, epoch, 0, fault);
      }
    case ByDepth(epochDepth, fault) =>
      var depth := if epochDepth == 0 then 1 else epochDepth;
      if depth <= LatestPrunable(finalized) {
        var end := LatestPrunable(finalized) - (depth - 1);
        if !s.lastPruned.IsEvicted(end) {
          PruneKeepsWhole(s, finalized, end, depth, fault);
        }
      }
    case BySize(sizes, fault) =>
      PruneWhileFullKeepsWhole(s, finalized, sizes, fault);
  }

  /** Whatever the prune call: one full epoch of history is kept exactly when the finalized epoch is at least the second. */
  lemma FullEpochKeptIff(s: Storage, finalized: nat, c: Call)
    requires Whole(s, finalized) && Prunes(c) && Perform(s, finalized, c).storage.lastPruned != s.lastPruned
    ensures var pruned := Perform(s, finalized, c).storage.lastPruned;
            pruned.index.Some? && (pruned.index.value + 1 < finalized <==> finalized >= 2)
  {
    hide Perform;
    PruneCallKeepsWhole(s, finalized, c);
  }

  /** A rollback, successful or not, keeps the invariant exactly when the target's epoch is not pruned: it opens the bucket of
      that epoch without asking, and so re-creates a pruned one. */
  lemma RollbackKeepsInvIff(s: Storage, finalized: nat, tp: TimeProvider, targetSlot: nat, maxCommittableAge: nat)
    requires Whole(s, finalized) && tp.Valid()
    ensures var u, pruned := RolledBack(s, tp, targetSlot, maxCommittableAge).storage, s.history.bucketsPruned.IsEvicted(tp.EpochFromSlot(targetSlot));
            && (Whole(u, finalized) <==> !pruned)
            && (Inv(s, finalized) ==> (Inv(u, finalized) <==> !pruned))
            && u.lastPruned == s.lastPruned
  {
    var h, u := s.history, RolledBack(s, tp, targetSlot, maxCommittableAge).storage.history;
    var epoch := tp.EpochFromSlot(targetSlot);
    assert epoch in u.buckets && forall e :: e in u.buckets ==> e == epoch || e in h.buckets;
    assert forall e :: e in u.signals.values ==> e in h.signals.values;
    assert forall e :: e in u.rewards.values ==> e in h.rewards.values;
    assert forall e :: e in u.stats.values ==> e in h.stats.values;
    assert forall e :: e in u.committee.values ==> e in h.committee.values;
  }

  /** What a restart must find on disk to keep the invariant. */
  predicate Restartable(dbInfos: seq<nat>, finalized: nat) {
    dbInfos == [] || dbInfos[0] == 0 || (dbInfos[0] != 1 && dbInfos[0] - 1 <= LatestPrunable(finalized))
  }

  /** A restart loses nothing that is stored, and the epoch stores stay pruned as far as they were. */
  lemma RestartLosesNothing(s: Storage, dbInfos: seq<nat>)
    ensures var u := Restarted(s, dbInfos).history;
            && u.buckets == s.history.buckets && u.signals == s.history.signals && u.rewards == s.history.rewards
            && u.stats == s.history.stats && u.committee == s.history.committee
  {
  }

  /** A restart, also one after errors, ends in the invariant exactly when the oldest bucket is not the one of epoch 1 and not
      beyond what could be pruned. */
  lemma RestartKeepsInvIff(s: Storage, finalized: nat, dbInfos: seq<nat>)
    requires Whole(s, finalized) && OnDisk(s.history, dbInfos)
    ensures Inv(Restarted(s, dbInfos), finalized) <==> Restartable(dbInfos, finalized)
  {
    RestoreAgreesIff(s.history, dbInfos);
  }

  /** An interrupted pruning can be continued after a restart, exactly when that restart ends in the invariant: then every
      pruning that may be asked for succeeds. */
  lemma RestartResumesPruning(s: Storage, finalized: nat, target: nat, delay: nat, f: Fault, dbInfos: seq<nat>, again: nat)
    requires Inv(s, finalized) && !s.lastPruned.IsEvicted(target) && Askable(finalized, target, delay)
    requires OnDisk(Prune(s, target, delay, f).storage.history, dbInfos)
    ensures var u := Restarted(Prune(s, target, delay, f).storage, dbInfos);
            && (Inv(u, finalized) <==> Restartable(dbInfos, finalized))
            && (Restartable(dbInfos, finalized) && !u.lastPruned.IsEvicted(again) && Askable(finalized, again, 0) ==>
                Prune(u, again, 0, NoFault).error.None?)
  {
    hide Prune, Restarted;
    PruneKeepsWhole(s, finalized, target, delay, f);
    var r := Prune(s, target, delay, f).storage;
    RestartKeepsInvIff(r, finalized, dbInfos);
    var u := Restarted(r, dbInfos);
    if Restartable(dbInfos, finalized) && !u.lastPruned.IsEvicted(again) && Askable(finalized, again, 0) {
      PruneKeepsInv(u, finalized, again, 0);
    }
  }

  // ----- Runs -----

  /** The call happens in circumstances in which it keeps the invariant. */
  ghost predicate Permitted(s: Storage, finalized: nat, c: Call) {
    match c
    case Write(history) => Respectful(s.history, history)
    case Rollback(tp, targetSlot, maxCommittableAge) => tp.Valid() && !s.history.bucketsPruned.IsEvicted(tp.EpochFromSlot(targetSlot))
    case Restart(dbInfos) => OnDisk(s.history, dbInfos) && Restartable(dbInfos, finalized)
    case _ => true
  }

  lemma PerformKeepsInv(s: Storage, finalized: nat, c: Call)
    requires Whole(s, finalized) && Permitted(s, finalized, c)
    ensures var u := Perform(s, finalized, c).storage;
            && Whole(u, finalized)
            && ((Inv(s, finalized) && Faultless(c)) || c.Restart? ==> Inv(u, finalized))
            && (!c.Restart? ==> s.lastPruned.NextIndex() <= u.lastPruned.NextIndex())
  {
    match c {
      case Write(history) =>
      case Rollback(tp, targetSlot, maxCommittableAge) => RollbackKeepsInvIff(s, finalized, tp, targetSlot, maxCommittableAge);
      case Restart(dbInfos) => RestartKeepsInvIff(s, finalized, dbInfos);
      case _ =>
        hide Perform;
        PruneCallKeepsWhole(s, finalized, c);
        if Inv(s, finalized) && Faultless(c) {
          PruneCallKeepsInv(s, finalized, c);
        }
    }
  }

  lemma LaterFinalizedKeepsInv(s: Storage, finalized: nat, later: nat)
    requires Whole(s, finalized) && finalized <= later
    ensures Whole(s, later) && (Inv(s, finalized) ==> Inv(s, later))
  {
  }

  datatype Event = Event(finalized: nat, call: Call)

  /** A run of calls while finalization advances. */
  ghost predicate Run(s: Storage, finalized: nat, events: seq<Event>, u: Storage, last: nat)
    decreases |events|
  {
    if events == [] then u == s && last == finalized
    else
      var e := events[0];
      && finalized <= e.finalized && Permitted(s, e.finalized, e.call)
      && Run(Perform(s, e.finalized, e.call).storage, e.finalized, events[1..], u, last)
  }

  /** No error comes up, or none after the last restart. */
  predicate Recovers(events: seq<Event>, inOrder: bool) {
    if events == [] then inOrder
    else Recovers(events[1..], events[0].call.Restart? || (inOrder && Faultless(events[0].call)))
  }

  /** Over every run with any errors, nothing is pruned that has to be kept and the storage's index never passes the bucket store's;
      without errors, or without any since the last restart, the two indices agree; between restarts the index never moves back. */
  lemma {:induction false} RunKeepsInv(s: Storage, finalized: nat, events: seq<Event>, u: Storage, last: nat)
    requires Whole(s, finalized) && Run(s, finalized, events, u, last)
    ensures Whole(u, last) && finalized <= last
    ensures Recovers(events, Inv(s, finalized)) ==> Inv(u, last)
    ensures (forall i :: 0 <= i < |events| ==> !events[i].call.Restart?) ==> s.lastPruned.NextIndex() <= u.lastPruned.NextIndex()
    decreases |events|
  {
    if events != [] {
      var e, rest := events[0], events[1..];
      LaterFinalizedKeepsInv(s, finalized, e.finalized);
      PerformKeepsInv(s, e.finalized, e.call);
      hide Inv, Whole, Perform, Permitted;
      var next := Perform(s, e.finalized, e.call).storage;
      RunKeepsInv(next, e.finalized, rest, u, last);
      assert forall i :: 0 <= i < |rest| ==> rest[i] == events[i + 1];
      RecoversMore(rest, e.call.Restart? || (Inv(s, finalized) && Faultless(e.call)), Inv(next, e.finalized));
    }
  }

  lemma {:induction false} RecoversMore(events: seq<Event>, a: bool, b: bool)
    requires a ==> b
    ensures Recovers(events, a) ==> Recovers(events, b)
  {
    if events != [] {
      var e := events[0].call;
      RecoversMore(events[1..], e.Restart? || (a && Faultless(e)), e.Restart? || (b && Faultless(e)));
    }
  }

  // ----- Calls that do not do what they should -----

  const EMPTY := Storage(NO_HISTORY, NOTHING_EVICTED)

  /** With finalized epoch 0, epoch 0 can be pruned by epoch and is pruned by size. */
  lemma FirstEpochPrunedTooEarly()
    ensures Inv(EMPTY, 0)
    ensures PruneByEpochIndex(EMPTY, 0, 0, NoFault).storage.lastPruned.index == Some(0)
    ensures PruneBySize(EMPTY, 0, Sizes(true, 1, _ => 0, false), NoFault).storage.lastPruned.index == Some(0)
  {
    PruneKeepsInv(EMPTY, 0, 0, 0);
  }

  const FIVE_BUCKETS: map<nat, Bucket> := map[0 := map[], 1 := map[], 2 := map[], 3 := map[], 4 := map[]]

  /** An error in epoch 1 of a pruning up to epoch 2: no further pruning succeeds, until a restart finds epoch 2 as the oldest one. */
  lemma PruningStuckUntilRestart(again: nat)
    ensures var s := Storage(NO_HISTORY.(buckets := FIVE_BUCKETS), NOTHING_EVICTED); var r := Prune(s, 2, 0, FaultAt(1, 1));
            && Inv(s, 4) && r.error == Some(Failed) && Prune(r.storage, again, 0, NoFault) == Result(r.storage, Some(Failed))
            && OnDisk(r.storage.history, [2, 3, 4]) && Inv(Restarted(r.storage, [2, 3, 4]), 4)
            && Prune(Restarted(r.storage, [2, 3, 4]), 2, 0, NoFault).error.None?
  {
    var s := Storage(NO_HISTORY.(buckets := FIVE_BUCKETS), NOTHING_EVICTED);
    var r := Prune(s, 2, 0, FaultAt(1, 1));
    RetrySucceedsIff(s, 4, 2, 0, FaultAt(1, 1), again, 0);
    assert r.storage.history.buckets == map[2 := map[], 3 := map[], 4 := map[]];
    RestartResumesPruning(s, 4, 2, 0, FaultAt(1, 1), [2, 3, 4], 2);
  }

  /** Epoch 0 was pruned and epoch 1 is the oldest on disk: after a restart the bucket store knows, the storage does not. */
  lemma RestartForgetsEpochZero()
    ensures var s := Storage(NO_HISTORY.(buckets := map[1 := map[]], bucketsPruned := EvictionIndex(Some(0))), EvictionIndex(Some(0)));
            && Inv(s, 2) && OnDisk(s.history, [1])
            && Restarted(s, [1]).history.bucketsPruned.index == Some(0) && Restarted(s, [1]).lastPruned.index == None
  {
  }

  /** With epochs of two slots and everything up to epoch 3 pruned, a rollback to slot 2 brings back the bucket of epoch 1. */
  lemma RollbackRecreatesBucket()
    ensures var s := Storage(NO_HISTORY.(bucketsPruned := EvictionIndex(Some(3))), EvictionIndex(Some(3)));
            && Inv(s, 5) && s.lastPruned.IsEvicted(1) && 1 in RolledBack(s, TimeProvider(2), 2, 0).storage.history.buckets
  {
  }

  /** A rollback to slot 0 of epoch 0 keeps the committee of epoch 2, although it is newer than the next epoch's. */
  lemma LaterCommitteeSurvives()
    ensures var h := NO_HISTORY.(committee := Entries(map[2 := true], NOTHING_EVICTED));
            var r := RollBack(h, TimeProvider(10), 0, 1); r.ok && 2 in r.history.committee.values
  {
    var h := NO_HISTORY.(committee := Entries(map[2 := true], NOTHING_EVICTED));
    RollbackCommittees(h, TimeProvider(10), 0, 1, 2);
  }

  /** A rollback to slot 0 leaves the data of slot 4, because epoch 1 has no bucket. */
  lemma DataBehindGapSurvives()
    ensures var h := NO_HISTORY.(buckets := map[0 := map[], 2 := map[4 := [1]]]); var tp := TimeProvider(2);
            Housed(h, tp) && RollBack(h, tp, 0, 0).ok && SlotData(RollBack(h, tp, 0, 0).history, tp, 4) == Some([1])
  {
    var h, tp := NO_HISTORY.(buckets := map[0 := map[], 2 := map[4 := [1]]]), TimeProvider(2);
    assert 1 !in h.buckets;
    assert EndOfBuckets(h, tp, 0) == 1;
    RollbackSlot(h, tp, 0, 0, 4);
  }
}
