/**
 Exactly what each way of pruning removes, when it is refused, and what an error leaves.
 */
module PruningEffects {
  import opened Options
  import opened Eviction
  import opened EpochStores
  import opened PruningState

  function Max(a: nat, b: nat): nat {
    if a > b then a else b
  }

  /** From `s` to `u` exactly the epochs up to the given one are pruned, besides those that were, and nothing else is gone. */
  ghost predicate StoreLoses<V>(s: Entries<V>, u: Entries<V>, last: int) {
    && (forall e: nat :: u.pruned.IsEvicted(e) <==> s.pruned.IsEvicted(e) || e <= last)
    && u.values == map e | e in s.values && !u.pruned.IsEvicted(e) :: s.values[e]
  }

  /** The buckets up to the given epoch are gone; the stores have lost the epochs up to the ones given for them. */
  ghost predicate Loses(h: History, u: History, buckets: nat, signals: int, others: int) {
    && u.bucketsPruned.index == Some(buckets) && u.buckets == (map e | e in h.buckets && e > buckets :: h.buckets[e])
    && StoreLoses(h.signals, u.signals, signals)
    && StoreLoses(h.rewards, u.rewards, others) && StoreLoses(h.stats, u.stats, others) && StoreLoses(h.committee, u.committee, others)
  }

  lemma PruneEntriesExactly<V>(s: Entries<V>, pruningDelay: nat, epoch: nat, defaultPruningDelay: nat)
    requires Clean(s)
    ensures StoreLoses(s, PruneEntries(s, pruningDelay, epoch, defaultPruningDelay), epoch + defaultPruningDelay - Max(pruningDelay, defaultPruningDelay))
  {
    var u := PruneEntries(s, pruningDelay, epoch, defaultPruningDelay);
    assert u.values == map e | e in s.values && !u.pruned.IsEvicted(e) :: s.values[e];
  }

  lemma AtOnceExactly(h: History, target: nat, delay: nat)
    requires Tidy(h)
    ensures Loses(h, PrunedAtOnce(h, target, delay), target, target + delay - Max(7, delay), target + delay - Max(365, delay))
  {
    hide PruneEntries, StoreLoses;
    PruneEntriesExactly(h.signals, 7, target, delay);
    PruneEntriesExactly(h.rewards, 365, target, delay);
    PruneEntriesExactly(h.stats, 365, target, delay);
    PruneEntriesExactly(h.committee, 365, target, delay);
  }

  /** Pruning up to an epoch and then up to a later one is pruning up to the later one. */
  lemma AtOnceThen(h: History, first: nat, last: nat, delay: nat)
    requires first <= last
    ensures PrunedAtOnce(PrunedAtOnce(h, first, delay), last, delay) == PrunedAtOnce(h, last, delay)
  {
    PruneNext(h.signals, SIGNALS_DELAY, first, last, delay);
    PruneNext(h.rewards, REWARDS_DELAY, first, last, delay);
    PruneNext(h.stats, STATS_DELAY, first, last, delay);
    PruneNext(h.committee, COMMITTEE_DELAY, first, last, delay);
    assert PrunedAtOnce(PrunedAtOnce(h, first, delay), last, delay).buckets == PrunedAtOnce(h, last, delay).buckets;
  }

  // ----- By epoch and by depth -----

  /** Pruning by epoch prunes exactly up to the given epoch. It is refused as too new for an epoch without a full epoch before the
      finalized one, and as too old for a pruned epoch. */
  lemma PruneByEpochExactly(s: Storage, finalized: nat, epoch: nat)
    requires Inv(s, finalized)
    ensures var r := PruneByEpochIndex(s, finalized, epoch, NoFault);
            && (r.error == Some(TooNew) <==> epoch > 0 && epoch + 2 > finalized)
            && (r.error == Some(TooOld) <==> !(epoch > 0 && epoch + 2 > finalized) && s.lastPruned.IsEvicted(epoch))
            && (r.error == None || r.error == Some(TooNew) || r.error == Some(TooOld))
            && (if r.error.None? then r.storage.lastPruned.index == Some(epoch) && Loses(s.history, r.storage.history, epoch, epoch - 7, epoch - 365)
                else r.storage == s)
  {
    hide Prune, PrunedAtOnce, Loses;
    if epoch <= LatestPrunable(finalized) && !s.lastPruned.IsEvicted(epoch) {
      PruneKeepsInv(s, finalized, epoch, 0);
      AtOnceExactly(s.history, epoch, 0);
    }
  }

  /** Pruning by depth keeps exactly that many full epochs before the finalized one, at least one, and of each store as many as its
      own delay says, if that is more. */
  lemma PruneByDepthExactly(s: Storage, finalized: nat, epochDepth: nat)
    requires Inv(s, finalized)
    ensures var r, depth := PruneByDepth(s, finalized, epochDepth, NoFault), Max(1, epochDepth);
            && (r.error == Some(NoPruningNeeded) <==> depth + 2 > finalized)
            && (r.error == Some(Error.EpochPruned) <==> depth + 2 <= finalized && s.lastPruned.IsEvicted(finalized - 1 - depth))
            && (r.error == None || r.error == Some(NoPruningNeeded) || r.error == Some(Error.EpochPruned))
            && (if r.error.None?
                then && finalized - 1 - depth >= 0 && r.storage.lastPruned.index == Some(finalized - 1 - depth)
                     && Loses(s.history, r.storage.history, finalized - 1 - depth, finalized - 1 - Max(7, depth), finalized - 1 - Max(365, depth))
                else r.storage == s)
  {
    hide Prune, PrunedAtOnce, Loses;
    var depth := Max(1, epochDepth);
    if depth <= LatestPrunable(finalized) && !s.lastPruned.IsEvicted(finalized - 1 - depth) {
      PruneKeepsInv(s, finalized, finalized - 1 - depth, depth);
      AtOnceExactly(s.history, finalized - 1 - depth, depth);
    }
  }

  // ----- By size -----

  /** The bytes that the epochs from one to another are taken to free. */
  function Freed(z: Sizes, first: nat, last: nat): int
    decreases last
  {
    if last < first then 0 else z.freed(last) + if last == 0 then 0 else Freed(z, first, last - 1)
  }

  lemma {:induction false} FreedFrom(z: Sizes, first: nat, last: nat)
    requires first <= last
    ensures Freed(z, first, last) == z.freed(first) + Freed(z, first + 1, last)
    decreases last
  {
    if first < last {
      FreedFrom(z, first, last - 1);
    }
  }

  lemma {:induction false} FreedOf(z: Sizes, bytes: int, first: nat, last: nat)
    ensures Freed(z.(bytesToPrune := bytes), first, last) == Freed(z, first, last)
    decreases last
  {
    if last > 0 {
      FreedOf(z, bytes, first, last - 1);
    }
  }

  /** The pruning ends with the first epoch that makes up the bytes, or with the last one that may be pruned. */
  ghost predicate EndsWith(z: Sizes, first: nat, latest: nat, last: nat) {
    && first <= last <= latest && (forall e :: first <= e < last ==> Freed(z, first, e) < z.bytesToPrune)
    && (Freed(z, first, last) >= z.bytesToPrune || last == latest)
  }

  lemma EndsLater(z: Sizes, first: nat, latest: nat, last: nat)
    requires first < latest && z.freed(first) < z.bytesToPrune
    requires EndsWith(z.(bytesToPrune := z.bytesToPrune - z.freed(first)), first + 1, latest, last)
    ensures EndsWith(z, first, latest, last)
    ensures Freed(z, first, last) >= z.bytesToPrune <==>
              Freed(z.(bytesToPrune := z.bytesToPrune - z.freed(first)), first + 1, last) >= z.bytesToPrune - z.freed(first)
  {
    forall e | first <= e <= last
      ensures Freed(z, first, e) == z.freed(first) + Freed(z.(bytesToPrune := z.bytesToPrune - z.freed(first)), first + 1, e)
    {
      FreedFrom(z, first, e);
      FreedOf(z, z.bytesToPrune - z.freed(first), first + 1, e);
    }
    assert Freed(z.(bytesToPrune := z.bytesToPrune - z.freed(first)), first + 1, first) == 0;
  }

  lemma {:induction false} PruneWhileFullExactly(s: Storage, finalized: nat, z: Sizes) returns (last: nat)
    requires Inv(s, finalized) && s.lastPruned.NextIndex() <= LatestPrunable(finalized)
    ensures var first, latest := s.lastPruned.NextIndex(), LatestPrunable(finalized); var r := PruneWhileFull(s, first, latest, z, NoFault);
            && EndsWith(z, first, latest, last) && r.storage == Storage(PrunedAtOnce(s.history, last, 0), EvictionIndex(Some(last)))
            && r.error == if Freed(z, first, last) < z.bytesToPrune && z.stillFull then Some(DatabaseFull) else None
    decreases LatestPrunable(finalized) - s.lastPruned.NextIndex()
  {
    hide Prune, PrunedAtOnce, Inv;
    var first, latest := s.lastPruned.NextIndex(), LatestPrunable(finalized);
    PruneKeepsInv(s, finalized, first, 0);
    FreedFrom(z, first, first);
    if z.freed(first) >= z.bytesToPrune || first == latest {
      last := first;
    } else {
      var next, rest := Prune(s, first, 0, NoFault).storage, z.(bytesToPrune := z.bytesToPrune - z.freed(first));
      last := PruneWhileFullExactly(next, finalized, rest);
      EndsLater(z, first, latest, last);
      AtOnceThen(s.history, first, last, 0);
    }
  }

  /** Pruning by size stops at the first epoch with which the freed bytes suffice, or at the last one that may be pruned; only in
      that case, and when the bytes do not suffice, can it report that the database is still full. */
  lemma {:induction false} PruneBySizeExactly(s: Storage, finalized: nat, z: Sizes)
    requires Inv(s, finalized)
    ensures var r, first, latest := PruneBySize(s, finalized, z, NoFault), s.lastPruned.NextIndex(), Max(2, finalized) - 2;
            if !z.due then r == Result(s, Some(NoPruningNeeded))
            else if s.lastPruned.IsEvicted(latest) then r == Result(s, Some(Error.EpochPruned))
            else
              && r.storage.lastPruned.index.Some? && var last := r.storage.lastPruned.index.value;
              && EndsWith(z, first, latest, last) && Loses(s.history, r.storage.history, last, last - 7, last - 365)
              && r.error == if Freed(z, first, last) < z.bytesToPrune && z.stillFull then Some(DatabaseFull) else None
  {
    hide PruneWhileFull, PrunedAtOnce, Loses, Freed, EndsWith;
    if z.due && !s.lastPruned.IsEvicted(LatestPrunable(finalized)) {
      var last := PruneWhileFullExactly(s, finalized, z);
      AtOnceExactly(s.history, last, 0);
    }
  }

  // ----- Errors -----

  /** The history when the pruning reaches the epoch in which the error comes up. */
  function BeforeFault(h: History, start: nat, epoch: nat, delay: nat): History {
    if epoch > start then PrunedAtOnce(h, epoch - 1, delay) else h
  }

  lemma {:induction false} FaultStops(h: History, start: nat, target: nat, delay: nat, f: Fault)
    requires Tidy(h) && start == h.bucketsPruned.NextIndex() && Real(f) && start <= f.epoch <= target
    ensures PruneUntil(h, start, target, delay, f)
         == Outcome(PruneStores(PruneBucket(BeforeFault(h, start, f.epoch, delay), f.epoch), f.epoch, delay, f.component), false)
    decreases f.epoch - start
  {
    hide PruneStores, PruneBucket, PrunedAtOnce, Tidy;
    if start < f.epoch {
      FirstEpoch(h, start, target, delay, f);
      var u := PrunedAtOnce(h, start, delay);
      FaultStops(u, start + 1, target, delay, f);
      if start + 1 < f.epoch {
        AtOnceThen(h, start, f.epoch - 1, delay);
      }
    } else {
      FaultAtFirst(h, start, target, delay, f);
    }
  }

  lemma FirstEpoch(h: History, start: nat, target: nat, delay: nat, f: Fault)
    requires Tidy(h) && start == h.bucketsPruned.NextIndex() && Real(f) && start < f.epoch <= target
    ensures var u := PrunedAtOnce(h, start, delay);
            Tidy(u) && start + 1 == u.bucketsPruned.NextIndex() && PruneUntil(h, start, target, delay, f) == PruneUntil(u, start + 1, target, delay, f)
  {
    hide PruneEntries;
    PruneUntilIsAtOnce(h, start, start, delay, f);
    assert PruneEpoch(h, start, delay, f) == Outcome(PrunedAtOnce(h, start, delay), true);
  }

  lemma {:induction false} FaultAtFirst(h: History, start: nat, target: nat, delay: nat, f: Fault)
    requires start == h.bucketsPruned.NextIndex() && Real(f) && f.epoch == start <= target
    ensures PruneUntil(h, start, target, delay, f) == Outcome(PruneStores(PruneBucket(h, start), start, delay, f.component), false)
  {
  }

  /** A pruning fails exactly when an error comes up in one of its epochs; then the storage's index stays. An error in any other
      epoch makes no difference. */
  lemma PruneFailsIff(s: Storage, finalized: nat, target: nat, delay: nat, f: Fault)
    requires Inv(s, finalized) && !s.lastPruned.IsEvicted(target) && Askable(finalized, target, delay)
    ensures var r := Prune(s, target, delay, f);
            if Real(f) && s.lastPruned.NextIndex() <= f.epoch <= target then r.error == Some(Failed) && r.storage.lastPruned == s.lastPruned
            else r == Prune(s, target, delay, NoFault) && r.error.None?
  {
    hide PrunedAtOnce;
    if Real(f) && s.lastPruned.NextIndex() <= f.epoch <= target {
      FaultStops(s.history, s.lastPruned.NextIndex(), target, delay, f);
    } else {
      PruneUntilIsAtOnce(s.history, s.lastPruned.NextIndex(), target, delay, f);
      PruneUntilIsAtOnce(s.history, s.lastPruned.NextIndex(), target, delay, NoFault);
    }
  }

  /** Pruning by size fails exactly when an error comes up in one of the epochs that it would prune, and keeps what it pruned before;
      an error in any other epoch makes no difference. */
  lemma {:induction false} PruneBySizeFailsIff(s: Storage, finalized: nat, z: Sizes, f: Fault, last: nat)
    requires Inv(s, finalized) && EndsWith(z, s.lastPruned.NextIndex(), LatestPrunable(finalized), last)
    ensures var first, latest := s.lastPruned.NextIndex(), LatestPrunable(finalized); var r := PruneWhileFull(s, first, latest, z, f);
            if Real(f) && first <= f.epoch <= last
            then r.error == Some(Failed) && r.storage.lastPruned.NextIndex() == f.epoch && r.storage.history.bucketsPruned.index == Some(f.epoch)
            else r == PruneWhileFull(s, first, latest, z, NoFault)
    decreases last - s.lastPruned.NextIndex()
  {
    hide Prune, PrunedAtOnce, Inv, EndsWith, Freed;
    var first, latest := s.lastPruned.NextIndex(), LatestPrunable(finalized);
    FirstOfMany(z, first, latest, last);
    OneEpoch(s, finalized, f);
    if first < last && !(Real(f) && f.epoch == first) {
      var next, rest := Prune(s, first, 0, NoFault).storage, z.(bytesToPrune := z.bytesToPrune - z.freed(first));
      PruneBySizeFailsIff(next, finalized, rest, f, last);
    }
  }

  lemma OneEpoch(s: Storage, finalized: nat, f: Fault)
    requires Inv(s, finalized) && s.lastPruned.NextIndex() <= LatestPrunable(finalized)
    ensures var first := s.lastPruned.NextIndex(); var r := Prune(s, first, 0, f);
            if Real(f) && f.epoch == first then r.error == Some(Failed) && r.storage.lastPruned == s.lastPruned && r.storage.history.bucketsPruned.index == Some(first)
            else r == Prune(s, first, 0, NoFault) && r.error.None? && Inv(r.storage, finalized) && r.storage.lastPruned.NextIndex() == first + 1
  {
    var first := s.lastPruned.NextIndex();
    PruneFailsIff(s, finalized, first, 0, f);
    PruneKeepsInv(s, finalized, first, 0);
    if Real(f) && f.epoch == first {
      PruneUntilFault(s.history, first, first, 0, f);
    }
  }

  /** What is left to do after the first epoch. */
  lemma FirstOfMany(z: Sizes, first: nat, latest: nat, last: nat)
    requires EndsWith(z, first, latest, last)
    ensures first <= last <= latest && (first == last && last < latest ==> z.freed(first) >= z.bytesToPrune)
    ensures first < last ==>
              && z.freed(first) < z.bytesToPrune
              && EndsWith(z.(bytesToPrune := z.bytesToPrune - z.freed(first)), first + 1, latest, last)
  {
    FreedFrom(z, first, first);
    var rest := z.(bytesToPrune := z.bytesToPrune - z.freed(first));
    forall e | first < e <= last ensures Freed(z, first, e) == z.freed(first) + Freed(rest, first + 1, e) {
      FreedFrom(z, first, e);
      FreedOf(z, z.bytesToPrune - z.freed(first), first + 1, e);
    }
    assert first < last ==> Freed(z, first, first) < z.bytesToPrune;
    var next := first + 1;
    forall e | next <= e < last ensures Freed(rest, next, e) < rest.bytesToPrune {
      assert Freed(z, first, e) < z.bytesToPrune;
    }
  }

  /** How far a store with the given delay gets when the error comes up in an epoch, before its turn or after it. */
  function StoreReaches(start: nat, epoch: nat, delay: nat, pruningDelay: nat, pruned: bool): int {
    if pruned then epoch + delay - Max(pruningDelay, delay)
    else if epoch > start then epoch - 1 + delay - Max(pruningDelay, delay) else -1
  }

  lemma StoreAtFault<V>(s: Entries<V>, start: nat, epoch: nat, delay: nat, pruningDelay: nat, pruned: bool)
    requires Clean(s)
    ensures var t := if epoch > start then PruneEntries(s, pruningDelay, epoch - 1, delay) else s;
            StoreLoses(s, if pruned then PruneEntries(t, pruningDelay, epoch, delay) else t, StoreReaches(start, epoch, delay, pruningDelay, pruned))
  {
    var t := if epoch > start then PruneEntries(s, pruningDelay, epoch - 1, delay) else s;
    PruneEntriesExactly(s, pruningDelay, epoch, delay);
    if epoch > start {
      PruneEntriesExactly(s, pruningDelay, epoch - 1, delay);
      PruneNext(s, pruningDelay, epoch - 1, epoch, delay);
    } else {
      assert s.values == map e | e in s.values && !s.pruned.IsEvicted(e) :: s.values[e];
    }
  }

  /** When an error comes up, the buckets up to its epoch are gone; the stores whose turn was before are pruned up to that epoch,
      the others up to the one before. Their order is upgrade signals, rewards, stats, committee, and last the ledger. */
  lemma {:induction false} FaultLeaves(h: History, start: nat, target: nat, delay: nat, f: Fault)
    requires Tidy(h) && start == h.bucketsPruned.NextIndex() && Real(f) && start <= f.epoch <= target
    ensures var r := PruneUntil(h, start, target, delay, f); var u := r.history;
            && !r.ok && u.bucketsPruned.index == Some(f.epoch) && u.buckets == (map e | e in h.buckets && e > f.epoch :: h.buckets[e])
            && StoreLoses(h.signals, u.signals, StoreReaches(start, f.epoch, delay, 7, f.component >= 2))
            && StoreLoses(h.rewards, u.rewards, StoreReaches(start, f.epoch, delay, 365, f.component >= 3))
            && StoreLoses(h.stats, u.stats, StoreReaches(start, f.epoch, delay, 365, f.component >= 4))
            && StoreLoses(h.committee, u.committee, StoreReaches(start, f.epoch, delay, 365, f.component >= 5))
  {
    hide StoreLoses, StoreReaches, PruneUntil, PruneEntries;
    FaultStops(h, start, target, delay, f);
    StoreAtFault(h.signals, start, f.epoch, delay, 7, f.component >= 2);
    StoreAtFault(h.rewards, start, f.epoch, delay, 365, f.component >= 3);
    StoreAtFault(h.stats, start, f.epoch, delay, 365, f.component >= 4);
    StoreAtFault(h.committee, start, f.epoch, delay, 365, f.component >= 5);
    assert PruneUntil(h, start, target, delay, f).history.buckets == map e | e in h.buckets && e > f.epoch :: h.buckets[e];
  }
}
