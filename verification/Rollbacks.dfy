/**
 Rolling the node's history back to a slot, as a function on the history, and what is left afterwards.
 */
module Rollbacks {
  import opened Options
  import opened EpochStores
  import opened Buckets
  import opened PruningState

  /** Epochs and slots are unsigned 32-bit numbers. */
  const MODULUS: nat := 0x1_0000_0000

  /** Epochs of equal length, the first one starting at slot 0. */
  datatype TimeProvider = TimeProvider(slotsPerEpoch: nat) {

    predicate Valid() {
      0 < slotsPerEpoch
    }

    function EpochFromSlot(slot: nat): nat
      requires Valid()
    {
      slot / slotsPerEpoch
    }

    function EpochEnd(epoch: nat): int {
      (epoch + 1) * slotsPerEpoch - 1
    }
  }

  lemma SlotInEpoch(tp: TimeProvider, slot: nat, epoch: nat)
    requires tp.Valid()
    ensures slot <= tp.EpochEnd(tp.EpochFromSlot(slot))
    ensures tp.EpochFromSlot(slot) <= epoch <==> slot <= tp.EpochEnd(epoch)
  {
    var e, n := tp.EpochFromSlot(slot), tp.slotsPerEpoch;
    assert e * n <= slot < (e + 1) * n;
    if e <= epoch {
      assert (e + 1) * n <= (epoch + 1) * n;
    } else {
      assert (epoch + 1) * n <= e * n;
    }
  }

  /** The first epoch from `e` on that has no bucket. */
  function FirstMissing(epochs: set<nat>, e: nat): (m: nat)
    ensures e <= m && m !in epochs && forall k :: e <= k < m ==> k in epochs
    decreases |epochs|
  {
    if e !in epochs then e else
      var rest := epochs - {e};
      var m := FirstMissing(rest, e + 1);
      assert forall k {:trigger k in epochs} :: e < k < m ==> k in rest;
      m
  }

  /** A map without the keys of a range. */
  function Minus<V>(m: map<nat, V>, first: nat, next: nat): map<nat, V> {
    map e | e in m && !(first <= e < next) :: m[e]
  }

  /** The first epoch that was not completely committed at a slot. */
  function FirstUncommitted(tp: TimeProvider, targetSlot: nat): (first: nat)
    requires tp.Valid()
    ensures tp.EpochFromSlot(targetSlot) <= first <= tp.EpochFromSlot(targetSlot) + 1
  {
    var epoch := tp.EpochFromSlot(targetSlot);
    if tp.EpochEnd(epoch) == targetSlot then epoch + 1 else epoch
  }

  /** The last epoch that was completely committed at a slot. Before the end of epoch 0 the subtraction wraps around. */
  function LastCommittedEpoch(tp: TimeProvider, targetSlot: nat): (e: nat)
    requires tp.Valid()
    ensures tp.EpochFromSlot(targetSlot) + 1 < MODULUS ==> (e + 1) % MODULUS == FirstUncommitted(tp, targetSlot)
  {
    var epoch := tp.EpochFromSlot(targetSlot);
    if tp.EpochEnd(epoch) == targetSlot then epoch else (epoch - 1) % MODULUS
  }

  /** The slot from which on the next committee is fixed. The subtraction wraps around. */
  function PointOfNoReturn(tp: TimeProvider, targetSlot: nat, maxCommittableAge: nat): int
    requires tp.Valid()
  {
    (tp.EpochEnd(tp.EpochFromSlot(targetSlot)) - maxCommittableAge) % MODULUS
  }

  /** The committee of the next epoch goes when it was reused and the target lies before the point of no return. */
  function CommitteesToDrop(h: History, tp: TimeProvider, targetSlot: nat, maxCommittableAge: nat): set<nat>
    requires tp.Valid()
  {
    var next := tp.EpochFromSlot(targetSlot) + 1;
    if targetSlot < PointOfNoReturn(tp, targetSlot, maxCommittableAge) && next in h.committee.values && h.committee.values[next]
    then {next} else {}
  }

  /** The committee of the next epoch has to be consulted, but it is pruned. */
  predicate CommitteeGone(h: History, tp: TimeProvider, targetSlot: nat, maxCommittableAge: nat)
    requires tp.Valid()
  {
    && targetSlot < PointOfNoReturn(tp, targetSlot, maxCommittableAge)
    && h.committee.pruned.IsEvicted(tp.EpochFromSlot(targetSlot) + 1)
  }

  function BucketOf(h: History, epoch: nat): Bucket {
    if epoch in h.buckets then h.buckets[epoch] else map[]
  }

  /** The bucket of the target epoch without the slots after the target. */
  function CutBucket(h: History, tp: TimeProvider, targetSlot: nat): map<nat, Bucket>
    requires tp.Valid()
  {
    SlotInEpoch(tp, targetSlot, 0);
    var epoch := tp.EpochFromSlot(targetSlot);
    h.buckets[epoch := Without(BucketOf(h, epoch), targetSlot + 1, tp.EpochEnd(epoch))]
  }

  /** The epoch stores without the entries of the given range. */
  function DropEpochs(h: History, first: nat, next: nat): History {
    h.(signals := h.signals.(values := Minus(h.signals.values, first, next)),
       rewards := h.rewards.(values := Minus(h.rewards.values, first, next)),
       stats := h.stats.(values := Minus(h.stats.values, first, next)))
  }

  /** The first epoch after the target's that has no bucket. */
  function EndOfBuckets(h: History, tp: TimeProvider, targetSlot: nat): (next: nat)
    requires tp.Valid()
    ensures next > tp.EpochFromSlot(targetSlot) && next !in h.buckets
    ensures forall e :: tp.EpochFromSlot(targetSlot) < e < next ==> e in h.buckets
  {
    FirstMissing(h.buckets.Keys, tp.EpochFromSlot(targetSlot) + 1)
  }

  function RollBack(h: History, tp: TimeProvider, targetSlot: nat, maxCommittableAge: nat): Outcome
    requires tp.Valid()
  {
    var epoch := tp.EpochFromSlot(targetSlot);
    var cut := h.(buckets := CutBucket(h, tp, targetSlot));
    var first := FirstUncommitted(tp, targetSlot);
    if CommitteeGone(h, tp, targetSlot, maxCommittableAge) then Outcome(DropEpochs(cut, first, epoch + 1), false)
    else
      var next := EndOfBuckets(h, tp, targetSlot);
      Outcome(DropEpochs(cut, first, next).(
                buckets := Minus(cut.buckets, epoch + 1, next),
                committee := h.committee.(values := h.committee.values - CommitteesToDrop(h, tp, targetSlot, maxCommittableAge))), true)
  }

  // ----- What a rollback leaves -----

  /** Every bucket holds slots of its own epoch only. */
  ghost predicate Housed(h: History, tp: TimeProvider)
    requires tp.Valid()
  {
    forall e, slot :: e in h.buckets && slot in h.buckets[e] ==> tp.EpochFromSlot(slot) == e
  }

  /** There is no gap in the buckets after an epoch. */
  ghost predicate Contiguous(h: History, epoch: nat) {
    forall e, k :: e in h.buckets && epoch < k < e ==> k in h.buckets
  }

  /** The buckets after an epoch are contiguous and end with the given one, or there are none. */
  ghost predicate LastBucket(h: History, epoch: nat, last: nat) {
    Contiguous(h, epoch) && epoch <= last && (last == epoch || last in h.buckets) && forall e :: e in h.buckets ==> e <= last
  }

  /** What is stored for a slot. */
  function SlotData(h: History, tp: TimeProvider, slot: nat): Option<Data>
    requires tp.Valid()
  {
    var b := BucketOf(h, tp.EpochFromSlot(slot));
    if slot in b then Some(b[slot]) else None
  }

  /** What a rollback leaves of one slot. */
  lemma RollbackSlot(h: History, tp: TimeProvider, targetSlot: nat, maxCommittableAge: nat, slot: nat)
    requires tp.Valid() && RollBack(h, tp, targetSlot, maxCommittableAge).ok
    ensures SlotData(RollBack(h, tp, targetSlot, maxCommittableAge).history, tp, slot)
         == if slot <= targetSlot || tp.EpochFromSlot(slot) > EndOfBuckets(h, tp, targetSlot) then SlotData(h, tp, slot) else None
  {
    SlotInEpoch(tp, slot, tp.EpochFromSlot(targetSlot));
    SlotInEpoch(tp, targetSlot, tp.EpochFromSlot(slot));
  }

  /** Data up to the target is untouched. All data after the target is gone exactly when no bucket beyond a gap holds any. */
  lemma RollbackSlots(h: History, tp: TimeProvider, targetSlot: nat, maxCommittableAge: nat)
    requires tp.Valid() && Housed(h, tp) && RollBack(h, tp, targetSlot, maxCommittableAge).ok
    ensures var u := RollBack(h, tp, targetSlot, maxCommittableAge).history;
            && (forall slot: nat :: slot <= targetSlot ==> SlotData(u, tp, slot) == SlotData(h, tp, slot))
            && ((forall slot: nat :: slot > targetSlot ==> SlotData(u, tp, slot).None?) <==>
                (forall e :: e in h.buckets && e > EndOfBuckets(h, tp, targetSlot) ==> h.buckets[e] == map[]))
  {
    hide RollBack, EndOfBuckets;
    var next := EndOfBuckets(h, tp, targetSlot);
    var u := RollBack(h, tp, targetSlot, maxCommittableAge).history;
    forall slot: nat
      ensures SlotData(u, tp, slot) == if slot <= targetSlot || tp.EpochFromSlot(slot) > next then SlotData(h, tp, slot) else None
      ensures tp.EpochFromSlot(slot) > next ==> slot > targetSlot
    {
      RollbackSlot(h, tp, targetSlot, maxCommittableAge, slot);
      SlotInEpoch(tp, slot, next);
      SlotInEpoch(tp, targetSlot, next);
    }
    forall e, slot | e in h.buckets && e > next && slot in h.buckets[e] ensures slot > targetSlot && SlotData(u, tp, slot).Some? {
      assert SlotData(h, tp, slot).Some?;
    }
    if forall slot: nat :: slot > targetSlot ==> SlotData(u, tp, slot).None? {
      forall e | e in h.buckets && e > next ensures h.buckets[e] == map[] {
        assert forall slot :: slot in h.buckets[e] ==> SlotData(u, tp, slot).Some?;
      }
    }
  }

  /** With contiguous buckets, the epochs removed from the reward, stats and upgrade-signal stores are exactly those from the
      first uncommitted epoch to the last existing bucket, and nothing after the target is left. */
  lemma RollbackEpochs(h: History, tp: TimeProvider, targetSlot: nat, maxCommittableAge: nat, last: nat)
    requires tp.Valid() && Housed(h, tp) && RollBack(h, tp, targetSlot, maxCommittableAge).ok
    requires LastBucket(h, tp.EpochFromSlot(targetSlot), last)
    ensures var u := RollBack(h, tp, targetSlot, maxCommittableAge).history; var first := FirstUncommitted(tp, targetSlot);
            && u.rewards.values == (map e | e in h.rewards.values && !(first <= e <= last) :: h.rewards.values[e])
            && u.stats.values == (map e | e in h.stats.values && !(first <= e <= last) :: h.stats.values[e])
            && u.signals.values == (map e | e in h.signals.values && !(first <= e <= last) :: h.signals.values[e])
            && (forall slot: nat :: slot > targetSlot ==> SlotData(u, tp, slot).None?)
            && (forall e :: e in u.buckets ==> e <= tp.EpochFromSlot(targetSlot))
  {
    var next := EndOfBuckets(h, tp, targetSlot);
    assert next == last + 1 by {
      assert next > last + 1 ==> last + 1 in h.buckets;
    }
    RollbackSlots(h, tp, targetSlot, maxCommittableAge);
  }

  /** The buckets reach from the target's epoch to the given one without a gap. */
  ghost predicate Reaches(h: History, epoch: nat, e: nat) {
    forall k :: epoch < k <= e ==> k in h.buckets
  }

  /** An epoch was completely committed at a slot. */
  lemma CommittedIff(tp: TimeProvider, targetSlot: nat, e: nat)
    requires tp.Valid()
    ensures e < FirstUncommitted(tp, targetSlot) <==> tp.EpochEnd(e) <= targetSlot
  {
    var epoch := tp.EpochFromSlot(targetSlot);
    SlotInEpoch(tp, targetSlot, epoch);
    if e < epoch {
      SlotInEpoch(tp, targetSlot, e);
    } else {
      assert (epoch + 1) * tp.slotsPerEpoch <= (e + 1) * tp.slotsPerEpoch;
      if e > epoch {
        assert (e + 1) * tp.slotsPerEpoch >= (epoch + 2) * tp.slotsPerEpoch;
      }
    }
  }

  /** From `v` to `u` exactly the entries are gone that the given epochs hold; how far the store is pruned stays. */
  ghost predicate StoreWithout<V>(v: Entries<V>, u: Entries<V>, gone: nat -> bool) {
    u.pruned == v.pruned && u.values == map e | e in v.values && !gone(e) :: v.values[e]
  }

  /** Whether or not there are gaps: an entry of the reward, stats and upgrade-signal stores is removed exactly when its epoch was not
      completely committed at the target and the buckets reach up to it without a gap. A bucket after the target's epoch is removed
      exactly in the same case. Nothing changes in how far anything is pruned. */
  lemma RollbackExactly(h: History, tp: TimeProvider, targetSlot: nat, maxCommittableAge: nat)
    requires tp.Valid() && RollBack(h, tp, targetSlot, maxCommittableAge).ok
    ensures var u, epoch := RollBack(h, tp, targetSlot, maxCommittableAge).history, tp.EpochFromSlot(targetSlot);
            var gone := (e: nat) => tp.EpochEnd(e) > targetSlot && Reaches(h, epoch, e);
            && StoreWithout(h.rewards, u.rewards, gone) && StoreWithout(h.stats, u.stats, gone) && StoreWithout(h.signals, u.signals, gone)
            && u.bucketsPruned == h.bucketsPruned && u.committee.pruned == h.committee.pruned
            && (forall e :: e in u.buckets <==> e == epoch || (e in h.buckets && (e < epoch || !Reaches(h, epoch, e))))
  {
    var u, epoch := RollBack(h, tp, targetSlot, maxCommittableAge).history, tp.EpochFromSlot(targetSlot);
    var first, next := FirstUncommitted(tp, targetSlot), EndOfBuckets(h, tp, targetSlot);
    var gone := (e: nat) => tp.EpochEnd(e) > targetSlot && Reaches(h, epoch, e);
    forall e: nat ensures gone(e) <==> first <= e < next {
      CommittedIff(tp, targetSlot, e);
      assert e >= next && Reaches(h, epoch, e) ==> next in h.buckets;
    }
    forall e: nat ensures Reaches(h, epoch, e) <==> e < next {
      assert e >= next && Reaches(h, epoch, e) ==> next in h.buckets;
    }
    assert u.rewards.values == map e | e in h.rewards.values && !gone(e) :: h.rewards.values[e];
    assert u.stats.values == map e | e in h.stats.values && !gone(e) :: h.stats.values[e];
    assert u.signals.values == map e | e in h.signals.values && !gone(e) :: h.signals.values[e];
  }

  /** The target lies before the point of no return: its distance to the end of the epoch is more than the maximum committable age.
      When that age is more than the slots up to the end of the epoch, the subtraction wraps around and the target always does. */
  lemma BeforePointOfNoReturn(tp: TimeProvider, targetSlot: nat, maxCommittableAge: nat)
    requires tp.Valid() && tp.EpochEnd(tp.EpochFromSlot(targetSlot)) < MODULUS && maxCommittableAge < MODULUS
    ensures var end := tp.EpochEnd(tp.EpochFromSlot(targetSlot));
            targetSlot < PointOfNoReturn(tp, targetSlot, maxCommittableAge) <==> targetSlot + maxCommittableAge < end || maxCommittableAge > end
  {
    var end := tp.EpochEnd(tp.EpochFromSlot(targetSlot));
    SlotInEpoch(tp, targetSlot, 0);
    if maxCommittableAge <= end {
      assert (end - maxCommittableAge) % 0x1_0000_0000 == end - maxCommittableAge;
    } else {
      assert (end - maxCommittableAge) % 0x1_0000_0000 == end - maxCommittableAge + 0x1_0000_0000;
    }
  }

  /** At most the committee of the epoch after the target's is removed. */
  lemma RollbackCommittees(h: History, tp: TimeProvider, targetSlot: nat, maxCommittableAge: nat, e: nat)
    requires tp.Valid() && e in h.committee.values && RollBack(h, tp, targetSlot, maxCommittableAge).ok
    ensures var u := RollBack(h, tp, targetSlot, maxCommittableAge).history.committee;
            && (e !in u.values <==>
                  && e == tp.EpochFromSlot(targetSlot) + 1 && h.committee.values[e]
                  && targetSlot < PointOfNoReturn(tp, targetSlot, maxCommittableAge))
            && (e in u.values ==> u.values[e] == h.committee.values[e])
  {
  }

  /** A rollback fails exactly when the next epoch's committee has to be consulted and is pruned. It has then removed the later
      slots of the target's epoch and the entries of that epoch, if it was not committed, and nothing else. */
  lemma RollbackFails(h: History, tp: TimeProvider, targetSlot: nat, maxCommittableAge: nat)
    requires tp.Valid()
    ensures var r, epoch := RollBack(h, tp, targetSlot, maxCommittableAge), tp.EpochFromSlot(targetSlot); var u, end := r.history, tp.EpochEnd(epoch);
            && (r.ok <==> !(targetSlot < PointOfNoReturn(tp, targetSlot, maxCommittableAge) && h.committee.pruned.IsEvicted(epoch + 1)))
            && (!r.ok ==>
                  var gone := (e: nat) => e == epoch && end > targetSlot;
                  && StoreWithout(h.rewards, u.rewards, gone) && StoreWithout(h.stats, u.stats, gone) && StoreWithout(h.signals, u.signals, gone)
                  && u.committee == h.committee && u.bucketsPruned == h.bucketsPruned && u.buckets.Keys == h.buckets.Keys + {epoch}
                  && (forall slot: nat :: SlotData(u, tp, slot) == if targetSlot < slot <= end then None else SlotData(h, tp, slot)))
  {
    var r, epoch := RollBack(h, tp, targetSlot, maxCommittableAge), tp.EpochFromSlot(targetSlot);
    if !r.ok {
      var u, gone := r.history, (e: nat) => e == epoch && tp.EpochEnd(epoch) > targetSlot;
      SlotInEpoch(tp, targetSlot, epoch);
      assert u.rewards.values == map e | e in h.rewards.values && !gone(e) :: h.rewards.values[e];
      assert u.stats.values == map e | e in h.stats.values && !gone(e) :: h.stats.values[e];
      assert u.signals.values == map e | e in h.signals.values && !gone(e) :: h.signals.values[e];
      forall slot: nat ensures SlotData(u, tp, slot) == if targetSlot < slot <= tp.EpochEnd(epoch) then None else SlotData(h, tp, slot) {
        CutSlot(h, tp, targetSlot, slot);
        assert SlotData(u, tp, slot) == SlotData(h.(buckets := CutBucket(h, tp, targetSlot)), tp, slot);
      }
    }
  }

  lemma CutSlot(h: History, tp: TimeProvider, targetSlot: nat, slot: nat)
    requires tp.Valid()
    ensures SlotData(h.(buckets := CutBucket(h, tp, targetSlot)), tp, slot)
         == if targetSlot < slot <= tp.EpochEnd(tp.EpochFromSlot(targetSlot)) then None else SlotData(h, tp, slot)
  {
    SlotInEpoch(tp, slot, tp.EpochFromSlot(targetSlot));
    if slot > targetSlot {
      SlotInEpoch(tp, targetSlot, tp.EpochFromSlot(slot));
    }
  }

  /** Rolling back to the same slot again changes nothing. */
  lemma RollbackTwice(h: History, tp: TimeProvider, targetSlot: nat, maxCommittableAge: nat)
    requires tp.Valid() && RollBack(h, tp, targetSlot, maxCommittableAge).ok
    ensures var u := RollBack(h, tp, targetSlot, maxCommittableAge).history;
            RollBack(u, tp, targetSlot, maxCommittableAge) == Outcome(u, true)
  {
    var u := RollBack(h, tp, targetSlot, maxCommittableAge).history;
    var epoch := tp.EpochFromSlot(targetSlot);
    SlotInEpoch(tp, targetSlot, epoch);
    assert epoch + 1 !in u.buckets;
    assert EndOfBuckets(u, tp, targetSlot) == epoch + 1;
    assert BucketOf(u, epoch) == Without(BucketOf(h, epoch), targetSlot + 1, tp.EpochEnd(epoch));
    assert Without(BucketOf(u, epoch), targetSlot + 1, tp.EpochEnd(epoch)) == BucketOf(u, epoch);
    assert CutBucket(u, tp, targetSlot) == u.buckets;
    var v := RollBack(u, tp, targetSlot, maxCommittableAge).history;
    assert v.buckets == u.buckets;
    assert v.rewards.values == u.rewards.values;
    assert v.stats.values == u.stats.values;
    assert v.signals.values == u.signals.values;
    assert v.committee.values == u.committee.values;
  }

  // ----- The steps of a rollback -----

  function WithoutCommittees(h: History, tp: TimeProvider, targetSlot: nat, maxCommittableAge: nat): Entries<bool>
    requires tp.Valid()
  {
    h.committee.(values := h.committee.values - CommitteesToDrop(h, tp, targetSlot, maxCommittableAge))
  }

  /** The history when the rollback is about to look at an epoch. */
  function Rolling(h: History, tp: TimeProvider, targetSlot: nat, maxCommittableAge: nat, epoch: nat): History
    requires tp.Valid()
  {
    var cut := h.(buckets := CutBucket(h, tp, targetSlot));
    var later := tp.EpochFromSlot(targetSlot) + 1;
    DropEpochs(cut, FirstUncommitted(tp, targetSlot), epoch).(
      buckets := Minus(cut.buckets, later, epoch),
      committee := if epoch <= later then h.committee else WithoutCommittees(h, tp, targetSlot, maxCommittableAge))
  }

  lemma RollingStarts(h: History, tp: TimeProvider, targetSlot: nat, maxCommittableAge: nat)
    requires tp.Valid()
    ensures Rolling(h, tp, targetSlot, maxCommittableAge, FirstUncommitted(tp, targetSlot)) == h.(buckets := CutBucket(h, tp, targetSlot))
  {
    var r := Rolling(h, tp, targetSlot, maxCommittableAge, FirstUncommitted(tp, targetSlot));
    assert r.rewards.values == h.rewards.values;
    assert r.stats.values == h.stats.values;
    assert r.signals.values == h.signals.values;
    assert r.buckets == CutBucket(h, tp, targetSlot);
  }

  /** One more epoch of the stores. */
  lemma DropNext(h: History, first: nat, epoch: nat)
    requires first <= epoch
    ensures DropEpochs(DropEpochs(h, first, epoch), epoch, epoch + 1) == DropEpochs(h, first, epoch + 1)
  {
    var u, v := DropEpochs(DropEpochs(h, first, epoch), epoch, epoch + 1), DropEpochs(h, first, epoch + 1);
    assert u.rewards.values == v.rewards.values;
    assert u.stats.values == v.stats.values;
    assert u.signals.values == v.signals.values;
  }

  /** What the rollback finds when it looks at an epoch after the target's. */
  lemma RollingCommittees(h: History, tp: TimeProvider, targetSlot: nat, maxCommittableAge: nat, epoch: nat)
    requires tp.Valid()
    ensures var r := Rolling(h, tp, targetSlot, maxCommittableAge, epoch);
            && CommitteeGone(r, tp, targetSlot, maxCommittableAge) == CommitteeGone(h, tp, targetSlot, maxCommittableAge)
            && (epoch > tp.EpochFromSlot(targetSlot) + 1 ==> CommitteesToDrop(r, tp, targetSlot, maxCommittableAge) == {})
            && (epoch > tp.EpochFromSlot(targetSlot) ==>
                  WithoutCommittees(r, tp, targetSlot, maxCommittableAge) == WithoutCommittees(h, tp, targetSlot, maxCommittableAge))
  {
    var r := Rolling(h, tp, targetSlot, maxCommittableAge, epoch);
    if epoch > tp.EpochFromSlot(targetSlot) + 1 {
      assert r.committee.values - {} == r.committee.values;
    }
  }

  /** The entries of the target's epoch go first, when it was not committed. */
  lemma RollingEpoch(h: History, tp: TimeProvider, targetSlot: nat, maxCommittableAge: nat, epoch: nat)
    requires tp.Valid() && FirstUncommitted(tp, targetSlot) <= epoch <= tp.EpochFromSlot(targetSlot)
    ensures DropEpochs(Rolling(h, tp, targetSlot, maxCommittableAge, epoch), epoch, epoch + 1)
         == Rolling(h, tp, targetSlot, maxCommittableAge, epoch + 1)
  {
    var cut, first := h.(buckets := CutBucket(h, tp, targetSlot)), FirstUncommitted(tp, targetSlot);
    assert Minus(cut.buckets, tp.EpochFromSlot(targetSlot) + 1, epoch) == cut.buckets;
    assert Minus(cut.buckets, tp.EpochFromSlot(targetSlot) + 1, epoch + 1) == cut.buckets;
    DropNext(cut, first, epoch);
  }

  /** Then one later epoch after the other. */
  lemma RollingLater(h: History, tp: TimeProvider, targetSlot: nat, maxCommittableAge: nat, epoch: nat)
    requires tp.Valid() && tp.EpochFromSlot(targetSlot) < epoch
    ensures var r := Rolling(h, tp, targetSlot, maxCommittableAge, epoch);
            var v := r.(buckets := r.buckets - {epoch}, committee := WithoutCommittees(r, tp, targetSlot, maxCommittableAge));
            DropEpochs(v, epoch, epoch + 1) == Rolling(h, tp, targetSlot, maxCommittableAge, epoch + 1)
  {
    var cut, first := h.(buckets := CutBucket(h, tp, targetSlot)), FirstUncommitted(tp, targetSlot);
    var later := tp.EpochFromSlot(targetSlot) + 1;
    RollingCommittees(h, tp, targetSlot, maxCommittableAge, epoch);
    assert Minus(cut.buckets, later, epoch) - {epoch} == Minus(cut.buckets, later, epoch + 1);
    DropNext(cut, first, epoch);
  }

  /** It ends at the first later epoch that has no bucket. */
  lemma RollingBucket(h: History, tp: TimeProvider, targetSlot: nat, maxCommittableAge: nat, epoch: nat)
    requires tp.Valid() && tp.EpochFromSlot(targetSlot) < epoch <= EndOfBuckets(h, tp, targetSlot)
    ensures epoch in Rolling(h, tp, targetSlot, maxCommittableAge, epoch).buckets <==> epoch < EndOfBuckets(h, tp, targetSlot)
  {
  }

  lemma RollingFails(h: History, tp: TimeProvider, targetSlot: nat, maxCommittableAge: nat)
    requires tp.Valid() && CommitteeGone(h, tp, targetSlot, maxCommittableAge)
    ensures RollBack(h, tp, targetSlot, maxCommittableAge)
         == Outcome(Rolling(h, tp, targetSlot, maxCommittableAge, tp.EpochFromSlot(targetSlot) + 1), false)
  {
    var cut, later := h.(buckets := CutBucket(h, tp, targetSlot)), tp.EpochFromSlot(targetSlot) + 1;
    assert Minus(cut.buckets, later, later) == cut.buckets;
  }

  lemma RollingEnds(h: History, tp: TimeProvider, targetSlot: nat, maxCommittableAge: nat)
    requires tp.Valid() && !CommitteeGone(h, tp, targetSlot, maxCommittableAge)
    ensures var epoch := EndOfBuckets(h, tp, targetSlot); var r := Rolling(h, tp, targetSlot, maxCommittableAge, epoch);
            var v := r.(buckets := r.buckets - {epoch}, committee := WithoutCommittees(r, tp, targetSlot, maxCommittableAge));
            RollBack(h, tp, targetSlot, maxCommittableAge) == Outcome(v, true)
  {
    var cut, epoch := h.(buckets := CutBucket(h, tp, targetSlot)), EndOfBuckets(h, tp, targetSlot);
    RollingCommittees(h, tp, targetSlot, maxCommittableAge, epoch);
    var buckets := Minus(cut.buckets, tp.EpochFromSlot(targetSlot) + 1, epoch);
    assert buckets - {epoch} == buckets;
  }
}
