/**
 Stores that keep one value per epoch and prune with a delay of their own.
 */
module EpochStores {
  import opened Eviction

  /** The values that a store holds and how far it has been pruned. */
  datatype Entries<V> = Entries(values: map<nat, V>, pruned: EvictionIndex)

  /** Nothing is held for a pruned epoch. */
  ghost predicate Clean<V>(s: Entries<V>) {
    forall e :: e in s.values ==> !s.pruned.IsEvicted(e)
  }

  /** How much longer than the rest of the history a store keeps its values. */
  function ExtraDelay(pruningDelay: nat, defaultPruningDelay: nat): nat {
    if defaultPruningDelay >= pruningDelay then 0 else pruningDelay - defaultPruningDelay
  }

  /** All values up to an epoch dropped, unless they were dropped before. */
  function Drop<V>(s: Entries<V>, last: nat): Entries<V> {
    if s.pruned.IsEvicted(last) then s
    else Entries(map e | e in s.values && e > last :: s.values[e], s.pruned.MarkEvicted(last))
  }

  function PruneEntries<V>(s: Entries<V>, pruningDelay: nat, epoch: nat, defaultPruningDelay: nat): Entries<V> {
    var delay := ExtraDelay(pruningDelay, defaultPruningDelay);
    if epoch < delay then s else Drop(s, epoch - delay)
  }

  /** Pruning epoch after epoch is the same as pruning the last one. */
  lemma PruneNext<V>(s: Entries<V>, pruningDelay: nat, epoch: nat, later: nat, defaultPruningDelay: nat)
    requires epoch <= later
    ensures PruneEntries(PruneEntries(s, pruningDelay, epoch, defaultPruningDelay), pruningDelay, later, defaultPruningDelay)
         == PruneEntries(s, pruningDelay, later, defaultPruningDelay)
  {
    var delay := ExtraDelay(pruningDelay, defaultPruningDelay);
    if epoch >= delay {
      var t := Drop(s, epoch - delay);
      assert Drop(t, later - delay).values == Drop(s, later - delay).values;
    }
  }

  datatype Loaded<V> = EpochPruned | Missing | Found(value: V)

  class EpochStore<V> {
    const pruningDelay: nat
    var values: map<nat, V>
    var lastPrunedEpoch: EvictionIndex

    ghost function Value(): Entries<V>
      reads this
    {
      Entries(values, lastPrunedEpoch)
    }

    constructor (pruningDelay: nat)
      ensures this.pruningDelay == pruningDelay && Value() == Entries(map[], NOTHING_EVICTED) && Clean(Value())
    {
      this.pruningDelay := pruningDelay;
      values, lastPrunedEpoch := map[], NOTHING_EVICTED;
    }

    predicate IsTooOld(epoch: nat)
      reads this
    {
      lastPrunedEpoch.index.Some? && epoch <= lastPrunedEpoch.index.value
    }

    method Load(epoch: nat) returns (r: Loaded<V>)
      ensures r.EpochPruned? <==> lastPrunedEpoch.IsEvicted(epoch)
      ensures r.Found? ==> epoch in values && r.value == values[epoch]
      ensures Clean(Value()) ==> (r.Found? <==> epoch in values)
    {
      if IsTooOld(epoch) {
        return EpochPruned;
      }
      r := if epoch in values then Found(values[epoch]) else Missing;
    }

    /** Writing to a pruned epoch is refused, so that nothing is ever held for one. */
    method Store(epoch: nat, value: V) returns (ok: bool)
      requires Clean(Value())
      modifies this`values
      ensures Clean(Value()) && ok == !lastPrunedEpoch.IsEvicted(epoch)
      ensures values == if ok then old(values)[epoch := value] else old(values)
    {
      ok := !IsTooOld(epoch);
      if ok {
        values := values[epoch := value];
      }
    }

    method DeleteEpoch(epoch: nat)
      requires Clean(Value())
      modifies this`values
      ensures Clean(Value()) && values == old(values) - {epoch}
    {
      values := values - {epoch};
    }

    /** Prunes one epoch after the other, as far as the store's own delay allows. */
    method Prune(epoch: nat, defaultPruningDelay: nat)
      requires Clean(Value())
      modifies this`values, this`lastPrunedEpoch
      ensures Clean(Value()) && Value() == PruneEntries(old(Value()), pruningDelay, epoch, defaultPruningDelay)
    {
      var delay := 0;
      if defaultPruningDelay < pruningDelay {
        delay := pruningDelay - defaultPruningDelay;
      }
      if epoch < delay {
        return;
      }
      var i := lastPrunedEpoch.NextIndex();
      while i <= epoch - delay
        invariant i == lastPrunedEpoch.NextIndex() && Clean(Value())
        invariant Value() == old(Value()) || (i > 0 && !old(lastPrunedEpoch).IsEvicted(i - 1) && i - 1 <= epoch - delay)
        invariant values == map e | e in old(values) && e >= i :: old(values)[e]
        decreases epoch - delay - i
      {
        values := values - {i};
        lastPrunedEpoch := lastPrunedEpoch.MarkEvicted(i);
        i := i + 1;
      }
    }
  }
}
