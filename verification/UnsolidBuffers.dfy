/**
 Blocks that wait for unsolid commitments: a bounded number of commitments, evicted by recency and by slot,
 each with a buffer of limited size.
 */
module UnsolidBuffers {
  import opened Recency
  import opened Sets
  import ChainState

  type Id = ChainState.Id

  // ----- The buffer as a value -----

  /** What was added for each commitment since it was last dropped, the tracked commitments, and the last evicted slot. */
  datatype Buffered<V> = Buffered(added: map<Id, seq<V>>, tracked: seq<Id>, lastEvicted: nat)

  /** Every commitment with values is tracked, there are at most as many as fit, and none is of an evicted slot. */
  ghost predicate Inv<V>(s: Buffered<V>, capacity: nat) {
    && Distinct(s.tracked) && |s.tracked| <= capacity
    && (forall d :: d in s.added ==> d in s.tracked && d.slot > s.lastEvicted)
  }

  function AddedTo<V>(s: Buffered<V>, id: Id): seq<V> {
    if id in s.added then s.added[id] else []
  }

  /** A value for a commitment of an evicted slot is refused. Otherwise it is added, and the least recently used commitment
      is dropped when there is no room. */
  function WithAdded<V>(s: Buffered<V>, capacity: nat, id: Id, value: V): Buffered<V>
    requires capacity > 0
  {
    if id.slot <= s.lastEvicted then s
    else
      var tracked := Use(s.tracked, capacity, id);
      var added := s.added[id := AddedTo(s, id) + [value]];
      s.(tracked := tracked, added := map d | d in added && d in tracked :: added[d])
  }

  function Evict<V>(s: Buffered<V>, slot: nat): Buffered<V> {
    s.(added := (map d | d in s.added && d.slot > slot :: s.added[d]), lastEvicted := slot)
  }

  lemma AddTracks<V>(s: Buffered<V>, capacity: nat, id: Id, value: V)
    requires capacity > 0 && id.slot > s.lastEvicted
    ensures var u := WithAdded(s, capacity, id, value); u.tracked == Use(s.tracked, capacity, id) && u.lastEvicted == s.lastEvicted
  {
  }

  lemma AddKeepsInv<V>(s: Buffered<V>, capacity: nat, id: Id, value: V)
    requires capacity > 0 && Inv(s, capacity)
    ensures Inv(WithAdded(s, capacity, id, value), capacity)
  {
    UseKeepsDistinct(s.tracked, capacity, id);
  }

  /** The number of commitments with values is bounded. */
  lemma {:induction false} BufferedBound<V>(s: Buffered<V>, capacity: nat)
    requires Inv(s, capacity)
    ensures |s.added| <= capacity
  {
    var tracked := set d | d in s.tracked;
    ElementsSize(s.tracked, tracked);
    SubsetSize(s.added.Keys, tracked);
    assert |s.added.Keys| == |s.added|;
  }

  // ----- Runs -----

  datatype Op<V> = AddOp(id: Id, value: V) | EvictOp(slot: nat)

  function Step<V>(s: Buffered<V>, capacity: nat, op: Op<V>): Buffered<V>
    requires capacity > 0
  {
    match op
    case AddOp(id, value) => WithAdded(s, capacity, id, value)
    case EvictOp(slot) => Evict(s, slot)
  }

  predicate Accepted<V>(s: Buffered<V>, op: Op<V>) {
    op.AddOp? && op.id.slot > s.lastEvicted
  }

  const NOTHING_TRACKED: seq<Id> := []

  function Run<V>(capacity: nat, ops: seq<Op<V>>): Buffered<V>
    requires capacity > 0
  {
    if ops == [] then Buffered(map[], NOTHING_TRACKED, 0) else Step(Run(capacity, ops[..|ops| - 1]), capacity, ops[|ops| - 1])
  }

  /** The commitments of the accepted values, in order. */
  function History<V>(capacity: nat, ops: seq<Op<V>>): seq<Id>
    requires capacity > 0
  {
    if ops == [] then [] else
      var init, op := ops[..|ops| - 1], ops[|ops| - 1];
      History(capacity, init) + if Accepted(Run(capacity, init), op) then [op.id] else []
  }

  /** In every run the invariant holds, and the tracked commitments are the most recent distinct ones that got a value. */
  lemma {:induction false} RunInv<V>(capacity: nat, ops: seq<Op<V>>)
    requires capacity > 0
    ensures Inv(Run(capacity, ops), capacity)
    ensures Run(capacity, ops).tracked == First(LatestFirst(History(capacity, ops)), capacity)
  {
    if ops != [] {
      var init, op := ops[..|ops| - 1], ops[|ops| - 1];
      RunInv(capacity, init);
      if Accepted(Run(capacity, init), op) {
        AddKeepsInv(Run(capacity, init), capacity, op.id, op.value);
        UseKeepsMostRecent(History(capacity, init), capacity, op.id);
      } else {
        assert History(capacity, ops) == History(capacity, init);
      }
    }
  }

  /** The last position of a run up to which a commitment had no values. */
  function LastWithout<V>(capacity: nat, ops: seq<Op<V>>, id: Id): (k: nat)
    requires capacity > 0
    ensures k <= |ops| && id !in Run(capacity, ops[..k]).added
    ensures forall j :: k < j <= |ops| ==> id in Run(capacity, ops[..j]).added
  {
    assert ops[..|ops|] == ops;
    if id !in Run(capacity, ops).added then |ops|
    else
      var init := ops[..|ops| - 1];
      assert forall j :: 0 <= j < |ops| ==> init[..j] == ops[..j];
      LastWithout(capacity, init, id)
  }

  /** The accepted values for a commitment from a position of a run on, in order. */
  function AcceptedSince<V>(capacity: nat, ops: seq<Op<V>>, id: Id, k: nat): seq<V>
    requires capacity > 0 && k <= |ops|
  {
    if k == |ops| then [] else
      var init, op := ops[..|ops| - 1], ops[|ops| - 1];
      AcceptedSince(capacity, init, id, k) + if Accepted(Run(capacity, init), op) && op.id == id then [op.value] else []
  }

  /** In every run the values of a commitment are the ones accepted for it, in order, since it last had none. */
  lemma {:induction false} AddedSinceDropped<V>(capacity: nat, ops: seq<Op<V>>, id: Id)
    requires capacity > 0
    ensures AddedTo(Run(capacity, ops), id) == AcceptedSince(capacity, ops, id, LastWithout(capacity, ops, id))
  {
    if id in Run(capacity, ops).added {
      AddedSinceDropped(capacity, ops[..|ops| - 1], id);
    }
  }

  /** A commitment that stays tracked and whose slot stays open keeps all its values. */
  lemma AddKeepsOthers<V>(s: Buffered<V>, capacity: nat, id: Id, value: V, d: Id)
    requires capacity > 0 && Inv(s, capacity) && d in s.added && d != id
    ensures d in WithAdded(s, capacity, id, value).added <==>
              id.slot <= s.lastEvicted || id in s.tracked || d in First(s.tracked, capacity - 1)
    ensures d in WithAdded(s, capacity, id, value).added ==> WithAdded(s, capacity, id, value).added[d] == s.added[d]
  {
  }

  /** A commitment loses its values exactly when its slot is evicted, or when it is the least recently used one and a new commitment
      needs its place; until then no value of it is lost. */
  lemma StepDrops<V>(s: Buffered<V>, capacity: nat, op: Op<V>, d: Id)
    requires capacity > 0 && Inv(s, capacity) && d in s.added
    ensures d !in Step(s, capacity, op).added <==>
              || (op.EvictOp? && d.slot <= op.slot)
              || (Accepted(s, op) && op.id !in s.tracked && |s.tracked| == capacity && d == s.tracked[capacity - 1])
    ensures d in Step(s, capacity, op).added ==> s.added[d] <= Step(s, capacity, op).added[d]
  {
    if Accepted(s, op) {
      UseMembers(s.tracked, capacity, op.id);
      var i :| 0 <= i < |s.tracked| && s.tracked[i] == d;
      assert |s.tracked| == capacity ==> (d in First(s.tracked, capacity - 1) <==> i < capacity - 1);
    }
  }

  /** Evicting a slot re-opens slots that were evicted before exactly when it lies below the last evicted one. */
  lemma EvictReopensIff<V>(s: Buffered<V>, slot: nat, value: V)
    ensures (exists id :: !Accepted(s, AddOp(id, value)) && Accepted(Evict(s, slot), AddOp(id, value))) <==> slot < s.lastEvicted
  {
    if slot < s.lastEvicted {
      assert !Accepted(s, AddOp(ChainState.Id(s.lastEvicted, 0), value));
    }
  }

  /** Evicting up to slot 5 closes slot 4; evicting up to slot 3 afterwards opens it again. */
  lemma EvictedSlotReopened<V>(value: V)
    ensures var id := ChainState.Id(4, 0);
            && id !in Run(1, [EvictOp(5), AddOp(id, value)]).added
            && id in Run(1, [EvictOp(5), EvictOp(3), AddOp(id, value)]).added
  {
    var id := ChainState.Id(4, 0);
    var closed: seq<Op<V>> := [EvictOp(5)];
    var reopened := closed + [EvictOp(3)];
    assert closed[..0] == [] && reopened[..1] == closed;
    assert [EvictOp(5), AddOp(id, value)][..1] == closed;
    assert [EvictOp(5), EvictOp(3), AddOp(id, value)][..2] == reopened;
    assert Run(1, closed).lastEvicted == 5 && Run(1, reopened).lastEvicted == 3;
    assert id in Use(Run(1, reopened).tracked, 1, id);
  }

  // ----- The buffer itself -----

  /** The last values of a list. */
  function Latest<V>(s: seq<V>, n: nat): seq<V> {
    if |s| <= n then s else s[|s| - n..]
  }

  lemma LatestAreLast<V>(s: seq<V>, n: nat, i: nat)
    ensures |Latest(s, n)| == (if |s| < n then |s| else n)
    ensures i < |Latest(s, n)| ==> Latest(s, n)[i] == s[|s| - |Latest(s, n)| + i]
  {
  }

  /** What a commitment's buffer holds of the values added to it: the latest ones, or each one once when the size is not limited. */
  ghost predicate Holds<V>(buffer: seq<V>, added: seq<V>, maxSize: nat) {
    if maxSize > 0 then buffer == Latest(added, maxSize)
    else Distinct(buffer) && (forall i :: 0 <= i < |buffer| ==> buffer[i] in added) && forall i :: 0 <= i < |added| ==> added[i] in buffer
  }

  ghost predicate AllHold<V>(buffers: map<Id, seq<V>>, added: map<Id, seq<V>>, maxSize: nat) {
    && buffers.Keys == added.Keys
    && (forall d {:trigger buffers[d]} :: d in buffers ==> Holds(buffers[d], added[d], maxSize))
  }

  /** A buffer with one more value. */
  function WithValue<V(==)>(buffer: seq<V>, value: V, maxSize: nat): seq<V> {
    if maxSize > 0 then Latest(buffer + [value], maxSize)
    else if value in buffer then buffer else buffer + [value]
  }

  lemma WithValueHolds<V>(buffer: seq<V>, values: seq<V>, value: V, maxSize: nat)
    requires Holds(buffer, values, maxSize)
    ensures Holds(WithValue(buffer, value, maxSize), values + [value], maxSize)
  {
  }

  /** The buffers without the one that has to go for a new commitment. */
  function WithRoom<V>(buffers: map<Id, seq<V>>, tracked: seq<Id>, capacity: nat, id: Id): map<Id, seq<V>>
    requires capacity > 0
  {
    if id !in tracked && |tracked| == capacity then buffers - {tracked[capacity - 1]} else buffers
  }

  lemma AddKeepsHolding<V>(buffers: map<Id, seq<V>>, s: Buffered<V>, capacity: nat, maxSize: nat, id: Id, value: V)
    requires capacity > 0 && Inv(s, capacity) && AllHold(buffers, s.added, maxSize) && id.slot > s.lastEvicted
    ensures var buffer := if id in buffers then buffers[id] else [];
            var after := WithRoom(buffers[id := WithValue(buffer, value, maxSize)], s.tracked, capacity, id);
            AllHold(after, WithAdded(s, capacity, id, value).added, maxSize)
  {
    var buffer := if id in buffers then buffers[id] else [];
    var after := WithRoom(buffers[id := WithValue(buffer, value, maxSize)], s.tracked, capacity, id);
    var u := WithAdded(s, capacity, id, value).added;
    WithValueHolds(buffer, AddedTo(s, id), value, maxSize);
    hide Holds, Use, WithValue;
    UseMembers(s.tracked, capacity, id);
    forall d ensures d in after <==> d in u {}
    assert after.Keys == u.Keys;
  }

  class UnsolidCommitmentBuffer<V(==)> {
    const blockBufferMaxSize: nat        // 0 for no limit
    const commitmentBufferMaxSize: nat
    var lastEvictedSlot: nat
    var blockBuffers: map<Id, seq<V>>
    var commitmentBuffer: seq<Id>        // most recently used first
    ghost var added: map<Id, seq<V>>

    ghost function Value(): Buffered<V>
      reads this
    {
      Buffered(added, commitmentBuffer, lastEvictedSlot)
    }

    ghost predicate Valid()
      reads this
    {
      && commitmentBufferMaxSize > 0 && Inv(Value(), commitmentBufferMaxSize)
      && AllHold(blockBuffers, added, blockBufferMaxSize)
    }

    constructor (commitmentBufferMaxSize: nat, blockBufferMaxSize: nat)
      requires commitmentBufferMaxSize > 0
      ensures Valid() && Value() == Buffered(map[], [], 0)
      ensures this.commitmentBufferMaxSize == commitmentBufferMaxSize && this.blockBufferMaxSize == blockBufferMaxSize
    {
      this.commitmentBufferMaxSize, this.blockBufferMaxSize := commitmentBufferMaxSize, blockBufferMaxSize;
      lastEvictedSlot, blockBuffers, commitmentBuffer, added := 0, map[], [], map[];
    }

    /** Puts a commitment in front; one that has to go loses its buffer. */
    method Track(commitmentID: Id)
      requires 0 < commitmentBufferMaxSize && |commitmentBuffer| <= commitmentBufferMaxSize
      modifies this`commitmentBuffer, this`blockBuffers
      ensures commitmentBuffer == Use(old(commitmentBuffer), commitmentBufferMaxSize, commitmentID)
      ensures blockBuffers == WithRoom(old(blockBuffers), old(commitmentBuffer), commitmentBufferMaxSize, commitmentID)
    {
      if commitmentID in commitmentBuffer {
        commitmentBuffer := [commitmentID] + Remove(commitmentBuffer, commitmentID);
        return;
      }
      if |commitmentBuffer| == commitmentBufferMaxSize {
        blockBuffers := blockBuffers - {commitmentBuffer[|commitmentBuffer| - 1]};
        commitmentBuffer := commitmentBuffer[..|commitmentBuffer| - 1];
      }
      commitmentBuffer := [commitmentID] + commitmentBuffer;
    }

    /** Adds a value for a commitment of an open slot. */
    method AddOpen(commitmentID: Id, value: V)
      requires Valid() && commitmentID.slot > lastEvictedSlot
      modifies this
      ensures Valid() && Value() == WithAdded(old(Value()), commitmentBufferMaxSize, commitmentID, value)
    {
      ghost var s, u := Value(), WithAdded(Value(), commitmentBufferMaxSize, commitmentID, value);
      AddTracks(s, commitmentBufferMaxSize, commitmentID, value);
      AddKeepsInv(s, commitmentBufferMaxSize, commitmentID, value);
      AddKeepsHolding(blockBuffers, s, commitmentBufferMaxSize, blockBufferMaxSize, commitmentID, value);
      hide AllHold, Use, WithValue, WithRoom, WithAdded, Inv;
      var buffer := if commitmentID in blockBuffers then blockBuffers[commitmentID] else [];
      blockBuffers := blockBuffers[commitmentID := WithValue(buffer, value, blockBufferMaxSize)];
      Track(commitmentID);
      added := u.added;
      assert Value() == u;
    }

    /** Adds a value for a commitment, unless its slot is evicted. */
    method Add(commitmentID: Id, value: V) returns (ok: bool)
      requires Valid()
      modifies this
      ensures Valid() && ok == (commitmentID.slot > old(lastEvictedSlot))
      ensures Value() == WithAdded(old(Value()), commitmentBufferMaxSize, commitmentID, value)
    {
      if commitmentID.slot <= lastEvictedSlot {
        return false;
      }
      AddOpen(commitmentID, value);
      ok := true;
    }

    /** Adds a value only when the given condition holds for a commitment that is not evicted. */
    method AddWithFunc(commitmentID: Id, value: V, condition: bool) returns (ok: bool)
      requires Valid()
      modifies this
      ensures Valid() && ok == (commitmentID.slot > old(lastEvictedSlot) && condition)
      ensures Value() == if ok then WithAdded(old(Value()), commitmentBufferMaxSize, commitmentID, value) else old(Value())
    {
      if commitmentID.slot <= lastEvictedSlot || !condition {
        return false;
      }
      AddOpen(commitmentID, value);
      ok := true;
    }

    method EvictSlot(slot: nat)
      requires Valid()
      modifies this`blockBuffers, this`added
      ensures Valid() && added == map d | d in old(added) && d.slot != slot :: old(added)[d]
    {
      hide Holds;
      blockBuffers := map d | d in blockBuffers && d.slot != slot :: blockBuffers[d];
      added := map d | d in added && d.slot != slot :: added[d];
    }

    /** Drops the buffers of one slot after the other. The last evicted slot is set even when it lies below the former one. */
    method EvictUntil(slotToEvict: nat)
      requires Valid()
      modifies this
      ensures Valid() && Value() == Evict(old(Value()), slotToEvict)
    {
      hide AllHold;
      var slot := lastEvictedSlot + 1;
      while slot <= slotToEvict
        invariant Valid() && slot > old(lastEvictedSlot) && commitmentBuffer == old(commitmentBuffer) && lastEvictedSlot == old(lastEvictedSlot)
        invariant slot <= slotToEvict + 1 || slot == lastEvictedSlot + 1
        invariant added == map d | d in old(added) && d.slot >= slot :: old(added)[d]
        decreases slotToEvict - slot
      {
        EvictSlot(slot);
        slot := slot + 1;
      }
      lastEvictedSlot := slotToEvict;
    }

    /** Only values that were added for the commitment since it was last dropped, at most as many as the limit allows. */
    method GetValues(commitmentID: Id) returns (values: seq<V>)
      requires Valid()
      ensures Holds(values, AddedTo(Value(), commitmentID), blockBufferMaxSize)
    {
      values := if commitmentID in blockBuffers then blockBuffers[commitmentID] else [];
    }

    method GetValuesAndEvict(commitmentID: Id) returns (values: seq<V>)
      requires Valid()
      modifies this
      ensures Valid() && Holds(values, AddedTo(old(Value()), commitmentID), blockBufferMaxSize)
      ensures Value() == Evict(old(Value()), commitmentID.slot)
    {
      values := if commitmentID in blockBuffers then blockBuffers[commitmentID] else [];
      EvictUntil(commitmentID.slot);
    }
  }
}
