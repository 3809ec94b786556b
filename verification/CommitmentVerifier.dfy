/**
 Verification of the weight that a forked chain claims, by counting the attestations of the committee known at the fork.
 */
module CommitmentVerifier {
  import opened Options
  import opened Sets

  type AccountId = nat
  type PublicKey = nat

  /** Weights are unsigned 64-bit numbers. */
  const WEIGHTS: nat := 0x1_0000_0000_0000_0000

  /** An attestation: its key is missing unless the signature is an Ed25519 one, its block slot unless the block ID can be computed. */
  datatype Attestation = Attestation(issuer: AccountId, key: Option<PublicKey>, validSignature: bool, blockSlot: Option<nat>)

  /** What the node knows: the keys of the validators at the fork and who has a seat in which slot. */
  datatype Knowledge = Knowledge(keys: map<AccountId, set<PublicKey>>, seats: (nat, AccountId) -> bool)

  /** The attestation is signed with a key that was known at the fork; others are ignored. */
  predicate Relevant(k: Knowledge, a: Attestation) {
    a.issuer in k.keys && a.key.Some? && a.key.value in k.keys[a.issuer]
  }

  /** A single attestation that does not spoil the list. */
  predicate Acceptable(k: Knowledge, a: Attestation) {
    a.issuer in k.keys && a.key.Some? && (Relevant(k, a) ==> a.validSignature && a.blockSlot.Some?)
  }

  /** The list as a whole is accepted: no attestation spoils it and no issuer attests twice with known keys. */
  ghost predicate AllAcceptable(k: Knowledge, s: seq<Attestation>) {
    && (forall i :: 0 <= i < |s| ==> Acceptable(k, s[i]))
    && (forall i, j :: 0 <= i < j < |s| && Relevant(k, s[i]) && Relevant(k, s[j]) ==> s[i].issuer != s[j].issuer)
  }

  predicate Counts(k: Knowledge, a: Attestation) {
    Relevant(k, a) && a.blockSlot.Some? && k.seats(a.blockSlot.value, a.issuer)
  }

  /** The issuers that are counted: those who hold a seat in the slot of the block they attest with. */
  function Counted(k: Knowledge, s: seq<Attestation>): set<AccountId> {
    set a | a in s && Counts(k, a) :: a.issuer
  }

  lemma CountedNext(k: Knowledge, s: seq<Attestation>, a: Attestation)
    ensures Counted(k, s + [a]) == Counted(k, s) + if Counts(k, a) then {a.issuer} else {}
  {
    var u := Counted(k, s + [a]);
    forall b | b in s ensures b in s + [a] {}
    forall i | i in u ensures i in Counted(k, s) || (Counts(k, a) && i == a.issuer) {
      var b :| b in s + [a] && Counts(k, b) && b.issuer == i;
    }
    assert Counts(k, a) ==> a in s + [a];
  }

  /** Only validators known at the fork are counted. */
  lemma CountedBound(k: Knowledge, s: seq<Attestation>)
    ensures Counted(k, s) <= k.keys.Keys && |Counted(k, s)| <= |k.keys|
  {
    assert Counted(k, s) <= k.keys.Keys;
    SubsetSize(Counted(k, s), k.keys.Keys);
    assert |k.keys.Keys| == |k.keys|;
  }

  /** The issuers that attested with a known key. */
  function Visited(k: Knowledge, s: seq<Attestation>): set<AccountId> {
    set a | a in s && Relevant(k, a) :: a.issuer
  }

  /** What one more attestation changes. */
  lemma VisitedNext(k: Knowledge, s: seq<Attestation>, a: Attestation)
    ensures Visited(k, s + [a]) == Visited(k, s) + if Relevant(k, a) then {a.issuer} else {}
    ensures Counted(k, s) <= Visited(k, s)
  {
    forall b | b in s ensures b in s + [a] {}
    forall i | i in Visited(k, s + [a]) ensures i in Visited(k, s) || (Relevant(k, a) && i == a.issuer) {
      var b :| b in s + [a] && Relevant(k, b) && b.issuer == i;
    }
    assert Relevant(k, a) ==> a in s + [a];
  }

  lemma AcceptableNext(k: Knowledge, s: seq<Attestation>, a: Attestation)
    ensures AllAcceptable(k, s + [a]) <==>
              AllAcceptable(k, s) && Acceptable(k, a) && (Relevant(k, a) ==> a.issuer !in Visited(k, s))
  {
    var t := s + [a];
    if AllAcceptable(k, t) {
      assert Acceptable(k, t[|s|]);
      forall i | 0 <= i < |s| ensures Acceptable(k, s[i]) && (Relevant(k, s[i]) && Relevant(k, a) ==> s[i].issuer != a.issuer) {
        assert t[i] == s[i] && t[|s|] == a;
      }
      forall i, j | 0 <= i < j < |s| && Relevant(k, s[i]) && Relevant(k, s[j]) ensures s[i].issuer != s[j].issuer {
        assert t[i] == s[i] && t[j] == s[j];
      }
    }
  }

  lemma {:induction false} AcceptablePrefix(k: Knowledge, s: seq<Attestation>, i: nat)
    requires i <= |s| && AllAcceptable(k, s)
    ensures AllAcceptable(k, s[..i])
  {
    assert forall j :: 0 <= j < i ==> s[..i][j] == s[j];
  }

  /** What the next attestation of a list means for the list. */
  lemma NextAttestation(k: Knowledge, s: seq<Attestation>, i: nat)
    requires i < |s| && AllAcceptable(k, s[..i])
    ensures AllAcceptable(k, s[..i + 1]) <==> Acceptable(k, s[i]) && (Relevant(k, s[i]) ==> s[i].issuer !in Visited(k, s[..i]))
    ensures AllAcceptable(k, s) ==> AllAcceptable(k, s[..i + 1])
    ensures Visited(k, s[..i + 1]) == Visited(k, s[..i]) + if Relevant(k, s[i]) then {s[i].issuer} else {}
    ensures AllAcceptable(k, s[..i + 1]) ==> |Counted(k, s[..i + 1])| == |Counted(k, s[..i])| + if Counts(k, s[i]) then 1 else 0
  {
    assert s[..i + 1] == s[..i] + [s[i]];
    CountedNext(k, s[..i], s[i]);
    VisitedNext(k, s[..i], s[i]);
    AcceptableNext(k, s[..i], s[i]);
    if AllAcceptable(k, s) {
      AcceptablePrefix(k, s, i + 1);
    }
  }

  /** Counts the seats behind the attestations, each issuer at most once; the list is refused as a whole exactly when it is not acceptable. */
  method VerifyAttestations(k: Knowledge, attestations: seq<Attestation>) returns (ok: bool, seatCount: nat)
    ensures ok <==> AllAcceptable(k, attestations)
    ensures ok ==> seatCount == |Counted(k, attestations)|
  {
    var visitedIdentities: set<AccountId> := {};
    seatCount := 0;
    var i := 0;
    assert attestations[..0] == [];
    NothingVisited(k);
    hide AllAcceptable, Counted, Visited;
    while i < |attestations|
      invariant i <= |attestations| && AllAcceptable(k, attestations[..i])
      invariant visitedIdentities == Visited(k, attestations[..i])
      invariant seatCount == |Counted(k, attestations[..i])|
    {
      var att := attestations[i];
      NextAttestation(k, attestations, i);
      i := i + 1;
      if att.issuer !in k.keys || att.key.None? {
        return false, 0;
      }
      if att.key.value !in k.keys[att.issuer] {
        continue;
      }
      if !att.validSignature || att.issuer in visitedIdentities || att.blockSlot.None? {
        return false, 0;
      }
      if k.seats(att.blockSlot.value, att.issuer) {
        seatCount := seatCount + 1;
      }
      visitedIdentities := visitedIdentities + {att.issuer};
    }
    assert attestations[..i] == attestations;
    ok := true;
  }

  /** A list of attestations is refused exactly when an issuer is not a validator known at the fork, a signature is not of the
      expected kind, an attestation with a known key has a wrong signature or no block ID, or an issuer attests twice with known keys. */
  lemma RefusedIff(k: Knowledge, s: seq<Attestation>)
    ensures !AllAcceptable(k, s) <==>
              || (exists i :: 0 <= i < |s| && (s[i].issuer !in k.keys || s[i].key.None?))
              || (exists i :: 0 <= i < |s| && KnownKey(k, s[i]) && (!s[i].validSignature || s[i].blockSlot.None?))
              || (exists i, j :: 0 <= i < j < |s| && KnownKey(k, s[i]) && KnownKey(k, s[j]) && s[i].issuer == s[j].issuer)
  {
    assert forall i :: 0 <= i < |s| ==> KnownKey(k, s[i]) == Relevant(k, s[i]);
  }

  predicate KnownKey(k: Knowledge, a: Attestation) {
    exists key :: a.key == Some(key) && a.issuer in k.keys && key in k.keys[a.issuer]
  }

  /** An issuer is counted exactly when it attests with a known key and has a seat in the slot of the block it attests with. */
  lemma CountedIff(k: Knowledge, s: seq<Attestation>, issuer: AccountId)
    ensures issuer in Counted(k, s) <==>
              exists i, slot :: 0 <= i < |s| && s[i].issuer == issuer && KnownKey(k, s[i]) && s[i].blockSlot == Some(slot) && k.seats(slot, issuer)
  {
    if issuer in Counted(k, s) {
      var a :| a in s && Counts(k, a) && a.issuer == issuer;
      var i :| 0 <= i < |s| && s[i] == a;
      assert KnownKey(k, s[i]) && s[i].blockSlot == Some(a.blockSlot.value);
    }
  }

  lemma NothingVisited(k: Knowledge)
    ensures AllAcceptable(k, []) && Visited(k, []) == {} && Counted(k, []) == {}
  {
  }

  // ----- Weights over a run -----

  datatype Call = Call(attestations: seq<Attestation>, validProof: bool, claimedWeight: nat)

  /** What the verifier adds for a call: nothing when the attestations are refused, but also when the claim turns out too low. */
  ghost function WeightAfter(k: Knowledge, weight: nat, c: Call): nat {
    if c.validProof && AllAcceptable(k, c.attestations) then (weight + |Counted(k, c.attestations)|) % WEIGHTS else weight
  }

  ghost predicate Verified(k: Knowledge, weight: nat, c: Call) {
    c.validProof && AllAcceptable(k, c.attestations) && WeightAfter(k, weight, c) <= c.claimedWeight
  }

  ghost function WeightAfterAll(k: Knowledge, weight: nat, calls: seq<Call>): nat {
    if calls == [] then weight else WeightAfter(k, WeightAfterAll(k, weight, calls[..|calls| - 1]), calls[|calls| - 1])
  }

  class Verifier {
    const knowledge: Knowledge
    var cumulativeWeight: nat

    constructor (knowledge: Knowledge, weightBeforeFork: nat)
      ensures this.knowledge == knowledge && cumulativeWeight == weightBeforeFork
    {
      this.knowledge, cumulativeWeight := knowledge, weightBeforeFork;
    }

    /** A verified commitment's weight is the verifier's, and at most the claimed one. The weight has also grown when the
        commitment is refused for claiming too little. */
    method VerifyCommitment(c: Call) returns (ok: bool, weight: nat)
      modifies this
      ensures cumulativeWeight == WeightAfter(knowledge, old(cumulativeWeight), c)
      ensures ok <==> Verified(knowledge, old(cumulativeWeight), c)
      ensures ok ==> weight == cumulativeWeight <= c.claimedWeight
    {
      if !c.validProof {
        return false, 0;
      }
      var accepted, seatCount := VerifyAttestations(knowledge, c.attestations);
      if !accepted {
        return false, 0;
      }
      cumulativeWeight := (cumulativeWeight + seatCount) % WEIGHTS;
      if cumulativeWeight > c.claimedWeight {
        return false, 0;
      }
      return true, cumulativeWeight;
    }
  }

  lemma OneMore(n: nat, size: nat)
    ensures (n + 1) * size == n * size + size
  {
  }

  /** One call adds at most the size of the committee, if that fits. */
  lemma OneCall(k: Knowledge, weight: nat, c: Call)
    requires weight + |k.keys| < WEIGHTS
    ensures weight <= WeightAfter(k, weight, c) <= weight + |k.keys|
  {
    CountedBound(k, c.attestations);
  }

  /** As long as the sum fits into the weight's 64 bits, the weight never falls, and after any number of calls it has grown
      by at most the size of the committee for each. */
  lemma {:induction false} WeightBounds(k: Knowledge, weight: nat, calls: seq<Call>)
    requires weight + |calls| * |k.keys| < WEIGHTS
    ensures weight <= WeightAfterAll(k, weight, calls) <= weight + |calls| * |k.keys|
    ensures calls != [] ==> WeightAfterAll(k, weight, calls[..|calls| - 1]) <= WeightAfterAll(k, weight, calls)
  {
    if calls != [] {
      var init, c := calls[..|calls| - 1], calls[|calls| - 1];
      OneMore(|init|, |k.keys|);
      WeightBounds(k, weight, init);
      CountedBound(k, c.attestations);
      OneCall(k, WeightAfterAll(k, weight, init), c);
    }
  }

  /** The seats behind the calls whose attestations and proof are in order. */
  ghost function SeatsBehind(k: Knowledge, calls: seq<Call>): nat {
    if calls == [] then 0
    else
      var c := calls[|calls| - 1];
      SeatsBehind(k, calls[..|calls| - 1]) + if c.validProof && AllAcceptable(k, c.attestations) then |Counted(k, c.attestations)| else 0
  }

  /** Over any run the weight is the one from before the fork plus all seats behind the calls, cut to 64 bits. A commitment is
      verified exactly when its proof and attestations are in order and it claims at least that weight. */
  lemma {:induction false} WeightIsSum(k: Knowledge, weight: nat, calls: seq<Call>)
    requires weight < WEIGHTS
    ensures WeightAfterAll(k, weight, calls) == (weight + SeatsBehind(k, calls)) % WEIGHTS
    ensures calls != [] ==>
              var c := calls[|calls| - 1];
              Verified(k, WeightAfterAll(k, weight, calls[..|calls| - 1]), c) <==>
                c.validProof && AllAcceptable(k, c.attestations) && (weight + SeatsBehind(k, calls)) % WEIGHTS <= c.claimedWeight
  {
    hide AllAcceptable, Counted;
    if calls == [] {
      assert weight % 0x1_0000_0000_0000_0000 == weight;
    } else {
      var init, c := calls[..|calls| - 1], calls[|calls| - 1];
      WeightIsSum(k, weight, init);
      AddModulo(weight + SeatsBehind(k, init), |Counted(k, c.attestations)|);
    }
  }

  lemma AddModulo(a: nat, b: nat)
    ensures (a % WEIGHTS + b) % WEIGHTS == (a + b) % WEIGHTS
  {
    assert (a % 0x1_0000_0000_0000_0000 + b) % 0x1_0000_0000_0000_0000 == (a + b) % 0x1_0000_0000_0000_0000;
  }

  /** One call lowers the weight exactly when its sum does not fit. */
  lemma WeightFallsIff(k: Knowledge, weight: nat, c: Call)
    requires weight < WEIGHTS && |k.keys| < WEIGHTS
    ensures WeightAfter(k, weight, c) < weight <==>
              c.validProof && AllAcceptable(k, c.attestations) && weight + |Counted(k, c.attestations)| >= WEIGHTS
  {
    CountedBound(k, c.attestations);
    if c.validProof && AllAcceptable(k, c.attestations) && weight + |Counted(k, c.attestations)| >= WEIGHTS {
      assert WeightAfter(k, weight, c) == weight + |Counted(k, c.attestations)| - WEIGHTS;
    }
  }
}
