/**
 The linked objects of the chain manager: slot commitments with their children,
 and chains with their per-slot index. Each method works on one object.
 */
module ChainObjects {
  import opened Options
  import opened ChainState

  class Chain {
    const forkingPoint: ChainCommitment
    ghost const number: nat  // position in the manager's list of chains

    var latestCommitmentIndex: nat
    var commitmentsByIndex: map<nat, ChainCommitment>
    ghost var value: ChainState.Chain  // what the chain stands for

    ghost predicate Valid()
      reads this
    {
      && value.forkingPoint == forkingPoint.id && value.latest == latestCommitmentIndex
      && value.index.Keys == commitmentsByIndex.Keys
      && (forall i {:trigger commitmentsByIndex[i]} :: i in commitmentsByIndex ==> value.index[i] == commitmentsByIndex[i].id)
    }

    /** A chain starts with its forking point. */
    constructor (forkingPoint: ChainCommitment, ghost number: nat)
      requires forkingPoint.commitment.Some? && forkingPoint.commitment.value.id == forkingPoint.id
      ensures this.forkingPoint == forkingPoint && this.number == number
      ensures Valid() && value == NewChain(forkingPoint.id)
      ensures commitmentsByIndex == map[forkingPoint.id.slot := forkingPoint]
    {
      this.forkingPoint := forkingPoint;
      this.number := number;
      latestCommitmentIndex := forkingPoint.commitment.value.id.slot;
      commitmentsByIndex := map[forkingPoint.commitment.value.id.slot := forkingPoint];
      value := NewChain(forkingPoint.id);
    }

    function Commitment(index: nat): ChainCommitment?
      reads this
    {
      if index in commitmentsByIndex then commitmentsByIndex[index] else null
    }

    function LatestCommitment(): ChainCommitment?
      reads this
    {
      Commitment(latestCommitmentIndex)
    }

    method AddCommitment(commitment: ChainCommitment)
      requires Valid() && commitment.commitment.Some? && commitment.commitment.value.id == commitment.id
      modifies this
      ensures Valid() && value == ChainState.AddCommitment(old(value), commitment.id)
      ensures commitmentsByIndex == old(commitmentsByIndex)[commitment.id.slot := commitment]
    {
      var commitmentIndex := commitment.commitment.value.id.slot;
      if commitmentIndex > latestCommitmentIndex {
        latestCommitmentIndex := commitmentIndex;
      }
      commitmentsByIndex := commitmentsByIndex[commitmentIndex := commitment];
      value := ChainState.AddCommitment(value, commitment.id);
    }
  }

  class ChainCommitment {
    const id: Id
    var commitment: Option<Commitment>
    var solid: bool
    var mainChildID: Option<Id>
    var children: map<Id, ChainCommitment>
    var chain: Chain?

    constructor (id: Id)
      ensures this.id == id && Value() == NEW_NODE && children == map[] && chain == null
    {
      this.id := id;
      commitment, solid, mainChildID, children, chain := None, false, None, map[], null;
    }

    ghost function Value(): Node
      reads this
    {
      Node(commitment, solid, mainChildID, children.Keys, if chain == null then None else Some(chain.number))
    }

    /** The first commitment published for a node is kept. */
    method PublishCommitment(commitment: Commitment) returns (published: bool)
      modifies this`commitment
      ensures published == old(this.commitment).None?
      ensures this.commitment == if published then Some(commitment) else old(this.commitment)
    {
      published := this.commitment.None?;
      if published {
        this.commitment := Some(commitment);
      }
    }

    /** The first child becomes the main child and continues the chain; every further child forks. */
    method RegisterChild(child: ChainCommitment) returns (isSolid: bool, wasForked: bool)
      modifies this
      ensures isSolid == solid && chain == old(chain) && children == old(children)[child.id := child]
      ensures Value() == old(Value()).(mainChildId := if old(Value()).children == {} then Some(child.id) else old(mainChildID),
                                       children := old(Value()).children + {child.id})
      ensures wasForked == (|Value().children| > 1)
    {
      if |children| == 0 {
        mainChildID := Some(child.id);
      }
      children := children[child.id := child];
      assert children.Keys == old(children.Keys) + {child.id} && |children| == |children.Keys|;
      assert |old(children)| == |old(children.Keys)|;
      isSolid := solid;
      wasForked := |children| > 1;
    }

    method DeleteChild(child: ChainCommitment)
      modifies this`children
      ensures children == old(children) - {child.id}
    {
      children := children - {child.id};
    }

    function MainChild(): ChainCommitment?
      reads this
    {
      if mainChildID.Some? && mainChildID.value in children then children[mainChildID.value] else null
    }

    /** Only a registered child can become the main child. */
    method SetMainChild(commitment: ChainCommitment) returns (ok: bool)
      modifies this`mainChildID
      ensures ok == (commitment.id in children)
      ensures mainChildID == if ok then Some(commitment.id) else old(mainChildID)
    {
      ok := commitment.id in children;
      if ok {
        mainChildID := Some(commitment.id);
      }
    }

    /** The first chain published for a node is kept. */
    method PublishChain(chain: Chain) returns (wasPublished: bool)
      modifies this`chain
      ensures wasPublished == (old(this.chain) == null)
      ensures this.chain == if wasPublished then chain else old(this.chain)
    {
      wasPublished := this.chain == null;
      if wasPublished {
        this.chain := chain;
      }
    }

    method ReplaceChain(chain: Chain)
      modifies this`chain
      ensures this.chain == chain
    {
      this.chain := chain;
    }

    /** Solidity is triggered at most once. */
    method TriggerSolid() returns (triggered: bool)
      modifies this`solid
      ensures solid && triggered == !old(solid)
    {
      triggered := !solid;
      solid := true;
    }

    /** All children, in the arbitrary order of a map. */
    method Children() returns (all: seq<ChainCommitment>)
      ensures forall c :: c in all <==> c in children.Values
    {
      all := [];
      var keys := children.Keys;
      while keys != {}
        invariant keys <= children.Keys
        invariant forall c :: c in all <==> exists k :: k in children.Keys - keys && children[k] == c
        decreases keys
      {
        var k :| k in keys;
        all := all + [children[k]];
        keys := keys - {k};
      }
    }
  }
}
