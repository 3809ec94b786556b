/**
 The chain manager itself: linked commitments and chains that are updated in place,
 each operation proved to compute the corresponding function on the manager's state.
 */
module ChainManager {
  import opened Options
  import opened ChainState
  import opened ChainStructure
  import opened ChainForks
  import opened ChainProcess
  import opened ChainSwitch
  import opened ChainReorg
  import opened ChainOps
  import opened ChainRuns
  import opened ChainSpread
  import opened ChainObjects

  /** A fork as it is recorded for its forking point. */
  datatype ForkRecord = ForkRecord(
    source: nat,
    mainChain: ChainObjects.Chain,
    forkedChain: ChainObjects.Chain,
    forkingPoint: Id,
    forkLatestCommitment: Commitment)

  class Manager {
    var commitmentsByID: map<Id, ChainCommitment>
    var rootCommitment: ChainCommitment
    var commitmentRequester: set<Id>
    var forksByForkingPoint: map<Id, ForkRecord>
    var lastEvictedSlot: Option<nat>

    ghost var nodes: map<Id, ChainCommitment>        // every commitment something may still point at
    ghost var chains: seq<ChainObjects.Chain>        // every chain ever created
    ghost var origin: Id
    ghost var nodeValues: map<Id, Node>              // what the commitments stand for
    ghost var chainValues: seq<ChainState.Chain>     // what the chains stand for
    ghost var detections: seq<Detection>

    // ----- The objects and the value they stand for -----

    ghost function Value(): Tree
      reads this`origin, this`nodeValues, this`chainValues
    {
      Tree(origin, nodeValues, chainValues)
    }

    ghost predicate Known(c: ChainCommitment)
      reads this`nodes
    {
      c.id in nodes && nodes[c.id] == c
    }

    ghost predicate KnownChain(ch: ChainObjects.Chain)
      reads this`chains
    {
      ch.number < |chains| && chains[ch.number] == ch
    }

    ghost predicate NodeOk(n: Id)
      reads this`nodes, this`chains, this`nodeValues, nodes.Values
      requires n in nodes
    {
      var c := nodes[n];
      && c.id == n && n in nodeValues && nodeValues[n] == c.Value()
      && (forall d {:trigger c.children[d]} :: d in c.children ==> d in nodes && c.children[d] == nodes[d])
      && (c.chain != null ==> KnownChain(c.chain))
    }

    ghost predicate ChainOk(k: nat)
      reads this`nodes, this`chains, this`chainValues, chains
      requires k < |chains|
    {
      var ch := chains[k];
      && ch.number == k && k < |chainValues| && chainValues[k] == ch.value && ch.Valid()
      && Known(ch.forkingPoint)
      && (forall i {:trigger ch.commitmentsByIndex[i]} :: i in ch.commitmentsByIndex ==> Known(ch.commitmentsByIndex[i]))
    }

    ghost predicate NodesLinked()
      reads this`nodes, this`chains, this`nodeValues, nodes.Values
    {
      nodeValues.Keys == nodes.Keys && forall n {:trigger NodeOk(n)} :: n in nodes ==> NodeOk(n)
    }

    ghost predicate ChainsLinked()
      reads this`nodes, this`chains, this`chainValues, chains
    {
      |chainValues| == |chains| && forall k: nat {:trigger ChainOk(k)} :: k < |chains| ==> ChainOk(k)
    }

    /** The objects refer to each other consistently and stand for the tree. */
    ghost predicate Linked()
      reads this`nodes, this`chains, this`nodeValues, this`chainValues, nodes.Values, chains
    {
      NodesLinked() && ChainsLinked()
    }

    ghost predicate Valid()
      reads this, nodes.Values, chains
    {
      && Linked()
      && (forall n {:trigger commitmentsByID[n]} :: n in commitmentsByID ==> n in nodes && commitmentsByID[n] == nodes[n])
      && Known(rootCommitment)
    }

    ghost function ForkOf(f: ForkRecord): Fork {
      Fork(f.source, f.mainChain.number, f.forkedChain.number, f.forkingPoint, f.forkLatestCommitment)
    }

    /** The whole manager as a value. */
    ghost function Abs(): State
      reads this
    {
      State(Value(), commitmentsByID.Keys, rootCommitment.id, commitmentRequester,
            map d | d in forksByForkingPoint :: ForkOf(forksByForkingPoint[d]), detections, lastEvictedSlot)
    }

    /** A new manager, initialized with its root commitment. */
    constructor (c: Commitment)
      ensures Valid() && Abs() == Init(c)
    {
      var root := new ChainCommitment(c.id);
      root.commitment, root.solid := Some(c), true;
      var chain := new ChainObjects.Chain(root, 0);
      root.chain := chain;
      rootCommitment, commitmentsByID := root, map[c.id := root];
      commitmentRequester, forksByForkingPoint, lastEvictedSlot := {}, map[], None;
      nodes, chains, detections := map[c.id := root], [chain], [];
      origin, nodeValues, chainValues := c.id, Init(c).tree.nodes, Init(c).tree.chains;
    }

    // ----- One object at a time -----

    /** When a single commitment changed, still refers to known objects and its value was brought up to date, everything is consistent. */
    twostate lemma NodeChanged(new c: ChainCommitment)
      requires old(Linked()) && Known(c)
      requires nodes == old(nodes) && chains == old(chains) && chainValues == old(chainValues)
      requires nodeValues == old(nodeValues)[c.id := c.Value()]
      requires forall d :: d in c.children ==> d in nodes && c.children[d] == nodes[d]
      requires c.chain != null ==> KnownChain(c.chain)
      requires forall n :: n in nodes && nodes[n] != c ==> unchanged(nodes[n])
      requires forall k :: 0 <= k < |chains| ==> unchanged(chains[k])
      ensures Linked()
    {
      forall n | n in nodes ensures NodeOk(n) {
        assert old(NodeOk(n));
      }
      forall k: nat | k < |chains| ensures ChainOk(k) {
        assert old(ChainOk(k));
      }
    }

    method ReplaceChain(child: ChainCommitment, chain: ChainObjects.Chain)
      requires Linked() && Known(child) && KnownChain(chain)
      modifies child`chain, this`nodeValues
      ensures Linked() && nodeValues == old(nodeValues)[child.id := old(child.Value()).(chain := Some(chain.number))]
    {
      assert NodeOk(child.id);
      child.ReplaceChain(chain);
      nodeValues := nodeValues[child.id := child.Value()];
      NodeChanged(child);
    }

    method PublishChain(child: ChainCommitment, chain: ChainObjects.Chain) returns (wasPublished: bool)
      requires Linked() && Known(child) && KnownChain(chain)
      modifies child`chain, this`nodeValues
      ensures Linked() && wasPublished == (old(child.chain) == null)
      ensures nodeValues == if wasPublished then old(nodeValues)[child.id := old(child.Value()).(chain := Some(chain.number))]
                            else old(nodeValues)
    {
      assert NodeOk(child.id);
      wasPublished := child.PublishChain(chain);
      nodeValues := nodeValues[child.id := child.Value()];
      NodeChanged(child);
    }

    method AddCommitment(chain: ChainObjects.Chain, child: ChainCommitment)
      requires Linked() && Known(child) && KnownChain(chain)
      requires child.commitment.Some? && child.commitment.value.id == child.id
      modifies chain, this`chainValues
      ensures Linked()
      ensures chainValues == old(chainValues)[chain.number := ChainState.AddCommitment(old(chainValues)[chain.number], child.id)]
    {
      assert ChainOk(chain.number);
      chain.AddCommitment(child);
      chainValues := chainValues[chain.number := chain.value];
      forall k: nat | k < |chains| ensures ChainOk(k) { assert old(ChainOk(k)); }
    }

    // ----- Walking down main children -----

    /** The main child to continue with, if any. */
    method NextMainChild(child: ChainCommitment) returns (next: seq<ChainCommitment>)
      requires Linked() && Known(child)
      ensures Linked()
      ensures match MainChild(Value(), child.id)
              case None => next == []
              case Some(m) => m in nodes && next == [nodes[m]]
    {
      assert NodeOk(child.id);
      var mainChild := child.MainChild();
      next := if mainChild == null then [] else [mainChild];
    }

    /** Moves one commitment to a chain and says which one to move next. */
    method PropagateReplaceChainToMainChild(child: ChainCommitment, chain: ChainObjects.Chain) returns (childrenToUpdate: seq<ChainCommitment>)
      requires Linked() && Known(child) && KnownChain(chain)
      requires child.commitment.Some? && child.commitment.value.id == child.id
      modifies nodes.Values, chains, this`nodeValues, this`chainValues
      ensures Linked()
      ensures Value() == PutOnChain(old(Value()), [child.id], chain.number)
      ensures match MainChild(old(Value()), child.id)
              case None => childrenToUpdate == []
              case Some(m) => m in nodes && childrenToUpdate == [nodes[m]]
    {
      assert NodeOk(child.id);
      ReplaceChain(child, chain);
      AddCommitment(chain, child);
      PutOne(old(Value()), child.id, chain.number);
      childrenToUpdate := NextMainChild(child);
    }

    /** The walker is about to move the `i`th commitment of a walk that started from tree `t`. */
    ghost predicate Walking(t: Tree, path: seq<Id>, i: nat, chain: ChainObjects.Chain, childWalker: seq<ChainCommitment>)
      reads this, nodes.Values, chains
    {
      && Linked() && KnownChain(chain) && chain.number < |t.chains| && i <= |path| && Value() == Walked(t, path, i, chain.number)
      && if i < |path| then path[i] in nodes && childWalker == [nodes[path[i]]] else childWalker == []
    }

    method WalkOn(childWalker: seq<ChainCommitment>, chain: ChainObjects.Chain, ghost t: Tree, ghost path: seq<Id>, ghost i: nat)
      returns (next: seq<ChainCommitment>)
      requires childWalker != [] && IsWalk(t, path) && Walking(t, path, i, chain, childWalker)
      modifies nodes.Values, chains, this`nodeValues, this`chainValues
      ensures i < |path| && Walking(t, path, i + 1, chain, next)
    {
      hide PutOnChain;
      assert NodeOk(path[i]);
      WalkedAt(t, path, i, chain.number);
      next := PropagateReplaceChainToMainChild(childWalker[0], chain);
    }

    /** Moves the whole main-child path of a commitment to a chain. */
    method ReplaceChainOfMainPath(child: ChainCommitment, chain: ChainObjects.Chain, ghost path: seq<Id>)
      requires Linked() && Known(child) && KnownChain(chain)
      requires IsWalk(Value(), path) && path[0] == child.id
      modifies nodes.Values, chains, this`nodeValues, this`chainValues
      ensures Linked() && Value() == PutOnChain(old(Value()), path, chain.number)
    {
      hide PutOnChain, Walked;
      ghost var i := 0;
      var childWalker := [child];
      WalkedStart(Value(), path, chain.number);
      while childWalker != []
        invariant 0 <= i <= |path| && Walking(old(Value()), path, i, chain, childWalker)
        decreases |path| - i
      {
        childWalker := WalkOn(childWalker, chain, old(Value()), path, i);
        i := i + 1;
      }
      WalkedEnd(old(Value()), path, chain.number);
    }

    /** Publishes a chain to a commitment that has none yet and says which one to continue with. */
    method PropagateChainToMainChild(child: ChainCommitment, chain: ChainObjects.Chain) returns (childrenToUpdate: seq<ChainCommitment>)
      requires Linked() && Known(child) && KnownChain(chain)
      requires child.commitment.Some? && child.commitment.value.id == child.id
      modifies nodes.Values, chains, this`nodeValues, this`chainValues
      ensures Linked()
      ensures old(child.chain) != null ==> Value() == old(Value()) && childrenToUpdate == []
      ensures old(child.chain) == null ==>
                && Value() == PutOnChain(old(Value()), [child.id], chain.number)
                && match MainChild(old(Value()), child.id)
                   case None => childrenToUpdate == []
                   case Some(m) => m in nodes && childrenToUpdate == [nodes[m]]
    {
      assert NodeOk(child.id);
      var wasPublished := PublishChain(child, chain);
      if !wasPublished {
        return [];
      }
      AddCommitment(chain, child);
      PutOne(old(Value()), child.id, chain.number);
      childrenToUpdate := NextMainChild(child);
    }

    method PublishOn(childWalker: seq<ChainCommitment>, chain: ChainObjects.Chain, ghost t: Tree, ghost path: seq<Id>, ghost i: nat)
      returns (next: seq<ChainCommitment>)
      requires childWalker != [] && IsBareWalk(t, path) && Walking(t, path, i, chain, childWalker)
      modifies nodes.Values, chains, this`nodeValues, this`chainValues
      ensures i < |path| && Walking(t, path, i + 1, chain, next)
    {
      assert NodeOk(path[i]);
      BareWalkAt(t, path, i, chain.number);
      next := PropagateChainToMainChild(childWalker[0], chain);
    }

    /** Publishes a chain to a whole main-child path that has none yet. */
    method PublishChainToMainPath(child: ChainCommitment, chain: ChainObjects.Chain, ghost path: seq<Id>)
      requires Linked() && Known(child) && KnownChain(chain)
      requires IsBareWalk(Value(), path) && path[0] == child.id
      modifies nodes.Values, chains, this`nodeValues, this`chainValues
      ensures Linked() && Value() == PutOnChain(old(Value()), path, chain.number)
    {
      hide PutOnChain, Walked;
      ghost var i := 0;
      var childWalker := [child];
      WalkedStart(Value(), path, chain.number);
      while childWalker != []
        invariant 0 <= i <= |path| && Walking(old(Value()), path, i, chain, childWalker)
        decreases |path| - i
      {
        childWalker := PublishOn(childWalker, chain, old(Value()), path, i);
        i := i + 1;
      }
      WalkedEnd(old(Value()), path, chain.number);
    }

    // ----- Pushing solidity down -----

    method TriggerSolid(child: ChainCommitment) returns (triggered: bool)
      requires Linked() && Known(child)
      modifies child`solid, this`nodeValues
      ensures Linked() && triggered == !old(nodeValues)[child.id].solid
      ensures nodeValues == old(nodeValues)[child.id := old(nodeValues)[child.id].(solid := true)]
    {
      assert NodeOk(child.id);
      triggered := child.TriggerSolid();
      nodeValues := nodeValues[child.id := child.Value()];
      NodeChanged(child);
    }

    /** Makes one commitment solid and schedules its children, unless it was solid before. */
    method PropagateSolidity(child: ChainCommitment) returns (childrenToUpdate: seq<ChainCommitment>)
      requires Linked() && Known(child)
      modifies nodes.Values, this`nodeValues
      ensures Linked() && Value() == MakeSolid(old(Value()), {child.id})
      ensures forall c :: c in childrenToUpdate ==> Known(c)
      ensures Ids(childrenToUpdate) == if old(Value()).nodes[child.id].solid then {} else old(Value()).nodes[child.id].children
    {
      var triggered := TriggerSolid(child);
      childrenToUpdate := [];
      if triggered {
        childrenToUpdate := ChildrenOf(child);
      }
    }

    ghost function Ids(walker: seq<ChainCommitment>): set<Id> {
      set c | c in walker :: c.id
    }

    /** Makes the first commitment of the work list solid and appends what that schedules. */
    method Visit(childWalker: seq<ChainCommitment>) returns (next: seq<ChainCommitment>)
      requires Linked() && childWalker != [] && Known(childWalker[0]) && forall c :: c in childWalker ==> Known(c)
      modifies nodes.Values, this`nodeValues
      ensures Linked() && (forall c :: c in next ==> Known(c))
      ensures var n := childWalker[0].id;
              && Value() == MakeSolid(old(Value()), {n})
              && Ids(next) == Ids(childWalker[1..]) + (if old(Value()).nodes[n].solid then {} else old(Value()).nodes[n].children)
              && (old(Value()).nodes[n].solid ==> |next| < |childWalker|)
    {
      var more := PropagateSolidity(childWalker[0]);
      next := childWalker[1..] + more;
      JoinIds(childWalker[1..], more);
      if |more| > 0 {
        assert more[0].id in Ids(more);
      }
      forall c | c in next ensures Known(c) {
        assert c in childWalker || c in more;
      }
    }

    /** Everything below a commitment that became solid becomes solid. */
    method SpreadSolidity(chainCommitment: ChainCommitment)
      requires Linked() && Known(chainCommitment)
      requires Shape(Value()) && SolidityBut(Value(), chainCommitment.id) && Value().nodes[chainCommitment.id].solid
      modifies nodes.Values, this`nodeValues
      ensures Linked() && Value() == ChainProcess.PropagateSolidity(old(Value()), chainCommitment.id)
    {
      ghost var n := chainCommitment.id;
      ghost var solid: set<Id> := {};
      var childWalker := ChildrenOf(chainCommitment);
      SpreadStart(Value(), n);
      assert Value() == MakeSolid(old(Value()), solid);
      hide MakeSolid, Spreading, NodesLinked, ChainsLinked, Shape, SolidityBut, ChainProcess.PropagateSolidity;
      while childWalker != []
        invariant Linked() && (forall c :: c in childWalker ==> Known(c))
        invariant Value() == MakeSolid(old(Value()), solid) && Spreading(old(Value()), n, solid, Ids(childWalker))
        decreases old(Value()).nodes.Keys - solid, |childWalker|
      {
        var child := childWalker[0];
        SplitIds(childWalker);
        VisitOne(old(Value()), n, solid, Ids(childWalker), child.id, Ids(childWalker[1..]));
        childWalker := Visit(childWalker);
        solid := solid + {child.id};
      }
      assert Ids(childWalker) == {};
      SpreadEnd(old(Value()), n, solid);
    }

    method ChildrenOf(c: ChainCommitment) returns (children: seq<ChainCommitment>)
      requires Linked() && Known(c)
      ensures Linked() && (forall d :: d in children ==> Known(d)) && Ids(children) == Value().nodes[c.id].children
    {
      children := c.Children();
      assert NodeOk(c.id);
      forall d | d in c.children ensures d in Ids(children) {
        assert NodeOk(d) && c.children[d] in children;
      }
      forall x | x in children ensures Known(x) && x.id in c.children {
        var d :| d in c.children && c.children[d] == x;
        assert NodeOk(d);
      }
    }

    lemma SplitIds(walker: seq<ChainCommitment>)
      requires walker != []
      ensures Ids(walker) == Ids(walker[1..]) + {walker[0].id}
    {
      assert walker == [walker[0]] + walker[1..];
    }

    lemma JoinIds(a: seq<ChainCommitment>, b: seq<ChainCommitment>)
      ensures Ids(a + b) == Ids(a) + Ids(b)
    {
    }

    // ----- Registering -----

    method AddNode(id: Id) returns (commitment: ChainCommitment)
      requires Linked() && id !in nodes
      modifies this`nodes, this`nodeValues
      ensures Linked() && fresh(commitment) && commitment.id == id
      ensures nodes == old(nodes)[id := commitment] && Value() == AddPlaceholder(old(Value()), id)
    {
      commitment := new ChainCommitment(id);
      nodes := nodes[id := commitment];
      nodeValues := nodeValues[id := NEW_NODE];
      forall n | n in nodes ensures NodeOk(n) { assert n != id ==> old(NodeOk(n)); }
      forall k: nat | k < |chains| ensures ChainOk(k) {
        assert old(ChainOk(k)) && chains[k].commitmentsByIndex == old(chains[k].commitmentsByIndex);
      }
    }

    /** Looks a commitment up, or stores a placeholder for it. */
    method GetOrCreateCommitment(id: Id) returns (commitment: ChainCommitment, created: bool)
      requires Valid() && (id in nodes ==> id in commitmentsByID)
      modifies this`commitmentsByID, this`nodes, this`nodeValues
      ensures Valid() && Abs() == GetOrCreate(old(Abs()), id)
      ensures id in commitmentsByID && commitment == commitmentsByID[id] && created == (id !in old(commitmentsByID))
      ensures Known(commitment) && commitment.id == id
      ensures if created then fresh(commitment) && nodes == old(nodes)[id := commitment] else nodes == old(nodes)
    {
      created := id !in commitmentsByID;
      if created {
        commitment := AddNode(id);
        commitmentsByID := commitmentsByID[id := commitment];
      } else {
        commitment := commitmentsByID[id];
        assert NodeOk(id);
      }
    }

    method PublishCommitment(c: ChainCommitment, commitment: Commitment) returns (published: bool)
      requires Linked() && Known(c)
      modifies c`commitment, this`nodeValues
      ensures Linked() && published == old(nodeValues)[c.id].commitment.None?
      ensures nodeValues == if published then old(nodeValues)[c.id := old(nodeValues)[c.id].(commitment := Some(commitment))]
                            else old(nodeValues)
    {
      assert NodeOk(c.id);
      published := c.PublishCommitment(commitment);
      nodeValues := nodeValues[c.id := c.Value()];
      NodeChanged(c);
    }

    method LinkParent(parent: ChainCommitment, child: ChainCommitment) returns (isSolid: bool, wasForked: bool)
      requires Linked() && Known(parent) && Known(child)
      modifies parent, this`nodeValues
      ensures Linked() && isSolid == old(nodeValues)[parent.id].solid
      ensures Value() == WithChild(old(Value()), parent.id, child.id)
      ensures wasForked == (|old(nodeValues)[parent.id].children + {child.id}| > 1)
    {
      assert NodeOk(parent.id);
      isSolid, wasForked := parent.RegisterChild(child);
      nodeValues := nodeValues[parent.id := parent.Value()];
      NodeChanged(parent);
    }

    /** A new chain that starts at the given commitment. */
    method NewChainAt(forkingPoint: ChainCommitment) returns (chain: ChainObjects.Chain)
      requires Linked() && Known(forkingPoint)
      requires forkingPoint.commitment.Some? && forkingPoint.commitment.value.id == forkingPoint.id
      modifies this`chainValues, this`chains
      ensures Linked() && fresh(chain) && KnownChain(chain) && chain.number == |old(chains)|
      ensures chains == old(chains) + [chain] && chainValues == old(chainValues) + [NewChain(forkingPoint.id)]
    {
      chain := new ChainObjects.Chain(forkingPoint, |chains|);
      chains, chainValues := chains + [chain], chainValues + [chain.value];
      assert NodesLinked() by {
        forall n | n in nodes ensures NodeOk(n) { assert old(NodeOk(n)); }
      }
      assert ChainsLinked() by {
        forall k: nat | k < |chains| ensures ChainOk(k) {
          assert k < |old(chains)| ==> old(ChainOk(k)) && chains[k].commitmentsByIndex == old(chains[k].commitmentsByIndex);
        }
      }
    }

    /** Links a child to its parent and says which chain it goes on; a child that forks comes with a new chain. */
    method ObtainChain(parent: ChainCommitment, child: ChainCommitment) returns (isSolid: bool, chain: ChainObjects.Chain?, wasForked: bool)
      requires Linked() && Known(parent) && Known(child)
      requires child.commitment.Some? && child.commitment.value.id == child.id
      modifies parent, this`nodeValues, this`chainValues, this`chains
      ensures Linked() && old(chains) <= chains && (forall k :: |old(chains)| <= k < |chains| ==> fresh(chains[k]))
      ensures isSolid == old(nodeValues)[parent.id].solid
      ensures Value() == Obtained(old(Value()), parent.id, child.id)
      ensures wasForked == ForksAt(old(Value()), parent.id, child.id)
      ensures ChainAtLink(old(Value()), parent.id, child.id) == if chain == null then None else Some(chain.number)
      ensures chain != null ==> KnownChain(chain)
    {
      assert NodeOk(parent.id) && NodeOk(child.id);
      isSolid, wasForked := LinkParent(parent, child);
      assert NodeOk(parent.id) && NodeOk(child.id);
      if wasForked {
        chain := NewChainAt(child);
      } else {
        chain := parent.chain;
      }
    }

    /** Puts a linked child on its chain, and makes it solid if its parent is. */
    method JoinChain(child: ChainCommitment, chain: ChainObjects.Chain, isSolid: bool)
      requires Linked() && Known(child) && KnownChain(chain)
      requires child.commitment.Some? && child.commitment.value.id == child.id
      modifies child, chain, this`nodeValues, this`chainValues
      ensures Linked() && Value() == Joined(old(Value()), child.id, chain.number, isSolid)
    {
      assert NodeOk(child.id);
      AddCommitment(chain, child);
      assert NodeOk(child.id);
      var _ := PublishChain(child, chain);
      if isSolid {
        var _ := TriggerSolid(child);
      }
    }

    method RegisterChild(parent: ChainCommitment, child: ChainCommitment) returns (isSolid: bool, wasForked: bool)
      requires Linked() && Known(parent) && Known(child) && NodeOk(parent.id)
      requires child.commitment.Some? && child.commitment.value.id == child.id
      modifies parent, child, chains, this`nodeValues, this`chainValues, this`chains
      ensures Linked() && old(chains) <= chains && (forall k :: |old(chains)| <= k < |chains| ==> fresh(chains[k]))
      ensures isSolid == old(nodeValues)[parent.id].solid && wasForked == ForksAt(old(Value()), parent.id, child.id)
      ensures Value() == Registered(old(Value()), parent.id, child.id, isSolid)
    {
      assert NodeOk(parent.id);
      var chain;
      isSolid, chain, wasForked := ObtainChain(parent, child);
      assert NodeOk(child.id);
      if chain != null {
        JoinChain(child, chain, isSolid);
      }
    }

    /** Publishes a commitment and registers it with its parent. */
    method PublishAndRegister(parent: ChainCommitment, chainCommitment: ChainCommitment, c: Commitment) returns (isSolid: bool, wasForked: bool)
      requires Linked() && Known(parent) && Known(chainCommitment) && parent.id == c.prev && chainCommitment.id == c.id
      requires Shape(Value()) && Chains(Value()) && Solidity(Value()) && Publishable(Value(), c)
      modifies parent, chainCommitment, chains, this`nodeValues, this`chainValues, this`chains
      ensures Linked() && old(chains) <= chains && (forall k :: |old(chains)| <= k < |chains| ==> fresh(chains[k]))
      ensures Value() == Register(old(Value()), c)
      ensures isSolid == old(nodeValues)[c.prev].solid && wasForked == Forks(old(Value()), c)
    {
      hide Register, Registered, Forks, ForksAt, Shape, Chains, Solidity;
      ghost var t := Value();
      RegisteredIsRegister(t, c);
      var published := PublishCommitment(chainCommitment, c);
      assert NodeOk(parent.id) && NodeOk(chainCommitment.id) && Value() == Announced(t, c);
      isSolid, wasForked := RegisterChild(parent, chainCommitment);
    }

    /** Pushes the chain of a newly registered commitment down its main-child path. */
    method PropagateChain(chainCommitment: ChainCommitment)
      requires Linked() && Known(chainCommitment) && chainCommitment.chain != null && NodeOk(chainCommitment.id)
      requires Shape(Value())
      requires MainChild(Value(), chainCommitment.id).Some? ==>
                 && MainChild(Value(), chainCommitment.id).value in nodes
                 && IsBareWalk(Value(), MainPath(Value(), MainChild(Value(), chainCommitment.id).value))
      modifies nodes.Values, chains, this`nodeValues, this`chainValues
      ensures Linked() && Value() == ChainProcess.PropagateChain(old(Value()), chainCommitment.id)
    {
      var mainChild := chainCommitment.MainChild();
      if mainChild != null {
        assert mainChild == nodes[chainCommitment.mainChildID.value] && NodeOk(chainCommitment.mainChildID.value);
        MainChildIsNext(Value(), chainCommitment.id);
        PublishChainToMainPath(mainChild, chainCommitment.chain, MainPath(Value(), mainChild.id));
      }
    }

    /** Pushes the chain and the solidity of a newly registered commitment down the tree. */
    method PropagateDown(chainCommitment: ChainCommitment, isSolid: bool, ghost t: Tree, ghost c: Commitment)
      requires Linked() && Known(chainCommitment) && chainCommitment.id == c.id
      requires Shape(t) && Chains(t) && Indexed(t) && Solidity(t) && Publishable(t, c)
      requires Value() == Register(t, c) && isSolid == t.nodes[c.prev].solid
      modifies nodes.Values, chains, this`nodeValues, this`chainValues
      ensures Linked() && Value() == Accept(t, c)
    {
      assert NodeOk(c.id);
      if chainCommitment.chain != null {
        BareBelow(t, c);
        PropagateChain(chainCommitment);
        if isSolid {
          ReadyToSpread(t, c);
          SpreadSolidity(chainCommitment);
        }
      }
    }

    // ----- Operations -----

    /** Objects created since are new, and no known commitment was exchanged for another. */
    twostate predicate Grown()
      reads this
    {
      && (forall n :: n in old(nodes) ==> n in nodes && nodes[n] == old(nodes)[n])
      && (forall n :: n in nodes && n !in old(nodes) ==> fresh(nodes[n]))
      && old(chains) <= chains && (forall k :: |old(chains)| <= k < |chains| ==> fresh(chains[k]))
    }

    /** Looks a commitment up, and requests it when it is unknown. A commitment that something still
        points at must not have been evicted. */
    method LoadCommitmentOrRequestMissing(id: Id) returns (chainCommitment: ChainCommitment)
      requires Valid() && (id in nodes ==> id in commitmentsByID)
      modifies this`commitmentsByID, this`commitmentRequester, this`nodes, this`nodeValues
      ensures Valid() && Grown() && Abs() == LoadOrRequest(old(Abs()), id)
      ensures Known(chainCommitment) && chainCommitment.id == id
    {
      var created;
      chainCommitment, created := GetOrCreateCommitment(id);
      if created {
        commitmentRequester := commitmentRequester + {id};
      }
    }

    /** Looks up an arriving commitment and its parent, with placeholders for what is unknown. */
    method LoadWithParent(c: Commitment) returns (parent: ChainCommitment, chainCommitment: ChainCommitment, created: bool)
      requires Valid() && Loadable(Abs(), c.prev) && Loadable(LoadOrRequest(Abs(), c.prev), c.id)
      modifies this`commitmentsByID, this`commitmentRequester, this`nodes, this`nodeValues
      ensures Valid() && Grown()
      ensures Known(parent) && Known(chainCommitment) && parent.id == c.prev && chainCommitment.id == c.id
      ensures Abs() == GetOrCreate(LoadOrRequest(old(Abs()), c.prev), c.id)
      ensures created == (c.id !in LoadOrRequest(old(Abs()), c.prev).stored)
    {
      parent := LoadCommitmentOrRequestMissing(c.prev);
      chainCommitment, created := GetOrCreateCommitment(c.id);
    }

    /** Publishes a commitment that has arrived, unless it was published before, and registers it. */
    method RegisterLoaded(parent: ChainCommitment, chainCommitment: ChainCommitment, created: bool, c: Commitment)
      returns (isNew: bool, isSolid: bool, wasForked: bool)
      requires Valid() && TreeInv(Value()) && WellFormed(c)
      requires Known(parent) && Known(chainCommitment) && parent.id == c.prev && chainCommitment.id == c.id
      modifies parent, chainCommitment, chains, this`commitmentRequester, this`nodeValues, this`chainValues, this`chains
      ensures Valid() && Grown() && isNew == !Published(old(Value()), c.id)
      ensures !isNew ==> Abs() == old(Abs()) && isSolid == old(nodeValues)[c.id].solid && !wasForked
      ensures isNew ==> && isSolid == old(nodeValues)[c.prev].solid && wasForked == Forks(old(Value()), c)
                        && Value() == Register(old(Value()), c)
                        && commitmentRequester == if created then old(commitmentRequester) else old(commitmentRequester) - {c.id}
    {
      hide Register, Forks;
      assert NodeOk(c.id) && NodeOk(c.prev);
      isNew, isSolid, wasForked := chainCommitment.commitment.None?, chainCommitment.solid, false;
      if isNew {
        if !created {
          commitmentRequester := commitmentRequester - {c.id};
        }
        isSolid, wasForked := PublishAndRegister(parent, chainCommitment, c);
      }
    }

    /** Enters a commitment whose node and parent are loaded. */
    method EnterLoaded(parent: ChainCommitment, chainCommitment: ChainCommitment, created: bool, c: Commitment)
      returns (wasForked: bool, isSolid: bool)
      requires Valid() && TreeInv(Value()) && WellFormed(c)
      requires Known(parent) && Known(chainCommitment) && parent.id == c.prev && chainCommitment.id == c.id
      modifies this`commitmentRequester, this`nodeValues, this`chainValues, this`chains, nodes.Values, chains
      ensures Valid() && Grown()
      ensures Processed(Abs(), wasForked, isSolid, Some(c.id)) == Entered(old(Abs()), c, created)
    {
      var isNew;
      isNew, isSolid, wasForked := RegisterLoaded(parent, chainCommitment, created, c);
      if isNew {
        PropagateDown(chainCommitment, isSolid, old(Value()), c);
      }
    }

    /** Enters a commitment above the root. */
    method EnterCommitment(c: Commitment) returns (wasForked: bool, isSolid: bool, chainCommitment: ChainCommitment)
      requires Valid() && WellFormed(c) && Enterable(Abs(), c)
      modifies this`commitmentsByID, this`commitmentRequester, this`nodes, this`nodeValues, this`chainValues, this`chains, nodes.Values, chains
      ensures Valid() && Grown() && Known(chainCommitment)
      ensures var s1 := LoadOrRequest(old(Abs()), c.prev);
              Processed(Abs(), wasForked, isSolid, Some(chainCommitment.id)) == Entered(GetOrCreate(s1, c.id), c, c.id !in s1.stored)
    {
      var parent, created;
      parent, chainCommitment, created := LoadWithParent(c);
      wasForked, isSolid := EnterLoaded(parent, chainCommitment, created, c);
    }

    /** A commitment arrives: the root is known, what lies below it is refused, and everything else is entered. */
    method ProcessArriving(c: Commitment) returns (wasForked: bool, isSolid: bool, chainCommitment: ChainCommitment?)
      requires Valid() && Inv(Abs()) && WellFormed(c)
      modifies this`commitmentsByID, this`commitmentRequester, this`nodes, this`nodeValues, this`chainValues, this`chains, nodes.Values, chains
      ensures Valid() && Grown() && (chainCommitment != null ==> Known(chainCommitment))
      ensures Processed(Abs(), wasForked, isSolid, if chainCommitment == null then None else Some(chainCommitment.id)) == Process(old(Abs()), c)
    {
      hide Entered;
      assert NodeOk(rootCommitment.id);
      RootPublished(Abs());
      var isBelow := c.id.slot <= rootCommitment.commitment.value.id.slot;
      var isRoot := Some(c) == rootCommitment.commitment;
      if isBelow || isRoot {
        if isRoot {
          return false, true, rootCommitment;
        }
        commitmentRequester := commitmentRequester - {c.id};
        return false, false, null;
      }
      LoadBoth(Abs(), c);
      wasForked, isSolid, chainCommitment := EnterCommitment(c);
    }

    // ----- Switching the main chain -----

    method SetMainChild(parent: ChainCommitment, child: ChainCommitment) returns (ok: bool)
      requires Linked() && Known(parent)
      modifies parent`mainChildID, this`nodeValues
      ensures Linked() && ok == (child.id in old(nodeValues)[parent.id].children)
      ensures nodeValues == if ok then old(nodeValues)[parent.id := old(nodeValues)[parent.id].(mainChildId := Some(child.id))]
                            else old(nodeValues)
    {
      assert NodeOk(parent.id);
      ok := parent.SetMainChild(child);
      nodeValues := nodeValues[parent.id := parent.Value()];
      NodeChanged(parent);
    }

    /** The forking point becomes the main child of its parent, and the displaced main child gets a chain of its own. */
    method RelinkMainChild(fp: ChainCommitment, fpParent: ChainCommitment)
      returns (ok: bool, mainChild: ChainCommitment?, newChildChain: ChainObjects.Chain?)
      requires Linked() && Known(fp) && Known(fpParent) && Shape(Value()) && Published(Value(), fp.id) && Prev(Value(), fp.id) == fpParent.id
      requires MainChild(Value(), fpParent.id).Some? && Published(Value(), MainChild(Value(), fpParent.id).value)
      modifies fpParent, this`nodeValues, this`chainValues, this`chains
      ensures Linked() && ok == Attached(old(Value()), fp.id)
      ensures !ok ==> Value() == old(Value()) && chains == old(chains)
      ensures ok ==> && mainChild != null && newChildChain != null && Known(mainChild) && mainChild.id == Displaced(old(Value()), fp.id)
                     && KnownChain(newChildChain) && newChildChain.number == |old(chains)| && fresh(newChildChain)
                     && chains == old(chains) + [newChildChain] && Value() == Relink(old(Value()), fp.id)
    {
      assert NodeOk(fpParent.id) && NodeOk(MainChild(Value(), fpParent.id).value);
      assert ShapeAt(Value(), MainChild(Value(), fpParent.id).value);
      mainChild := fpParent.MainChild();
      ok := SetMainChild(fpParent, fp);
      if ok {
        assert NodeOk(mainChild.id);
        newChildChain := NewChainAt(mainChild);
      } else {
        newChildChain := null;
      }
    }

    /** After the relinking, the displaced path leaves and the forking point's path joins the main chain. */
    method MovePaths(fp: ChainCommitment, mainChild: ChainCommitment, newChildChain: ChainObjects.Chain, mainChain: ChainObjects.Chain, ghost t: Tree)
      requires Linked() && Known(fp) && Known(mainChild) && KnownChain(newChildChain) && KnownChain(mainChain)
      requires Shape(t) && Promotable(t, fp.id) && mainChain.number < |t.chains|
      requires Value() == Relink(t, fp.id) && mainChild.id == Displaced(t, fp.id) && newChildChain.number == |t.chains|
      modifies nodes.Values, chains, this`nodeValues, this`chainValues
      ensures Linked() && Value() == SwitchStep(t, fp.id, mainChain.number)
    {
      PathsAreWalks(t, fp.id);
      ReplaceChainOfMainPath(mainChild, newChildChain, MainPath(Value(), mainChild.id));
      ReplaceChainOfMainPath(fp, mainChain, MainPath(Value(), fp.id));
    }

    /** One round of the switch; refused when the forking point is no longer registered with its parent. */
    method SwitchRound(fp: ChainCommitment, fpParent: ChainCommitment, mainChain: ChainObjects.Chain) returns (ok: bool)
      requires Linked() && Known(fp) && Known(fpParent) && KnownChain(mainChain) && mainChain.number < |chainValues|
      requires Shape(Value()) && Published(Value(), fp.id) && Prev(Value(), fp.id) == fpParent.id && !IsMain(Value(), fp.id)
      requires fp.id != origin && MainChild(Value(), fpParent.id).Some?
      modifies nodes.Values, chains, this`nodeValues, this`chainValues, this`chains
      ensures Linked() && ok == Attached(old(Value()), fp.id)
      ensures old(chains) <= chains && (forall k :: |old(chains)| <= k < |chains| ==> fresh(chains[k]))
      ensures !ok ==> Value() == old(Value())
      ensures ok ==> Promotable(old(Value()), fp.id) && Value() == SwitchStep(old(Value()), fp.id, mainChain.number)
    {
      hide SwitchStep, Relink;
      MainChildIsNext(Value(), fpParent.id);
      assert |chains| == |chainValues|;
      var mainChild, newChildChain;
      ok, mainChild, newChildChain := RelinkMainChild(fp, fpParent);
      if ok {
        MovePaths(fp, mainChild, newChildChain, mainChain, old(Value()));
      }
    }

    /** Walks to the main chain by jumping over forking points; the last one is where the branch leaves it. */
    method ForkingPointAgainstMainChain(commitment: ChainCommitment) returns (forkingPoint: ChainCommitment?, error: Option<SwitchError>)
      requires Valid() && Known(commitment) && rootCommitment.chain != null && JumpReady(Value(), rootCommitment.chain.number)
      ensures Valid() && (forkingPoint != null ==> Known(forkingPoint))
      ensures if !nodeValues[commitment.id].solid then error == Some(NotSolid)
              else match Jumps(Value(), commitmentsByID.Keys, rootCommitment.chain.number, commitment.id)
                case None => error == Some(UnknownCommitment)
                case Some(fps) => error.None? && if fps == [] then forkingPoint == null
                                                 else forkingPoint != null && forkingPoint.id == fps[|fps| - 1]
    {
      forkingPoint, error := null, None;
      var current := commitment;
      assert NodeOk(current.id);
      if !commitment.solid || commitment.chain == null {
        assert SolidAt(Value(), commitment.id);
        return null, Some(NotSolid);
      }
      ghost var t, stored, main := Value(), commitmentsByID.Keys, rootCommitment.chain.number;
      ghost var found: seq<Id> := [];
      assert NodeOk(rootCommitment.id);
      BeforeNothing(Jumps(t, stored, main, commitment.id));
      while current.chain != rootCommitment.chain
        invariant Known(current) && current.solid && t.nodes[current.id].solid && Value() == t
        invariant forkingPoint != null ==> Known(forkingPoint)
        invariant if found == [] then forkingPoint == null else forkingPoint != null && found[|found| - 1] == forkingPoint.id
        invariant Jumps(t, stored, main, commitment.id) == Before(found, Jumps(t, stored, main, current.id))
        decreases current.id.slot
      {
        assert NodeOk(current.id);
        Jump(t, stored, main, current.id);
        assert ChainOk(current.chain.number);
        forkingPoint := current.chain.forkingPoint;
        assert NodeOk(forkingPoint.id);
        var parent := forkingPoint.commitment.value.prev;
        if parent !in commitmentsByID {
          return null, Some(UnknownCommitment);
        }
        BeforeAfter(found, forkingPoint.id, Jumps(t, stored, main, parent));
        found := found + [forkingPoint.id];
        current := commitmentsByID[parent];
        assert NodeOk(parent);
      }
      assert NodeOk(current.id);
    }

    /** Runs the round at a forking point whose parent is stored. */
    method RoundAt(fp: ChainCommitment, mainChain: ChainObjects.Chain, ghost t: Tree) returns (ok: bool)
      requires Valid() && Known(fp) && KnownChain(mainChain) && Value() == t && mainChain.number < |t.chains|
      requires Shape(t) && Published(t, fp.id) && fp.id != t.origin && !IsMain(t, fp.id)
      requires Prev(t, fp.id) in commitmentsByID && Prev(t, fp.id) in t.nodes && MainChild(t, Prev(t, fp.id)).Some?
      modifies nodes.Values, chains, this`nodeValues, this`chainValues, this`chains
      ensures Valid() && ok == Attached(t, fp.id)
      ensures old(chains) <= chains && (forall k :: |old(chains)| <= k < |chains| ==> fresh(chains[k]))
      ensures if ok then Promotable(t, fp.id) && Value() == SwitchStep(t, fp.id, mainChain.number) else Value() == t
    {
      hide SwitchStep;
      assert NodeOk(fp.id) && NodeOk(fp.commitment.value.prev);
      var fpParent := commitmentsByID[fp.commitment.value.prev];
      ok := SwitchRound(fp, fpParent, mainChain);
    }

    method ForkingPointOfParent(fp: ChainCommitment, ghost t: Tree) returns (next: ChainCommitment)
      requires Valid() && Known(fp) && Value() == t && Published(t, fp.id)
      requires Prev(t, fp.id) in commitmentsByID && Prev(t, fp.id) in t.nodes && t.nodes[Prev(t, fp.id)].chain.Some?
      ensures Valid() && Known(next) && t.nodes[Prev(t, fp.id)].chain.value < |t.chains| && next.id == NextForkingPoint(t, Prev(t, fp.id))
    {
      assert NodeOk(fp.id) && NodeOk(fp.commitment.value.prev);
      var fpParent := commitmentsByID[fp.commitment.value.prev];
      assert ChainOk(fpParent.chain.number);
      next := fpParent.chain.forkingPoint;
    }

    /** Runs one planned round and finds the forking point of the next one. */
    method OneRound(fp: ChainCommitment, last: ChainCommitment, mainChain: ChainObjects.Chain, ghost t: Tree, ghost e: Option<Id>)
      returns (ok: bool, next: ChainCommitment, ghost w: Tree)
      requires Valid() && Known(fp) && KnownChain(mainChain) && Value() == t
      requires RoundPlanned(t, fp.id, mainChain.number, e, commitmentsByID.Keys, last.id)
      modifies nodes.Values, chains, this`nodeValues, this`chainValues, this`chains
      ensures Valid() && Value() == w && old(chains) <= chains && (forall k :: |old(chains)| <= k < |chains| ==> fresh(chains[k]))
      ensures !ok ==> Rounds(t, fp.id, mainChain.number, e) == Stuck(w)
      ensures ok && fp.id == last.id ==> Rounds(t, fp.id, mainChain.number, e) == Done(w)
      ensures ok && fp.id != last.id ==>
                && Known(next) && NextRoundAt(t, fp.id, mainChain.number, e, commitmentsByID.Keys, last.id, w)
                && next.id == NextForkingPoint(w, Prev(w, fp.id))
    {
      hide SwitchStep;
      RoundFacts(t, fp.id, mainChain.number, e, commitmentsByID.Keys, last.id);
      ok := RoundAt(fp, mainChain, t);
      next, w := fp, Value();
      if ok && fp.id != last.id {
        next := ForkingPointOfParent(fp, w);
      }
    }

    /** All rounds, from the forking point nearest to the new head down to the last one. */
    method SwitchRounds(first: ChainCommitment, last: ChainCommitment, mainChain: ChainObjects.Chain) returns (ok: bool)
      requires Valid() && Known(first) && Known(last) && KnownChain(mainChain)
      requires RoundPlanned(Value(), first.id, mainChain.number, None, commitmentsByID.Keys, last.id)
      modifies nodes.Values, chains, this`nodeValues, this`chainValues, this`chains
      ensures Valid() && old(chains) <= chains && (forall k :: |old(chains)| <= k < |chains| ==> fresh(chains[k]))
      ensures Rounds(old(Value()), first.id, mainChain.number, None) == if ok then Done(Value()) else Stuck(Value())
    {
      hide Rounds, Jumps;
      var fp := first;
      ghost var t, e: Option<Id>, main, stored := Value(), None, mainChain.number, commitmentsByID.Keys;
      ghost var rounds := Rounds(t, first.id, main, None);
      while true
        invariant Valid() && Known(fp) && Known(last) && KnownChain(mainChain) && Value() == t && commitmentsByID.Keys == stored
        invariant old(chains) <= chains && (forall k :: |old(chains)| <= k < |chains| ==> fresh(chains[k]))
        invariant RoundPlanned(t, fp.id, main, e, stored, last.id) && rounds == Rounds(t, fp.id, main, e)
        decreases fp.id.slot
      {
        var next;
        ok, next, t := OneRound(fp, last, mainChain, t, e);
        if !ok || fp == last {
          return;
        }
        fp, e := next, Some(fp.id);
      }
    }

    method DeleteChild(parent: ChainCommitment, child: ChainCommitment)
      requires Valid() && Known(parent)
      modifies parent`children, this`nodeValues
      ensures Valid() && Value() == Detach(old(Value()), parent.id, child.id)
    {
      assert NodeOk(parent.id);
      parent.DeleteChild(child);
      nodeValues := nodeValues[parent.id := parent.Value()];
      NodeChanged(parent);
    }

    /** Runs all rounds and then separates the old main branch from the commitment where the new one leaves. */
    method SwitchBranch(first: ChainCommitment, last: ChainCommitment, parent: ChainCommitment, ghost t: Tree, ghost main: nat)
      returns (ok: bool)
      requires Valid() && Known(first) && Known(last) && Known(parent) && Value() == t
      requires RoundPlanned(t, first.id, main, None, commitmentsByID.Keys, last.id)
      requires t.nodes[parent.id].chain == Some(main) && MainChild(t, parent.id).Some? && MainChild(t, parent.id).value in t.nodes
      modifies nodes.Values, chains, this`nodeValues, this`chainValues, this`chains
      ensures Valid() && old(chains) <= chains && (forall k :: |old(chains)| <= k < |chains| ==> fresh(chains[k]))
      ensures match Rounds(t, first.id, main, None)
              case Stuck(w) => !ok && Value() == w
              case Done(w) => ok && parent.id in w.nodes && Value() == Detach(w, parent.id, MainChild(t, parent.id).value)
    {
      hide Rounds, RoundPlanned;
      assert NodeOk(parent.id) && NodeOk(MainChild(t, parent.id).value);
      var oldMainCommitment := parent.MainChild();
      ok := SwitchRounds(first, last, parent.chain);
      if ok {
        DeleteChild(parent, oldMainCommitment);
      }
    }

    /** Finds both ends of the new main branch and switches to it. */
    method SwitchFrom(commitment: ChainCommitment, forkingPoint: ChainCommitment, ghost s: State) returns (ok: bool)
      requires Valid() && Inv(s) && Abs() == s && Known(commitment) && Known(forkingPoint)
      requires Moves(s, commitment.id) && forkingPoint.id == LeavesAt(s, commitment.id)
      modifies nodes.Values, chains, this`nodeValues, this`chainValues, this`chains
      ensures Valid() && Grown() && Switched(Abs(), if ok then None else Some(NotRegistered)) == SwitchTo(s, commitment.id)
    {
      hide Rounds, Jumps, SwitchTo, RoundPlanned, Inv, LeavesAt, JumpsToMain, Moves, Main;
      BranchIsPlanned(s, commitment.id);
      assert NodeOk(forkingPoint.id) && NodeOk(commitment.id) && ChainOk(commitment.chain.number);
      assert NodeOk(forkingPoint.commitment.value.prev);
      var parent := commitmentsByID[forkingPoint.commitment.value.prev];
      ok := SwitchBranch(commitment.chain.forkingPoint, forkingPoint, parent, s.tree, Main(s));
      BranchIsSwitched(s, commitment.id, Value(), ok);
    }

    /** Switches the main chain so that it runs through a commitment. */
    method SwitchMainChainToCommitment(commitment: ChainCommitment) returns (error: Option<SwitchError>)
      requires Valid() && Inv(Abs()) && Known(commitment)
      modifies nodes.Values, chains, this`nodeValues, this`chainValues, this`chains
      ensures Valid() && Grown() && Switched(Abs(), error) == SwitchTo(old(Abs()), commitment.id)
    {
      hide Jumps, SwitchTo, Inv;
      ghost var s := Abs();
      assert NodeOk(commitment.id) && NodeOk(rootCommitment.id);
      MainReady(s);
      SwitchAnswers(s, commitment.id);
      var forkingPoint;
      forkingPoint, error := ForkingPointAgainstMainChain(commitment);
      if error.None? && forkingPoint != null {
        var ok := SwitchFrom(commitment, forkingPoint, s);
        error := if ok then None else Some(NotRegistered);
      }
    }

    /** Switches the main chain to the branch of a stored commitment. */
    method SwitchMainChain(head: Id) returns (error: Option<SwitchError>)
      requires Valid() && Inv(Abs())
      modifies nodes.Values, chains, this`nodeValues, this`chainValues, this`chains
      ensures Valid() && Grown() && Switched(Abs(), error) == ChainOps.SwitchMainChain(old(Abs()), head)
    {
      hide SwitchTo;
      if head !in commitmentsByID {
        return Some(UnknownCommitment);
      }
      assert NodeOk(head);
      error := SwitchMainChainToCommitment(commitmentsByID[head]);
    }

    // ----- Arrivals -----

    /** The caller learns whether the commitment is solid, and its chain as it is at the end. */
    ghost predicate Answers(r: Processed, isSolid: bool, chain: ChainObjects.Chain?)
      reads this`nodeValues
    {
      if r.node.None? then !isSolid && chain == null
      else isSolid == r.isSolid && r.node.value in nodeValues
           && nodeValues[r.node.value].chain == (if chain == null then None else Some(chain.number))
    }

    /** A commitment of the candidate engine: it only joins the tree. */
    method ProcessCandidateCommitment(c: Commitment) returns (isSolid: bool, chain: ChainObjects.Chain?)
      requires Valid() && Inv(Abs()) && WellFormed(c)
      modifies this`commitmentsByID, this`commitmentRequester, this`nodes, this`nodeValues, this`chainValues, this`chains, nodes.Values, chains
      ensures Valid() && Grown() && Abs() == Process(old(Abs()), c).state
      ensures Answers(Process(old(Abs()), c), isSolid, chain)
    {
      var wasForked, chainCommitment;
      wasForked, isSolid, chainCommitment := ProcessArriving(c);
      if chainCommitment == null {
        return false, null;
      }
      assert NodeOk(chainCommitment.id);
      chain := chainCommitment.chain;
    }

    /** A commitment of the main engine, which is always followed: where it forks, the main chain switches to it. */
    method ProcessCommitment(c: Commitment) returns (isSolid: bool, chain: ChainObjects.Chain?)
      requires Valid() && Inv(Abs()) && WellFormed(c) && NoPanic(Abs(), c)
      modifies this`commitmentsByID, this`commitmentRequester, this`nodes, this`nodeValues, this`chainValues, this`chains, nodes.Values, chains
      ensures Valid() && Abs() == ArriveFromEngine(old(Abs()), c)
      ensures Answers(Process(old(Abs()), c), isSolid, chain)
    {
      hide SwitchTo, Process;
      ghost var s := Abs();
      ProcessKeepsInv(s, c);
      var wasForked, chainCommitment;
      wasForked, isSolid, chainCommitment := ProcessArriving(c);
      if chainCommitment == null {
        return false, null;
      }
      if wasForked {
        var error := SwitchMainChainToCommitment(chainCommitment);
        assert error.None?;
      }
      assert NodeOk(chainCommitment.id);
      chain := chainCommitment.chain;
    }

    /** A commitment from a peer: it joins the tree, and the branch it belongs to is reported when it is heavier than the main chain. */
    method ProcessCommitmentFromSource(c: Commitment, source: nat) returns (isSolid: bool, chain: ChainObjects.Chain?)
      requires Valid() && Inv(Abs()) && WellFormed(c)
      modifies this, nodes.Values, chains
      ensures Valid() && Abs() == ArriveFromPeer(old(Abs()), c, source)
      ensures Answers(Process(old(Abs()), c), isSolid, chain)
    {
      hide Detect, Process, Inv;
      ghost var s := Abs();
      ProcessKeepsInv(s, c);
      var wasForked, chainCommitment;
      wasForked, isSolid, chainCommitment := ProcessArriving(c);
      if chainCommitment == null {
        return false, null;
      }
      DetectForks(chainCommitment, source);
      assert NodeOk(chainCommitment.id);
      chain := chainCommitment.chain;
    }

    /** The latest commitment that a chain knows. */
    method LatestOf(chain: ChainObjects.Chain) returns (latest: Commitment)
      requires Valid() && KnownChain(chain) && chain.number < |Value().chains| && IndexOk(Value(), Value().chains[chain.number])
      ensures Valid() && latest == LatestCommitment(Value(), chain.number)
    {
      assert ChainOk(chain.number);
      assert NodeOk(chain.value.index[chain.value.latest]);
      latest := chain.LatestCommitment().commitment.value;
    }

    /** Reports the branch of a commitment when it claims more weight than the main chain and has grown since it was last reported. */
    method DetectForks(commitment: ChainCommitment, source: nat)
      requires Valid() && Inv(Abs()) && Known(commitment)
      modifies this`forksByForkingPoint, this`detections
      ensures Valid() && Abs() == Detect(old(Abs()), commitment.id, source)
    {
      hide Jumps, Shape, Chains, Indexed, Solidity, Reporting;
      ghost var s := Abs();
      assert NodeOk(commitment.id) && NodeOk(rootCommitment.id);
      MainReady(s);
      var forkingPoint, error := ForkingPointAgainstMainChain(commitment);
      if error.Some? || forkingPoint == null {
        return;
      }
      DetectReady(s, commitment.id);
      assert NodeOk(forkingPoint.id);
      Report(forkingPoint, source);
    }

    /** Reports a forking point, unless its chain is not heavier or was reported with the same latest commitment. */
    method Report(forkingPoint: ChainCommitment, source: nat)
      requires Valid() && Known(forkingPoint) && forkingPoint.chain != null && rootCommitment.chain != null
      requires forkingPoint.chain.number < |chainValues| && IndexOk(Value(), chainValues[forkingPoint.chain.number])
      requires rootCommitment.chain.number < |chainValues| && IndexOk(Value(), chainValues[rootCommitment.chain.number])
      modifies this`forksByForkingPoint, this`detections
      ensures Valid() && Abs() == Reporting(old(Abs()), forkingPoint.id, source, rootCommitment.chain.number, forkingPoint.chain.number)
    {
      assert NodeOk(forkingPoint.id) && NodeOk(rootCommitment.id);
      var latest := LatestOf(forkingPoint.chain);
      var main := LatestOf(rootCommitment.chain);
      if latest.weight <= main.weight {
        return;
      }
      var d := forkingPoint.id;
      if d in forksByForkingPoint && latest.id.slot <= forksByForkingPoint[d].forkLatestCommitment.id.slot {
        return;
      }
      Record(d, if d in forksByForkingPoint then forksByForkingPoint[d].(forkLatestCommitment := latest)
                else ForkRecord(source, rootCommitment.chain, forkingPoint.chain, d, latest), main.weight);
    }

    method Record(d: Id, fork: ForkRecord, ghost mainWeight: nat)
      requires Valid()
      modifies this`forksByForkingPoint, this`detections
      ensures Valid()
      ensures Abs() == old(Abs()).(forks := old(Abs()).forks[d := ForkOf(fork)], detections := old(detections) + [Detection(ForkOf(fork), mainWeight)])
    {
      forksByForkingPoint := forksByForkingPoint[d := fork];
      detections := detections + [Detection(ForkOf(fork), mainWeight)];
      assert Abs().forks == old(Abs()).forks[d := ForkOf(fork)];
    }

    // ----- Moving the root and evicting -----

    /** Moves the root up to a stored commitment; anything else is a programming error of the caller. */
    method SetRootCommitment(c: Commitment)
      requires Valid() && c.id in commitmentsByID && (c.id.slot > rootCommitment.id.slot || c.id == rootCommitment.id)
      modifies this`rootCommitment
      ensures Valid() && Abs() == SetRoot(old(Abs()), c.id)
    {
      assert NodeOk(c.id);
      rootCommitment := commitmentsByID[c.id];
    }

    /** Forgets the commitments and forks of one slot. */
    method EvictSlot(index: nat)
      requires Valid()
      modifies this`commitmentsByID, this`forksByForkingPoint, this`lastEvictedSlot
      ensures Valid() && lastEvictedSlot == Some(index) && Abs() == EvictOne(old(Abs()), index)
    {
      EvictForks(index);
      commitmentsByID := map n | n in commitmentsByID && n.slot != index :: commitmentsByID[n];
      lastEvictedSlot := Some(index);
      assert Abs().forks == EvictOne(old(Abs()), index).forks;
    }

    method EvictForks(index: nat)
      requires Valid()
      modifies this`forksByForkingPoint
      ensures Valid() && Abs() == old(Abs()).(forks := map d | d in old(Abs()).forks && d.slot != index :: old(Abs()).forks[d])
    {
      forksByForkingPoint := map d | d in forksByForkingPoint && d.slot != index :: forksByForkingPoint[d];
    }

    /** Forgets the commitments and forks of one slot after the other, and the requests up to the last one. */
    method EvictUntil(index: nat)
      requires Valid() && Inv(Abs()) && Reported(Abs())
      modifies this`commitmentsByID, this`forksByForkingPoint, this`commitmentRequester, this`lastEvictedSlot
      ensures Valid() && Abs() == ChainRuns.EvictUntil(old(Abs()), index)
    {
      hide EvictedBelow, EvictOne, Inv, Reported, ChainRuns.EvictUntil;
      ghost var s := Abs();
      var currentIndex := if lastEvictedSlot.None? then 0 else lastEvictedSlot.value + 1;
      NothingEvicted(s, currentIndex);
      while currentIndex <= index
        invariant Valid() && EvictedBelow(s, currentIndex, Abs())
        invariant currentIndex == if lastEvictedSlot.None? then 0 else lastEvictedSlot.value + 1
        invariant lastEvictedSlot == s.evicted || (lastEvictedSlot.Some? && !IsEvicted(s, lastEvictedSlot.value) && currentIndex <= index + 1)
        decreases index - currentIndex
      {
        EvictNext(s, currentIndex, Abs());
        EvictSlot(currentIndex);
        currentIndex := currentIndex + 1;
      }
      ghost var u := Abs();
      AllEvicted(s, index, currentIndex, u);
      commitmentRequester := set n | n in commitmentRequester && n.slot > index;
      assert Abs() == u.(requests := commitmentRequester);
    }
  }

  /** Every slot below `next` is evicted. */
  ghost predicate EvictedBelow(s: State, next: nat, u: State) {
    && u.stored == (set n | n in s.stored && n.slot >= next)
    && u.forks == (map d | d in s.forks && d.slot >= next :: s.forks[d])
    && u == s.(stored := u.stored, forks := u.forks, evicted := u.evicted)
  }

  function EvictOne(s: State, index: nat): State {
    s.(stored := (set n | n in s.stored && n.slot != index),
       forks := (map d | d in s.forks && d.slot != index :: s.forks[d]),
       evicted := Some(index))
  }

  lemma EvictNext(s: State, next: nat, u: State)
    requires EvictedBelow(s, next, u)
    ensures EvictedBelow(s, next + 1, EvictOne(u, next))
  {
  }

  lemma NothingEvicted(s: State, next: nat)
    requires Inv(s) && Reported(s) && next == if s.evicted.None? then 0 else s.evicted.value + 1
    ensures EvictedBelow(s, next, s)
  {
  }

  lemma AllEvicted(s: State, index: nat, next: nat, u: State)
    requires Inv(s) && Reported(s) && EvictedBelow(s, next, u) && next > index
    requires next == if u.evicted.None? then 0 else u.evicted.value + 1
    requires u.evicted == s.evicted || (u.evicted.Some? && !IsEvicted(s, u.evicted.value) && next == index + 1)
    ensures u.(requests := set n | n in u.requests && n.slot > index) == EvictUntil(s, index)
  {
    assert u.forks == EvictUntil(s, index).forks;
    assert u.stored == EvictUntil(s, index).stored;
  }

  lemma MainReady(s: State)
    requires Inv(s)
    ensures s.root in s.tree.nodes && s.tree.nodes[s.root].chain.Some? && s.tree.nodes[s.root].chain.value == Main(s) && JumpReady(s.tree, Main(s))
  {
    MainIsOrigins(s);
  }

  /** What a switch does according to the walk over forking points. */
  lemma {:induction false} SwitchAnswers(s: State, x: Id)
    requires Inv(s) && x in s.tree.nodes && JumpReady(s.tree, Main(s))
    ensures !s.tree.nodes[x].solid ==> SwitchTo(s, x) == Switched(s, Some(NotSolid))
    ensures s.tree.nodes[x].solid ==>
              match Jumps(s.tree, s.stored, Main(s), x)
              case None => SwitchTo(s, x) == Switched(s, Some(UnknownCommitment))
              case Some(fps) => if fps == [] then SwitchTo(s, x) == Switched(s, None) else Moves(s, x) && LeavesAt(s, x) == fps[|fps| - 1]
  {
  }

  /** The tree that the rounds and the separation of the old main branch leave is the switched one. */
  lemma BranchIsSwitched(s: State, x: Id, t: Tree, ok: bool)
    requires Inv(s) && x in s.tree.nodes && Moves(s, x)
    requires RoundReady(s.tree, JumpsToMain(s, x).value[0], Main(s), None)
    requires match Rounds(s.tree, JumpsToMain(s, x).value[0], Main(s), None)
             case Stuck(w) => !ok && t == w
             case Done(w) => ok && var p := Prev(s.tree, LeavesAt(s, x)); p in w.nodes && t == Detach(w, p, MainChild(s.tree, p).value)
    ensures SwitchTo(s, x) == Switched(s.(tree := t), if ok then None else Some(NotRegistered))
  {
  }

  lemma BranchIsPlanned(s: State, x: Id)
    requires Inv(s) && x in s.tree.nodes && Moves(s, x)
    ensures var first, last := JumpsToMain(s, x).value[0], LeavesAt(s, x);
            && RoundReady(s.tree, first, Main(s), None) && RoundPlanned(s.tree, first, Main(s), None, s.stored, last)
            && Prev(s.tree, last) in s.stored && s.tree.nodes[Prev(s.tree, last)].chain == Some(Main(s))
            && MainChild(s.tree, Prev(s.tree, last)).value in s.tree.nodes
            && s.tree.nodes[x].chain.Some? && s.tree.nodes[x].chain.value < |s.tree.chains|
            && s.tree.chains[s.tree.nodes[x].chain.value].forkingPoint == first
  {
    MainIsOrigins(s);
    JumpsToMainEnd(s, x);
    DepartureParent(s, x);
    FirstRoundReady(s, x);
    FirstJump(s, x);
    assert ShapeAt(s.tree, Prev(s.tree, LeavesAt(s, x)));
  }

  /** The round at `fp` can start, and the rounds from there on end at `last`. */
  ghost predicate RoundPlanned(t: Tree, fp: Id, main: nat, e: Option<Id>, stored: set<Id>, last: Id) {
    RoundReady(t, fp, main, e) && ChainsUpTo(t, fp.slot) && JumpsEndAt(t, stored, main, fp, last)
  }

  /** The walk from `x` to the main chain stays within the stored slots and ends at forking point `last`. */
  ghost predicate JumpsEndAt(t: Tree, stored: set<Id>, main: nat, x: Id, last: Id)
    requires Shape(t) && Solidity(t) && ChainsUpTo(t, x.slot) && OnChain(t, t.origin, main)
    requires x in t.nodes && t.nodes[x].solid
  {
    Jumps(t, stored, main, x).Some? && var fps := Jumps(t, stored, main, x).value; |fps| > 0 && fps[|fps| - 1] == last
  }

  /** What one round needs to know, and where it leads: to the end, or to the round at the next forking point. */
  lemma {:induction false} RoundFacts(t: Tree, fp: Id, main: nat, e: Option<Id>, stored: set<Id>, last: Id)
    requires RoundReady(t, fp, main, e) && ChainsUpTo(t, fp.slot) && JumpsEndAt(t, stored, main, fp, last)
    ensures Published(t, fp) && Prev(t, fp) in t.nodes && Prev(t, fp) in stored
    ensures MainChild(t, Prev(t, fp)).Some? && !IsMain(t, fp)
    ensures !Attached(t, fp) ==> Rounds(t, fp, main, e) == Stuck(t)
    ensures Attached(t, fp) && fp == last ==> Promotable(t, fp) && Rounds(t, fp, main, e) == Done(SwitchStep(t, fp, main))
    ensures Attached(t, fp) && fp != last ==> Promotable(t, fp) && NextRoundAt(t, fp, main, e, stored, last, SwitchStep(t, fp, main))
  {
    ReadyParent(t, fp, main, e);
    ReadyJumps(t, fp, main, e, stored);
    LastJump(t, fp, main, e, stored, last);
    if Attached(t, fp) && fp != last {
      NextRoundFacts(t, fp, main, e, stored, last);
    }
  }

  lemma NextRoundFacts(t: Tree, fp: Id, main: nat, e: Option<Id>, stored: set<Id>, last: Id)
    requires RoundReady(t, fp, main, e) && ChainsUpTo(t, fp.slot) && JumpsEndAt(t, stored, main, fp, last)
    requires Promotable(t, fp) && !OnChain(t, Prev(t, fp), main)
    ensures NextRoundAt(t, fp, main, e, stored, last, SwitchStep(t, fp, main))
  {
    hide SwitchStep;
    ReadyParent(t, fp, main, e);
    ReadyJumps(t, fp, main, e, stored);
    SwitchStepHead(t, fp, main);
    ReadyNext(t, fp, main, e);
    NextJumps(t, fp, main, e, stored);
  }

  ghost predicate NextRoundAt(t: Tree, fp: Id, main: nat, e: Option<Id>, stored: set<Id>, last: Id, w: Tree)
    requires RoundReady(t, fp, main, e)
  {
    && Published(w, fp) && Prev(w, fp) in w.nodes && Prev(w, fp) in stored
    && w.nodes[Prev(w, fp)].chain.Some? && w.nodes[Prev(w, fp)].chain.value < |w.chains|
    && var fp2 := NextForkingPoint(w, Prev(w, fp));
    && fp2.slot < fp.slot && RoundPlanned(w, fp2, main, Some(fp), stored, last)
    && Rounds(t, fp, main, e) == Rounds(w, fp2, main, Some(fp))
  }

  /** The last forking point is the one whose parent is on the main chain. */
  lemma LastJump(t: Tree, fp: Id, main: nat, e: Option<Id>, stored: set<Id>, last: Id)
    requires RoundReady(t, fp, main, e) && ChainsUpTo(t, fp.slot) && JumpsEndAt(t, stored, main, fp, last)
    requires Published(t, fp) && Prev(t, fp) in t.nodes
    ensures fp == last <==> OnChain(t, Prev(t, fp), main)
  {
    ReadyParent(t, fp, main, e);
    ReadyJumps(t, fp, main, e, stored);
    var rest := Jumps(t, stored, main, Prev(t, fp)).value;
    if rest != [] {
      JumpsBelow(t, stored, main, Prev(t, fp));
      assert last == rest[|rest| - 1];
    }
  }

  lemma {:induction false} JumpsBelow(t: Tree, stored: set<Id>, main: nat, x: Id)
    requires Shape(t) && Solidity(t) && ChainsUpTo(t, x.slot) && OnChain(t, t.origin, main)
    requires x in t.nodes && t.nodes[x].solid && Jumps(t, stored, main, x).Some?
    ensures forall f :: f in Jumps(t, stored, main, x).value ==> f.slot <= x.slot
    decreases x.slot
  {
    if !OnChain(t, x, main) {
      SolidForkingPoint(t, x, main);
      JumpsBelow(t, stored, main, Prev(t, t.chains[t.nodes[x].chain.value].forkingPoint));
    }
  }

  /** Both walks of a round are main-child paths of published commitments. */
  lemma {:induction false} PathsAreWalks(t: Tree, fp: Id)
    requires Shape(t) && Promotable(t, fp)
    ensures var u := Relink(t, fp); Shape(u) && Displaced(t, fp) in u.nodes && IsWalk(u, MainPath(u, Displaced(t, fp)))
    ensures var v := Displace(t, fp); Shape(v) && fp in v.nodes && IsWalk(v, MainPath(v, fp))
  {
    RelinkKeepsShape(t, fp);
    MainChildIsNext(t, Prev(t, fp));
    MainPathIsWalk(Relink(t, fp), Displaced(t, fp));
    DisplaceFrame(t, fp);
    MainPathIsWalk(Displace(t, fp), fp);
  }

  /** A commitment that is in memory is also stored. */
  ghost predicate Loadable(s: State, id: Id) {
    id in s.tree.nodes ==> id in s.stored
  }

  /** The commitment and its parent can be looked up, and the tree is in order when they are. */
  ghost predicate Enterable(s: State, c: Commitment) {
    && Loadable(s, c.prev) && Loadable(LoadOrRequest(s, c.prev), c.id)
    && var s2 := GetOrCreate(LoadOrRequest(s, c.prev), c.id);
    && TreeInv(s2.tree) && c.prev in s2.tree.nodes && c.id in s2.tree.nodes
  }

  lemma RootPublished(s: State)
    requires Inv(s)
    ensures Published(s.tree, s.root) && s.tree.nodes[s.root].commitment.value.id == s.root
  {
    assert SolidAt(s.tree, s.root) && ShapeAt(s.tree, s.root);
  }

  lemma LoadBoth(s: State, c: Commitment)
    requires Inv(s) && WellFormed(c) && c.id.slot > s.root.slot
    ensures Enterable(s, c)
  {
    LoadKeepsInv(s, c.prev);
    GetOrCreateKeeps(LoadOrRequest(s, c.prev), c.id);
  }

  lemma ReadyToSpread(t: Tree, c: Commitment)
    requires Shape(t) && Chains(t) && Indexed(t) && Solidity(t) && Publishable(t, c)
    requires Register(t, c).nodes[c.id].chain.Some? && t.nodes[c.prev].solid
    ensures Shape(Register(t, c)) && Register(t, c).nodes[c.id].chain.value < |Register(t, c).chains|
    ensures var v := ChainProcess.PropagateChain(Register(t, c), c.id);
            Shape(v) && SolidityBut(v, c.id) && c.id in v.nodes && v.nodes[c.id].solid && Accept(t, c) == ChainProcess.PropagateSolidity(v, c.id)
  {
    RegisterKeepsShape(t, c);
    RegisterChains(t, c);
    RegisterSolidity(t, c);
    var u := Register(t, c);
    assert ChainAt(t, c.prev);
    PropagateChains(u, c.id);
    PropagateChainSolidity(u, c.id);
  }

  /** What lies below a newly registered commitment is on no chain yet. */
  lemma BareBelow(t: Tree, c: Commitment)
    requires Shape(t) && Chains(t) && Publishable(t, c)
    ensures var u := Register(t, c);
            && Shape(u)
            && (MainChild(u, c.id).Some? ==> MainChild(u, c.id).value in u.nodes && IsBareWalk(u, MainPath(u, MainChild(u, c.id).value)))
  {
    RegisterKeepsShape(t, c);
    var u := Register(t, c);
    if MainChild(u, c.id).Some? {
      MainChildIsNext(u, c.id);
      var m := MainChild(u, c.id).value;
      MainPathIsWalk(u, m);
      var path := MainPath(u, m);
      forall i: nat | i < |path| ensures WalkNode(u, path, i) && u.nodes[path[i]].chain.None? {
        UnchainedPath(t, c, m, path[i]);
        assert WalkNode(u, path, i);
      }
    }
  }

  ghost predicate ForksAt(t: Tree, p: Id, c: Id)
    requires p in t.nodes
  {
    |t.nodes[p].children + {c}| > 1
  }

  ghost function ChainAtLink(t: Tree, p: Id, c: Id): Option<nat>
    requires p in t.nodes
  {
    if ForksAt(t, p, c) then Some(|t.chains|) else t.nodes[p].chain
  }

  ghost function Obtained(t: Tree, p: Id, c: Id): Tree
    requires p in t.nodes
  {
    var u := WithChild(t, p, c);
    u.(chains := if ForksAt(t, p, c) then t.chains + [NewChain(c)] else t.chains)
  }

  ghost function Joined(t: Tree, c: Id, k: nat, solid: bool): Tree
    requires c in t.nodes && k < |t.chains|
  {
    var node := t.nodes[c];
    t.(chains := t.chains[k := AddCommitment(t.chains[k], c)],
       nodes := t.nodes[c := node.(chain := if node.chain.None? then Some(k) else node.chain, solid := node.solid || solid)])
  }

  ghost function Registered(t: Tree, p: Id, c: Id, solid: bool): Tree
    requires p in t.nodes && c in t.nodes
    requires t.nodes[p].chain.Some? ==> t.nodes[p].chain.value < |t.chains|
  {
    match ChainAtLink(t, p, c)
    case None => Obtained(t, p, c)
    case Some(k) => Joined(Obtained(t, p, c), c, k, solid)
  }

  /** What is known of a commitment that can be published and of its parent. */
  ghost predicate ParentReady(t: Tree, c: Commitment) {
    && Publishable(t, c) && c.prev != c.id && c.id !in t.nodes[c.prev].children
    && (t.nodes[c.prev].chain.Some? ==> t.nodes[c.prev].chain.value < |t.chains|)
    && t.nodes[c.id].chain.None? && !t.nodes[c.id].solid && (t.nodes[c.prev].solid ==> t.nodes[c.prev].chain.Some?)
  }

  lemma ParentIsReady(t: Tree, c: Commitment)
    requires Shape(t) && Chains(t) && Solidity(t) && Publishable(t, c)
    ensures ParentReady(t, c) && ForksAt(t, c.prev, c.id) == Forks(t, c)
  {
    assert ShapeAt(t, c.prev) && ChainAt(t, c.prev) && ChainAt(t, c.id) && SolidAt(t, c.id) && SolidAt(t, c.prev);
    var children := t.nodes[c.prev].children;
    assert |children + {c.id}| == |children| + 1;
  }

  ghost function Announced(t: Tree, c: Commitment): Tree
    requires c.id in t.nodes
  {
    t.(nodes := t.nodes[c.id := t.nodes[c.id].(commitment := Some(c))])
  }

  /** Publishing and then registering with the parent is what registering a commitment means. */
  lemma RegisteredIsRegister(t: Tree, c: Commitment)
    requires Shape(t) && Chains(t) && Solidity(t) && Publishable(t, c)
    ensures ParentReady(t, c) && ForksAt(Announced(t, c), c.prev, c.id) == Forks(t, c)
    ensures Registered(Announced(t, c), c.prev, c.id, t.nodes[c.prev].solid) == Register(t, c)
  {
    hide Shape, Chains, Solidity;
    ParentIsReady(t, c);
    var u := Announced(t, c);
    assert u.nodes[c.prev] == t.nodes[c.prev];
    assert ChainAtLink(u, c.prev, c.id) == ChainFor(t, c);
    var v, w := Registered(u, c.prev, c.id, t.nodes[c.prev].solid), Register(t, c);
    assert v.chains == w.chains;
    assert v.nodes == w.nodes;
  }

  /** The parent knows its child; the first child is the main child. */
  ghost function WithChild(t: Tree, p: Id, c: Id): Tree
    requires p in t.nodes
  {
    var parent := t.nodes[p];
    t.(nodes := t.nodes[p := parent.(mainChildId := if parent.children == {} then Some(c) else parent.mainChildId,
                                     children := parent.children + {c})])
  }

  /** The given nodes are published, and each is the main child of the one before, until there is none. */
  ghost predicate IsWalk(t: Tree, path: seq<Id>) {
    && |path| > 0
    && (forall i: nat {:trigger WalkNode(t, path, i)} :: i < |path| ==> WalkNode(t, path, i))
  }

  ghost predicate WalkNode(t: Tree, path: seq<Id>, i: nat)
    requires i < |path|
  {
    && path[i] in t.nodes && t.nodes[path[i]].commitment.Some? && t.nodes[path[i]].commitment.value.id == path[i]
    && MainChild(t, path[i]) == (if i + 1 < |path| then Some(path[i + 1]) else None)
    && path[i].slot == path[0].slot + i
  }

  /** A walk whose nodes are on no chain yet. */
  ghost predicate IsBareWalk(t: Tree, path: seq<Id>) {
    && |path| > 0
    && (forall i: nat {:trigger WalkNode(t, path, i)} :: i < |path| ==> WalkNode(t, path, i) && t.nodes[path[i]].chain.None?)
  }

  lemma {:induction false} BareWalkAt(t: Tree, path: seq<Id>, i: nat, k: nat)
    requires IsBareWalk(t, path) && k < |t.chains| && i < |path|
    ensures var u := Walked(t, path, i, k);
            && path[i] in u.nodes && u.nodes[path[i]].commitment.Some? && u.nodes[path[i]].commitment.value.id == path[i]
            && MainChild(u, path[i]) == (if i + 1 < |path| then Some(path[i + 1]) else None)
            && u.nodes[path[i]].chain.None?
  {
    assert IsWalk(t, path);
    assert WalkNode(t, path, i);
    WalkedAt(t, path, i, k);
  }

  lemma {:induction false} MainPathIsWalk(t: Tree, a: Id)
    requires Shape(t) && Published(t, a)
    ensures IsWalk(t, MainPath(t, a)) && MainPath(t, a)[0] == a
  {
    var path := MainPath(t, a);
    forall i: nat | i < |path| ensures WalkNode(t, path, i) {
      PathNode(t, a, i);
    }
  }

  lemma PutKeepsNode(t: Tree, path: seq<Id>, k: nat, n: Id)
    requires k < |t.chains| && n in t.nodes
    ensures var u := PutOnChain(t, path, k);
            n in u.nodes && u.nodes[n].commitment == t.nodes[n].commitment && MainChild(u, n) == MainChild(t, n)
  {
  }

  lemma {:induction false} PathNode(t: Tree, a: Id, i: nat)
    requires Shape(t) && Published(t, a) && i < |MainPath(t, a)|
    ensures var path := MainPath(t, a);
            && Published(t, path[i]) && t.nodes[path[i]].commitment.value.id == path[i]
            && MainChild(t, path[i]) == (if i + 1 < |path| then Some(path[i + 1]) else None)
  {
    PathPublished(t, a);
    var n := MainPath(t, a)[i];
    assert n in MainPath(t, a) && ShapeAt(t, n);
  }

  /** The tree after the first nodes of a walk were moved to a chain. */
  ghost function Walked(t: Tree, path: seq<Id>, i: nat, k: nat): (u: Tree)
    requires k < |t.chains| && i <= |path|
    ensures |u.chains| == |t.chains| && u.nodes.Keys == t.nodes.Keys
  {
    if i == 0 then t else PutOnChain(Walked(t, path, i - 1, k), [path[i - 1]], k)
  }

  lemma {:induction false} WalkedStart(t: Tree, path: seq<Id>, k: nat)
    ensures k < |t.chains| ==> Walked(t, path, 0, k) == t
  {
  }

  lemma {:induction false} WalkedAll(t: Tree, path: seq<Id>, i: nat, k: nat)
    requires k < |t.chains| && i <= |path|
    ensures Walked(t, path, i, k) == PutOnChain(t, path[..i], k)
  {
    if i == 0 {
      PutNone(t, k);
    } else {
      WalkedAll(t, path, i - 1, k);
      PutMore(t, path, i - 1, k);
    }
  }

  lemma {:induction false} WalkedEnd(t: Tree, path: seq<Id>, k: nat)
    requires k < |t.chains|
    ensures Walked(t, path, |path|, k) == PutOnChain(t, path, k)
  {
    WalkedAll(t, path, |path|, k);
    assert path[..|path|] == path;
  }

  /** Where the walk stands. */
  lemma {:induction false} WalkedAt(t: Tree, path: seq<Id>, i: nat, k: nat)
    requires IsWalk(t, path) && k < |t.chains| && i < |path|
    ensures var u := Walked(t, path, i, k);
            && path[i] in u.nodes && u.nodes[path[i]].commitment.Some? && u.nodes[path[i]].commitment.value.id == path[i]
            && MainChild(u, path[i]) == (if i + 1 < |path| then Some(path[i + 1]) else None)
            && u.nodes[path[i]].chain == t.nodes[path[i]].chain
  {
    assert WalkNode(t, path, i);
    WalkedAll(t, path, i, k);
    PutKeepsNode(t, path[..i], k, path[i]);
    forall j | 0 <= j < i ensures path[j] != path[i] { assert WalkNode(t, path, j); }
  }

  lemma PutNone(t: Tree, k: nat)
    requires k < |t.chains|
    ensures PutOnChain(t, [], k) == t
  {
  }

  lemma PutMore(t: Tree, path: seq<Id>, i: nat, k: nat)
    requires k < |t.chains| && i < |path|
    ensures PutOnChain(PutOnChain(t, path[..i], k), [path[i]], k) == PutOnChain(t, path[..i + 1], k)
  {
    var u := PutOnChain(t, path[..i], k);
    PutOne(u, path[i], k);
    assert path[..i + 1][..i] == path[..i];
    assert forall n :: n in path[..i + 1] <==> n in path[..i] || n == path[i];
  }

  lemma PutOne(t: Tree, n: Id, k: nat)
    requires k < |t.chains|
    ensures AddAll(t.chains[k], [n]) == AddCommitment(t.chains[k], n)
    ensures n in t.nodes ==>
              PutOnChain(t, [n], k) == t.(nodes := t.nodes[n := t.nodes[n].(chain := Some(k))],
                                          chains := t.chains[k := AddCommitment(t.chains[k], n)])
  {
    assert [n][..0] == [];
    assert AddAll(t.chains[k], [n]) == AddCommitment(AddAll(t.chains[k], [n][..0]), n);
  }
}
