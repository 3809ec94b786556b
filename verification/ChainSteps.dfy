/**
 Exactly what one operation changes, and what it answers.
 */
module ChainSteps {
  import opened Options
  import opened ChainState
  import opened ChainStructure
  import opened ChainProcess
  import opened ChainOps
  import opened ChainSwitchTheorems
  import opened ChainRuns

  // ----- Arrivals -----

  /** The commitment is new and above the root: it joins the tree. */
  predicate Joins(s: State, c: Commitment) {
    c.id.slot > s.root.slot && !Published(s.tree, c.id)
  }

  /** The commitment has siblings already. */
  predicate HasSiblings(t: Tree, c: Commitment) {
    c.prev in t.nodes && t.nodes[c.prev].children != {}
  }

  /** The state in which a commitment joins the tree: its node and its parent's are there. */
  ghost function Loaded(s: State, c: Commitment): State {
    GetOrCreate(LoadOrRequest(s, c.prev), c.id)
  }

  /** Two trees that differ only in new placeholders. */
  ghost predicate OnlyNewNodes(t: Tree, v: Tree, ids: set<Id>) {
    && v.nodes.Keys == t.nodes.Keys + ids && v.chains == t.chains && v.origin == t.origin
    && (forall n :: n in t.nodes ==> v.nodes[n] == t.nodes[n])
    && (forall n :: n in v.nodes && n !in t.nodes ==> v.nodes[n] == NEW_NODE)
  }

  lemma LoadedOne(s: State, id: Id)
    requires TreeInv(s.tree) && Rooted(s) && !IsEvicted(s, id.slot)
    ensures OnlyNewNodes(s.tree, GetOrCreate(s, id).tree, {id})
  {
    GetOrCreateKeeps(s, id);
  }

  lemma LoadedBoth(s: State, c: Commitment)
    requires Inv(s) && WellFormed(c) && c.id.slot > s.root.slot
    ensures OnlyNewNodes(s.tree, Loaded(s, c).tree, {c.prev, c.id})
  {
    hide Shape, Chains, Indexed, Solidity;
    var s1 := LoadOrRequest(s, c.prev);
    LoadKeepsInv(s, c.prev);
    LoadedOne(s, c.prev);
    LoadedOne(s1, c.id);
  }

  lemma LoadedFor(s: State, c: Commitment)
    requires Inv(s) && WellFormed(c) && c.id.slot > s.root.slot
    ensures var v := Loaded(s, c);
            && TreeInv(v.tree) && Rooted(v) && OnlyNewNodes(s.tree, v.tree, {c.prev, c.id})
            && Enter(s, c) == Entered(v, c, c.id !in LoadOrRequest(s, c.prev).stored)
  {
    hide Accept, OnlyNewNodes;
    LoadKeepsInv(s, c.prev);
    var s1 := LoadOrRequest(s, c.prev);
    GetOrCreateKeeps(s1, c.id);
    LoadedBoth(s, c);
  }

  lemma NothingLoaded(s: State, c: Commitment)
    requires Inv(s) && WellFormed(c) && Consistent(s.tree, c) && c.id.slot > s.root.slot && Published(s.tree, c.id)
    ensures Loaded(s, c) == s
  {
    assert ShapeAt(s.tree, c.id);
  }

  lemma AcceptAnswers(t: Tree, c: Commitment)
    requires TreeInv(t) && Publishable(t, c)
    ensures c.id in Accept(t, c).nodes && Accept(t, c).nodes[c.id].solid == t.nodes[c.prev].solid
  {
    AcceptKeepsTree(t, c);
    AcceptKeys(t, c);
    AcceptAt(t, c, c.id);
    AcceptAt(t, c, c.prev);
    assert ShapeAt(t, c.prev) && ShapeAt(t, t.origin) && SolidAt(t, c.id);
    assert SolidAt(Accept(t, c), c.id);
    if !t.nodes[c.prev].solid {
      assert Accept(t, c).nodes[c.prev].solid == Register(t, c).nodes[c.prev].solid;
    }
  }

  /** What the caller learns about an arriving commitment is so afterwards. */
  lemma ProcessAnswers(s: State, c: Commitment)
    requires Inv(s) && WellFormed(c) && Consistent(s.tree, c)
    ensures var r := Process(s, c); var u := r.state.tree;
            if c.id.slot > s.root.slot then
              && r.node == Some(c.id) && c.id in u.nodes && r.isSolid == u.nodes[c.id].solid
              && (r.wasForked <==> Joins(s, c) && HasSiblings(s.tree, c))
            else if Some(c) == s.tree.nodes[s.root].commitment then r.state == s && r.node == Some(s.root) && r.isSolid && !r.wasForked
            else r.state == s.(requests := s.requests - {c.id}) && r.node == None && !r.isSolid && !r.wasForked
  {
    hide Accept;
    assert ShapeAt(s.tree, s.root);
    if c.id.slot > s.root.slot {
      LoadedFor(s, c);
      if Published(s.tree, c.id) {
        NothingLoaded(s, c);
      } else {
        AcceptAnswers(Loaded(s, c).tree, c);
      }
    }
  }

  /** A commitment that is published already changes nothing when it arrives again. */
  lemma RepeatedArrival(s: State, c: Commitment)
    requires Inv(s) && WellFormed(c) && Consistent(s.tree, c) && c.id.slot > s.root.slot && Published(s.tree, c.id)
    ensures Process(s, c).state == s
  {
    assert ShapeAt(s.tree, s.root);
    LoadedFor(s, c);
    NothingLoaded(s, c);
  }

  lemma JoinedIs(s: State, c: Commitment)
    requires Inv(s) && WellFormed(c) && Joins(s, c)
    ensures var v := Loaded(s, c).tree;
            && TreeInv(v) && Publishable(v, c) && OnlyNewNodes(s.tree, v, {c.prev, c.id}) && Process(s, c).state.tree == Accept(v, c)
            && (Forks(v, c) <==> HasSiblings(s.tree, c))
  {
    hide Accept;
    assert ShapeAt(s.tree, s.root);
    LoadedFor(s, c);
  }

  /** What an arriving commitment does to the links: its parent gets a child, and a main child if it had none. */
  lemma ProcessLinks(s: State, c: Commitment, n: Id)
    requires Inv(s) && WellFormed(c) && Joins(s, c) && n in Process(s, c).state.tree.nodes
    ensures var u := Process(s, c).state.tree; var before := if n in s.tree.nodes then s.tree.nodes[n] else NEW_NODE;
            && u.nodes.Keys == s.tree.nodes.Keys + {c.prev, c.id} && u.origin == s.tree.origin
            && u.nodes[n].commitment == (if n == c.id then Some(c) else before.commitment)
            && u.nodes[n].children == before.children + (if n == c.prev then {c.id} else {})
            && u.nodes[n].mainChildId == (if n == c.prev && !HasSiblings(s.tree, c) then Some(c.id) else before.mainChildId)
            && (before.chain.Some? ==> u.nodes[n].chain == before.chain)
  {
    hide Accept, Process, Inv, Shape, Chains, Indexed, Solidity;
    JoinedIs(s, c);
    var v := Loaded(s, c).tree;
    AcceptKeys(v, c);
    AcceptLinks(v, c, n);
    AcceptAt(v, c, n);
  }

  /** An arriving commitment starts a chain exactly when it forks. */
  lemma ProcessChains(s: State, c: Commitment)
    requires Inv(s) && WellFormed(c) && Consistent(s.tree, c)
    ensures var u := Process(s, c).state.tree;
            && |u.chains| == |s.tree.chains| + (if Process(s, c).wasForked then 1 else 0)
            && (Process(s, c).wasForked ==> u.chains[|s.tree.chains|].forkingPoint == c.id && OnChain(u, c.id, |s.tree.chains|))
  {
    hide Accept, Process;
    ProcessAnswers(s, c);
    if Joins(s, c) {
      JoinedIs(s, c);
      AcceptChains(Loaded(s, c).tree, c);
    } else if c.id.slot > s.root.slot {
      RepeatedArrival(s, c);
    }
  }

  lemma AcceptChains(t: Tree, c: Commitment)
    requires TreeInv(t) && Publishable(t, c)
    ensures |Accept(t, c).chains| == |t.chains| + if Forks(t, c) then 1 else 0
    ensures Forks(t, c) ==> OnChain(Accept(t, c), c.id, |t.chains|) && Accept(t, c).chains[|t.chains|].forkingPoint == c.id
    ensures !Forks(t, c) ==> c.id in Accept(t, c).nodes && Accept(t, c).nodes[c.id].chain == t.nodes[c.prev].chain
  {
    RegisterKeepsShape(t, c);
    RegisterChains(t, c);
    assert ChainAt(t, c.prev);
    var u := Register(t, c);
    if u.nodes[c.id].chain.Some? && MainChild(u, c.id).Some? {
      MainChildIsNext(u, c.id);
      AddAllHead(u.chains[u.nodes[c.id].chain.value], MainPath(u, MainChild(u, c.id).value));
      NotBelowItself(u, c.id);
    }
  }

  lemma {:induction false} NotBelowItself(t: Tree, a: Id)
    requires Shape(t) && a in t.nodes && MainChild(t, a).Some?
    ensures MainChild(t, a).value in t.nodes && a !in MainPath(t, MainChild(t, a).value)
  {
    MainChildIsNext(t, a);
    if a in MainPath(t, MainChild(t, a).value) {
      PathAt(t, MainChild(t, a).value, a);
    }
  }

  // ----- The main engine -----

  lemma JoinedMain(s: State, c: Commitment)
    requires Inv(s) && WellFormed(c) && Consistent(s.tree, c) && Joins(s, c)
    ensures Inv(Process(s, c).state) && Main(Process(s, c).state) == Main(s)
    ensures Process(s, c).node == Some(c.id) && c.id in Process(s, c).state.tree.nodes
    ensures !HasSiblings(s.tree, c) ==>
              (OnChain(Process(s, c).state.tree, c.id, Main(s)) <==> OnChain(s.tree, c.prev, Main(s)))
  {
    hide Accept, Process;
    ProcessKeepsInv(s, c);
    ProcessAnswers(s, c);
    JoinedIs(s, c);
    var v := Loaded(s, c).tree;
    AcceptKeys(v, c);
    AcceptAt(v, c, s.root);
    AcceptChains(v, c);
    assert SolidAt(s.tree, s.root);
    ProcessKeepsRoot(s, c);
  }

  /** A new commitment of the main engine is on the main chain afterwards exactly when it has siblings, so that the main chain
      switches to it, or its parent is on the main chain. It then lies on the main-child path from the initial root. */
  lemma EngineIsFollowed(s: State, c: Commitment)
    requires Inv(s) && Reported(s) && Allowed(s, OwnEngine(c)) && Joins(s, c)
    ensures var u := Step(s, OwnEngine(c));
            && Inv(u) && Main(u) == Main(s)
            && (OnChain(u.tree, c.id, Main(u)) <==> HasSiblings(s.tree, c) || OnChain(s.tree, c.prev, Main(s)))
            && (OnChain(u.tree, c.id, Main(u)) <==> c.id in MainPath(u.tree, u.tree.origin))
  {
    hide SwitchTo, Process;
    StepKeepsInv(s, OwnEngine(c));
    ProcessAnswers(s, c);
    JoinedMain(s, c);
    var r, u := Process(s, c), Step(s, OwnEngine(c));
    if r.wasForked {
      SwitchReachesHead(r.state, c.id);
      SwitchKeepsOrigin(r.state, c.id);
    }
    MainIsOrigins(r.state);
    MainIsOrigins(u);
    ChainIsMainPath(u.tree, Main(u));
    ClimbToHead(u.tree, u.tree.origin, Main(u));
  }

  /** Any other commitment of the main engine leaves the tree as it is. */
  lemma EngineRepeats(s: State, c: Commitment)
    requires Inv(s) && Allowed(s, OwnEngine(c)) && !Joins(s, c)
    ensures Step(s, OwnEngine(c)).tree == s.tree
  {
    hide SwitchTo;
    ProcessAnswers(s, c);
    if c.id.slot > s.root.slot {
      RepeatedArrival(s, c);
    }
  }

  // ----- Requests -----

  /** The operation makes a commitment known that was not. */
  predicate LooksUp(s: State, op: Op, n: Id) {
    && n !in s.tree.nodes
    && ((op.Load? && op.id == n) || (Arriving(op) && Joins(s, op.c) && op.c.prev == n))
  }

  predicate Arriving(op: Op) {
    op.Candidate? || op.FromPeer? || op.OwnEngine?
  }

  /** The operation answers the request for a commitment, or drops it. */
  predicate Settles(s: State, op: Op, n: Id) {
    || (Arriving(op) && op.c.id == n && n != s.root)
    || (op.Evict? && n.slot <= op.index)
  }

  /** Exactly which requests an operation starts and stops. */
  lemma StepRequests(s: State, op: Op, n: Id)
    requires Inv(s) && Allowed(s, op)
    ensures n in Step(s, op).requests <==> (n in s.requests && !Settles(s, op, n)) || LooksUp(s, op, n)
  {
    if Arriving(op) {
      ArrivalRequests(s, op.c, n);
      ArrivalStepRequests(s, op);
    } else if op.Switch? && op.head in s.stored {
      SwitchKeepsCommitments(s, op.head);
    }
  }

  lemma ArrivalStepRequests(s: State, op: Op)
    requires Inv(s) && Allowed(s, op) && Arriving(op)
    ensures Step(s, op).requests == Process(s, op.c).state.requests
  {
    hide SwitchTo, Process, Detect;
    ProcessKeepsInv(s, op.c);
    ProcessNode(s, op.c);
    var r := Process(s, op.c);
    if op.FromPeer? && r.node.Some? {
      DetectKeepsRequests(r.state, r.node.value, op.source);
    } else if op.OwnEngine? && r.wasForked && r.node.Some? {
      SwitchKeepsCommitments(r.state, r.node.value);
    }
  }

  lemma DetectKeepsRequests(s: State, x: Id, source: nat)
    requires Inv(s) && x in s.tree.nodes
    ensures Detect(s, x, source).requests == s.requests
  {
  }

  lemma ArrivalRequests(s: State, c: Commitment, n: Id)
    requires Inv(s) && WellFormed(c) && Consistent(s.tree, c)
    ensures n in Process(s, c).state.requests <==>
              (n in s.requests && (c.id != n || n == s.root)) || (Joins(s, c) && c.prev == n && n !in s.tree.nodes)
  {
    hide Accept;
    assert ShapeAt(s.tree, s.root) && SolidAt(s.tree, s.root);
    ProcessAnswers(s, c);
    if Joins(s, c) {
      LoadedFor(s, c);
      assert n in s.tree.nodes ==> RequestedAt(s, n);
    } else if c.id.slot > s.root.slot {
      RepeatedArrival(s, c);
      assert RequestedAt(s, c.id);
    }
  }

  // ----- The root and what is evicted -----

  lemma ProcessKeepsRoot(s: State, c: Commitment)
    requires Inv(s) && WellFormed(c)
    ensures Process(s, c).state.root == s.root && Process(s, c).state.evicted == s.evicted
  {
  }

  lemma DetectKeepsRoot(s: State, x: Id, source: nat)
    requires Inv(s) && x in s.tree.nodes
    ensures Detect(s, x, source).root == s.root && Detect(s, x, source).evicted == s.evicted
  {
  }

  /** Only an eviction evicts, and exactly up to its slot; only a root move moves the root. */
  lemma StepRootAndEvicted(s: State, op: Op, slot: nat)
    requires Inv(s) && Allowed(s, op)
    ensures Step(s, op).root == if op.MoveRoot? then op.id else s.root
    ensures IsEvicted(Step(s, op), slot) <==> IsEvicted(s, slot) || (op.Evict? && slot <= op.index)
  {
    hide SwitchTo, Process, Detect;
    if Arriving(op) {
      ProcessKeepsInv(s, op.c);
      ProcessNode(s, op.c);
      ProcessKeepsRoot(s, op.c);
      var r := Process(s, op.c);
      if op.FromPeer? && r.node.Some? {
        DetectKeepsRoot(r.state, r.node.value, op.source);
      } else if op.OwnEngine? && r.wasForked && r.node.Some? {
        SwitchKeepsCommitments(r.state, r.node.value);
      }
    } else if op.Switch? && op.head in s.stored {
      SwitchKeepsCommitments(s, op.head);
    }
  }

  /** Where the root is after some operations. */
  function RootAfter(ops: seq<Op>, root: Id): Id {
    if ops == [] then root else RootAfter(ops[1..], if ops[0].MoveRoot? then ops[0].id else root)
  }

  predicate Evicts(ops: seq<Op>, slot: nat) {
    exists i :: 0 <= i < |ops| && ops[i].Evict? && slot <= ops[i].index
  }

  lemma {:induction false} RunRootAndEvicted(s: State, ops: seq<Op>, u: State, slot: nat)
    requires Inv(s) && Reported(s) && Leads(s, ops, u)
    ensures u.root == RootAfter(ops, s.root) && (IsEvicted(u, slot) <==> IsEvicted(s, slot) || Evicts(ops, slot))
    decreases |ops|
  {
    hide Step, Inv, Reported, Allowed;
    if ops != [] {
      StepKeepsInv(s, ops[0]);
      StepRootAndEvicted(s, ops[0], slot);
      RunRootAndEvicted(Step(s, ops[0]), ops[1..], u, slot);
      EvictsCons(ops, slot);
    }
  }

  lemma EvictsCons(ops: seq<Op>, slot: nat)
    requires ops != []
    ensures Evicts(ops, slot) <==> (ops[0].Evict? && slot <= ops[0].index) || Evicts(ops[1..], slot)
  {
    if i :| 0 <= i < |ops[1..]| && ops[1..][i].Evict? && slot <= ops[1..][i].index {
      assert ops[i + 1] == ops[1..][i];
    }
    if i :| 0 < i < |ops| && ops[i].Evict? && slot <= ops[i].index {
      assert ops[1..][i - 1] == ops[i];
    }
  }
}
