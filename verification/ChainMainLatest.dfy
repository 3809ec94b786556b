/**
 The latest slot of the main chain over a run: it only rises, to the highest tip that the main chain has had.
 */
module ChainMainLatest {
  import opened Options
  import opened ChainState
  import opened ChainStructure
  import opened ChainProcess
  import opened ChainOps
  import opened ChainSwitchTheorems
  import opened ChainRuns
  import opened ChainLatest
  import opened ChainTips

  /** The slot of the tip of the main chain, which starts at the initial root. */
  ghost function MainTipSlot(t: Tree): nat
    requires Shape(t)
  {
    Tip(t, t.origin).slot
  }

  /** The number of the main chain. */
  ghost function MainNumber(t: Tree): nat
    requires Chains(t)
  {
    t.nodes[t.origin].chain.value
  }

  /** The latest slot of the main chain in `u` is the one in `t`, raised to the tip if that is higher. */
  ghost predicate MainRaised(t: Tree, u: Tree) {
    && TreeInv(t) && TreeInv(u) && MainNumber(u) == MainNumber(t) && MainNumber(t) < |t.chains| && MainNumber(t) < |u.chains|
    && u.chains[MainNumber(t)].latest == Max(t.chains[MainNumber(t)].latest, MainTipSlot(u))
  }

  lemma MainReachesTip(t: Tree)
    requires TreeInv(t)
    ensures MainNumber(t) < |t.chains| && t.chains[MainNumber(t)].forkingPoint == t.origin && t.chains[MainNumber(t)].latest >= MainTipSlot(t)
    ensures OnChain(t, t.origin, MainNumber(t))
  {
    LatestIsTipIff(t, MainNumber(t));
  }

  /** Where the links of the main chain's commitments and its latest slot stay, nothing is raised. */
  lemma {:induction false} MainStays(t: Tree, u: Tree)
    requires TreeInv(t) && TreeInv(u) && u.origin == t.origin && MainNumber(u) == MainNumber(t)
    requires MainNumber(t) < |t.chains| && MainNumber(t) < |u.chains| && u.chains[MainNumber(t)] == t.chains[MainNumber(t)]
    requires forall n :: n in MainPath(t, t.origin) ==> n in u.nodes && MainChild(u, n) == MainChild(t, n)
    ensures MainRaised(t, u)
  {
    SameWalk(t, u, t.origin);
    MainReachesTip(t);
  }

  lemma PropagateMax(u: Tree, c: Id)
    requires Shape(u) && c in u.nodes && u.nodes[c].chain.Some? && u.nodes[c].chain.value < |u.chains|
    requires u.chains[u.nodes[c].chain.value].latest >= c.slot
    ensures var v, k := PropagateChain(u, c), u.nodes[c].chain.value;
            Shape(v) && c in v.nodes && k < |v.chains| && v.chains[k].latest == Max(u.chains[k].latest, Tip(v, c).slot)
  {
    var v := PropagateChain(u, c);
    if MainChild(u, c).Some? {
      MainChildIsNext(u, c);
      var m := MainChild(u, c).value;
      PutKeepsShape(u, MainPath(u, m), u.nodes[c].chain.value);
      AddAllLatest(u.chains[u.nodes[c].chain.value], MainPath(u, m));
      PathFrame(u, v, c);
    }
  }

  lemma AcceptLatest(t: Tree, c: Commitment, k: nat)
    requires TreeInv(t) && Publishable(t, c) && ChainFor(t, c) == Some(k) && k < |t.chains|
    ensures Shape(Accept(t, c)) && c.id in Accept(t, c).nodes && k < |Accept(t, c).chains|
    ensures Accept(t, c).chains[k].latest == Max(Max(t.chains[k].latest, c.id.slot), Tip(Accept(t, c), c.id).slot)
  {
    hide Tip, MainPath, PropagateChain;
    var u := Register(t, c);
    RegisterKeepsShape(t, c);
    assert ChainAt(t, c.prev);
    assert u.chains[k].latest == Max(t.chains[k].latest, c.id.slot);
    PropagateMax(u, c.id);
    SpreadKeepsTip(PropagateChain(u, c.id), c.id, c.id);
    AcceptIs(t, c);
  }

  lemma AcceptIs(t: Tree, c: Commitment)
    requires TreeInv(t) && Publishable(t, c) && ChainFor(t, c).Some? && Shape(Register(t, c))
    ensures var u := Register(t, c);
            && u.nodes[c.id].chain.Some? && u.nodes[c.id].chain.value < |u.chains|
            && var v := PropagateChain(u, c.id); Accept(t, c) == if t.nodes[c.prev].solid then PropagateSolidity(v, c.id) else v
  {
    assert ChainAt(t, c.prev);
  }

  lemma AcceptOnMain(t: Tree, c: Commitment)
    requires TreeInv(t) && Publishable(t, c) && !Forks(t, c) && OnChain(t, c.prev, MainNumber(t))
    ensures MainRaised(t, Accept(t, c))
  {
    hide Accept, Tip, MainPath;
    var v, k := Accept(t, c), MainNumber(t);
    assert TreeInv(v) by { AcceptKeepsTree(t, c); }
    assert ShapeAt(t, t.origin);
    AcceptAt(t, c, t.origin);
    MainReachesTip(t);
    AcceptLatest(t, c, k);
    NewOnChain(t, c);
    ClimbToHead(v, c.id, k);
    MainReachesTip(v);
    SameTip(v, v.origin, c.id);
    PrevBelowTip(v, c.id);
  }

  lemma PrevBelowTip(t: Tree, p: Id)
    requires TreeInv(t) && OnChain(t, p, MainNumber(t))
    ensures p.slot <= MainTipSlot(t)
  {
    MainReachesTip(t);
    ClimbToHead(t, p, MainNumber(t));
    PathAt(t, t.origin, p);
  }

  /** Accepting a commitment raises the main chain's latest slot to its tip, if that is higher. */
  lemma AcceptRaisesMain(t: Tree, c: Commitment)
    requires TreeInv(t) && Publishable(t, c)
    ensures MainRaised(t, Accept(t, c)) && Accept(t, c).origin == t.origin
  {
    AcceptKeys(t, c);
    MainReachesTip(t);
    if !Forks(t, c) && OnChain(t, c.prev, MainNumber(t)) {
      AcceptOnMain(t, c);
    } else {
      var v, k := Accept(t, c), MainNumber(t);
      assert TreeInv(v) by { AcceptKeepsTree(t, c); }
      AcceptAt(t, c, t.origin);
      assert ShapeAt(t, t.origin);
      AcceptChainOf(t, c, k);
      forall n | n in MainPath(t, t.origin) ensures n in v.nodes && MainChild(v, n) == MainChild(t, n) {
        DescendOnChain(t, t.origin, k, n);
        AcceptMain(t, c, n);
      }
      MainStays(t, v);
    }
  }

  lemma SwitchRaisesMain(s: State, x: Id)
    requires Inv(s) && x in s.tree.nodes && Orderly(s, x)
    ensures MainRaised(s.tree, SwitchTo(s, x).state.tree) && SwitchTo(s, x).state.tree.origin == s.tree.origin
  {
    hide SwitchTo;
    MainReachesTip(s.tree);
    MainIsOrigins(s);
    SwitchKeepsOrigin(s, x);
    if Moves(s, x) && SwitchTo(s, x).error.None? {
      SwitchKeepsTree(s, x);
      SwitchReachesHead(s, x);
      SwitchLatest(s, x);
      SwitchedTip(s, x);
    } else {
      assert SwitchTo(s, x).state == s by { SwitchChangesNothing(s, x); }
    }
  }

  lemma SwitchChangesNothing(s: State, x: Id)
    requires Inv(s) && x in s.tree.nodes && Orderly(s, x) && !(Moves(s, x) && SwitchTo(s, x).error.None?)
    ensures SwitchTo(s, x).state == s
  {
    if SwitchTo(s, x).error.Some? {
      RefusedSwitchBreaksIff(s, x);
    }
  }

  // ----- Runs -----

  lemma LoadRaisesMain(s: State, id: Id)
    requires TreeInv(s.tree) && Rooted(s) && !IsEvicted(s, id.slot)
    ensures MainRaised(s.tree, GetOrCreate(s, id).tree) && GetOrCreate(s, id).tree.origin == s.tree.origin
  {
    GetOrCreateKeeps(s, id);
    MainReachesTip(s.tree);
    MainStays(s.tree, GetOrCreate(s, id).tree);
  }

  /** Two raises in a row, the first of which changed nothing. */
  lemma RaisedThen(t: Tree, u: Tree, v: Tree)
    requires MainRaised(t, u) && MainRaised(u, v) && u.origin == t.origin
    requires u.chains[MainNumber(t)].latest == t.chains[MainNumber(t)].latest
    ensures MainRaised(t, v)
  {
  }

  lemma LoadKeepsLatest(s: State, id: Id)
    requires TreeInv(s.tree) && Rooted(s) && !IsEvicted(s, id.slot)
    ensures GetOrCreate(s, id).tree.chains == s.tree.chains
  {
    GetOrCreateKeeps(s, id);
  }

  lemma ProcessRaisesMain(s: State, c: Commitment)
    requires Inv(s) && WellFormed(c)
    ensures MainRaised(s.tree, Process(s, c).state.tree) && Process(s, c).state.tree.origin == s.tree.origin
    ensures Process(s, c).wasForked ==>
              && MainNumber(s.tree) < |s.tree.chains| <= |Process(s, c).state.tree.chains|
              && Process(s, c).state.tree.chains[MainNumber(s.tree)].latest == s.tree.chains[MainNumber(s.tree)].latest
  {
    hide MainRaised, Accept, MainNumber;
    MainIsRaised(s.tree);
    if Some(c) != s.tree.nodes[s.root].commitment && c.id.slot > s.root.slot {
      LoadKeepsInv(s, c.prev);
      LoadRaisesMain(s, c.prev);
      LoadKeepsLatest(s, c.prev);
      var s1 := LoadOrRequest(s, c.prev);
      GetOrCreateKeeps(s1, c.id);
      LoadRaisesMain(s1, c.id);
      LoadKeepsLatest(s1, c.id);
      var s2 := GetOrCreate(s1, c.id);
      JoinRaises(s.tree, s1.tree, s2.tree);
      if !Published(s2.tree, c.id) {
        AcceptRaisesMain(s2.tree, c);
        JoinRaises(s.tree, s2.tree, Accept(s2.tree, c));
        if Forks(s2.tree, c) {
          ForkKeepsMain(s2.tree, c);
        }
      }
    }
  }

  lemma MainIsRaised(t: Tree)
    requires TreeInv(t)
    ensures MainRaised(t, t)
  {
    MainReachesTip(t);
  }

  lemma JoinRaises(t: Tree, u: Tree, v: Tree)
    requires MainRaised(t, u) && MainRaised(u, v) && u.origin == t.origin && u.chains == t.chains
    ensures MainRaised(t, v) && MainNumber(u) == MainNumber(t)
  {
    RaisedThen(t, u, v);
  }

  lemma ForkKeepsMain(t: Tree, c: Commitment)
    requires TreeInv(t) && Publishable(t, c) && Forks(t, c)
    ensures MainNumber(t) < |t.chains| <= |Accept(t, c).chains| && Accept(t, c).chains[MainNumber(t)] == t.chains[MainNumber(t)]
  {
    MainReachesTip(t);
    AcceptChainOf(t, c, MainNumber(t));
    AcceptLength(t, c);
  }

  lemma StepRaisesMain(s: State, op: Op)
    requires Inv(s) && Allowed(s, op)
    ensures MainRaised(s.tree, Step(s, op).tree) && Step(s, op).tree.origin == s.tree.origin
  {
    hide MainRaised, Process, SwitchTo, Detect;
    MainIsRaised(s.tree);
    match op
    case Candidate(c) =>
      ProcessRaisesMain(s, c);
    case FromPeer(c, source) =>
      ProcessRaisesMain(s, c);
      ProcessKeepsInv(s, c);
      ProcessNode(s, c);
      var r := Process(s, c);
      if r.node.Some? {
        DetectKeepsTree(r.state, r.node.value, source);
      }
    case OwnEngine(c) =>
      ProcessRaisesMain(s, c);
      ProcessKeepsInv(s, c);
      ProcessNode(s, c);
      var r := Process(s, c);
      if r.wasForked && r.node.Some? {
        SwitchRaisesMain(r.state, r.node.value);
        RaisedThen(s.tree, r.state.tree, Step(s, op).tree);
      }
    case Load(id) =>
      LoadRaisesMain(s, id);
    case Switch(head) =>
      if head in s.stored {
        SwitchRaisesMain(s, head);
      }
    case MoveRoot(id) =>
    case Evict(index) =>
  }

  lemma DetectKeepsTree(s: State, x: Id, source: nat)
    requires Inv(s) && x in s.tree.nodes
    ensures Detect(s, x, source).tree == s.tree
  {
  }

  /** The highest slot that the tip of the main chain has had over a run. */
  ghost function HighestTip(s: State, ops: seq<Op>): nat
    decreases |ops|
  {
    var now := if Shape(s.tree) then MainTipSlot(s.tree) else 0;
    if ops == [] || !Inv(s) || !Allowed(s, ops[0]) then now else Max(now, HighestTip(Step(s, ops[0]), ops[1..]))
  }

  ghost function MainLatest(t: Tree): nat
    requires TreeInv(t)
  {
    MainReachesTip(t);
    t.chains[MainNumber(t)].latest
  }

  lemma {:induction false} RunMainLatest(s: State, ops: seq<Op>, u: State)
    requires Inv(s) && Reported(s) && Leads(s, ops, u)
    ensures Inv(u) && MainLatest(u.tree) == Max(MainLatest(s.tree), HighestTip(s, ops))
    decreases |ops|
  {
    hide Reported, Allowed, Step, Shape, Chains, Indexed, Solidity, Requested, Rooted;
    MainReachesTip(s.tree);
    if ops != [] {
      var next := Step(s, ops[0]);
      StepKeepsInv(s, ops[0]);
      StepRaisesMain(s, ops[0]);
      MainReachesTip(next.tree);
      RunMainLatest(next, ops[1..], u);
    }
  }

  /** The latest slot of the main chain is the highest that its tip has had over the whole run. */
  lemma {:induction false} ReachableMainLatest(c0: Commitment, ops: seq<Op>, u: State)
    requires Leads(Init(c0), ops, u)
    ensures Inv(u) && MainLatest(u.tree) == HighestTip(Init(c0), ops)
  {
    hide Leads;
    InitInv(c0);
    RunMainLatest(Init(c0), ops, u);
    TipIsReached(Init(c0), ops);
    InitTip(c0);
  }

  lemma InitTip(c0: Commitment)
    ensures TreeInv(Init(c0).tree) && MainLatest(Init(c0).tree) == MainTipSlot(Init(c0).tree)
  {
    InitInv(c0);
    assert MainChild(Init(c0).tree, c0.id) == None;
    assert MainPath(Init(c0).tree, c0.id) == [c0.id];
  }

  lemma {:induction false} TipIsReached(s: State, ops: seq<Op>)
    requires Shape(s.tree)
    ensures HighestTip(s, ops) >= MainTipSlot(s.tree)
  {
  }
}
