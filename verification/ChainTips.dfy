/**
 Every chain in use, except the main one, reports the tip of its main-child path as its latest commitment.
 */
module ChainTips {
  import opened Options
  import opened ChainState
  import opened ChainStructure
  import opened ChainForks
  import opened ChainProcess
  import opened ChainSwitch
  import opened ChainReorg
  import opened ChainOps
  import opened ChainSwitchTheorems
  import opened ChainRuns
  import opened ChainLatest

  /** The chain is in use: its forking point is still on it. */
  predicate Live(t: Tree, k: nat) {
    k < |t.chains| && OnChain(t, t.chains[k].forkingPoint, k)
  }

  /** The latest slot of the chain, if it is in use, is that of its tip. */
  ghost predicate UpToTip(t: Tree, k: nat)
    requires Shape(t)
  {
    Live(t, k) ==> t.chains[k].latest == Tip(t, t.chains[k].forkingPoint).slot
  }

  /** All chains but the one of the initial root, which is the main chain, are up to their tips; so is not, perhaps, chain `but`. */
  ghost predicate TipsKnownBut(t: Tree, but: Option<nat>) {
    && Shape(t)
    && forall k: nat {:trigger UpToTip(t, k)} :: k < |t.chains| && t.chains[k].forkingPoint != t.origin && but != Some(k) ==> UpToTip(t, k)
  }

  // ----- Walks that stay -----

  /** A walk only depends on the main children of its own commitments. */
  lemma {:induction false} SameWalk(t: Tree, u: Tree, a: Id)
    requires Shape(t) && Shape(u) && a in t.nodes && a in u.nodes
    requires forall n :: n in MainPath(t, a) ==> n in u.nodes && MainChild(u, n) == MainChild(t, n)
    ensures MainPath(u, a) == MainPath(t, a)
    decreases Above(t, a.slot)
  {
    if MainChild(t, a).Some? {
      MainChildIsNext(t, a);
      SameWalk(t, u, MainChild(t, a).value);
    }
  }

  /** A chain that keeps its members and their main children keeps its tip. */
  lemma {:induction false} KeepsTip(t: Tree, u: Tree, k: nat)
    requires Shape(t) && Shape(u) && k < |t.chains| && k < |u.chains| && u.chains[k] == t.chains[k] && UpToTip(t, k)
    requires Live(u, k) ==> Live(t, k)
    requires Live(u, k) ==> forall n :: n in MainPath(t, t.chains[k].forkingPoint) ==> n in u.nodes && MainChild(u, n) == MainChild(t, n)
    ensures UpToTip(u, k)
  {
    if Live(u, k) {
      SameWalk(t, u, t.chains[k].forkingPoint);
    }
  }

  /** Where all links stay and no commitment joins a chain, the tips stay. */
  lemma SameLinksKeepTips(t: Tree, u: Tree)
    requires TipsKnownBut(t, None) && Shape(u) && u.origin == t.origin && u.chains == t.chains
    requires forall n :: n in t.nodes ==> n in u.nodes && MainChild(u, n) == MainChild(t, n) && u.nodes[n].chain == t.nodes[n].chain
    requires forall n :: n in u.nodes && n !in t.nodes ==> u.nodes[n].chain.None?
    ensures TipsKnownBut(u, None)
  {
    forall k: nat | k < |u.chains| && u.chains[k].forkingPoint != u.origin ensures UpToTip(u, k) {
      assert UpToTip(t, k);
      KeepsTip(t, u, k);
    }
  }

  // ----- Arrivals -----

  /** The commitment goes on a chain other than that of the initial root. */
  predicate JoinsOther(t: Tree, c: Commitment)
    requires c.prev in t.nodes
  {
    Forks(t, c) || (ChainFor(t, c).Some? && ChainFor(t, c).value < |t.chains| && t.chains[ChainFor(t, c).value].forkingPoint != t.origin)
  }

  lemma RegisterLatest(t: Tree, c: Commitment)
    requires Shape(t) && Chains(t) && TipsKnownBut(t, None) && Publishable(t, c) && ChainFor(t, c).Some?
    requires JoinsOther(t, c)
    ensures ChainFor(t, c).value < |Register(t, c).chains| && Register(t, c).chains[ChainFor(t, c).value].latest == c.id.slot
  {
    assert ChainAt(t, c.prev) && ShapeAt(t, c.prev);
    if !Forks(t, c) {
      var k := ChainFor(t, c).value;
      ClimbToHead(t, c.prev, k);
      assert UpToTip(t, k);
      SameTip(t, t.chains[k].forkingPoint, c.prev);
      assert MainChild(t, c.prev) == None;
    }
  }

  /** Pushing its chain down brings the chain of a newly registered commitment up to the tip. */
  lemma PropagateLatest(u: Tree, c: Id)
    requires Shape(u) && c in u.nodes && u.nodes[c].chain.Some? && u.nodes[c].chain.value < |u.chains|
    requires u.chains[u.nodes[c].chain.value].latest == c.slot
    ensures var v, k := PropagateChain(u, c), u.nodes[c].chain.value;
            Shape(v) && c in v.nodes && k < |v.chains| && v.chains[k].latest == Tip(v, c).slot
  {
    var v := PropagateChain(u, c);
    if MainChild(u, c).Some? {
      MainChildIsNext(u, c);
      var m := MainChild(u, c).value;
      PutKeepsShape(u, MainPath(u, m), u.nodes[c].chain.value);
      AddAllLatest(u.chains[u.nodes[c].chain.value], MainPath(u, m));
      PathFrame(u, v, c);
    }
  }

  /** What accepting a commitment leaves of the other chains. */
  lemma AcceptOther(t: Tree, c: Commitment, j: nat)
    requires Shape(t) && Chains(t) && Solidity(t) && Publishable(t, c) && j < |t.chains| && ChainFor(t, c) != Some(j)
    requires Shape(Accept(t, c)) && UpToTip(t, j)
    ensures j < |Accept(t, c).chains| && Accept(t, c).chains[j] == t.chains[j] && UpToTip(Accept(t, c), j)
  {
    var v := Accept(t, c);
    AcceptKeys(t, c);
    AcceptChainOf(t, c, j);
    if Live(v, j) {
      var h := t.chains[j].forkingPoint;
      forall n | n in MainPath(t, h) ensures n in v.nodes && MainChild(v, n) == MainChild(t, n) {
        DescendOnChain(t, h, j, n);
        AcceptMain(t, c, n);
      }
    }
    KeepsTip(t, v, j);
  }

  lemma AcceptChainOf(t: Tree, c: Commitment, j: nat)
    requires Shape(t) && Chains(t) && Publishable(t, c) && j < |t.chains| && ChainFor(t, c) != Some(j)
    ensures j < |Accept(t, c).chains| && Accept(t, c).chains[j] == t.chains[j]
    ensures forall n :: OnChain(Accept(t, c), n, j) ==> OnChain(t, n, j)
  {
    hide MainPath, AddAll;
    RegisterKeepsShape(t, c);
    RegisterChains(t, c);
    assert ChainAt(t, c.prev);
  }

  lemma AcceptMain(t: Tree, c: Commitment, n: Id)
    requires Shape(t) && Chains(t) && Publishable(t, c) && n in t.nodes
    requires n == c.prev ==> Forks(t, c)
    ensures n in Accept(t, c).nodes && MainChild(Accept(t, c), n) == MainChild(t, n)
  {
    hide Accept;
    AcceptLinks(t, c, n);
    assert ShapeAt(t, c.prev) && ShapeAt(t, c.id);
  }

  lemma SpreadKeepsTip(v: Tree, c: Id, a: Id)
    requires Shape(v) && a in v.nodes
    ensures Shape(PropagateSolidity(v, c)) && Tip(PropagateSolidity(v, c), a) == Tip(v, a)
  {
    var w := PropagateSolidity(v, c);
    forall n | n in w.nodes ensures ShapeAt(w, n) { assert ShapeAt(v, n); }
    PathFrame(v, w, a);
  }

  lemma AcceptOwn(t: Tree, c: Commitment)
    requires TreeInv(t) && TipsKnownBut(t, None) && Publishable(t, c) && ChainFor(t, c).Some?
    requires JoinsOther(t, c)
    ensures Shape(Accept(t, c)) && UpToTip(Accept(t, c), ChainFor(t, c).value)
  {
    var u, v, k := Register(t, c), Accept(t, c), ChainFor(t, c).value;
    assert Shape(v) && Chains(v) by { AcceptKeepsTree(t, c); }
    assert ChainAt(t, c.prev);
    RegisterKeepsShape(t, c);
    RegisterLatest(t, c);
    PropagateLatest(u, c.id);
    var w := PropagateChain(u, c.id);
    SpreadKeepsTip(w, c.id, c.id);
    assert v.chains[k].latest == Tip(v, c.id).slot && OnChain(v, c.id, k) by { hide Tip; NewOnChain(t, c); }
    ClimbToHead(v, c.id, k);
    SameTip(v, v.chains[k].forkingPoint, c.id);
  }

  lemma NewOnChain(t: Tree, c: Commitment)
    requires Shape(t) && Chains(t) && Publishable(t, c) && ChainFor(t, c).Some?
    ensures OnChain(Accept(t, c), c.id, ChainFor(t, c).value)
  {
    RegisterKeepsShape(t, c);
    RegisterChains(t, c);
  }

  /** Accepting a commitment keeps all chains up to their tips. */
  lemma AcceptKeepsTips(t: Tree, c: Commitment)
    requires TreeInv(t) && TipsKnownBut(t, None) && Publishable(t, c)
    ensures TipsKnownBut(Accept(t, c), None)
  {
    AcceptKeepsTree(t, c);
    AcceptKeys(t, c);
    var v := Accept(t, c);
    hide Accept, UpToTip;
    forall k: nat | k < |v.chains| && v.chains[k].forkingPoint != v.origin ensures UpToTip(v, k) {
      if ChainFor(t, c) == Some(k) {
        if !Forks(t, c) {
          AcceptHead(t, c);
        }
        AcceptOwn(t, c);
      } else {
        AcceptLength(t, c);
        AcceptChainOf(t, c, k);
        assert UpToTip(t, k);
        AcceptOther(t, c, k);
      }
    }
  }

  lemma AcceptHead(t: Tree, c: Commitment)
    requires Shape(t) && Chains(t) && Publishable(t, c) && ChainFor(t, c).Some? && !Forks(t, c)
    ensures var k := ChainFor(t, c).value; k < |t.chains| && k < |Accept(t, c).chains| && Accept(t, c).chains[k].forkingPoint == t.chains[k].forkingPoint
  {
    RegisterKeepsShape(t, c);
    RegisterChains(t, c);
    assert ChainAt(t, c.prev);
    var u, k := Register(t, c), ChainFor(t, c).value;
    if MainChild(u, c.id).Some? {
      MainChildIsNext(u, c.id);
      AddAllHead(u.chains[k], MainPath(u, MainChild(u, c.id).value));
    }
  }

  lemma AcceptLength(t: Tree, c: Commitment)
    requires Shape(t) && Chains(t) && Publishable(t, c)
    ensures |Accept(t, c).chains| == |t.chains| + if Forks(t, c) then 1 else 0
  {
    RegisterKeepsShape(t, c);
    RegisterChains(t, c);
    assert ChainAt(t, c.prev);
  }

  // ----- Switches -----

  lemma {:induction false} DescendUpTo(t: Tree, a: Id, k: nat, n: Id)
    requires Shape(t) && ChainsUpTo(t, n.slot) && OnChain(t, a, k) && n in MainPath(t, a)
    ensures OnChain(t, n, k)
    decreases n.slot
  {
    if n != a {
      PathUp(t, a, n);
      assert ShapeAt(t, n) && ChainAt(t, n);
      DescendUpTo(t, a, k, Prev(t, n));
    }
  }

  lemma StepMain(t: Tree, fp: Id, main: nat, n: Id)
    requires Shape(t) && Promotable(t, fp) && main < |t.chains| && n in t.nodes && n != Prev(t, fp)
    ensures n in SwitchStep(t, fp, main).nodes && MainChild(SwitchStep(t, fp, main), n) == MainChild(t, n)
  {
    SwitchStepFrame(t, fp, main);
    hide SwitchStep;
    assert SwitchStep(t, fp, main).nodes[n].(chain := None) == t.nodes[n].(chain := None);
  }

  lemma StepChains(t: Tree, fp: Id, main: nat)
    requires Shape(t) && Promotable(t, fp) && main < |t.chains|
    ensures var w := SwitchStep(t, fp, main);
            |w.chains| == |t.chains| + 1 && forall k :: 0 <= k < |t.chains| && k != main ==> w.chains[k] == t.chains[k]
  {
  }

  /** A chain that a round does not touch is up to its tip as before. */
  lemma StepOther(t: Tree, fp: Id, main: nat, k: nat)
    requires Shape(t) && Promotable(t, fp) && main < |t.chains| && ChainsUpTo(t, fp.slot)
    requires k < |t.chains| && k != main && !OnChain(t, Prev(t, fp), k) && UpToTip(t, k)
    ensures Shape(SwitchStep(t, fp, main)) && UpToTip(SwitchStep(t, fp, main), k)
  {
    var w, h, p := SwitchStep(t, fp, main), t.chains[k].forkingPoint, Prev(t, fp);
    assert ShapeAt(t, fp);
    SwitchStepFrame(t, fp, main);
    StepChains(t, fp, main);
    if Live(w, k) {
      StepChainOf(t, fp, main, h);
      forall n | n in MainPath(t, h) ensures n in w.nodes && MainChild(w, n) == MainChild(t, n) {
        if n == p {
          DescendUpTo(t, h, k, p);
        }
        StepMain(t, fp, main, n);
      }
    }
    KeepsTip(t, w, k);
  }

  /** The fresh chain of the displaced branch is up to its tip. */
  lemma StepFresh(t: Tree, fp: Id, main: nat)
    requires Shape(t) && Promotable(t, fp) && main < |t.chains|
    ensures Shape(SwitchStep(t, fp, main)) && UpToTip(SwitchStep(t, fp, main), |t.chains|)
  {
    RelinkKeepsShape(t, fp);
    DisplaceFrame(t, fp);
    SwitchStepFrame(t, fp, main);
    var u, m, w := Relink(t, fp), Displaced(t, fp), SwitchStep(t, fp, main);
    var path := MainPath(u, m);
    assert u.chains[|t.chains|] == NewChain(m);
    AddAllLatest(NewChain(m), path);
    AddAllHead(NewChain(m), path);
    assert w.chains[|t.chains|] == Displace(t, fp).chains[|t.chains|] == AddAll(NewChain(m), path);
    forall n | n in u.nodes && n.slot >= m.slot ensures MainChild(w, n) == MainChild(u, n) {
      assert w.nodes[n].(chain := None) == u.nodes[n].(chain := None);
    }
    PathFrame(u, w, m);
  }

  /** A round leaves all chains up to their tips, except for the one of the forking point's parent. */
  lemma StepTips(t: Tree, fp: Id, main: nat, e: Option<Id>)
    requires RoundReady(t, fp, main, e) && Attached(t, fp) && TipsKnownBut(t, t.nodes[fp].chain)
    ensures Promotable(t, fp) && Prev(t, fp) in t.nodes && TipsKnownBut(SwitchStep(t, fp, main), t.nodes[Prev(t, fp)].chain)
  {
    ReadyParent(t, fp, main, e);
    SwitchStepFrame(t, fp, main);
    SwitchStepHead(t, fp, main);
    StepChains(t, fp, main);
    StepEvolves(t, fp, main);
    var w := SwitchStep(t, fp, main);
    hide SwitchStep, Evolved, UpToTip;
    forall k: nat | k < |w.chains| && w.chains[k].forkingPoint != w.origin && t.nodes[Prev(t, fp)].chain != Some(k) ensures UpToTip(w, k) {
      StepTip(t, fp, main, e, k);
    }
  }

  lemma StepTip(t: Tree, fp: Id, main: nat, e: Option<Id>, k: nat)
    requires RoundReady(t, fp, main, e) && Attached(t, fp) && TipsKnownBut(t, t.nodes[fp].chain)
    requires Promotable(t, fp) && ChainsUpTo(t, fp.slot) && Prev(t, fp) in t.nodes && t.nodes[Prev(t, fp)].chain != Some(k)
    requires Shape(SwitchStep(t, fp, main)) && OnChain(SwitchStep(t, fp, main), fp, main)
    requires var w := SwitchStep(t, fp, main);
             && w.origin == t.origin && |w.chains| == |t.chains| + 1 && k < |w.chains| && w.chains[k].forkingPoint != w.origin
             && forall j :: 0 <= j < |t.chains| ==> w.chains[j].forkingPoint == t.chains[j].forkingPoint
    ensures UpToTip(SwitchStep(t, fp, main), k)
  {
    if k == |t.chains| {
      StepFresh(t, fp, main);
    } else if t.nodes[fp].chain == Some(k) {
      assert !Live(SwitchStep(t, fp, main), k);
    } else {
      assert k != main;
      assert UpToTip(t, k);
      StepOther(t, fp, main, k);
    }
  }

  lemma {:induction false} RoundsTips(t: Tree, fp: Id, main: nat, e: Option<Id>)
    requires RoundReady(t, fp, main, e) && Rounds(t, fp, main, e).Done? && TipsKnownBut(t, t.nodes[fp].chain)
    ensures TipsKnownBut(Rounds(t, fp, main, e).tree, None)
    decreases fp.slot
  {
    ReadyParent(t, fp, main, e);
    StepTips(t, fp, main, e);
    var w, p := SwitchStep(t, fp, main), Prev(t, fp);
    if OnChain(t, p, main) {
      LastRoundChains(t, fp, main, e);
      MainTip(w, main);
    } else {
      ReadyNext(t, fp, main, e);
      StepSameUpTo(t, fp, main);
      RoundsTips(w, NextForkingPoint(w, p), main, Some(fp));
    }
  }

  /** The main chain makes no difference. */
  lemma MainTip(w: Tree, main: nat)
    requires TipsKnownBut(w, Some(main)) && Chains(w) && OnChain(w, w.origin, main)
    ensures TipsKnownBut(w, None)
  {
  }

  lemma DetachKeepsTips(w: Tree, p: Id, m: Id)
    requires TipsKnownBut(w, None) && p in w.nodes && MainChild(w, p) != Some(m) && Shape(Detach(w, p, m))
    ensures TipsKnownBut(Detach(w, p, m), None)
  {
    SameLinksKeepTips(w, Detach(w, p, m));
  }

  lemma SwitchKeepsTips(s: State, x: Id)
    requires Inv(s) && x in s.tree.nodes && SwitchTo(s, x).error.None? && TipsKnownBut(s.tree, None)
    ensures TipsKnownBut(SwitchTo(s, x).state.tree, None)
  {
    hide Rounds, Jumps, TipsKnownBut, RoundReady;
    if Moves(s, x) {
      FirstRoundTips(s, x);
      SwitchKeepsTree(s, x);
      SwitchDetaches(s, x);
      var p := Prev(s.tree, LeavesAt(s, x));
      DetachKeepsTips(AllRounds(s, x).tree, p, MainChild(s.tree, p).value);
    }
  }

  lemma FirstRoundTips(s: State, x: Id)
    requires Inv(s) && x in s.tree.nodes && Moves(s, x) && AllRounds(s, x).Done? && TipsKnownBut(s.tree, None)
    ensures TipsKnownBut(AllRounds(s, x).tree, None)
  {
    hide Rounds, Jumps;
    FirstRoundReady(s, x);
    RoundsTips(s.tree, JumpsToMain(s, x).value[0], Main(s), None);
  }

  // ----- Runs -----

  lemma ProcessKeepsTips(s: State, c: Commitment)
    requires Inv(s) && WellFormed(c) && TipsKnownBut(s.tree, None)
    ensures TipsKnownBut(Process(s, c).state.tree, None)
  {
    if Some(c) != s.tree.nodes[s.root].commitment && c.id.slot > s.root.slot {
      LoadKeepsInv(s, c.prev);
      GetOrCreateKeeps(s, c.prev);
      var s1 := LoadOrRequest(s, c.prev);
      SameLinksKeepTips(s.tree, s1.tree);
      GetOrCreateKeeps(s1, c.id);
      var s2 := GetOrCreate(s1, c.id);
      SameLinksKeepTips(s1.tree, s2.tree);
      if !Published(s2.tree, c.id) {
        AcceptKeepsTips(s2.tree, c);
      }
    }
  }

  lemma OrderlyKeepsTips(s: State, x: Id)
    requires Inv(s) && x in s.tree.nodes && Orderly(s, x) && TipsKnownBut(s.tree, None)
    ensures TipsKnownBut(SwitchTo(s, x).state.tree, None)
  {
    if SwitchTo(s, x).error.None? {
      SwitchKeepsTips(s, x);
    } else {
      RefusedSwitchBreaksIff(s, x);
    }
  }

  lemma StepKeepsTips(s: State, op: Op)
    requires Inv(s) && Allowed(s, op) && TipsKnownBut(s.tree, None)
    ensures TipsKnownBut(Step(s, op).tree, None)
  {
    hide TipsKnownBut;
    match op
    case Candidate(c) =>
      ProcessKeepsTips(s, c);
    case FromPeer(c, source) =>
      ProcessKeepsTips(s, c);
    case OwnEngine(c) =>
      ProcessKeepsTips(s, c);
      ProcessKeepsInv(s, c);
      ProcessNode(s, c);
      var r := Process(s, c);
      if r.wasForked && r.node.Some? {
        OrderlyKeepsTips(r.state, r.node.value);
      }
    case Load(id) =>
      GetOrCreateKeeps(s, id);
      SameLinksKeepTips(s.tree, GetOrCreate(s, id).tree);
    case Switch(head) =>
      if head in s.stored {
        OrderlyKeepsTips(s, head);
      }
    case MoveRoot(id) =>
    case Evict(index) =>
  }

  lemma {:induction false} RunKeepsTips(s: State, ops: seq<Op>, u: State)
    requires Inv(s) && Reported(s) && Leads(s, ops, u) && TipsKnownBut(s.tree, None)
    ensures Inv(u) && TipsKnownBut(u.tree, None)
    decreases |ops|
  {
    hide Inv, Reported, Allowed, Step, TipsKnownBut;
    if ops == [] {
      ReachableInv(s, ops, u);
    } else {
      StepKeepsInv(s, ops[0]);
      StepKeepsTips(s, ops[0]);
      RunKeepsTips(Step(s, ops[0]), ops[1..], u);
    }
  }

  /** In every state that allowed operations lead to, each chain in use other than the main chain has the tip of its main-child path
      as its latest commitment. */
  lemma {:induction false} ReachableTips(c0: Commitment, ops: seq<Op>, u: State, k: nat)
    requires Leads(Init(c0), ops, u)
    ensures Inv(u) && (Live(u.tree, k) && k != Main(u) ==>
              HasTip(u.tree, k, Tip(u.tree, u.tree.chains[k].forkingPoint)))
  {
    hide Leads, Tip;
    InitInv(c0);
    InitTips(c0);
    RunKeepsTips(Init(c0), ops, u);
    if Live(u.tree, k) && k != Main(u) {
      MainIsOrigins(u);
      assert UpToTip(u.tree, k);
      LatestIsTipIff(u.tree, k);
    }
  }

  predicate HasTip(t: Tree, k: nat, tip: Id) {
    k < |t.chains| && t.chains[k].latest in t.chains[k].index && t.chains[k].index[t.chains[k].latest] == tip
  }

  lemma InitTips(c0: Commitment)
    ensures TipsKnownBut(Init(c0).tree, None)
  {
    InitInv(c0);
  }
}
