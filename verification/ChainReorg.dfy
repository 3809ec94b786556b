/**
 The whole switch: one round per forking point, from the new head down to the
 main chain, and then the old main branch is taken off its parent.
 */
module ChainReorg {
  import opened Options
  import opened ChainState
  import opened ChainStructure
  import opened ChainForks
  import opened ChainProcess
  import opened ChainSwitch

  // ----- The rounds -----

  /** The tree before a round at forking point `fp`. Only the forking point of the round before, `e`,
      is ahead of its parent: it is on the main chain already. */
  ghost predicate RoundReady(t: Tree, fp: Id, main: nat, e: Option<Id>) {
    && Shape(t) && Solidity(t) && ChainsBut(t, e)
    && main < |t.chains| && OnChain(t, t.origin, main)
    && fp in t.nodes && t.nodes[fp].solid && fp != t.origin && HeadsOwnChain(t, fp) && !OnChain(t, fp, main)
    && (e.Some? ==> OnChain(t, e.value, main) && e.value != fp && e.value in MainPath(t, fp))
  }

  datatype Reorg = Done(tree: Tree) | Stuck(tree: Tree)

  lemma ReadyParent(t: Tree, fp: Id, main: nat, e: Option<Id>)
    requires RoundReady(t, fp, main, e)
    ensures Published(t, fp) && Prev(t, fp) in t.nodes && fp.slot == Prev(t, fp).slot + 1 && t.nodes[Prev(t, fp)].solid
    ensures MainChild(t, Prev(t, fp)).Some? && !IsMain(t, fp)
    ensures ChainsUpTo(t, fp.slot) && ChainsInRange(t)
  {
    assert SolidAt(t, fp) && ShapeAt(t, fp);
    assert ShapeAt(t, Prev(t, fp)) && ChainAt(t, fp);
    forall n | n in t.nodes && t.nodes[n].chain.Some? ensures t.nodes[n].chain.value < |t.chains| {
      assert e != Some(n) ==> ChainAt(t, n);
    }
    forall n | n in t.nodes && n.slot <= fp.slot ensures ChainAt(t, n) {
      if e == Some(n) {
        PathAt(t, fp, n);
      }
    }
    if IsMain(t, fp) {
      ClimbToHead(t, Prev(t, fp), t.nodes[fp].chain.value);
    }
  }

  /** The forking point of the next round, below a parent that is not on the main chain. */
  ghost function NextForkingPoint(t: Tree, p: Id): Id
    requires p in t.nodes && t.nodes[p].chain.Some? && t.nodes[p].chain.value < |t.chains|
  {
    t.chains[t.nodes[p].chain.value].forkingPoint
  }

  lemma ReadyNext(t: Tree, fp: Id, main: nat, e: Option<Id>)
    requires RoundReady(t, fp, main, e) && Attached(t, fp) && !OnChain(t, Prev(t, fp), main)
    ensures Promotable(t, fp)
    ensures var w, p := SwitchStep(t, fp, main), Prev(t, fp);
            && p in w.nodes && w.nodes[p].chain.Some? && w.nodes[p].chain.value < |w.chains|
            && NextForkingPoint(w, p).slot < fp.slot
            && RoundReady(w, NextForkingPoint(w, p), main, Some(fp))
  {
    ReadyParent(t, fp, main, e);
    SwitchStepFrame(t, fp, main);
    SwitchStepChains(t, fp, main, e);
    SwitchStepHead(t, fp, main);
    SwitchStepSolidity(t, fp, main);
    var w, p := SwitchStep(t, fp, main), Prev(t, fp);
    assert ChainsUpTo(w, p.slot);
    assert Relink(t, fp).nodes[p].chain == t.nodes[p].chain;
    assert SolidAt(w, p) && SolidAt(w, fp);
    SolidForkingPoint(w, p, main);
    PathDown(w, NextForkingPoint(w, p), p);
  }

  /** All rounds from forking point `fp` on; stuck at one that is no longer registered with its parent. */
  ghost function Rounds(t: Tree, fp: Id, main: nat, e: Option<Id>): Reorg
    requires RoundReady(t, fp, main, e)
    decreases fp.slot
  {
    ReadyParent(t, fp, main, e);
    if !Attached(t, fp) then Stuck(t)
    else
      var w, p := SwitchStep(t, fp, main), Prev(t, fp);
      if OnChain(t, p, main) then Done(w)
      else
        ReadyNext(t, fp, main, e);
        Rounds(w, NextForkingPoint(w, p), main, Some(fp))
  }

  // ----- What all rounds together change -----

  /** From `t` to `w` only main children and chains changed, and a node that changed chains is now
      on the main chain or on a chain created since. */
  ghost predicate Evolved(t: Tree, w: Tree, main: nat) {
    && w.origin == t.origin && w.nodes.Keys == t.nodes.Keys && |t.chains| <= |w.chains|
    && (forall k :: 0 <= k < |t.chains| ==> w.chains[k].forkingPoint == t.chains[k].forkingPoint)
    && (forall n :: n in t.nodes ==>
          w.nodes[n].(mainChildId := None, chain := None) == t.nodes[n].(mainChildId := None, chain := None))
    && (forall n :: n in t.nodes ==>
          || w.nodes[n].chain == t.nodes[n].chain || w.nodes[n].chain == Some(main)
          || (w.nodes[n].chain.Some? && w.nodes[n].chain.value >= |t.chains|))
  }

  lemma StepChainOf(t: Tree, fp: Id, main: nat, n: Id)
    requires Shape(t) && Promotable(t, fp) && main < |t.chains| && n in t.nodes
    ensures var c := SwitchStep(t, fp, main).nodes[n].chain; c == t.nodes[n].chain || c == Some(main) || c == Some(|t.chains|)
  {
  }

  lemma StepEvolves(t: Tree, fp: Id, main: nat)
    requires Shape(t) && Promotable(t, fp) && main < |t.chains|
    ensures Evolved(t, SwitchStep(t, fp, main), main)
  {
    hide SwitchStep;
    SwitchStepFrame(t, fp, main);
    var u, w := Relink(t, fp), SwitchStep(t, fp, main);
    forall n | n in t.nodes ensures w.nodes[n].(mainChildId := None, chain := None) == t.nodes[n].(mainChildId := None, chain := None) {
      assert w.nodes[n].(chain := None) == u.nodes[n].(chain := None);
    }
    forall n | n in t.nodes
      ensures || w.nodes[n].chain == t.nodes[n].chain || w.nodes[n].chain == Some(main)
              || (w.nodes[n].chain.Some? && w.nodes[n].chain.value >= |t.chains|)
    {
      StepChainOf(t, fp, main, n);
    }
    forall k | 0 <= k < |t.chains| ensures w.chains[k].forkingPoint == t.chains[k].forkingPoint {
      assert u.chains[k] == t.chains[k];
    }
  }

  lemma EvolvedTransitive(t: Tree, u: Tree, w: Tree, main: nat)
    requires Evolved(t, u, main) && Evolved(u, w, main)
    ensures Evolved(t, w, main)
  {
    forall n | n in t.nodes ensures w.nodes[n].(mainChildId := None, chain := None) == t.nodes[n].(mainChildId := None, chain := None) {
      assert u.nodes[n].(mainChildId := None, chain := None) == t.nodes[n].(mainChildId := None, chain := None);
    }
    forall k | 0 <= k < |t.chains| ensures w.chains[k].forkingPoint == t.chains[k].forkingPoint {
      assert u.chains[k].forkingPoint == t.chains[k].forkingPoint;
    }
  }

  lemma {:induction false} RoundsEvolve(t: Tree, fp: Id, main: nat, e: Option<Id>)
    requires RoundReady(t, fp, main, e)
    ensures Evolved(t, Rounds(t, fp, main, e).tree, main)
    decreases fp.slot
  {
    ReadyParent(t, fp, main, e);
    if Attached(t, fp) {
      StepEvolves(t, fp, main);
      if !OnChain(t, Prev(t, fp), main) {
        ReadyNext(t, fp, main, e);
        var w := SwitchStep(t, fp, main);
        RoundsEvolve(w, NextForkingPoint(w, Prev(t, fp)), main, Some(fp));
        EvolvedTransitive(t, w, Rounds(t, fp, main, e).tree, main);
      }
    }
  }

  // ----- The state after the last round -----

  lemma LastRoundChains(t: Tree, fp: Id, main: nat, e: Option<Id>)
    requires RoundReady(t, fp, main, e) && Attached(t, fp) && OnChain(t, Prev(t, fp), main)
    ensures Promotable(t, fp)
    ensures var w := SwitchStep(t, fp, main); Shape(w) && Chains(w) && Solidity(w) && OnChain(w, w.origin, main)
  {
    ReadyParent(t, fp, main, e);
    SwitchStepFrame(t, fp, main);
    SwitchStepChains(t, fp, main, e);
    SwitchStepHead(t, fp, main);
    SwitchStepSolidity(t, fp, main);
    var w := SwitchStep(t, fp, main);
    assert Relink(t, fp).nodes[Prev(t, fp)].chain == t.nodes[Prev(t, fp)].chain;
    forall n | n in w.nodes ensures ChainAt(w, n) {
      assert n != fp ==> ChainAt(w, n);
    }
  }

  /** The walk from the forking point is the same before and after its round. */
  lemma {:induction false} StepPathStays(t: Tree, fp: Id, main: nat)
    requires Shape(t) && Promotable(t, fp) && main < |t.chains|
    ensures Shape(SwitchStep(t, fp, main)) && fp in SwitchStep(t, fp, main).nodes
    ensures MainPath(SwitchStep(t, fp, main), fp) == MainPath(t, fp)
  {
    SwitchStepFrame(t, fp, main);
    var u, w := Relink(t, fp), SwitchStep(t, fp, main);
    assert ShapeAt(t, fp);
    forall n | n in t.nodes && n.slot >= fp.slot ensures MainChild(w, n) == MainChild(t, n) {
      assert n != Prev(t, fp);
      assert w.nodes[n].(chain := None) == u.nodes[n].(chain := None);
    }
    PathFrame(t, w, fp);
  }

  lemma LastRoundIndex(t: Tree, fp: Id, main: nat, e: Option<Id>)
    requires RoundReady(t, fp, main, e) && Attached(t, fp) && OnChain(t, Prev(t, fp), main) && IndexedBut(t, main, fp.slot)
    ensures Promotable(t, fp) && Indexed(SwitchStep(t, fp, main))
  {
    ReadyParent(t, fp, main, e);
    LastRoundChains(t, fp, main, e);
    SwitchStepIndex(t, fp, main);
    SwitchStepHead(t, fp, main);
    StepPathStays(t, fp, main);
    var w := SwitchStep(t, fp, main);
    forall n | n in w.nodes ensures IndexedAt(w, n) {
      if OnChain(w, n, main) && n.slot >= fp.slot {
        SameChainSamePath(w, fp, n, main);
      }
    }
  }

  /** When the rounds complete, the whole tree is in order again. */
  lemma {:induction false} RoundsRepair(t: Tree, fp: Id, main: nat, e: Option<Id>)
    requires RoundReady(t, fp, main, e) && IndexedBut(t, main, fp.slot) && Rounds(t, fp, main, e).Done?
    ensures var w := Rounds(t, fp, main, e).tree;
            Shape(w) && Chains(w) && Indexed(w) && Solidity(w) && OnChain(w, w.origin, main)
    decreases fp.slot
  {
    ReadyParent(t, fp, main, e);
    if OnChain(t, Prev(t, fp), main) {
      LastRoundChains(t, fp, main, e);
      LastRoundIndex(t, fp, main, e);
    } else {
      ReadyNext(t, fp, main, e);
      SwitchStepIndex(t, fp, main);
      var w := SwitchStep(t, fp, main);
      RoundsRepair(w, NextForkingPoint(w, Prev(t, fp)), main, Some(fp));
    }
  }

  lemma {:induction false} PathJoin(t: Tree, a: Id, b: Id, x: Id)
    requires Shape(t) && a in t.nodes && b in MainPath(t, a) && b in t.nodes && x in MainPath(t, b)
    ensures x in MainPath(t, a)
    decreases x.slot
  {
    if x != b {
      PathUp(t, b, x);
      assert ShapeAt(t, x);
      PathJoin(t, a, b, Prev(t, x));
      PathDown(t, a, Prev(t, x));
    }
  }

  /** When the rounds complete, everything on the walk through the first forking point is on the main chain. */
  lemma {:induction false} RoundsReachHead(t: Tree, fp: Id, main: nat, e: Option<Id>, x: Id)
    requires RoundReady(t, fp, main, e) && Rounds(t, fp, main, e).Done? && x in MainPath(t, fp)
    ensures OnChain(Rounds(t, fp, main, e).tree, x, main)
    decreases fp.slot
  {
    ReadyParent(t, fp, main, e);
    StepPathStays(t, fp, main);
    var w := SwitchStep(t, fp, main);
    if OnChain(t, Prev(t, fp), main) {
      LastRoundChains(t, fp, main, e);
      SwitchStepHead(t, fp, main);
      DescendOnChain(w, fp, main, x);
    } else {
      ReadyNext(t, fp, main, e);
      PathJoin(w, NextForkingPoint(w, Prev(t, fp)), fp, x);
      RoundsReachHead(w, NextForkingPoint(w, Prev(t, fp)), main, Some(fp), x);
    }
  }

  // ----- Rounds and jumps -----

  /** `w` agrees with `t` on contents, solidity and chains up to a slot. */
  ghost predicate SameUpTo(t: Tree, w: Tree, slot: nat) {
    && w.origin == t.origin && w.nodes.Keys == t.nodes.Keys && |t.chains| <= |w.chains|
    && (forall k :: 0 <= k < |t.chains| ==> w.chains[k].forkingPoint == t.chains[k].forkingPoint)
    && (forall n :: n in t.nodes ==> w.nodes[n].commitment == t.nodes[n].commitment && w.nodes[n].solid == t.nodes[n].solid
                                     && w.nodes[n].children == t.nodes[n].children)
    && (forall n :: n in t.nodes && n.slot <= slot ==> w.nodes[n].chain == t.nodes[n].chain)
  }

  lemma MovedAbove(t: Tree, u: Tree, w: Tree, main: nat, slot: nat)
    requires Evolved(t, w, main) && OnlyMoved(u, w, slot + 1)
    requires u.nodes.Keys == t.nodes.Keys && forall n :: n in t.nodes ==> u.nodes[n].chain == t.nodes[n].chain
    ensures SameUpTo(t, w, slot)
  {
    forall n | n in t.nodes ensures w.nodes[n].commitment == t.nodes[n].commitment && w.nodes[n].solid == t.nodes[n].solid
                                    && w.nodes[n].children == t.nodes[n].children {
      assert w.nodes[n].(mainChildId := None, chain := None) == t.nodes[n].(mainChildId := None, chain := None);
    }
  }

  lemma StepSameUpTo(t: Tree, fp: Id, main: nat)
    requires Shape(t) && Promotable(t, fp) && main < |t.chains|
    ensures fp.slot > 0 && SameUpTo(t, SwitchStep(t, fp, main), fp.slot - 1)
  {
    hide SwitchStep, SameUpTo, Evolved, OnlyMoved;
    assert ShapeAt(t, fp);
    SwitchStepFrame(t, fp, main);
    StepEvolves(t, fp, main);
    MovedAbove(t, Relink(t, fp), SwitchStep(t, fp, main), main, fp.slot - 1);
  }

  lemma {:induction false} JumpsFrame(t: Tree, w: Tree, stored: set<Id>, main: nat, x: Id)
    requires Shape(t) && Solidity(t) && ChainsUpTo(t, x.slot) && OnChain(t, t.origin, main)
    requires Shape(w) && Solidity(w) && ChainsUpTo(w, x.slot) && OnChain(w, w.origin, main)
    requires x in t.nodes && t.nodes[x].solid && SameUpTo(t, w, x.slot)
    ensures w.nodes[x].solid && Jumps(w, stored, main, x) == Jumps(t, stored, main, x)
    decreases x.slot
  {
    if !OnChain(t, x, main) {
      SolidForkingPoint(t, x, main);
      var fp := t.chains[t.nodes[x].chain.value].forkingPoint;
      JumpsFrame(t, w, stored, main, Prev(t, fp));
    }
  }

  lemma {:induction false} ReadyJumps(t: Tree, fp: Id, main: nat, e: Option<Id>, stored: set<Id>)
    requires RoundReady(t, fp, main, e)
    ensures ChainsUpTo(t, fp.slot) && Published(t, fp) && Prev(t, fp) in t.nodes && t.nodes[Prev(t, fp)].solid
    ensures ChainsUpTo(t, Prev(t, fp).slot)
    ensures Jumps(t, stored, main, fp) ==
            if Prev(t, fp) !in stored || Jumps(t, stored, main, Prev(t, fp)).None? then None
            else Some([fp] + Jumps(t, stored, main, Prev(t, fp)).value)
  {
    ReadyParent(t, fp, main, e);
    SolidForkingPoint(t, fp, main);
  }

  ghost predicate AllAttached(t: Tree, fps: seq<Id>) {
    forall f :: f in fps ==> Attached(t, f)
  }

  /** After a round, the remaining jumps are the ones the walk had found below it. */
  lemma {:induction false} NextJumps(t: Tree, fp: Id, main: nat, e: Option<Id>, stored: set<Id>)
    requires RoundReady(t, fp, main, e) && Attached(t, fp) && !OnChain(t, Prev(t, fp), main)
    requires Promotable(t, fp) && ChainsUpTo(t, fp.slot) && Jumps(t, stored, main, fp).Some?
    requires var w, p := SwitchStep(t, fp, main), Prev(t, fp);
             && p in w.nodes && w.nodes[p].chain.Some? && w.nodes[p].chain.value < |w.chains|
             && RoundReady(w, NextForkingPoint(w, p), main, Some(fp))
    ensures var w := SwitchStep(t, fp, main); var fp2 := NextForkingPoint(w, Prev(t, fp));
            && ChainsUpTo(w, fp2.slot) && Jumps(w, stored, main, fp2).Some?
            && Jumps(t, stored, main, fp).value == [fp] + Jumps(w, stored, main, fp2).value
  {
    var w, p := SwitchStep(t, fp, main), Prev(t, fp);
    ReadyJumps(t, fp, main, e, stored);
    StepSameUpTo(t, fp, main);
    assert ShapeAt(t, fp);
    assert ChainsUpTo(w, p.slot);
    JumpsFrame(t, w, stored, main, p);
    SolidForkingPoint(w, p, main);
    ReadyJumps(w, NextForkingPoint(w, p), main, Some(fp), stored);
  }

  lemma StepAttached(t: Tree, fp: Id, main: nat, rest: seq<Id>)
    requires Shape(t) && Promotable(t, fp) && main < |t.chains|
    ensures AllAttached(t, [fp] + rest) <==> AllAttached(SwitchStep(t, fp, main), rest)
  {
    StepSameUpTo(t, fp, main);
    var w := SwitchStep(t, fp, main);
    assert forall f :: Attached(w, f) <==> Attached(t, f);
    assert forall f :: f in [fp] + rest <==> f == fp || f in rest;
  }

  /** The rounds complete exactly when every forking point on the way is still registered with its parent. */
  lemma {:induction false} RoundsFollowJumps(t: Tree, fp: Id, main: nat, e: Option<Id>, stored: set<Id>)
    requires RoundReady(t, fp, main, e) && ChainsUpTo(t, fp.slot) && Jumps(t, stored, main, fp).Some?
    ensures Rounds(t, fp, main, e).Done? <==> AllAttached(t, Jumps(t, stored, main, fp).value)
    decreases fp.slot
  {
    ReadyParent(t, fp, main, e);
    var p := Prev(t, fp);
    if !Attached(t, fp) || OnChain(t, p, main) {
      ReadyJumps(t, fp, main, e, stored);
      assert Jumps(t, stored, main, fp).value[0] == fp;
    } else {
      ReadyNext(t, fp, main, e);
      var w := SwitchStep(t, fp, main);
      NextJumps(t, fp, main, e, stored);
      RoundsFollowJumps(w, NextForkingPoint(w, p), main, Some(fp), stored);
      StepAttached(t, fp, main, Jumps(w, stored, main, NextForkingPoint(w, p)).value);
    }
  }

  lemma SameUpToTransitive(t: Tree, u: Tree, w: Tree, a: nat, b: nat)
    requires SameUpTo(t, u, a) && SameUpTo(u, w, b) && b <= a
    ensures SameUpTo(t, w, b)
  {
    forall k | 0 <= k < |t.chains| ensures w.chains[k].forkingPoint == t.chains[k].forkingPoint {
      assert u.chains[k].forkingPoint == t.chains[k].forkingPoint;
    }
  }

  /** From `t` to `w` nothing changed below `d`, which is now on the main chain as the main child of its parent. */
  ghost predicate EndsAt(t: Tree, w: Tree, main: nat, d: Id) {
    0 < d.slot && IsMain(w, d) && OnChain(w, d, main) && SameUpTo(t, w, d.slot - 1)
  }

  lemma LastRoundEnds(t: Tree, fp: Id, main: nat)
    requires Shape(t) && Promotable(t, fp) && main < |t.chains|
    ensures EndsAt(t, SwitchStep(t, fp, main), main, fp)
  {
    StepSameUpTo(t, fp, main);
    SwitchStepHead(t, fp, main);
  }

  lemma EarlierRoundEnds(t: Tree, fp: Id, main: nat, w: Tree, d: Id)
    requires Shape(t) && Promotable(t, fp) && main < |t.chains| && d.slot < fp.slot
    requires EndsAt(SwitchStep(t, fp, main), w, main, d)
    ensures EndsAt(t, w, main, d)
  {
    StepSameUpTo(t, fp, main);
    SameUpToTransitive(t, SwitchStep(t, fp, main), w, fp.slot - 1, d.slot - 1);
  }

  /** Completed rounds leave everything below the last forking point alone, and put that one on the
      main chain as the main child of its parent. */
  lemma {:induction false} RoundsEnd(t: Tree, fp: Id, main: nat, e: Option<Id>, stored: set<Id>)
    requires RoundReady(t, fp, main, e) && ChainsUpTo(t, fp.slot) && Jumps(t, stored, main, fp).Some?
    requires Rounds(t, fp, main, e).Done?
    ensures var fps := Jumps(t, stored, main, fp).value;
            |fps| > 0 && fps[|fps| - 1].slot <= fp.slot && EndsAt(t, Rounds(t, fp, main, e).tree, main, fps[|fps| - 1])
    decreases fp.slot
  {
    hide SwitchStep, EndsAt;
    ReadyParent(t, fp, main, e);
    var w, p := SwitchStep(t, fp, main), Prev(t, fp);
    if OnChain(t, p, main) {
      ReadyJumps(t, fp, main, e, stored);
      LastRoundEnds(t, fp, main);
    } else {
      ReadyNext(t, fp, main, e);
      NextJumps(t, fp, main, e, stored);
      var fp2 := NextForkingPoint(w, p);
      RoundsEnd(w, fp2, main, Some(fp), stored);
      var rest := Jumps(w, stored, main, fp2).value;
      EarlierRoundEnds(t, fp, main, Rounds(t, fp, main, e).tree, rest[|rest| - 1]);
    }
  }

  /** Between two rounds the chains are not in order. */
  lemma ReadyIsBroken(t: Tree, fp: Id, main: nat, e: Option<Id>)
    requires RoundReady(t, fp, main, e) && e.Some?
    ensures !Chains(t)
  {
    if Chains(t) {
      DescendOnChain(t, fp, t.nodes[fp].chain.value, e.value);
    }
  }

  /** Getting stuck after the first round leaves the chains out of order. */
  lemma {:induction false} StuckIsBroken(t: Tree, fp: Id, main: nat, e: Option<Id>)
    requires RoundReady(t, fp, main, e) && Rounds(t, fp, main, e).Stuck?
    ensures if Attached(t, fp) then !Chains(Rounds(t, fp, main, e).tree) else Rounds(t, fp, main, e).tree == t
    decreases fp.slot
  {
    ReadyParent(t, fp, main, e);
    if Attached(t, fp) {
      ReadyNext(t, fp, main, e);
      var w := SwitchStep(t, fp, main);
      var fp2 := NextForkingPoint(w, Prev(t, fp));
      StuckIsBroken(w, fp2, main, Some(fp));
      ReadyIsBroken(w, fp2, main, Some(fp));
    }
  }

  /** Everything the rounds achieve when they complete. */
  lemma {:induction false} RoundsComplete(t: Tree, fp: Id, main: nat, stored: set<Id>, x: Id)
    requires RoundReady(t, fp, main, None) && IndexedBut(t, main, fp.slot) && ChainsUpTo(t, fp.slot)
    requires Jumps(t, stored, main, fp).Some? && x in MainPath(t, fp) && Rounds(t, fp, main, None).Done?
    ensures var fps, w := Jumps(t, stored, main, fp).value, Rounds(t, fp, main, None).tree;
            && Shape(w) && Chains(w) && Indexed(w) && Solidity(w)
            && Evolved(t, w, main) && OnChain(w, x, main) && OnChain(w, w.origin, main)
            && |fps| > 0 && EndsAt(t, w, main, fps[|fps| - 1])
  {
    RoundsRepair(t, fp, main, None);
    RoundsEvolve(t, fp, main, None);
    RoundsReachHead(t, fp, main, None, x);
    RoundsEnd(t, fp, main, None, stored);
  }

  // ----- Separating the old main branch -----

  lemma EndsParent(t: Tree, w: Tree, main: nat, d: Id)
    requires EndsAt(t, w, main, d) && Published(t, d) && Prev(t, d) in t.nodes && MainChild(t, Prev(t, d)).Some?
    ensures var p := Prev(t, d);
            && p in w.nodes && w.nodes[p].solid == t.nodes[p].solid && MainChild(w, p) == Some(d)
            && MainChild(t, p).value in w.nodes[p].children
  {
    assert w.nodes[d].commitment == t.nodes[d].commitment;
  }

  function Detach(t: Tree, p: Id, m: Id): Tree
    requires p in t.nodes
  {
    t.(nodes := t.nodes[p := t.nodes[p].(children := t.nodes[p].children - {m})])
  }

  lemma DetachKeepsTree(t: Tree, p: Id, m: Id)
    requires Shape(t) && Chains(t) && Indexed(t) && Solidity(t)
    requires p in t.nodes && t.nodes[p].solid && m in t.nodes[p].children && MainChild(t, p) != Some(m)
    ensures var u := Detach(t, p, m); Shape(u) && Chains(u) && Indexed(u) && Solidity(u) && !Attached(u, m)
  {
    var u := Detach(t, p, m);
    assert ShapeAt(t, p) && ShapeAt(t, m);
    DetachKeepsShape(t, p, m);
    forall n | n in u.nodes ensures ChainAt(u, n) && IndexedAt(u, n) && SolidAt(u, n) {
      assert ShapeAt(t, n) && ChainAt(t, n) && IndexedAt(t, n) && SolidAt(t, n);
      assert IsMain(u, n) == IsMain(t, n);
    }
    forall k | 0 <= k < |u.chains| ensures IndexOk(u, u.chains[k]) {
      assert IndexOk(t, t.chains[k]);
    }
  }

  lemma DetachKeepsShape(t: Tree, p: Id, m: Id)
    requires Shape(t) && p in t.nodes && MainChild(t, p) != Some(m) && m in t.nodes[p].children
    ensures Shape(Detach(t, p, m))
  {
    var u := Detach(t, p, m);
    assert ShapeAt(t, p);
    assert MainChild(t, p).value in u.nodes[p].children;
    forall n | n in u.nodes ensures ShapeAt(u, n) {
      assert ShapeAt(t, n);
    }
  }
}
