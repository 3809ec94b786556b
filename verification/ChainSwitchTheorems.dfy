/**
 What switching the main chain promises, for every reachable state and head.
 */
module ChainSwitchTheorems {
  import opened Options
  import opened ChainState
  import opened ChainStructure
  import opened ChainForks
  import opened ChainReorg
  import opened ChainOps

  /** `n` carries the same contents, solidity and chain in both trees. */
  ghost predicate SameNode(t: Tree, u: Tree, n: Id) {
    && n in t.nodes && n in u.nodes && u.nodes[n].commitment == t.nodes[n].commitment && u.nodes[n].solid == t.nodes[n].solid
    && u.nodes[n].chain == t.nodes[n].chain
  }

  lemma DetachedNode(w: Tree, p: Id, m: Id, n: Id)
    requires p in w.nodes && n in w.nodes
    ensures SameNode(w, Detach(w, p, m), n)
  {
  }

  /** The state after a switch that moves something, node by node against the tree after its rounds. */
  lemma SwitchNode(s: State, x: Id, n: Id)
    requires Inv(s) && x in s.tree.nodes && Moves(s, x) && SwitchTo(s, x).error.None? && n in s.tree.nodes
    ensures AllRounds(s, x).Done? && SameNode(AllRounds(s, x).tree, SwitchTo(s, x).state.tree, n)
    ensures SwitchTo(s, x).state.tree.origin == s.tree.origin && SwitchTo(s, x).state.tree.chains == AllRounds(s, x).tree.chains
  {
    SwitchDetaches(s, x);
    assert n in AllRounds(s, x).tree.nodes && AllRounds(s, x).tree.origin == s.tree.origin by { AllRoundsComplete(s, x); }
    var p := Prev(s.tree, LeavesAt(s, x));
    DetachedNode(AllRounds(s, x).tree, p, MainChild(s.tree, p).value, n);
  }

  /** No commitment's contents or solidity change and none is left without a chain, whatever the outcome of the switch. */
  lemma SwitchKeepsSolidity(s: State, x: Id, n: Id)
    requires Inv(s) && x in s.tree.nodes && n in s.tree.nodes
    ensures var u := SwitchTo(s, x).state.tree;
            && n in u.nodes && u.nodes[n].solid == s.tree.nodes[n].solid && u.nodes[n].commitment == s.tree.nodes[n].commitment
            && (s.tree.nodes[n].chain.Some? ==> u.nodes[n].chain.Some?)
  {
    if Moves(s, x) {
      FirstRoundReady(s, x);
      RoundsEvolve(s.tree, JumpsToMain(s, x).value[0], Main(s), None);
      var w := AllRounds(s, x).tree;
      assert w.nodes[n].(mainChildId := None, chain := None) == s.tree.nodes[n].(mainChildId := None, chain := None);
      if AllRounds(s, x).Done? {
        SwitchNode(s, x, n);
      }
    }
  }

  /** After a successful switch the head is on the main chain. */
  lemma SwitchReachesHead(s: State, x: Id)
    requires Inv(s) && x in s.tree.nodes && SwitchTo(s, x).error.None?
    ensures OnChain(SwitchTo(s, x).state.tree, x, Main(s))
    ensures OnChain(SwitchTo(s, x).state.tree, s.tree.origin, Main(s))
  {
    MainIsOrigins(s);
    if Moves(s, x) {
      SwitchNode(s, x, x);
      SwitchNode(s, x, s.tree.origin);
      AllRoundsComplete(s, x);
    } else {
      JumpsToMainEnd(s, x);
    }
  }

  /** After a successful switch the commitments that carry the main chain are exactly the main-child
      path from the initial root, and that path runs through the head. */
  lemma SwitchedMainChain(s: State, x: Id)
    requires Inv(s) && x in s.tree.nodes && SwitchTo(s, x).error.None?
    ensures var u := SwitchTo(s, x).state.tree;
            && TreeInv(u) && u.origin in u.nodes
            && (forall n :: OnChain(u, n, Main(s)) <==> n in MainPath(u, u.origin))
            && x in MainPath(u, u.origin)
  {
    SwitchKeepsTree(s, x);
    SwitchReachesHead(s, x);
    var u := SwitchTo(s, x).state.tree;
    SwitchKeepsOrigin(s, x);
    assert HeadsOwnChain(u, u.origin);
    ChainIsMainPath(u, Main(s));
  }

  lemma SwitchKeepsOrigin(s: State, x: Id)
    requires Inv(s) && x in s.tree.nodes
    ensures SwitchTo(s, x).state.tree.origin == s.tree.origin
  {
    if Moves(s, x) {
      FirstRoundReady(s, x);
      RoundsEvolve(s.tree, JumpsToMain(s, x).value[0], Main(s), None);
      if SwitchTo(s, x).error.None? {
        SwitchDetaches(s, x);
      }
    }
  }

  /** Every main child that a successful switch displaces heads a chain that did not exist before,
      and that chain covers its whole main-child path. */
  lemma {:induction false} DisplacedHeadsFreshChain(s: State, x: Id, m: Id)
    requires Inv(s) && x in s.tree.nodes && SwitchTo(s, x).error.None?
    requires m in s.tree.nodes && m != s.tree.origin && IsMain(s.tree, m) && s.tree.nodes[m].chain.Some?
    requires !IsMain(SwitchTo(s, x).state.tree, m)
    ensures var u := SwitchTo(s, x).state.tree;
            && TreeInv(u) && HeadsOwnChain(u, m) && u.nodes[m].chain.value >= |s.tree.chains|
            && (forall n :: OnChain(u, n, u.nodes[m].chain.value) <==> n in MainPath(u, m))
  {
    MainIsOrigins(s);
    SwitchKeepsTree(s, x);
    SwitchKeepsSolidity(s, x, m);
    SwitchKeepsOrigin(s, x);
    SwitchReachesHead(s, x);
    var u := SwitchTo(s, x).state.tree;
    assert HeadsOwnChain(u, m) by { assert ChainAt(u, m); }
    assert OnChain(u, m, u.nodes[m].chain.value);
    ChainIsMainPath(u, u.nodes[m].chain.value);
    DisplacedIsFresh(s, x, m);
  }

  lemma DisplacedIsFresh(s: State, x: Id, m: Id)
    requires Inv(s) && x in s.tree.nodes && SwitchTo(s, x).error.None?
    requires m in s.tree.nodes && m != s.tree.origin && IsMain(s.tree, m) && s.tree.nodes[m].chain.Some?
    requires HeadsOwnChain(SwitchTo(s, x).state.tree, m)
    requires OnChain(SwitchTo(s, x).state.tree, s.tree.origin, Main(s)) && Chains(SwitchTo(s, x).state.tree)
    requires SwitchTo(s, x).state.tree.origin == s.tree.origin
    ensures SwitchTo(s, x).state.tree.nodes[m].chain.value >= |s.tree.chains|
  {
    var t, u := s.tree, SwitchTo(s, x).state.tree;
    MainIsOrigins(s);
    assert ChainAt(t, m) && ShapeAt(t, m);
    ClimbToHead(t, Prev(t, m), t.nodes[m].chain.value);
    if Moves(s, x) {
      SwitchNode(s, x, m);
      assert Evolved(t, AllRounds(s, x).tree, Main(s)) by { AllRoundsComplete(s, x); }
    }
  }

  // ----- Which switches succeed -----

  /** A switch succeeds exactly when the head is solid, the walk to the main chain stays within the
      stored slots, and every forking point on it is still registered with its parent. */
  lemma SwitchSucceedsIff(s: State, x: Id)
    requires Inv(s) && x in s.tree.nodes
    ensures SwitchTo(s, x).error.None? <==>
            s.tree.nodes[x].solid && JumpsToMain(s, x).Some? && AllAttached(s.tree, JumpsToMain(s, x).value)
  {
    if Moves(s, x) {
      MainIsOrigins(s);
      FirstRoundReady(s, x);
      FirstJump(s, x);
      RoundsFollowJumps(s.tree, JumpsToMain(s, x).value[0], Main(s), None, s.stored);
    }
  }

  /** A refused switch leaves the chains in order exactly when it is refused before its first round:
      when the head is not solid, the walk runs out of the stored slots, or the forking point nearest
      to the head is the one that is no longer registered. */
  lemma RefusedSwitchBreaksIff(s: State, x: Id)
    requires Inv(s) && x in s.tree.nodes && SwitchTo(s, x).error.Some?
    ensures Chains(SwitchTo(s, x).state.tree) <==> !(Moves(s, x) && Attached(s.tree, JumpsToMain(s, x).value[0]))
    ensures !(Moves(s, x) && Attached(s.tree, JumpsToMain(s, x).value[0])) ==> SwitchTo(s, x).state == s
  {
    if Moves(s, x) {
      FirstRoundReady(s, x);
      StuckIsBroken(s.tree, JumpsToMain(s, x).value[0], Main(s), None);
    }
  }

  /** A successful switch takes the old main branch off its parent. */
  lemma SwitchSeparatesOldBranch(s: State, x: Id)
    requires Inv(s) && x in s.tree.nodes && Moves(s, x) && SwitchTo(s, x).error.None?
    ensures var m := MainChild(s.tree, Prev(s.tree, LeavesAt(s, x))).value; !Attached(SwitchTo(s, x).state.tree, m)
  {
    SwitchDetaches(s, x);
    AllRoundsComplete(s, x);
    var p := Prev(s.tree, LeavesAt(s, x));
    DetachKeepsTree(AllRounds(s, x).tree, p, MainChild(s.tree, p).value);
  }

  // ----- The root and the switch -----

  lemma {:induction false} PathAncestor(t: Tree, a: Id, n: Id)
    requires Shape(t) && a in t.nodes && n in MainPath(t, a)
    ensures Ancestor(t, a, n)
    decreases n.slot
  {
    if n != a {
      PathUp(t, a, n);
      assert ShapeAt(t, n);
      PathAt(t, a, n);
      PathAncestor(t, a, Prev(t, n));
    }
  }

  lemma {:induction false} AncestorFrame(t: Tree, w: Tree, a: Id, n: Id)
    requires w.origin == t.origin && w.nodes.Keys == t.nodes.Keys
    requires forall k :: k in t.nodes ==> w.nodes[k].commitment == t.nodes[k].commitment
    requires Ancestor(w, a, n)
    ensures Ancestor(t, a, n)
    decreases n.slot
  {
    if n != a {
      AncestorFrame(t, w, a, Prev(w, n));
    }
  }

  lemma StaysOnMainIff(t: Tree, w: Tree, main: nat, d: Id, r: Id)
    requires Shape(t) && Chains(t) && OnChain(t, t.origin, main) && OnChain(t, r, main) && !OnChain(t, d, main)
    requires Shape(w) && Chains(w) && EndsAt(t, w, main, d)
    ensures OnChain(w, r, main) <==> d.slot > r.slot
  {
    if OnChain(w, r, main) && d.slot <= r.slot {
      SameChainSamePath(w, d, r, main);
      PathAncestor(w, d, r);
      AncestorFrame(t, w, d, r);
      AncestorsOfMain(t, main, d, r);
    }
  }

  /** The root stays on the main chain exactly when the new branch leaves it above the root. */
  lemma RootStaysIff(s: State, x: Id)
    requires Inv(s) && x in s.tree.nodes && Moves(s, x) && SwitchTo(s, x).error.None?
    ensures OnChain(SwitchTo(s, x).state.tree, s.root, Main(s)) <==> LeavesAt(s, x).slot > s.root.slot
  {
    SwitchNode(s, x, s.root);
    assert OnChain(s.tree, s.tree.origin, Main(s)) && OnChain(s.tree, s.root, Main(s)) by { MainIsOrigins(s); }
    assert !OnChain(s.tree, LeavesAt(s, x), Main(s)) by { DepartureParent(s, x); }
    var w := AllRounds(s, x).tree;
    assert Shape(w) && Chains(w) && EndsAt(s.tree, w, Main(s), LeavesAt(s, x)) by { AllRoundsComplete(s, x); }
    StaysOnMainIff(s.tree, w, Main(s), LeavesAt(s, x), s.root);
  }

  lemma SwitchKeepsKeys(s: State, x: Id)
    requires Inv(s) && x in s.tree.nodes
    ensures SwitchTo(s, x).state.tree.nodes.Keys == s.tree.nodes.Keys
  {
    if Moves(s, x) {
      FirstRoundReady(s, x);
      RoundsEvolve(s.tree, JumpsToMain(s, x).value[0], Main(s), None);
      if SwitchTo(s, x).error.None? {
        SwitchDetaches(s, x);
      }
    }
  }

  /** A successful switch keeps the whole invariant exactly when the new branch leaves the main chain above the root. */
  lemma SwitchKeepsInvIff(s: State, x: Id)
    requires Inv(s) && x in s.tree.nodes && SwitchTo(s, x).error.None?
    ensures Inv(SwitchTo(s, x).state) <==> (Moves(s, x) ==> LeavesAt(s, x).slot > s.root.slot)
  {
    if Moves(s, x) {
      var u := SwitchTo(s, x).state;
      SwitchKeepsTree(s, x);
      SwitchReachesHead(s, x);
      SwitchKeepsOrigin(s, x);
      SwitchKeepsKeys(s, x);
      RootStaysIff(s, x);
      SwitchKeepsSolidity(s, x, s.root);
      forall n | n in u.tree.nodes ensures RequestedAt(u, n) {
        SwitchKeepsSolidity(s, x, n);
        assert RequestedAt(s, n);
      }
    }
  }

  /** Once everything below the root is evicted, no switch can leave the main chain below the root. */
  lemma EvictionProtectsRoot(s: State, x: Id)
    requires Inv(s) && x in s.tree.nodes && Moves(s, x)
    requires s.root == s.tree.origin || s.evicted == Some(s.root.slot - 1)
    ensures LeavesAt(s, x).slot > s.root.slot
  {
    JumpsToMainEnd(s, x);
    DepartureParent(s, x);
    if s.root == s.tree.origin {
      DepartureAboveOrigin(s, Prev(s.tree, LeavesAt(s, x)));
    }
  }

  lemma {:induction false} DepartureAboveOrigin(s: State, n: Id)
    requires Inv(s) && OnChain(s.tree, n, Main(s))
    ensures n.slot >= s.tree.origin.slot
  {
    MainIsOrigins(s);
    ClimbToHead(s.tree, n, Main(s));
    ClimbToHead(s.tree, s.tree.origin, Main(s));
    PathAt(s.tree, s.tree.origin, n);
  }
}
