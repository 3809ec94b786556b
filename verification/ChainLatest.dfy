/**
 Which commitment the main chain reports as its latest after a switch.
 */
module ChainLatest {
  import opened Options
  import opened ChainState
  import opened ChainStructure
  import opened ChainForks
  import opened ChainSwitch
  import opened ChainReorg
  import opened ChainOps
  import opened ChainSwitchTheorems

  /** The end of the walk along main children. */
  function Tip(t: Tree, a: Id): (tip: Id)
    requires Shape(t) && a in t.nodes
  {
    var path := MainPath(t, a);
    path[|path| - 1]
  }

  function Max(a: nat, b: nat): nat {
    if a > b then a else b
  }

  lemma {:induction false} SameTip(t: Tree, a: Id, b: Id)
    requires Shape(t) && a in t.nodes && b in MainPath(t, a) && b in t.nodes
    ensures Tip(t, b) == Tip(t, a)
  {
    var tip := Tip(t, b);
    assert tip in MainPath(t, b);
    PathJoin(t, a, b, tip);
    PathAt(t, a, tip);
    assert MainChild(t, tip) == None;
  }

  lemma {:induction false} AddAllLatest(ch: Chain, path: seq<Id>)
    requires path != [] && forall i, j :: 0 <= i < j < |path| ==> path[i].slot < path[j].slot
    ensures AddAll(ch, path).latest == Max(ch.latest, path[|path| - 1].slot)
  {
    if |path| > 1 {
      AddAllLatest(ch, path[..|path| - 1]);
    } else {
      assert path[..0] == [];
    }
  }

  lemma StepLatest(t: Tree, fp: Id, main: nat)
    requires Shape(t) && Promotable(t, fp) && main < |t.chains|
    ensures SwitchStep(t, fp, main).chains[main].latest == Max(t.chains[main].latest, Tip(t, fp).slot)
  {
    RelinkKeepsShape(t, fp);
    DisplaceFrame(t, fp);
    ForkPathStays(t, fp);
    var v := Displace(t, fp);
    assert v.chains[main] == t.chains[main];
    AddAllLatest(v.chains[main], MainPath(v, fp));
  }

  /** All rounds together raise the latest slot of the main chain to the end of the new branch, and no further. */
  lemma {:induction false} RoundsLatest(t: Tree, fp: Id, main: nat, e: Option<Id>)
    requires RoundReady(t, fp, main, e) && Rounds(t, fp, main, e).Done?
    ensures main < |Rounds(t, fp, main, e).tree.chains|
    ensures Rounds(t, fp, main, e).tree.chains[main].latest == Max(t.chains[main].latest, Tip(t, fp).slot)
    decreases fp.slot
  {
    ReadyParent(t, fp, main, e);
    StepLatest(t, fp, main);
    if OnChain(t, Prev(t, fp), main) {
      SwitchStepFrame(t, fp, main);
    } else {
      ReadyNext(t, fp, main, e);
      var w := SwitchStep(t, fp, main);
      var fp2 := NextForkingPoint(w, Prev(t, fp));
      RoundsLatest(w, fp2, main, Some(fp));
      SameTip(w, fp2, fp);
      StepPathStays(t, fp, main);
    }
  }

  /** A chain in use reports the end of its walk as its latest commitment exactly when no higher slot is left in its index. */
  lemma LatestIsTipIff(t: Tree, k: nat)
    requires Shape(t) && Chains(t) && Indexed(t) && k < |t.chains| && OnChain(t, t.chains[k].forkingPoint, k)
    ensures t.chains[k].latest >= Tip(t, t.chains[k].forkingPoint).slot
    ensures t.chains[k].latest in t.chains[k].index
    ensures t.chains[k].index[t.chains[k].latest] == Tip(t, t.chains[k].forkingPoint)
            <==> t.chains[k].latest == Tip(t, t.chains[k].forkingPoint).slot
  {
    var h := t.chains[k].forkingPoint;
    var tip := Tip(t, h);
    DescendOnChain(t, h, k, tip);
    assert IndexedAt(t, tip);
    assert IndexOk(t, t.chains[k]);
  }

  lemma MainChainTip(s: State, x: Id)
    requires Inv(s) && x in s.tree.nodes && SwitchTo(s, x).error.None? && Moves(s, x)
    ensures var u := SwitchTo(s, x).state.tree;
            && TreeInv(u) && Main(s) < |u.chains| && u.chains[Main(s)].forkingPoint == u.origin
            && OnChain(u, u.origin, Main(s)) && x in MainPath(u, u.origin)
  {
    SwitchedMainChain(s, x);
    SwitchReachesHead(s, x);
    SwitchKeepsOrigin(s, x);
    assert ChainAt(SwitchTo(s, x).state.tree, s.tree.origin);
  }

  /** The chain index of the main chain after a switch. */
  lemma SwitchLatest(s: State, x: Id)
    requires Inv(s) && x in s.tree.nodes && SwitchTo(s, x).error.None? && Moves(s, x)
    ensures Shape(s.tree) && Main(s) < |SwitchTo(s, x).state.tree.chains| && Main(s) < |s.tree.chains|
    ensures SwitchTo(s, x).state.tree.chains[Main(s)].latest == Max(s.tree.chains[Main(s)].latest, Tip(s.tree, x).slot)
  {
    MainIsOrigins(s);
    FirstRoundReady(s, x);
    var fp := JumpsToMain(s, x).value[0];
    RoundsLatest(s.tree, fp, Main(s), None);
    SameTip(s.tree, fp, x);
    SwitchNode(s, x, x);
  }

  lemma StepLinks(t: Tree, fp: Id, main: nat, n: Id)
    requires Shape(t) && Promotable(t, fp) && main < |t.chains| && n in t.nodes && n.slot >= fp.slot
    ensures n in SwitchStep(t, fp, main).nodes && MainChild(SwitchStep(t, fp, main), n) == MainChild(t, n)
  {
    SwitchStepFrame(t, fp, main);
    assert ShapeAt(t, fp);
    assert SwitchStep(t, fp, main).nodes[n].(chain := None) == t.nodes[n].(chain := None);
  }

  lemma {:induction false} RoundsLinks(t: Tree, fp: Id, main: nat, e: Option<Id>, n: Id)
    requires RoundReady(t, fp, main, e) && n in t.nodes && n.slot >= fp.slot
    ensures n in Rounds(t, fp, main, e).tree.nodes && MainChild(Rounds(t, fp, main, e).tree, n) == MainChild(t, n)
    decreases fp.slot
  {
    ReadyParent(t, fp, main, e);
    if Attached(t, fp) {
      StepLinks(t, fp, main, n);
      if !OnChain(t, Prev(t, fp), main) {
        ReadyNext(t, fp, main, e);
        var w := SwitchStep(t, fp, main);
        RoundsLinks(w, NextForkingPoint(w, Prev(t, fp)), main, Some(fp), n);
      }
    }
  }

  lemma SwitchLinks(s: State, x: Id, n: Id)
    requires Inv(s) && x in s.tree.nodes && SwitchTo(s, x).error.None? && Moves(s, x) && n in s.tree.nodes && n.slot >= x.slot
    ensures n in SwitchTo(s, x).state.tree.nodes && MainChild(SwitchTo(s, x).state.tree, n) == MainChild(s.tree, n)
  {
    FirstRoundReady(s, x);
    var fp := JumpsToMain(s, x).value[0];
    PathAt(s.tree, fp, x);
    RoundsLinks(s.tree, fp, Main(s), None, n);
    SwitchDetaches(s, x);
    assert Prev(s.tree, LeavesAt(s, x)).slot < x.slot by { LeavesBelow(s, x); }
  }

  lemma LeavesBelow(s: State, x: Id)
    requires Inv(s) && x in s.tree.nodes && Moves(s, x)
    ensures Prev(s.tree, LeavesAt(s, x)).slot < LeavesAt(s, x).slot <= x.slot
  {
    MainIsOrigins(s);
    JumpsToMainEnd(s, x);
    DepartureIsBelow(s.tree, Main(s), x);
  }

  lemma SwitchedTip(s: State, x: Id)
    requires Inv(s) && x in s.tree.nodes && SwitchTo(s, x).error.None? && Moves(s, x)
    ensures var u := SwitchTo(s, x).state.tree; Shape(u) && u.origin in u.nodes && Tip(u, u.origin) == Tip(s.tree, x)
  {
    hide SwitchTo;
    var u := SwitchTo(s, x).state.tree;
    MainChainTip(s, x);
    SwitchKeepsKeys(s, x);
    forall n | n in s.tree.nodes && n.slot >= x.slot ensures MainChild(u, n) == MainChild(s.tree, n) {
      SwitchLinks(s, x, n);
    }
    PathFrame(s.tree, u, x);
    SameTip(u, u.origin, x);
  }

  /** After a switch the main chain reports the end of its new branch as its latest commitment exactly
      when the new branch reaches at least as far as the slots indexed before; otherwise it goes on
      reporting a commitment of the old branch. */
  lemma SwitchedLatestIff(s: State, x: Id)
    requires Inv(s) && x in s.tree.nodes && SwitchTo(s, x).error.None? && Moves(s, x)
    ensures Main(s) < |s.tree.chains|
    ensures var u := SwitchTo(s, x).state.tree;
            && Shape(u) && u.origin in u.nodes && Main(s) < |u.chains| && u.chains[Main(s)].latest in u.chains[Main(s)].index
            && (u.chains[Main(s)].index[u.chains[Main(s)].latest] == Tip(u, u.origin)
                <==> s.tree.chains[Main(s)].latest <= Tip(s.tree, x).slot)
  {
    MainChainTip(s, x);
    SwitchLatest(s, x);
    SwitchedTip(s, x);
    LatestIsTipIff(SwitchTo(s, x).state.tree, Main(s));
  }
}
