/**
 Re-rooting the main chain onto a fork, across any number of nested forking points.
 */
module ChainSwitch {
  import opened Options
  import opened ChainState
  import opened ChainStructure
  import opened ChainProcess

  // ----- One forking point -----

  /** A forking point that can be made the main child: registered with its parent, but not its main child. */
  ghost predicate Promotable(t: Tree, fp: Id) {
    fp != t.origin && Attached(t, fp) && !IsMain(t, fp) && MainChild(t, Prev(t, fp)).Some?
  }

  /** The main child that the forking point displaces. */
  function Displaced(t: Tree, fp: Id): Id
    requires Published(t, fp) && Prev(t, fp) in t.nodes && MainChild(t, Prev(t, fp)).Some?
  {
    MainChild(t, Prev(t, fp)).value
  }

  /** The forking point takes the place of its parent's main child, which gets a fresh chain. */
  function Relink(t: Tree, fp: Id): Tree
    requires Published(t, fp) && Prev(t, fp) in t.nodes && MainChild(t, Prev(t, fp)).Some?
  {
    var p := Prev(t, fp);
    t.(nodes := t.nodes[p := t.nodes[p].(mainChildId := Some(fp))],
       chains := t.chains + [NewChain(Displaced(t, fp))])
  }

  lemma RelinkKeepsShape(t: Tree, fp: Id)
    requires Shape(t) && Promotable(t, fp)
    ensures Shape(Relink(t, fp))
    ensures Displaced(t, fp) in t.nodes && Displaced(t, fp).slot == fp.slot && Displaced(t, fp) != fp
  {
    assert ShapeAt(t, Prev(t, fp)) && ShapeAt(t, fp);
    assert ShapeAt(t, Displaced(t, fp));
    var u := Relink(t, fp);
    forall n | n in u.nodes ensures ShapeAt(u, n) {
      assert ShapeAt(t, n);
    }
  }

  /** First half of a round: the displaced main child takes its main-child path to a fresh chain. */
  function Displace(t: Tree, fp: Id): Tree
    requires Shape(t) && Promotable(t, fp)
  {
    RelinkKeepsShape(t, fp);
    var u := Relink(t, fp);
    PutOnChain(u, MainPath(u, Displaced(t, fp)), |t.chains|)
  }

  lemma DisplaceFrame(t: Tree, fp: Id)
    requires Shape(t) && Promotable(t, fp)
    ensures Shape(Displace(t, fp)) && OnlyMoved(Relink(t, fp), Displace(t, fp), fp.slot)
  {
    RelinkKeepsShape(t, fp);
    PutOnlyMoves(Relink(t, fp), Displaced(t, fp), |t.chains|);
  }

  /** One round of the switch: the displaced path leaves, the forking point's path joins the main chain. */
  function SwitchStep(t: Tree, fp: Id, main: nat): Tree
    requires Shape(t) && Promotable(t, fp) && main < |t.chains|
  {
    DisplaceFrame(t, fp);
    var v := Displace(t, fp);
    PutOnChain(v, MainPath(v, fp), main)
  }

  /** After relinking, a round of the switch only moves nodes between chains. */
  lemma SwitchStepFrame(t: Tree, fp: Id, main: nat)
    requires Shape(t) && Promotable(t, fp) && main < |t.chains|
    ensures var w := SwitchStep(t, fp, main); Shape(w) && OnlyMoved(Relink(t, fp), w, fp.slot)
  {
    DisplaceFrame(t, fp);
    PutOnlyMoves(Displace(t, fp), fp, main);
  }

  /** Relinking changes who the main children are only at the parent of the forking point. */
  lemma RelinkMain(t: Tree, fp: Id, n: Id)
    requires Shape(t) && Promotable(t, fp) && n in t.nodes && Published(t, n) && n != t.origin
    ensures IsMain(Relink(t, fp), n) == (n == fp || (IsMain(t, n) && n != Displaced(t, fp)))
  {
    assert ShapeAt(t, n) && ShapeAt(t, Prev(t, fp));
  }

  lemma RelinkChainAt(t: Tree, fp: Id, n: Id)
    requires Shape(t) && Promotable(t, fp) && n in t.nodes && ChainAt(t, n)
    requires n != fp && n != Displaced(t, fp)
    ensures ChainAt(Relink(t, fp), n)
  {
    assert ShapeAt(t, n);
    if Published(t, n) && n != t.origin {
      RelinkMain(t, fp, n);
    }
  }

  /** The displaced main child heads its fresh chain. */
  lemma DisplacedHeads(t: Tree, fp: Id)
    requires Shape(t) && Promotable(t, fp)
    ensures HeadsOwnChain(Displace(t, fp), Displaced(t, fp)) && ChainAt(Displace(t, fp), Displaced(t, fp))
  {
    RelinkKeepsShape(t, fp);
    var u, m := Relink(t, fp), Displaced(t, fp);
    assert ShapeAt(t, Prev(t, fp)) && ShapeAt(t, m);
    RelinkMain(t, fp, m);
    AddAllHead(u.chains[|t.chains|], MainPath(u, m));
    assert MainPath(u, m)[0] == m;
    assert !IsMain(Displace(t, fp), m);
  }

  /** After the first half of a round every node but the forking point is on the right chain if it was before. */
  lemma DisplaceChainAt(t: Tree, fp: Id, n: Id)
    requires Shape(t) && Promotable(t, fp) && n in t.nodes && ChainAt(t, n) && n != fp
    ensures ChainAt(Displace(t, fp), n)
  {
    RelinkKeepsShape(t, fp);
    var u, m := Relink(t, fp), Displaced(t, fp);
    if n == m {
      DisplacedHeads(t, fp);
    } else {
      if n !in MainPath(u, m) {
        RelinkChainAt(t, fp, n);
      }
      PutChainAt(u, m, |t.chains|, n);
    }
  }

  /** The initial root lies on no walk but its own. */
  lemma {:induction false} OriginOffPath(t: Tree, a: Id)
    requires Shape(t) && a in t.nodes && a != t.origin
    ensures t.origin !in MainPath(t, a)
  {
    if t.origin in MainPath(t, a) {
      PathUp(t, a, t.origin);
    }
  }

  lemma OriginStays(t: Tree, fp: Id, main: nat)
    requires Shape(t) && Promotable(t, fp) && main < |t.chains| && HeadsOwnChain(t, t.origin)
    ensures var w := SwitchStep(t, fp, main);
            HeadsOwnChain(w, w.origin) && w.nodes[w.origin].chain == t.nodes[t.origin].chain
  {
    RelinkKeepsShape(t, fp);
    assert ShapeAt(t, Prev(t, fp));
    OriginOffPath(Relink(t, fp), Displaced(t, fp));
    DisplaceFrame(t, fp);
    OriginOffPath(Displace(t, fp), fp);
    SwitchStepFrame(t, fp, main);
  }

  /** The walk from the forking point is the same before and after the displacement. */
  lemma {:induction false} ForkPathStays(t: Tree, fp: Id)
    requires Shape(t) && Promotable(t, fp) && Shape(Displace(t, fp)) && OnlyMoved(Relink(t, fp), Displace(t, fp), fp.slot)
    ensures MainPath(Displace(t, fp), fp) == MainPath(t, fp)
  {
    var v := Displace(t, fp);
    assert ShapeAt(t, fp);
    forall n | n in t.nodes && n.slot >= fp.slot ensures MainChild(v, n) == MainChild(t, n) {
      assert n != Prev(t, fp);
      assert Relink(t, fp).nodes[n] == t.nodes[n];
      assert v.nodes[n].(chain := None) == t.nodes[n].(chain := None);
    }
    PathFrame(t, v, fp);
  }

  /** A round repairs the chains everywhere but at the forking point, which is now a main child on
      the main chain, whatever chain its parent is on. */
  lemma {:induction false} SwitchStepChains(t: Tree, fp: Id, main: nat, e: Option<Id>)
    requires Shape(t) && Promotable(t, fp) && main < |t.chains| && OnChain(t, t.origin, main) && ChainsBut(t, e)
    requires e.Some? ==> e.value in MainPath(t, fp) && e.value != fp
    ensures ChainsBut(SwitchStep(t, fp, main), Some(fp)) && OnChain(SwitchStep(t, fp, main), t.origin, main)
  {
    DisplaceFrame(t, fp);
    ForkPathStays(t, fp);
    var v, w := Displace(t, fp), SwitchStep(t, fp, main);
    forall n | n in w.nodes && Some(fp) != Some(n) ensures ChainAt(w, n) {
      if n !in MainPath(v, fp) {
        assert ChainAt(t, n);
        DisplaceChainAt(t, fp, n);
      }
      PutChainAt(v, fp, main, n);
    }
    OriginStays(t, fp, main);
  }

  /** The forking point is now the main child of its parent, and on the main chain. */
  lemma SwitchStepHead(t: Tree, fp: Id, main: nat)
    requires Shape(t) && Promotable(t, fp) && main < |t.chains|
    ensures var w := SwitchStep(t, fp, main); IsMain(w, fp) && OnChain(w, fp, main) && Prev(w, fp) == Prev(t, fp)
  {
    SwitchStepFrame(t, fp, main);
    DisplaceFrame(t, fp);
    assert ShapeAt(t, fp);
    RelinkMain(t, fp, fp);
    var v := Displace(t, fp);
    assert MainPath(v, fp)[0] == fp;
    var w := SwitchStep(t, fp, main);
    assert Relink(t, fp).nodes[fp] == t.nodes[fp];
  }

  lemma SwitchStepChained(t: Tree, fp: Id, main: nat, n: Id)
    requires Shape(t) && Promotable(t, fp) && main < |t.chains| && n in t.nodes && t.nodes[n].chain.Some?
    ensures n in SwitchStep(t, fp, main).nodes && SwitchStep(t, fp, main).nodes[n].chain.Some?
  {
    hide MainPath, Shape;
    DisplaceFrame(t, fp);
    assert Relink(t, fp).nodes[n].chain == t.nodes[n].chain;
    assert Displace(t, fp).nodes[n].chain.Some?;
  }

  /** A round touches neither contents nor solidity, and keeps every solid node on some chain. */
  lemma SwitchStepSolidity(t: Tree, fp: Id, main: nat)
    requires Shape(t) && Solidity(t) && Promotable(t, fp) && main < |t.chains|
    ensures Solidity(SwitchStep(t, fp, main))
  {
    hide SwitchStep;
    SwitchStepFrame(t, fp, main);
    var u, w := Relink(t, fp), SwitchStep(t, fp, main);
    forall n | n in w.nodes ensures SolidAt(w, n) {
      assert SolidAt(t, n);
      assert w.nodes[n].(chain := None) == u.nodes[n].(chain := None);
      assert u.nodes[n].(mainChildId := None) == t.nodes[n].(mainChildId := None);
      if t.nodes[n].chain.Some? {
        SwitchStepChained(t, fp, main, n);
      }
    }
  }

  /** The index is in order, except for members of the main chain from a slot on. */
  ghost predicate IndexedBut(t: Tree, main: nat, slot: nat) {
    && (forall n {:trigger IndexedAt(t, n)} :: n in t.nodes && !(OnChain(t, n, main) && n.slot >= slot) ==> IndexedAt(t, n))
    && (forall k {:trigger IndexOk(t, t.chains[k])} :: 0 <= k < |t.chains| ==> IndexOk(t, t.chains[k]))
  }

  ghost predicate ChainsInRange(t: Tree) {
    forall n :: n in t.nodes && t.nodes[n].chain.Some? ==> t.nodes[n].chain.value < |t.chains|
  }

  lemma RelinkIndex(t: Tree, fp: Id, main: nat)
    requires Shape(t) && Promotable(t, fp) && main < |t.chains| && ChainsInRange(t) && IndexedBut(t, main, fp.slot)
    ensures IndexedBut(Relink(t, fp), main, fp.slot)
  {
    var u := Relink(t, fp);
    assert ShapeAt(t, Prev(t, fp));
    forall n | n in u.nodes && !(OnChain(u, n, main) && n.slot >= fp.slot) ensures IndexedAt(u, n) {
      assert IndexedAt(t, n);
    }
    forall k | 0 <= k < |u.chains| ensures IndexOk(u, u.chains[k]) {
      assert k < |t.chains| ==> IndexOk(t, t.chains[k]);
    }
  }

  lemma DisplaceIndex(t: Tree, fp: Id, main: nat)
    requires Shape(t) && Promotable(t, fp) && main < |t.chains| && ChainsInRange(t) && IndexedBut(t, main, fp.slot)
    ensures IndexedBut(Displace(t, fp), main, fp.slot)
  {
    RelinkKeepsShape(t, fp);
    RelinkIndex(t, fp, main);
    var u, v, m := Relink(t, fp), Displace(t, fp), Displaced(t, fp);
    assert ShapeAt(t, Prev(t, fp));
    PutIndexOk(u, m, |t.chains|);
    forall n | n in v.nodes && !(OnChain(v, n, main) && n.slot >= fp.slot) ensures IndexedAt(v, n) {
      assert n !in MainPath(u, m) ==> IndexedAt(u, n);
      PutIndexedAt(u, m, |t.chains|, n);
    }
    assert v == PutOnChain(u, MainPath(u, m), |t.chains|);
    forall k | 0 <= k < |v.chains| ensures IndexOk(v, v.chains[k]) {}
  }

  /** Adding the forking point's path to the main chain's index may hide the old main chain, but
      only from the forking point's slot on. */
  lemma {:induction false} SwitchStepIndex(t: Tree, fp: Id, main: nat)
    requires Shape(t) && Promotable(t, fp) && main < |t.chains| && ChainsInRange(t) && IndexedBut(t, main, fp.slot)
    ensures IndexedBut(SwitchStep(t, fp, main), main, fp.slot)
    ensures forall n :: n in MainPath(t, fp) ==> n in SwitchStep(t, fp, main).nodes && IndexedAt(SwitchStep(t, fp, main), n)
  {
    DisplaceFrame(t, fp);
    ForkPathStays(t, fp);
    DisplaceIndex(t, fp, main);
    var v, w := Displace(t, fp), SwitchStep(t, fp, main);
    PutIndexOk(v, fp, main);
    forall n | n in w.nodes && !(OnChain(w, n, main) && n.slot >= fp.slot) ensures IndexedAt(w, n) {
      assert n !in MainPath(v, fp) ==> IndexedAt(v, n);
      PutIndexedAt(v, fp, main, n);
    }
    assert w == PutOnChain(v, MainPath(v, fp), main);
    forall k | 0 <= k < |w.chains| ensures IndexOk(w, w.chains[k]) {}
    forall n | n in MainPath(t, fp) ensures n in w.nodes && IndexedAt(w, n) {
      PutIndexedAt(v, fp, main, n);
    }
  }
}
