/**
 What the chain invariant says about whole chains: a chain's members are exactly
 the main-child path from its forking point, and its index lists them by slot.
 */
module ChainStructure {
  import opened Options
  import opened ChainState

  /** Climbing from a member of a chain ends at the chain's forking point. */
  lemma {:induction false} ClimbToHead(t: Tree, n: Id, k: nat)
    requires Shape(t) && ChainsUpTo(t, n.slot) && OnChain(t, n, k)
    ensures k < |t.chains|
    ensures var h := t.chains[k].forkingPoint;
            OnChain(t, h, k) && h.slot <= n.slot && n in MainPath(t, h)
    decreases n.slot
  {
    assert ChainAt(t, n) && ShapeAt(t, n);
    if HeadsOwnChain(t, n) {
      assert MainPath(t, n)[0] == n;
    } else {
      var p := Prev(t, n);
      ClimbToHead(t, p, k);
      PathDown(t, t.chains[k].forkingPoint, p);
    }
  }

  /** Walking down from a member of a chain never leaves the chain. */
  lemma {:induction false} DescendOnChain(t: Tree, a: Id, k: nat, n: Id)
    requires Shape(t) && Chains(t) && OnChain(t, a, k) && n in MainPath(t, a)
    ensures OnChain(t, n, k)
    decreases n.slot
  {
    if n != a {
      PathUp(t, a, n);
      assert ShapeAt(t, n) && ChainAt(t, n);
      DescendOnChain(t, a, k, Prev(t, n));
    }
  }

  /** The members of a live chain are exactly the main-child path from its forking point. */
  lemma {:induction false} ChainIsMainPath(t: Tree, k: nat)
    requires Shape(t) && Chains(t)
    requires exists n :: OnChain(t, n, k)
    ensures k < |t.chains| && t.chains[k].forkingPoint in t.nodes
    ensures forall n :: OnChain(t, n, k) <==> n in MainPath(t, t.chains[k].forkingPoint)
  {
    var w :| OnChain(t, w, k);
    ClimbToHead(t, w, k);
    var h := t.chains[k].forkingPoint;
    forall n ensures OnChain(t, n, k) <==> n in MainPath(t, h) {
      if OnChain(t, n, k) {
        ClimbToHead(t, n, k);
      }
      if n in MainPath(t, h) {
        DescendOnChain(t, h, k, n);
      }
    }
  }

  /** Of two nodes on one walk, the later one lies on the walk from the earlier one. */
  lemma {:induction false} PathSuffix(t: Tree, h: Id, a: Id, n: Id)
    requires Shape(t) && h in t.nodes && a in MainPath(t, h) && n in MainPath(t, h) && a.slot <= n.slot
    ensures n in MainPath(t, a)
    decreases n.slot
  {
    PathAt(t, h, a);
    PathAt(t, h, n);
    if n.slot == a.slot {
      assert MainPath(t, a)[0] == n;
    } else {
      PathUp(t, h, n);
      var p := Prev(t, n);
      assert ShapeAt(t, n);
      PathSuffix(t, h, a, p);
      PathDown(t, a, p);
    }
  }

  /** Two members of one chain: the later one lies on the walk from the earlier one. */
  lemma {:induction false} SameChainSamePath(t: Tree, a: Id, n: Id, k: nat)
    requires Shape(t) && Chains(t) && OnChain(t, a, k) && OnChain(t, n, k) && a.slot <= n.slot
    ensures n in MainPath(t, a)
  {
    ClimbToHead(t, a, k);
    ClimbToHead(t, n, k);
    PathSuffix(t, t.chains[k].forkingPoint, a, n);
  }

  /** `u` differs from `t` only in which chains the nodes from a slot on are on. */
  ghost predicate OnlyMoved(t: Tree, u: Tree, slot: nat) {
    && u.origin == t.origin && u.nodes.Keys == t.nodes.Keys
    && |u.chains| == |t.chains|
    && (forall k :: 0 <= k < |t.chains| ==> u.chains[k].forkingPoint == t.chains[k].forkingPoint)
    && (forall n :: n in t.nodes ==> u.nodes[n].(chain := None) == t.nodes[n].(chain := None))
    && (forall n :: n in t.nodes && n.slot < slot ==> u.nodes[n].chain == t.nodes[n].chain)
  }

  lemma {:induction false} PutOnlyMoves(t: Tree, a: Id, k: nat)
    requires Shape(t) && a in t.nodes && k < |t.chains|
    ensures var u := PutOnChain(t, MainPath(t, a), k); Shape(u) && OnlyMoved(t, u, a.slot)
  {
    PutKeepsShape(t, MainPath(t, a), k);
    AddAllHead(t.chains[k], MainPath(t, a));
  }

  lemma MovedAt(t: Tree, path: seq<Id>, k: nat, n: Id)
    requires k < |t.chains| && n in t.nodes
    requires Published(t, n) && n != t.origin ==> Prev(t, n) in t.nodes
    requires if n in path then n != t.origin && IsMain(t, n) && Prev(t, n) in path
             else ChainAt(t, n) && !(IsMain(t, n) && Prev(t, n) in path)
    ensures ChainAt(PutOnChain(t, path, k), n)
  {
    AddAllHead(t.chains[k], path);
    var u := PutOnChain(t, path, k);
    assert IsMain(u, n) == IsMain(t, n);
  }

  /** Moving a walk onto one chain puts everything after its start on its parent's chain, and
      leaves every node off the walk on the right chain if it was. */
  lemma {:induction false} PutChainAt(t: Tree, a: Id, k: nat, n: Id)
    requires Shape(t) && a in t.nodes && k < |t.chains| && n in t.nodes
    requires if n in MainPath(t, a) then n != a else ChainAt(t, n)
    ensures ChainAt(PutOnChain(t, MainPath(t, a), k), n)
  {
    var path := MainPath(t, a);
    assert ShapeAt(t, n);
    if n in path {
      PathUp(t, a, n);
    } else if IsMain(t, n) && Prev(t, n) in path {
      PathDown(t, a, Prev(t, n));
    }
    MovedAt(t, path, k, n);
  }

  /** A commitment shares its parent's chain exactly when it is the parent's main child;
      otherwise it is the forking point of a chain of its own. */
  lemma SharesChainIffMainChild(t: Tree, n: Id)
    requires Shape(t) && Chains(t) && Published(t, n) && n != t.origin
    ensures Prev(t, n) in t.nodes
    ensures t.nodes[n].chain == t.nodes[Prev(t, n)].chain <==> MainChild(t, Prev(t, n)) == Some(n)
    ensures MainChild(t, Prev(t, n)) != Some(n) ==> HeadsOwnChain(t, n)
  {
    assert ShapeAt(t, n) && ChainAt(t, n);
    var p := Prev(t, n);
    if !IsMain(t, n) && t.nodes[p].chain == t.nodes[n].chain {
      ClimbToHead(t, p, t.nodes[n].chain.value);
    }
  }

  /** For every slot from the forking point to the tip of the main-child path, the chain's
      per-slot index yields the commitment that the walk reaches. */
  lemma {:induction false} IndexFollowsPath(t: Tree, h: Id, k: nat, i: nat)
    requires Shape(t) && Chains(t) && Indexed(t)
    requires OnChain(t, h, k) && k < |t.chains| && t.chains[k].forkingPoint == h
    requires i < |MainPath(t, h)|
    ensures h.slot + i in t.chains[k].index && t.chains[k].index[h.slot + i] == MainPath(t, h)[i]
  {
    var n := MainPath(t, h)[i];
    DescendOnChain(t, h, k, n);
    assert IndexedAt(t, n);
  }

  // ----- The index under moves -----

  lemma {:induction false} PathPublished(t: Tree, m: Id)
    requires Shape(t) && Published(t, m)
    ensures forall n :: n in MainPath(t, m) ==> Published(t, n)
  {
    forall n | n in MainPath(t, m) ensures Published(t, n) {
      if n != m {
        PathUp(t, m, n);
      }
    }
  }

  /** A walk that joins a chain is indexed by it, and hides only members of the chain at its own slots. */
  lemma {:induction false} PutIndexedAt(t: Tree, a: Id, k: nat, n: Id)
    requires Shape(t) && a in t.nodes && k < |t.chains| && n in t.nodes
    requires n in MainPath(t, a) || (IndexedAt(t, n) && (OnChain(t, n, k) ==> n.slot < a.slot))
    ensures IndexedAt(PutOnChain(t, MainPath(t, a), k), n)
  {
    var path := MainPath(t, a);
    AddAllIndex(t.chains[k], path);
    assert n.slot < a.slot ==> forall d :: d in path ==> d.slot != n.slot;
  }

  lemma {:induction false} AddAllIndexOk(t: Tree, ch: Chain, path: seq<Id>)
    requires IndexOk(t, ch) && forall n :: n in path ==> Published(t, n)
    requires forall i, j :: 0 <= i < j < |path| ==> path[i].slot < path[j].slot
    ensures IndexOk(t, AddAll(ch, path))
  {
    AddAllIndex(ch, path);
    hide AddAll;
  }

  lemma PutKeepsPublished(t: Tree, path: seq<Id>, k: nat, ch: Chain)
    requires k < |t.chains| && IndexOk(t, ch)
    ensures IndexOk(PutOnChain(t, path, k), ch)
  {
  }

  lemma {:induction false} PutIndexOk(t: Tree, a: Id, k: nat)
    requires Shape(t) && Published(t, a) && k < |t.chains|
    requires forall j {:trigger IndexOk(t, t.chains[j])} :: 0 <= j < |t.chains| ==> IndexOk(t, t.chains[j])
    ensures var u := PutOnChain(t, MainPath(t, a), k);
            forall j {:trigger IndexOk(u, u.chains[j])} :: 0 <= j < |u.chains| ==> IndexOk(u, u.chains[j])
  {
    var path := MainPath(t, a);
    var u := PutOnChain(t, path, k);
    PathPublished(t, a);
    AddAllIndexOk(t, t.chains[k], path);
    hide AddAll, MainPath, IndexOk, Shape;
    forall j | 0 <= j < |u.chains| ensures IndexOk(u, u.chains[j]) {
      assert IndexOk(t, t.chains[j]);
      PutKeepsPublished(t, path, k, u.chains[j]);
    }
  }
}
