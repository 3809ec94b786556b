/**
 Registering commitments: placeholders for unknown parents, publishing, attaching
 to the parent, and pushing chain membership and solidity down the tree.
 */
module ChainProcess {
  import opened Options
  import opened ChainState
  import opened ChainStructure

  // ----- Steps on the tree -----

  function AddPlaceholder(t: Tree, id: Id): Tree {
    t.(nodes := t.nodes[id := NEW_NODE])
  }

  /** The commitment can be published: its node is a placeholder and its parent is in memory. */
  predicate Publishable(t: Tree, c: Commitment) {
    c.id.slot == c.prev.slot + 1 && c.prev in t.nodes && c.id in t.nodes && !Published(t, c.id)
  }

  /** A parent's first child continues the parent's chain; every further child forks. */
  predicate Forks(t: Tree, c: Commitment)
    requires c.prev in t.nodes
  {
    t.nodes[c.prev].children != {}
  }

  /** The chain a newly registered commitment goes on, if any. */
  function ChainFor(t: Tree, c: Commitment): Option<nat>
    requires c.prev in t.nodes
  {
    if Forks(t, c) then Some(|t.chains|) else t.nodes[c.prev].chain
  }

  function ChainsWith(t: Tree, c: Commitment): seq<Chain>
    requires c.prev in t.nodes
    requires t.nodes[c.prev].chain.Some? ==> t.nodes[c.prev].chain.value < |t.chains|
  {
    var chains := if Forks(t, c) then t.chains + [NewChain(c.id)] else t.chains;
    match ChainFor(t, c)
    case None => chains
    case Some(k) => chains[k := AddCommitment(chains[k], c.id)]
  }

  function ParentWith(t: Tree, c: Commitment): Node
    requires c.prev in t.nodes
  {
    var parent := t.nodes[c.prev];
    parent.(mainChildId := if Forks(t, c) then parent.mainChildId else Some(c.id), children := parent.children + {c.id})
  }

  /** The commitment is published, linked to its parent, put on its chain, and solid if the parent is. */
  function Register(t: Tree, c: Commitment): Tree
    requires Chains(t) && Publishable(t, c)
  {
    assert ChainAt(t, c.prev);
    var parent, k := t.nodes[c.prev], ChainFor(t, c);
    t.(chains := ChainsWith(t, c),
       nodes := t.nodes[c.prev := ParentWith(t, c)]
                       [c.id := t.nodes[c.id].(commitment := Some(c), chain := k, solid := k.Some? && parent.solid)])
  }

  /** The chain of a newly registered commitment is pushed down its main-child path. */
  function PropagateChain(t: Tree, c: Id): Tree
    requires Shape(t) && c in t.nodes && t.nodes[c].chain.Some? && t.nodes[c].chain.value < |t.chains|
  {
    match MainChild(t, c)
    case None => t
    case Some(m) => MainChildIsNext(t, c); PutOnChain(t, MainPath(t, m), t.nodes[c].chain.value)
  }

  /** `d` can be reached from `a` through registered children. */
  predicate Under(t: Tree, a: Id, d: Id)
    decreases d.slot
  {
    d == a || (d.slot > a.slot && Attached(t, d) && Prev(t, d).slot < d.slot && Under(t, a, Prev(t, d)))
  }

  /** Everything that can be reached from a solid commitment becomes solid. */
  function PropagateSolidity(t: Tree, a: Id): Tree {
    t.(nodes := map n | n in t.nodes :: if Under(t, a, n) then t.nodes[n].(solid := true) else t.nodes[n])
  }

  // ----- Placeholders -----

  lemma PlaceholderKeepsTree(t: Tree, id: Id)
    requires Shape(t) && Chains(t) && Indexed(t) && Solidity(t) && id !in t.nodes
    ensures var u := AddPlaceholder(t, id); Shape(u) && Chains(u) && Indexed(u) && Solidity(u)
  {
    var u := AddPlaceholder(t, id);
    forall n | n in u.nodes ensures ShapeAt(u, n) && ChainAt(u, n) && IndexedAt(u, n) && SolidAt(u, n) {
      if n != id {
        assert ShapeAt(t, n) && ChainAt(t, n) && IndexedAt(t, n) && SolidAt(t, n);
      }
    }
    forall k | 0 <= k < |u.chains| ensures IndexOk(u, u.chains[k]) {
      assert IndexOk(t, t.chains[k]);
    }
  }

  // ----- Publishing and registering -----

  lemma RegisterKeepsShape(t: Tree, c: Commitment)
    requires Shape(t) && Chains(t) && Publishable(t, c)
    ensures Shape(Register(t, c))
  {
    var u := Register(t, c);
    assert ShapeAt(t, c.prev) && ShapeAt(t, c.id);
    forall n | n in u.nodes ensures ShapeAt(u, n) {
      assert ShapeAt(t, n);
      forall d | d in u.nodes[n].children ensures d != u.origin && Published(u, d) && Prev(u, d) == n {
        assert d in t.nodes[n].children || (n == c.prev && d == c.id);
      }
    }
  }

  /** Every node is on the right chain, except that the given one may still have to be told its parent's. */
  ghost predicate ChainsBut(t: Tree, e: Option<Id>) {
    && HeadsOwnChain(t, t.origin)
    && (forall n {:trigger ChainAt(t, n)} :: n in t.nodes && e != Some(n) ==> ChainAt(t, n))
  }

  /** The main child of a newly registered commitment, when it has yet to be told its chain. */
  function Untold(t: Tree, c: Id): Option<Id>
    requires c in t.nodes
  {
    if t.nodes[c].chain.None? then None else MainChild(t, c)
  }

  /** Which nodes are main children after registering: only the new commitment may have become one. */
  lemma RegisterMain(t: Tree, c: Commitment, n: Id)
    requires Shape(t) && Chains(t) && Publishable(t, c) && n in t.nodes && Published(Register(t, c), n) && n != t.origin
    ensures var u := Register(t, c);
            if n == c.id then IsMain(u, n) == !Forks(t, c) else IsMain(u, n) == IsMain(t, n)
  {
    assert ShapeAt(t, c.prev) && ShapeAt(t, c.id) && ShapeAt(t, n);
  }

  lemma RegisterChains(t: Tree, c: Commitment)
    requires Shape(t) && Chains(t) && Publishable(t, c)
    ensures var u := Register(t, c); ChainsBut(u, Untold(u, c.id))
  {
    var u := Register(t, c);
    assert ChainAt(t, c.prev) && ChainAt(t, c.id) && ChainAt(t, t.origin);
    forall n | n in u.nodes && Untold(u, c.id) != Some(n) ensures ChainAt(u, n) {
      assert ShapeAt(t, n) && ChainAt(t, n);
      if Published(u, n) && n != u.origin {
        RegisterMain(t, c, n);
      }
    }
  }

  /** The new commitment is the last one on its chain. */
  lemma RegisterIsTip(t: Tree, c: Commitment, n: Id, k: nat)
    requires Shape(t) && Chains(t) && Publishable(t, c)
    requires OnChain(Register(t, c), c.id, k) && OnChain(Register(t, c), n, k)
    ensures n == c.id || n.slot < c.id.slot
  {
    assert ChainAt(t, n) && ChainAt(t, c.prev) && ShapeAt(t, c.prev);
    if n != c.id && !Forks(t, c) && n.slot > c.prev.slot {
      assert MainChild(t, c.prev) == None;
      SameChainSamePath(t, c.prev, n, k);
    }
  }

  lemma RegisterKeepsIndex(t: Tree, c: Commitment)
    requires Shape(t) && Chains(t) && Indexed(t) && Publishable(t, c)
    ensures Indexed(Register(t, c))
  {
    var u := Register(t, c);
    forall n | n in u.nodes ensures IndexedAt(u, n) {
      assert IndexedAt(t, n) && ChainAt(t, n) && ChainAt(t, c.prev);
      if n != c.id && ChainFor(t, c).Some? && u.nodes[n].chain == ChainFor(t, c) {
        RegisterIsTip(t, c, n, ChainFor(t, c).value);
      }
    }
    forall k | 0 <= k < |u.chains| ensures IndexOk(u, u.chains[k]) {
      assert ChainAt(t, c.prev);
      assert k < |t.chains| ==> IndexOk(t, t.chains[k]);
    }
  }

  /** Solidity is in order everywhere, except that the children of the given node may lag behind it. */
  ghost predicate SolidityBut(t: Tree, e: Id) {
    && t.origin in t.nodes && t.nodes[t.origin].solid
    && (forall n {:trigger SolidAt(t, n)} :: n in t.nodes && !(Published(t, n) && Prev(t, n) == e) ==> SolidAt(t, n))
    && (forall n {:trigger Attached(t, n)} :: Published(t, n) && Prev(t, n) == e && n != t.origin ==> Attached(t, n) && !t.nodes[n].solid)
  }

  lemma RegisterSolidity(t: Tree, c: Commitment)
    requires Shape(t) && Chains(t) && Solidity(t) && Publishable(t, c)
    ensures SolidityBut(Register(t, c), c.id)
  {
    var u := Register(t, c);
    assert SolidAt(t, c.prev) && SolidAt(t, c.id) && ChainAt(t, c.prev);
    forall n | n in u.nodes && !(Published(u, n) && Prev(u, n) == c.id) ensures SolidAt(u, n) {
      assert ShapeAt(t, n) && SolidAt(t, n);
    }
    forall n | Published(u, n) && Prev(u, n) == c.id && n != u.origin ensures Attached(u, n) && !u.nodes[n].solid {
      assert ShapeAt(t, n) && SolidAt(t, n);
    }
  }

  // ----- Pushing the chain down -----

  lemma PropagateChains(t: Tree, c: Id)
    requires Shape(t) && c in t.nodes && t.nodes[c].chain.Some? && t.nodes[c].chain.value < |t.chains|
    requires ChainsBut(t, MainChild(t, c))
    ensures Shape(PropagateChain(t, c)) && Chains(PropagateChain(t, c))
  {
    var u := PropagateChain(t, c);
    if MainChild(t, c).Some? {
      MainChildIsNext(t, c);
      var m, k := MainChild(t, c).value, t.nodes[c].chain.value;
      var path := MainPath(t, m);
      PutKeepsShape(t, path, k);
      AddAllHead(t.chains[k], path);
      if t.origin in path {
        PathUp(t, m, t.origin);
      }
      assert path[0] == m;
      forall n | n in u.nodes ensures ChainAt(u, n) {
        if n != m {
          assert n !in path ==> ChainAt(t, n);
          PutChainAt(t, m, k, n);
        }
      }
    }
  }

  lemma PropagateKeepsIndex(t: Tree, c: Id)
    requires Shape(t) && Indexed(t) && c in t.nodes && t.nodes[c].chain.Some? && t.nodes[c].chain.value < |t.chains|
    requires forall n :: OnChain(t, n, t.nodes[c].chain.value) ==> n.slot <= c.slot
    ensures Indexed(PropagateChain(t, c))
  {
    var u := PropagateChain(t, c);
    if MainChild(t, c).Some? {
      MainChildIsNext(t, c);
      var m, k := MainChild(t, c).value, t.nodes[c].chain.value;
      assert u == PutOnChain(t, MainPath(t, m), k);
      forall n | n in u.nodes ensures IndexedAt(u, n) {
        assert IndexedAt(t, n);
        PutIndexedAt(t, m, k, n);
      }
      PutIndexOk(t, m, k);
      forall j | 0 <= j < |u.chains| ensures IndexOk(u, u.chains[j]) {}
    }
  }

  lemma PropagateChainSolidity(t: Tree, c: Id)
    requires Shape(t) && SolidityBut(t, c)
    requires c in t.nodes && t.nodes[c].chain.Some? && t.nodes[c].chain.value < |t.chains|
    ensures SolidityBut(PropagateChain(t, c), c)
  {
    var u := PropagateChain(t, c);
    forall n | n in u.nodes && !(Published(u, n) && Prev(u, n) == c) ensures SolidAt(u, n) {
      assert SolidAt(t, n);
    }
    forall n | Published(u, n) && Prev(u, n) == c && n != u.origin ensures Attached(u, n) && !u.nodes[n].solid {
      assert Attached(t, n);
    }
  }

  // ----- Pushing solidity down -----

  lemma {:induction false} UnderHasChain(t: Tree, a: Id, d: Id)
    requires Shape(t) && Chains(t) && a in t.nodes && t.nodes[a].chain.Some? && Published(t, a) && d in t.nodes
    requires Under(t, a, d)
    ensures Published(t, d) && t.nodes[d].chain.Some?
    decreases d.slot
  {
    if d != a {
      assert ShapeAt(t, d) && ChainAt(t, d) && ShapeAt(t, Prev(t, d));
      UnderHasChain(t, a, Prev(t, d));
    }
  }

  lemma SpreadSolidity(t: Tree, c: Id)
    requires Shape(t) && Chains(t) && SolidityBut(t, c)
    requires Published(t, c) && c != t.origin && t.nodes[c].chain.Some? && t.nodes[c].solid
    requires Prev(t, c) in t.nodes && t.nodes[Prev(t, c)].solid
    ensures Solidity(PropagateSolidity(t, c))
  {
    var u := PropagateSolidity(t, c);
    assert ShapeAt(t, c);
    forall n | n in u.nodes ensures SolidAt(u, n) {
      assert ShapeAt(t, n);
      if Published(t, n) && n != t.origin && Prev(t, n) == c {
        assert Attached(t, n);
        assert Under(t, c, n);
      } else if !(Published(t, n) && Prev(t, n) == c) {
        assert SolidAt(t, n);
      }
      if Under(t, c, n) {
        UnderHasChain(t, c, n);
      }
    }
  }

  lemma SpreadKeepsRest(t: Tree, c: Id)
    requires Shape(t) && Chains(t) && Indexed(t)
    ensures var u := PropagateSolidity(t, c); Shape(u) && Chains(u) && Indexed(u)
  {
    var u := PropagateSolidity(t, c);
    forall n | n in u.nodes ensures ShapeAt(u, n) && ChainAt(u, n) && IndexedAt(u, n) {
      assert ShapeAt(t, n) && ChainAt(t, n) && IndexedAt(t, n);
    }
    forall k | 0 <= k < |u.chains| ensures IndexOk(u, u.chains[k]) {
      assert IndexOk(t, t.chains[k]);
    }
  }

  /** Nothing has to be pushed when the new commitment is not solid: its children are not either. */
  lemma NothingToSpread(t: Tree, c: Id)
    requires Shape(t) && Chains(t) && SolidityBut(t, c) && c in t.nodes && !t.nodes[c].solid
    ensures Solidity(t)
  {
    forall n | n in t.nodes ensures SolidAt(t, n) {
      if Published(t, n) && Prev(t, n) == c && n != t.origin {
        assert Attached(t, n);
      }
    }
  }

  // ----- Accepting a commitment -----

  /** A placeholder's commitment arrives: register it, then push its chain and its solidity down. */
  function Accept(t: Tree, c: Commitment): Tree
    requires Shape(t) && Chains(t) && Publishable(t, c)
  {
    RegisterKeepsShape(t, c);
    RegisterChains(t, c);
    var u := Register(t, c);
    assert ChainAt(t, c.prev);
    if u.nodes[c.id].chain.None? then u
    else
      var v := PropagateChain(u, c.id);
      if t.nodes[c.prev].solid then PropagateSolidity(v, c.id) else v
  }

  lemma AcceptKeepsTree(t: Tree, c: Commitment)
    requires Shape(t) && Chains(t) && Indexed(t) && Solidity(t) && Publishable(t, c)
    ensures var v := Accept(t, c); Shape(v) && Chains(v) && Indexed(v) && Solidity(v)
  {
    RegisterKeepsShape(t, c);
    RegisterChains(t, c);
    RegisterKeepsIndex(t, c);
    RegisterSolidity(t, c);
    var u := Register(t, c);
    if u.nodes[c.id].chain.None? {
      NothingToSpread(u, c.id);
    } else {
      var k := u.nodes[c.id].chain.value;
      forall n | OnChain(u, n, k) ensures n.slot <= c.id.slot {
        RegisterIsTip(t, c, n, k);
      }
      assert ChainAt(t, c.prev);
      PropagateChains(u, c.id);
      PropagateKeepsIndex(u, c.id);
      PropagateChainSolidity(u, c.id);
      var v := PropagateChain(u, c.id);
      if t.nodes[c.prev].solid {
        SpreadSolidity(v, c.id);
        SpreadKeepsRest(v, c.id);
      } else {
        NothingToSpread(v, c.id);
      }
    }
  }

  /** The main-child path of a placeholder carries no chain yet. */
  lemma {:induction false} UnchainedPath(t: Tree, c: Commitment, m: Id, n: Id)
    requires Shape(t) && Chains(t) && Publishable(t, c) && Shape(Register(t, c))
    requires MainChild(Register(t, c), c.id) == Some(m) && m in t.nodes && n in MainPath(Register(t, c), m)
    ensures t.nodes[n].chain.None?
    decreases n.slot
  {
    var u := Register(t, c);
    MainChildIsNext(u, c.id);
    assert ChainAt(t, n) && ChainAt(t, c.id);
    if n != m {
      PathUp(u, m, n);
      assert ShapeAt(u, n);
      UnchainedPath(t, c, m, Prev(u, n));
    }
    RegisterMain(t, c, n);
  }

  /** Accepting a commitment publishes exactly that one, and takes neither a chain nor solidity from any other. */
  lemma AcceptAt(t: Tree, c: Commitment, n: Id)
    requires Shape(t) && Chains(t) && Solidity(t) && Publishable(t, c) && n in t.nodes
    ensures var v := Accept(t, c);
            && v.origin == t.origin
            && n in v.nodes
            && v.nodes[n].commitment == (if n == c.id then Some(c) else t.nodes[n].commitment)
            && (t.nodes[n].solid ==> v.nodes[n].solid)
            && (t.nodes[n].chain.Some? ==> v.nodes[n].chain == t.nodes[n].chain)
  {
    var u := Register(t, c);
    RegisterKeepsShape(t, c);
    RegisterChains(t, c);
    assert SolidAt(t, c.id) && ChainAt(t, c.id);
    if u.nodes[c.id].chain.Some? && MainChild(u, c.id).Some? && t.nodes[n].chain.Some? {
      MainChildIsNext(u, c.id);
      if n in MainPath(u, MainChild(u, c.id).value) {
        UnchainedPath(t, c, MainChild(u, c.id).value, n);
      }
    }
  }
}
