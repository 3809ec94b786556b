/**
 Finding where a commitment's branch leaves the main chain, by jumping from
 forking point to forking point.
 */
module ChainForks {
  import opened Options
  import opened ChainState
  import opened ChainStructure

  // ----- The chain a solid commitment is on -----

  lemma {:induction false} PathSolid(t: Tree, h: Id, n: Id)
    requires Shape(t) && Solidity(t) && h in t.nodes && n in MainPath(t, h) && n in t.nodes
    ensures t.nodes[n].solid == t.nodes[h].solid
    decreases n.slot
  {
    if n != h {
      PathUp(t, h, n);
      assert SolidAt(t, n) && ShapeAt(t, n);
      PathSolid(t, h, Prev(t, n));
    }
  }

  /** A solid commitment off the main chain forks from a solid parent, further down. */
  lemma {:induction false} SolidForkingPoint(t: Tree, x: Id, main: nat)
    requires Shape(t) && Solidity(t) && ChainsUpTo(t, x.slot) && OnChain(t, t.origin, main)
    requires x in t.nodes && t.nodes[x].solid && !OnChain(t, x, main)
    ensures t.nodes[x].chain.Some? && t.nodes[x].chain.value < |t.chains|
    ensures var fp := t.chains[t.nodes[x].chain.value].forkingPoint;
            && OnChain(t, fp, t.nodes[x].chain.value) && x in MainPath(t, fp)
            && fp != t.origin && Published(t, fp) && fp.slot <= x.slot
            && Prev(t, fp) in t.nodes && Prev(t, fp).slot + 1 == fp.slot
            && t.nodes[fp].solid && t.nodes[Prev(t, fp)].solid
  {
    assert SolidAt(t, x);
    var k := t.nodes[x].chain.value;
    ClimbToHead(t, x, k);
    var fp := t.chains[k].forkingPoint;
    PathSolid(t, fp, x);
    assert SolidAt(t, fp) && ShapeAt(t, fp);
  }

  /** The forking points met on the way from a solid commitment to the main chain, nearest first;
      None if the parent of one of them is no longer stored. */
  function Jumps(t: Tree, stored: set<Id>, main: nat, x: Id): Option<seq<Id>>
    requires Shape(t) && Solidity(t) && ChainsUpTo(t, x.slot) && OnChain(t, t.origin, main)
    requires x in t.nodes && t.nodes[x].solid
    decreases x.slot
  {
    if OnChain(t, x, main) then Some([])
    else
      SolidForkingPoint(t, x, main);
      var fp := t.chains[t.nodes[x].chain.value].forkingPoint;
      if Prev(t, fp) !in stored then None
      else
        match Jumps(t, stored, main, Prev(t, fp))
        case None => None
        case Some(rest) => Some([fp] + rest)
  }

  /** Reference definition, one parent at a time: the ancestor-or-self that is off the main chain
      while its parent is on it. */
  function Departure(t: Tree, main: nat, x: Id): Id
    requires Shape(t) && Solidity(t) && Chains(t) && OnChain(t, t.origin, main)
    requires x in t.nodes && t.nodes[x].solid && !OnChain(t, x, main)
    decreases x.slot
  {
    assert SolidAt(t, x) && ShapeAt(t, x);
    if OnChain(t, Prev(t, x), main) then x else Departure(t, main, Prev(t, x))
  }

  predicate Ancestor(t: Tree, a: Id, x: Id)
    decreases x.slot
  {
    a == x || (x.slot > a.slot && x != t.origin && Published(t, x) && Prev(t, x).slot < x.slot && Ancestor(t, a, Prev(t, x)))
  }

  // ----- The jump walk finds the departure -----

  /** Skipping along one chain does not skip the departure. */
  lemma {:induction false} DepartureAlongChain(t: Tree, main: nat, k: nat, fp: Id, n: Id)
    requires Shape(t) && Solidity(t) && Chains(t) && OnChain(t, t.origin, main)
    requires k != main && OnChain(t, fp, k) && n in MainPath(t, fp) && n in t.nodes && t.nodes[n].solid && t.nodes[fp].solid
    requires OnChain(t, n, k)
    ensures Departure(t, main, n) == Departure(t, main, fp)
    decreases n.slot
  {
    if n != fp {
      PathUp(t, fp, n);
      assert ShapeAt(t, n) && ChainAt(t, n) && SolidAt(t, n);
      DepartureAlongChain(t, main, k, fp, Prev(t, n));
    }
  }

  /** The jump walk returns nothing exactly on the main chain, and otherwise ends at the departure;
      it fails exactly when the parent of the departure is no longer stored. */
  lemma {:induction false} JumpsFindDeparture(t: Tree, stored: set<Id>, main: nat, x: Id)
    requires Shape(t) && Solidity(t) && Chains(t) && OnChain(t, t.origin, main)
    requires x in t.nodes && t.nodes[x].solid
    requires forall a, b :: a in stored && b in t.nodes && a.slot <= b.slot ==> b in stored
    ensures OnChain(t, x, main) <==> Jumps(t, stored, main, x) == Some([])
    ensures !OnChain(t, x, main) ==>
              var d := Departure(t, main, x);
              Published(t, d) && if Prev(t, d) in stored
                then Jumps(t, stored, main, x).Some? && var fps := Jumps(t, stored, main, x).value; |fps| > 0 && fps[|fps| - 1] == d
                else Jumps(t, stored, main, x).None?
    decreases x.slot
  {
    if !OnChain(t, x, main) {
      SolidForkingPoint(t, x, main);
      var k := t.nodes[x].chain.value;
      var fp := t.chains[k].forkingPoint;
      DepartureAlongChain(t, main, k, fp, x);
      var p := Prev(t, fp);
      JumpsFindDeparture(t, stored, main, p);
      if !OnChain(t, p, main) {
        DepartureIsBelow(t, main, p);
      }
    }
  }

  lemma {:induction false} DepartureIsBelow(t: Tree, main: nat, x: Id)
    requires Shape(t) && Solidity(t) && Chains(t) && OnChain(t, t.origin, main)
    requires x in t.nodes && t.nodes[x].solid && !OnChain(t, x, main)
    ensures var d := Departure(t, main, x);
            && d in t.nodes && d != t.origin && Published(t, d) && t.nodes[d].solid && !OnChain(t, d, main) && d.slot <= x.slot
            && Prev(t, d) in t.nodes && OnChain(t, Prev(t, d), main) && d.slot == Prev(t, d).slot + 1
            && Ancestor(t, d, x)
    decreases x.slot
  {
    assert SolidAt(t, x) && ShapeAt(t, x);
    if !OnChain(t, Prev(t, x), main) {
      DepartureIsBelow(t, main, Prev(t, x));
    }
  }

  /** Everything before a member of the main chain is on the main chain. */
  lemma {:induction false} AncestorsOfMain(t: Tree, main: nat, a: Id, x: Id)
    requires Shape(t) && Chains(t) && OnChain(t, t.origin, main) && OnChain(t, x, main) && Ancestor(t, a, x)
    ensures OnChain(t, a, main)
    decreases x.slot
  {
    if a != x {
      assert ShapeAt(t, x) && ChainAt(t, x) && ChainAt(t, t.origin);
      AncestorsOfMain(t, main, a, Prev(t, x));
    }
  }

  /** The departure is the only ancestor-or-self that is off the main chain while its parent is on it. */
  lemma {:induction false} DepartureIsUnique(t: Tree, main: nat, x: Id, d: Id)
    requires Shape(t) && Solidity(t) && Chains(t) && OnChain(t, t.origin, main)
    requires x in t.nodes && t.nodes[x].solid && !OnChain(t, x, main)
    requires Ancestor(t, d, x) && d != t.origin && Published(t, d) && !OnChain(t, d, main) && OnChain(t, Prev(t, d), main)
    ensures d == Departure(t, main, x)
    decreases x.slot
  {
    assert SolidAt(t, x) && ShapeAt(t, x);
    if d != x {
      var p := Prev(t, x);
      if OnChain(t, p, main) {
        AncestorsOfMain(t, main, d, p);
      } else {
        DepartureIsUnique(t, main, p, d);
      }
    }
  }

  // ----- The walk, jump by jump -----

  /** The tree is in order and the given chain is the main chain. */
  ghost predicate JumpReady(t: Tree, main: nat) {
    Shape(t) && Solidity(t) && Chains(t) && OnChain(t, t.origin, main)
  }

  /** What one jump does to the forking points still to be found. */
  lemma {:induction false} Jump(t: Tree, stored: set<Id>, main: nat, x: Id)
    requires JumpReady(t, main) && x in t.nodes && t.nodes[x].solid && !OnChain(t, x, main)
    ensures t.nodes[x].chain.Some? && t.nodes[x].chain.value < |t.chains|
    ensures var fp := t.chains[t.nodes[x].chain.value].forkingPoint;
            && Published(t, fp) && Prev(t, fp) in t.nodes && t.nodes[Prev(t, fp)].solid && Prev(t, fp).slot < fp.slot <= x.slot
            && Jumps(t, stored, main, x) == (if Prev(t, fp) !in stored then None else After(fp, Jumps(t, stored, main, Prev(t, fp))))
  {
    SolidForkingPoint(t, x, main);
  }

  function After(fp: Id, rest: Option<seq<Id>>): Option<seq<Id>> {
    if rest.None? then None else Some([fp] + rest.value)
  }

  /** Forking points found before `rest`. */
  function Before(found: seq<Id>, rest: Option<seq<Id>>): Option<seq<Id>> {
    if rest.None? then None else Some(found + rest.value)
  }

  lemma BeforeNothing(rest: Option<seq<Id>>)
    ensures Before([], rest) == rest
  {
    if rest.Some? {
      assert [] + rest.value == rest.value;
    }
  }

  lemma BeforeAfter(found: seq<Id>, fp: Id, rest: Option<seq<Id>>)
    ensures Before(found, After(fp, rest)) == Before(found + [fp], rest)
  {
    if rest.Some? {
      assert found + ([fp] + rest.value) == (found + [fp]) + rest.value;
    }
  }
}
