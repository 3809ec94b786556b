/**
 Pushing solidity down the tree with a work list.
 */
module ChainSpread {
  import opened ChainState
  import opened ChainProcess

  /** The given commitments are made solid. */
  function MakeSolid(t: Tree, solid: set<Id>): Tree {
    t.(nodes := map n | n in t.nodes :: if n in solid then t.nodes[n].(solid := true) else t.nodes[n])
  }

  /** `solid` were made solid already and `pending` are still to be visited. */
  ghost predicate Spreading(t: Tree, c: Id, solid: set<Id>, pending: set<Id>) {
    && (forall n :: n in solid + pending ==> n in t.nodes && n != c && Under(t, c, n))
    && (forall n, d :: (n == c || n in solid) && n in t.nodes && d in t.nodes[n].children ==> d in solid + pending)
  }

  lemma SpreadStart(t: Tree, c: Id)
    requires Shape(t) && c in t.nodes
    ensures Spreading(t, c, {}, t.nodes[c].children)
  {
    assert ShapeAt(t, c);
    forall n | n in t.nodes[c].children ensures n in t.nodes && n != c && Under(t, c, n) {
      assert ShapeAt(t, n);
      assert Under(t, c, Prev(t, n));
    }
  }

  /** Visiting a commitment makes it solid and schedules its children, unless it was visited before. */
  lemma SpreadVisit(t: Tree, c: Id, solid: set<Id>, pending: set<Id>, n: Id, rest: set<Id>)
    requires Shape(t) && Spreading(t, c, solid, pending) && n in pending && pending == rest + {n}
    ensures n in t.nodes
    ensures if n in solid then Spreading(t, c, solid, rest) else Spreading(t, c, solid + {n}, rest + t.nodes[n].children)
  {
    assert n in solid + pending && ShapeAt(t, n);
    forall d | d in t.nodes[n].children ensures d in t.nodes && d != c && Under(t, c, d) {
      assert ShapeAt(t, d) && Under(t, c, Prev(t, d));
    }
    var solid', rest' := solid + {n}, if n in solid then rest else rest + t.nodes[n].children;
    forall k | k in solid' + rest' ensures k in t.nodes && k != c && Under(t, c, k) {
      assert k in solid + pending || k in t.nodes[n].children;
    }
    forall k, d | (k == c || k in solid') && k in t.nodes && d in t.nodes[k].children ensures d in solid' + rest' {
      assert k != n ==> d in solid + pending;
    }
    assert n in solid ==> solid' == solid;
  }

  lemma {:induction false} SpreadCovers(t: Tree, c: Id, solid: set<Id>, n: Id)
    requires Shape(t) && Spreading(t, c, solid, {}) && n in t.nodes && Under(t, c, n)
    ensures n == c || n in solid
    decreases n.slot
  {
    if n != c {
      assert ShapeAt(t, n);
      SpreadCovers(t, c, solid, Prev(t, n));
    }
  }

  /** When nothing is pending, exactly what can be reached has become solid. */
  lemma SpreadEnd(t: Tree, c: Id, solid: set<Id>)
    requires Shape(t) && Spreading(t, c, solid, {}) && c in t.nodes && t.nodes[c].solid
    ensures MakeSolid(t, solid) == PropagateSolidity(t, c)
  {
    var u, w := MakeSolid(t, solid), PropagateSolidity(t, c);
    forall n | n in t.nodes ensures u.nodes[n] == w.nodes[n] {
      if Under(t, c, n) {
        SpreadCovers(t, c, solid, n);
      } else {
        assert n !in solid + {};
      }
    }
    assert u.nodes == w.nodes;
  }

  /** Nothing below a commitment that has just become solid is solid yet. */
  lemma {:induction false} UnderNotSolid(t: Tree, c: Id, n: Id)
    requires Shape(t) && SolidityBut(t, c) && n in t.nodes && n != c && Under(t, c, n)
    ensures !t.nodes[n].solid
    decreases n.slot
  {
    var p := Prev(t, n);
    assert ShapeAt(t, n) && ShapeAt(t, p);
    if p == c {
      assert Attached(t, n);
    } else {
      assert SolidAt(t, n);
      UnderNotSolid(t, c, p);
    }
  }

  /** One visit, on the tree as it then is. */
  lemma VisitOne(t: Tree, c: Id, solid: set<Id>, pending: set<Id>, n: Id, rest: set<Id>)
    requires Shape(t) && SolidityBut(t, c) && Spreading(t, c, solid, pending) && n in pending && pending == rest + {n}
    ensures n in t.nodes && solid + {n} <= t.nodes.Keys
    ensures var u := MakeSolid(t, solid);
            && u.nodes[n].solid == (n in solid) && u.nodes[n].children == t.nodes[n].children
            && MakeSolid(u, {n}) == MakeSolid(t, solid + {n})
            && Spreading(t, c, solid + {n}, rest + if u.nodes[n].solid then {} else u.nodes[n].children)
  {
    SpreadVisit(t, c, solid, pending, n, rest);
    assert n in solid + pending;
    UnderNotSolid(t, c, n);
    assert n in solid ==> solid + {n} == solid;
    assert rest + {} == rest;
    forall k | k in solid + {n} ensures k in t.nodes { assert k in solid + pending; }
  }
}
