/**
 A branch that a switch has separated from the tree stays separated.
 */
module ChainSeparation {
  import opened Options
  import opened ChainState
  import opened ChainStructure
  import opened ChainForks
  import opened ChainProcess
  import opened ChainReorg
  import opened ChainOps
  import opened ChainSwitchTheorems
  import opened ChainRuns
  import opened ChainEffects

  /** A published commitment that is not registered with its predecessor. */
  predicate Separated(t: Tree, m: Id) {
    Published(t, m) && m != t.origin && !Attached(t, m)
  }

  // ----- Nothing below a separated commitment can be switched to -----

  lemma {:induction false} AncestorAlongPath(t: Tree, fp: Id, x: Id, m: Id)
    requires Shape(t) && fp in t.nodes && x in MainPath(t, fp) && Ancestor(t, m, x)
    ensures (m in MainPath(t, fp) && m != fp) || Ancestor(t, m, fp)
    decreases x.slot
  {
    if x != fp && m != x {
      PathUp(t, fp, x);
      AncestorAlongPath(t, fp, Prev(t, x), m);
    }
  }

  lemma {:induction false} SeparatedIsOffMain(t: Tree, main: nat, m: Id, x: Id)
    requires JumpReady(t, main) && Separated(t, m) && Ancestor(t, m, x)
    ensures !OnChain(t, x, main)
  {
    assert ChainAt(t, m) && ShapeAt(t, m);
    if OnChain(t, x, main) {
      AncestorsOfMain(t, main, m, x);
    }
  }

  /** The walk to the main chain cannot get past a separated ancestor without jumping from it. */
  lemma {:induction false} JumpsPass(t: Tree, stored: set<Id>, main: nat, x: Id, m: Id)
    requires JumpReady(t, main) && x in t.nodes && t.nodes[x].solid && Separated(t, m) && Ancestor(t, m, x)
    requires Jumps(t, stored, main, x).Some?
    ensures m in Jumps(t, stored, main, x).value
    decreases x.slot
  {
    SeparatedIsOffMain(t, main, m, x);
    Jump(t, stored, main, x);
    var fp := t.chains[t.nodes[x].chain.value].forkingPoint;
    ClimbToHead(t, x, t.nodes[x].chain.value);
    AncestorAlongPath(t, fp, x, m);
    if m in MainPath(t, fp) && m != fp {
      PathUp(t, fp, m);
      assert false;
    }
    if m != fp {
      JumpsPass(t, stored, main, Prev(t, fp), m);
    }
  }

  lemma {:induction false} SwitchBelowSeparatedFails(s: State, m: Id, y: Id)
    requires Inv(s) && Separated(s.tree, m) && y in s.tree.nodes && Ancestor(s.tree, m, y)
    ensures SwitchTo(s, y).error.Some?
  {
    SwitchSucceedsIff(s, y);
    if s.tree.nodes[y].solid && JumpsToMain(s, y).Some? {
      MainIsOrigins(s);
      JumpsPass(s.tree, s.stored, Main(s), y, m);
      assert !AllAttached(s.tree, JumpsToMain(s, y).value);
    }
  }

  // ----- No operation registers it again -----

  lemma AcceptKeepsSeparated(t: Tree, c: Commitment, m: Id)
    requires Shape(t) && Chains(t) && Solidity(t) && Publishable(t, c) && Separated(t, m)
    ensures Separated(Accept(t, c), m)
  {
    assert ShapeAt(t, m);
    AcceptKeys(t, c);
    AcceptAt(t, c, m);
    AcceptChildren(t, c, Prev(t, m));
  }

  lemma AcceptChildren(t: Tree, c: Commitment, n: Id)
    requires Shape(t) && Chains(t) && Publishable(t, c) && n in t.nodes
    ensures n in Accept(t, c).nodes
    ensures Accept(t, c).nodes[n].children == if n == c.prev then t.nodes[n].children + {c.id} else t.nodes[n].children
  {
    hide Accept;
    AcceptLinks(t, c, n);
    assert ShapeAt(t, c.prev) && ShapeAt(t, c.id);
  }

  lemma LoadKeepsSeparated(s: State, id: Id, m: Id)
    requires Inv(s) && !IsEvicted(s, id.slot) && Separated(s.tree, m)
    ensures Separated(GetOrCreate(s, id).tree, m)
  {
    GetOrCreateKeeps(s, id);
    assert ShapeAt(s.tree, m);
  }

  lemma ProcessKeepsSeparated(s: State, c: Commitment, m: Id)
    requires Inv(s) && WellFormed(c) && Separated(s.tree, m)
    ensures Separated(Process(s, c).state.tree, m)
  {
    if Some(c) != s.tree.nodes[s.root].commitment && c.id.slot > s.root.slot {
      LoadKeepsSeparated(s, c.prev, m);
      LoadKeepsInv(s, c.prev);
      var s1 := LoadOrRequest(s, c.prev);
      LoadKeepsSeparated(s1, c.id, m);
      GetOrCreateKeeps(s1, c.id);
      var s2 := GetOrCreate(s1, c.id);
      if !Published(s2.tree, c.id) {
        AcceptKeepsSeparated(s2.tree, c, m);
      }
    }
  }

  /** Whatever its outcome, a switch registers nothing. */
  lemma SwitchKeepsSeparated(s: State, x: Id, m: Id)
    requires Inv(s) && x in s.tree.nodes && Separated(s.tree, m)
    ensures Separated(SwitchTo(s, x).state.tree, m)
  {
    hide SwitchTo, Inv;
    SwitchKeepsSolidity(s, x, m);
    SwitchKeepsOrigin(s, x);
    KnownPredecessor(s, m);
    SwitchChildren(s, x, Prev(s.tree, m));
  }

  lemma KnownPredecessor(s: State, m: Id)
    requires Inv(s) && Published(s.tree, m) && m != s.tree.origin
    ensures Prev(s.tree, m) in s.tree.nodes
  {
    assert ShapeAt(s.tree, m);
  }

  lemma StepKeepsSeparated(s: State, op: Op, m: Id)
    requires Inv(s) && Allowed(s, op) && Separated(s.tree, m)
    ensures Separated(Step(s, op).tree, m)
  {
    match op
    case Candidate(c) =>
      ProcessKeepsSeparated(s, c, m);
    case FromPeer(c, source) =>
      ProcessKeepsSeparated(s, c, m);
    case OwnEngine(c) =>
      ProcessKeepsSeparated(s, c, m);
      ProcessKeepsInv(s, c);
      ProcessNode(s, c);
      var r := Process(s, c);
      if r.wasForked && r.node.Some? {
        SwitchKeepsSeparated(r.state, r.node.value, m);
      }
    case Load(id) =>
      LoadKeepsSeparated(s, id, m);
    case Switch(head) =>
      if head in s.stored {
        SwitchKeepsSeparated(s, head, m);
      }
    case MoveRoot(id) =>
    case Evict(index) =>
  }

  lemma {:induction false} RunKeepsSeparated(s: State, ops: seq<Op>, u: State, m: Id)
    requires Inv(s) && Reported(s) && Leads(s, ops, u) && Separated(s.tree, m)
    ensures Inv(u) && Separated(u.tree, m)
    decreases |ops|
  {
    if ops != [] {
      StepKeepsInv(s, ops[0]);
      StepKeepsSeparated(s, ops[0], m);
      RunKeepsSeparated(Step(s, ops[0]), ops[1..], u, m);
    }
  }

  /** Once a switch has left an old main branch, no run of operations registers that branch again, and no switch to it or to
      anything below it ever succeeds. */
  lemma {:induction false} SeparatedForEver(s: State, x: Id, ops: seq<Op>, u: State, y: Id)
    requires Inv(s) && Reported(s) && x in s.tree.nodes && Moves(s, x) && SwitchTo(s, x).error.None?
    requires Orderly(s, x) && Leads(SwitchTo(s, x).state, ops, u)
    ensures var m := MainChild(s.tree, Prev(s.tree, LeavesAt(s, x))).value;
            Inv(u) && Separated(u.tree, m) && (y in u.tree.nodes && Ancestor(u.tree, m, y) ==> SwitchTo(u, y).error.Some?)
  {
    hide Leads;
    var m := MainChild(s.tree, Prev(s.tree, LeavesAt(s, x))).value;
    OldMainChild(s, x);
    SwitchSeparatesOldBranch(s, x);
    SwitchKeepsSolidity(s, x, m);
    SwitchKeepsOrigin(s, x);
    SwitchKeepsAll(s, x);
    RunKeepsSeparated(SwitchTo(s, x).state, ops, u, m);
    if y in u.tree.nodes && Ancestor(u.tree, m, y) {
      SwitchBelowSeparatedFails(u, m, y);
    }
  }

  lemma OldMainChild(s: State, x: Id)
    requires Inv(s) && x in s.tree.nodes && Moves(s, x)
    ensures var m := MainChild(s.tree, Prev(s.tree, LeavesAt(s, x))).value; Published(s.tree, m) && m != s.tree.origin
  {
    assert ShapeAt(s.tree, Prev(s.tree, LeavesAt(s, x)));
  }
}
