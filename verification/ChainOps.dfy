/**
 The chain manager's operations as functions on its state, and what each keeps.
 */
module ChainOps {
  import opened Options
  import opened ChainState
  import opened ChainForks
  import opened ChainProcess
  import opened ChainSwitch
  import opened ChainReorg

  /** A commitment continues its predecessor by one slot. */
  predicate WellFormed(c: Commitment) {
    c.id.slot == c.prev.slot + 1
  }

  /** A commitment ID determines the contents. */
  predicate Consistent(t: Tree, c: Commitment) {
    Published(t, c.id) ==> t.nodes[c.id].commitment.value == c
  }

  /** The manager right after it was initialized with its root commitment. */
  function Init(c: Commitment): State {
    State(Tree(c.id, map[c.id := Node(Some(c), true, None, {}, Some(0))], [NewChain(c.id)]),
          {c.id}, c.id, {}, map[], [], None)
  }

  lemma InitInv(c: Commitment)
    ensures Inv(Init(c))
  {
    var s := Init(c);
    assert ShapeAt(s.tree, c.id);
    assert ChainAt(s.tree, c.id);
    assert IndexedAt(s.tree, c.id);
    assert IndexOk(s.tree, s.tree.chains[0]);
    assert SolidAt(s.tree, c.id);
    assert RequestedAt(s, c.id);
  }

  // ----- Registering -----

  function GetOrCreate(s: State, id: Id): State {
    if id in s.stored then s else s.(tree := AddPlaceholder(s.tree, id), stored := s.stored + {id})
  }

  /** Looks a commitment up; an unknown one becomes a placeholder with an outstanding request. */
  function LoadOrRequest(s: State, id: Id): State {
    if id in s.stored then s else GetOrCreate(s, id).(requests := s.requests + {id})
  }

  /** The in-memory commitments and chains are in order. */
  ghost predicate TreeInv(t: Tree) {
    Shape(t) && Chains(t) && Indexed(t) && Solidity(t)
  }

  lemma GetOrCreateKeeps(s: State, id: Id)
    requires TreeInv(s.tree) && Rooted(s) && !IsEvicted(s, id.slot)
    ensures var u := GetOrCreate(s, id);
            && TreeInv(u.tree) && Rooted(u) && id in u.tree.nodes
            && (forall n :: n in s.tree.nodes ==> n in u.tree.nodes && u.tree.nodes[n] == s.tree.nodes[n])
            && (forall n :: n in u.tree.nodes ==> n in s.tree.nodes || (n == id && u.tree.nodes[n] == NEW_NODE))
            && u.tree.chains == s.tree.chains && u.tree.origin == s.tree.origin
  {
    if id !in s.stored {
      PlaceholderKeepsTree(s.tree, id);
    }
  }

  /** Loading a commitment on demand keeps the invariant: a placeholder is known, requested and inert. */
  lemma LoadKeepsInv(s: State, id: Id)
    requires Inv(s) && !IsEvicted(s, id.slot)
    ensures Inv(LoadOrRequest(s, id)) && id in LoadOrRequest(s, id).tree.nodes
  {
    GetOrCreateKeeps(s, id);
    var u := LoadOrRequest(s, id);
    forall n | n in u.tree.nodes ensures RequestedAt(u, n) {
      assert n in s.tree.nodes ==> RequestedAt(s, n);
    }
  }

  datatype Processed = Processed(state: State, wasForked: bool, isSolid: bool, node: Option<Id>)

  /** A commitment arrives, from a peer or from an engine. */
  ghost function Process(s: State, c: Commitment): Processed
    requires Inv(s) && WellFormed(c)
  {
    if Some(c) == s.tree.nodes[s.root].commitment then Processed(s, false, true, Some(s.root))
    else if c.id.slot <= s.root.slot then Processed(s.(requests := s.requests - {c.id}), false, false, None)
    else Enter(s, c)
  }

  /** A commitment arrives whose node and parent are loaded; `created` says that its node is new. */
  ghost function Entered(s: State, c: Commitment, created: bool): Processed
    requires Shape(s.tree) && Chains(s.tree) && WellFormed(c) && c.prev in s.tree.nodes && c.id in s.tree.nodes
  {
    if Published(s.tree, c.id) then Processed(s, false, s.tree.nodes[c.id].solid, Some(c.id))
    else Processed(s.(tree := Accept(s.tree, c), requests := if created then s.requests else s.requests - {c.id}),
                   Forks(s.tree, c), s.tree.nodes[c.prev].solid, Some(c.id))
  }

  /** A commitment above the root arrives. */
  ghost function Enter(s: State, c: Commitment): Processed
    requires Inv(s) && WellFormed(c) && c.id.slot > s.root.slot
  {
    LoadKeepsInv(s, c.prev);
    var s1 := LoadOrRequest(s, c.prev);
    GetOrCreateKeeps(s1, c.id);
    Entered(GetOrCreate(s1, c.id), c, c.id !in s1.stored)
  }

  lemma EnterKeepsInv(s: State, c: Commitment)
    requires Inv(s) && WellFormed(c) && c.id.slot > s.root.slot
    ensures Inv(Enter(s, c).state)
  {
    LoadKeepsInv(s, c.prev);
    var s1 := LoadOrRequest(s, c.prev);
    GetOrCreateKeeps(s1, c.id);
    var s2 := GetOrCreate(s1, c.id);
    if Published(s2.tree, c.id) {
      assert s2 == s1;
    } else {
      AcceptedKeepsInv(s1, c);
    }
  }

  /** A commitment whose parent is known joins the tree and is no longer requested. */
  lemma AcceptedKeepsInv(s1: State, c: Commitment)
    requires Inv(s1) && WellFormed(c) && c.prev in s1.tree.nodes && !IsEvicted(s1, c.id.slot)
    requires Shape(GetOrCreate(s1, c.id).tree) && Chains(GetOrCreate(s1, c.id).tree) && Publishable(GetOrCreate(s1, c.id).tree, c)
    ensures var s2 := GetOrCreate(s1, c.id);
            Inv(s2.(tree := Accept(s2.tree, c), requests := if c.id !in s1.stored then s2.requests else s2.requests - {c.id}))
  {
    GetOrCreateKeeps(s1, c.id);
    var s2 := GetOrCreate(s1, c.id);
    var u := s2.(tree := Accept(s2.tree, c), requests := if c.id !in s1.stored then s2.requests else s2.requests - {c.id});
    assert TreeInv(u.tree) by { AcceptKeepsTree(s2.tree, c); }
    AcceptKeys(s2.tree, c);
    EnterKeepsRoot(s2, c, u);
    hide Accept;
    forall n | n in u.tree.nodes ensures RequestedAt(u, n) {
      AcceptAt(s2.tree, c, n);
      assert n in s1.tree.nodes ==> RequestedAt(s1, n);
    }
  }

  lemma AcceptKeys(t: Tree, c: Commitment)
    requires Shape(t) && Chains(t) && Publishable(t, c)
    ensures Accept(t, c).nodes.Keys == t.nodes.Keys && Accept(t, c).origin == t.origin
  {
    RegisterKeepsShape(t, c);
    RegisterChains(t, c);
  }

  /** After registering, accepting a commitment only hands out chains and solidity. */
  lemma AcceptLinks(t: Tree, c: Commitment, n: Id)
    requires Shape(t) && Chains(t) && Publishable(t, c) && n in t.nodes
    ensures n in Accept(t, c).nodes && n in Register(t, c).nodes
    ensures Accept(t, c).nodes[n].(chain := None, solid := false) == Register(t, c).nodes[n].(chain := None, solid := false)
  {
    hide Register, MainPath;
    AcceptKeys(t, c);
    RegisterKeepsShape(t, c);
    RegisterChains(t, c);
  }

  lemma EnterKeepsRoot(s: State, c: Commitment, u: State)
    requires TreeInv(s.tree) && Rooted(s) && Publishable(s.tree, c)
    requires u.tree == Accept(s.tree, c) && u.root == s.root && u.evicted == s.evicted && u.stored == s.stored
    ensures Rooted(u)
  {
    AcceptKeys(s.tree, c);
    AcceptAt(s.tree, c, s.root);
    AcceptAt(s.tree, c, s.tree.origin);
    assert SolidAt(s.tree, s.root) && SolidAt(s.tree, s.tree.origin);
  }

  /** Processing any commitment in any order keeps the invariant. */
  lemma ProcessKeepsInv(s: State, c: Commitment)
    requires Inv(s) && WellFormed(c)
    ensures Inv(Process(s, c).state)
  {
    if Some(c) != s.tree.nodes[s.root].commitment {
      if c.id.slot > s.root.slot {
        EnterKeepsInv(s, c);
      } else {
        var u := s.(requests := s.requests - {c.id});
        forall n | n in u.tree.nodes ensures RequestedAt(u, n) {
          assert RequestedAt(s, n);
        }
      }
    }
  }

  // ----- Switching the main chain -----

  datatype SwitchError = UnknownCommitment | NotSolid | NotRegistered

  datatype Switched = Switched(state: State, error: Option<SwitchError>)

  /** The number of the main chain, which is the root commitment's chain. */
  ghost function Main(s: State): nat
    requires Inv(s)
  {
    assert SolidAt(s.tree, s.root);
    s.tree.nodes[s.root].chain.value
  }

  lemma MainIsOrigins(s: State)
    requires Inv(s)
    ensures OnChain(s.tree, s.tree.origin, Main(s)) && OnChain(s.tree, s.root, Main(s)) && Main(s) < |s.tree.chains|
    ensures forall slot :: ChainsUpTo(s.tree, slot)
  {
    assert SolidAt(s.tree, s.root) && ChainAt(s.tree, s.root);
  }

  /** The jump walk of a solid commitment against the main chain. */
  ghost function JumpsToMain(s: State, x: Id): Option<seq<Id>>
    requires Inv(s) && x in s.tree.nodes && s.tree.nodes[x].solid
  {
    MainIsOrigins(s);
    Jumps(s.tree, s.stored, Main(s), x)
  }

  /** The stored part of the tree is what lies above the last evicted slot. */
  lemma {:induction false} JumpsToMainEnd(s: State, x: Id)
    requires Inv(s) && x in s.tree.nodes && s.tree.nodes[x].solid
    ensures OnChain(s.tree, x, Main(s)) <==> JumpsToMain(s, x) == Some([])
    ensures JumpsToMain(s, x).Some? && JumpsToMain(s, x).value != [] ==>
              var fps := JumpsToMain(s, x).value; var d := fps[|fps| - 1];
              && OnChain(s.tree, s.tree.origin, Main(s)) && !OnChain(s.tree, x, Main(s)) && d == Departure(s.tree, Main(s), x)
              && s.tree.nodes[x].chain.Some? && s.tree.nodes[x].chain.value < |s.tree.chains|
              && fps[0] == s.tree.chains[s.tree.nodes[x].chain.value].forkingPoint
              && Published(s.tree, d) && Prev(s.tree, d) in s.stored
    ensures JumpsToMain(s, x).None? ==>
              && OnChain(s.tree, s.tree.origin, Main(s)) && !OnChain(s.tree, x, Main(s))
              && Published(s.tree, Departure(s.tree, Main(s), x)) && Prev(s.tree, Departure(s.tree, Main(s), x)) !in s.stored
  {
    MainIsOrigins(s);
    assert SolidAt(s.tree, x) && ChainAt(s.tree, x);
    JumpsFindDeparture(s.tree, s.stored, Main(s), x);
  }

  lemma FirstRoundReady(s: State, x: Id)
    requires Inv(s) && x in s.tree.nodes && s.tree.nodes[x].solid && JumpsToMain(s, x).Some? && JumpsToMain(s, x).value != []
    ensures RoundReady(s.tree, JumpsToMain(s, x).value[0], Main(s), None)
    ensures x in MainPath(s.tree, JumpsToMain(s, x).value[0])
    ensures IndexedBut(s.tree, Main(s), JumpsToMain(s, x).value[0].slot)
  {
    MainIsOrigins(s);
    JumpsToMainEnd(s, x);
    SolidForkingPoint(s.tree, x, Main(s));
  }

  lemma DepartureParent(s: State, x: Id)
    requires Inv(s) && x in s.tree.nodes && s.tree.nodes[x].solid && JumpsToMain(s, x).Some? && JumpsToMain(s, x).value != []
    ensures var fps := JumpsToMain(s, x).value; var d := fps[|fps| - 1];
            && d != s.tree.origin && Published(s.tree, d) && Prev(s.tree, d) in s.tree.nodes && d.slot == Prev(s.tree, d).slot + 1
            && MainChild(s.tree, Prev(s.tree, d)).Some? && MainChild(s.tree, Prev(s.tree, d)).value != d
            && s.tree.nodes[Prev(s.tree, d)].solid && OnChain(s.tree, Prev(s.tree, d), Main(s)) && !OnChain(s.tree, d, Main(s))
            && Ancestor(s.tree, d, x)
  {
    MainIsOrigins(s);
    JumpsToMainEnd(s, x);
    DepartureIsBelow(s.tree, Main(s), x);
    var fps := JumpsToMain(s, x).value;
    var d := fps[|fps| - 1];
    assert ShapeAt(s.tree, d) && ShapeAt(s.tree, Prev(s.tree, d)) && ChainAt(s.tree, d) && SolidAt(s.tree, d);
  }

  /** The switch moves at least one commitment to the main chain. */
  ghost predicate Moves(s: State, x: Id)
    requires Inv(s) && x in s.tree.nodes
  {
    s.tree.nodes[x].solid && JumpsToMain(s, x).Some? && JumpsToMain(s, x).value != []
  }

  /** Where the new main branch leaves the old main chain. */
  ghost function LeavesAt(s: State, x: Id): (d: Id)
    requires Inv(s) && x in s.tree.nodes && Moves(s, x)
    ensures Published(s.tree, d) && Prev(s.tree, d) in s.tree.nodes && MainChild(s.tree, Prev(s.tree, d)).Some?
  {
    DepartureParent(s, x);
    var fps := JumpsToMain(s, x).value;
    fps[|fps| - 1]
  }

  ghost function AllRounds(s: State, x: Id): Reorg
    requires Inv(s) && x in s.tree.nodes && Moves(s, x)
  {
    FirstRoundReady(s, x);
    Rounds(s.tree, JumpsToMain(s, x).value[0], Main(s), None)
  }

  lemma FirstJump(s: State, x: Id)
    requires Inv(s) && x in s.tree.nodes && Moves(s, x)
    ensures var fp := JumpsToMain(s, x).value[0];
            fp in s.tree.nodes && s.tree.nodes[fp].solid && JumpsToMain(s, fp) == JumpsToMain(s, x)
  {
    MainIsOrigins(s);
    JumpsToMainEnd(s, x);
    SolidForkingPoint(s.tree, x, Main(s));
  }

  /** Everything the rounds of a switch achieve when they complete. */
  lemma AllRoundsComplete(s: State, x: Id)
    requires Inv(s) && x in s.tree.nodes && Moves(s, x) && AllRounds(s, x).Done?
    ensures var w := AllRounds(s, x).tree;
            && TreeInv(w) && Evolved(s.tree, w, Main(s)) && EndsAt(s.tree, w, Main(s), LeavesAt(s, x))
            && OnChain(w, x, Main(s)) && OnChain(w, w.origin, Main(s))
  {
    hide Rounds, EndsAt, Evolved;
    MainIsOrigins(s);
    FirstRoundReady(s, x);
    FirstJump(s, x);
    RoundsComplete(s.tree, JumpsToMain(s, x).value[0], Main(s), s.stored, x);
  }

  /** Switches the main chain so that it runs through the given commitment. */
  ghost function SwitchTo(s: State, x: Id): Switched
    requires Inv(s) && x in s.tree.nodes
  {
    if !s.tree.nodes[x].solid then Switched(s, Some(NotSolid))
    else if JumpsToMain(s, x).None? then Switched(s, Some(UnknownCommitment))
    else if JumpsToMain(s, x).value == [] then Switched(s, None)
    else
      match AllRounds(s, x)
      case Stuck(w) => Switched(s.(tree := w), Some(NotRegistered))
      case Done(w) =>
        AllRoundsComplete(s, x);
        var p := Prev(s.tree, LeavesAt(s, x));
        Switched(s.(tree := Detach(w, p, MainChild(s.tree, p).value)), None)
  }

  ghost function SwitchMainChain(s: State, head: Id): Switched
    requires Inv(s)
  {
    if head !in s.stored then Switched(s, Some(UnknownCommitment)) else SwitchTo(s, head)
  }

  /** The old main branch can be taken off its parent after the rounds. */
  lemma SwitchDetaches(s: State, x: Id)
    requires Inv(s) && x in s.tree.nodes && Moves(s, x) && AllRounds(s, x).Done?
    ensures var w, p := AllRounds(s, x).tree, Prev(s.tree, LeavesAt(s, x)); var m := MainChild(s.tree, p).value;
            && p in w.nodes && w.nodes[p].solid && m in w.nodes[p].children && MainChild(w, p) == Some(LeavesAt(s, x))
            && m != LeavesAt(s, x)
  {
    hide AllRounds, Jumps;
    var w, d := AllRounds(s, x).tree, LeavesAt(s, x);
    assert EndsAt(s.tree, w, Main(s), d) by { AllRoundsComplete(s, x); }
    EndsParent(s.tree, w, Main(s), d);
    DepartureParent(s, x);
  }

  /** A successful switch leaves the whole tree in order. */
  lemma SwitchKeepsTree(s: State, x: Id)
    requires Inv(s) && x in s.tree.nodes && SwitchTo(s, x).error.None?
    ensures TreeInv(SwitchTo(s, x).state.tree)
  {
    if Moves(s, x) {
      SwitchDetaches(s, x);
      AllRoundsComplete(s, x);
      var p := Prev(s.tree, LeavesAt(s, x));
      DetachKeepsTree(AllRounds(s, x).tree, p, MainChild(s.tree, p).value);
    }
  }
}
