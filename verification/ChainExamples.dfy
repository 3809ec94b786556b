/**
 Short runs of the chain manager after which a switch of the main chain does not leave everything in order.
 */
module ChainExamples {
  import opened Options
  import opened ChainState
  import opened ChainForks
  import opened ChainProcess
  import opened ChainSwitch
  import opened ChainReorg
  import opened ChainOps
  import opened ChainSwitchTheorems
  import opened ChainRuns

  // ----- The arrival of a leaf -----

  /** A solid commitment's tree with one more child that nobody waits for. */
  function WithLeaf(t: Tree, c: Commitment): Tree
    requires c.prev in t.nodes && (t.nodes[c.prev].chain.Some? ==> t.nodes[c.prev].chain.value < |t.chains|)
  {
    Tree(t.origin,
         t.nodes[c.prev := ParentWith(t, c)][c.id := Node(Some(c), true, None, {}, ChainFor(t, c))],
         ChainsWith(t, c))
  }

  lemma {:induction false} NothingUnderLeaf(t: Tree, a: Id, d: Id)
    requires a in t.nodes && t.nodes[a].children == {} && Under(t, a, d)
    ensures d == a
    decreases d.slot
  {
    if d != a {
      NothingUnderLeaf(t, a, Prev(t, d));
    }
  }

  lemma LeafAccepted(t: Tree, c: Commitment)
    requires Shape(t) && Chains(t) && Solidity(t) && Publishable(t, c) && t.nodes[c.id] == NEW_NODE && t.nodes[c.prev].solid
    ensures t.nodes[c.prev].chain.Some? && t.nodes[c.prev].chain.value < |t.chains| && Accept(t, c) == WithLeaf(t, c)
  {
    assert SolidAt(t, c.prev) && ChainAt(t, c.prev);
    RegisterKeepsShape(t, c);
    RegisterChains(t, c);
    var u := Register(t, c);
    assert u == WithLeaf(t, c);
    assert MainChild(u, c.id) == None;
    forall n | n in u.nodes && Under(u, c.id, n) ensures n == c.id { NothingUnderLeaf(u, c.id, n); }
    assert PropagateSolidity(u, c.id).nodes == u.nodes;
  }

  /** A new commitment on a stored solid one only adds a leaf. */
  lemma LeafArrives(s: State, c: Commitment)
    requires Inv(s) && WellFormed(c) && c.id !in s.tree.nodes && c.prev in s.stored && c.prev in s.tree.nodes && s.tree.nodes[c.prev].solid
    requires c.id.slot > s.root.slot
    ensures s.tree.nodes[c.prev].chain.Some? && s.tree.nodes[c.prev].chain.value < |s.tree.chains|
    ensures Process(s, c).state == s.(tree := WithLeaf(s.tree, c), stored := s.stored + {c.id})
  {
    assert SolidAt(s.tree, s.root) && ShapeAt(s.tree, s.root);
    GetOrCreateKeeps(s, c.id);
    var t := AddPlaceholder(s.tree, c.id);
    LeafAccepted(t, c);
    assert WithLeaf(t, c).nodes == WithLeaf(s.tree, c).nodes;
  }

  // ----- Going step by step -----

  lemma {:induction false} Then(s: State, op: Op, v: State, rest: seq<Op>, u: State)
    requires Inv(s) && Allowed(s, op) && Step(s, op) == v && Leads(v, rest, u)
    ensures Leads(s, [op] + rest, u)
  {
    assert ([op] + rest)[1..] == rest;
  }

  /** A state that can be reached from the initial one, with what is kept on the way. */
  ghost predicate Good(s: State) {
    Inv(s) && Reported(s)
  }

  lemma ThenLeaf(s: State, c: Commitment)
    requires Good(s) && WellFormed(c) && c.id !in s.tree.nodes && c.prev in s.stored && c.prev in s.tree.nodes && s.tree.nodes[c.prev].solid
    requires c.id.slot > s.root.slot
    ensures s.tree.nodes[c.prev].chain.Some? && s.tree.nodes[c.prev].chain.value < |s.tree.chains|
    ensures Allowed(s, Candidate(c)) && Step(s, Candidate(c)) == s.(tree := WithLeaf(s.tree, c), stored := s.stored + {c.id})
    ensures Good(Step(s, Candidate(c)))
  {
    LeafArrives(s, c);
    StepKeepsInv(s, Candidate(c));
  }

  // ----- The commitments and the states -----

  const G := Id(0, 0)
  const A1 := Id(1, 1)
  const A2 := Id(2, 1)
  const B1 := Id(1, 2)
  const C2 := Id(2, 2)

  function Of(id: Id, prev: Id): Commitment {
    Commitment(id, prev, id.slot)
  }

  const CG := Of(G, Id(0, 1))
  const CA1 := Of(A1, G)
  const CA2 := Of(A2, A1)
  const CB1 := Of(B1, G)
  const CC2 := Of(C2, A1)

  function Plain(t: Tree, stored: set<Id>): State {
    State(t, stored, G, {}, map[], [], None)
  }

  /** A1 arrived on G. */
  function Tree1(): Tree {
    Tree(G,
         map[G := Node(Some(CG), true, Some(A1), {A1}, Some(0)),
             A1 := Node(Some(CA1), true, None, {}, Some(0))],
         [Chain(G, 1, map[0 := G, 1 := A1])])
  }

  /** Then A2 on A1. */
  function Tree2(): Tree {
    Tree(G,
         map[G := Node(Some(CG), true, Some(A1), {A1}, Some(0)),
             A1 := Node(Some(CA1), true, Some(A2), {A2}, Some(0)),
             A2 := Node(Some(CA2), true, None, {}, Some(0))],
         [Chain(G, 2, map[0 := G, 1 := A1, 2 := A2])])
  }

  /** Then B1 on G. */
  function Tree3(): Tree {
    Tree(G,
         map[G := Node(Some(CG), true, Some(A1), {A1, B1}, Some(0)),
             A1 := Node(Some(CA1), true, Some(A2), {A2}, Some(0)),
             A2 := Node(Some(CA2), true, None, {}, Some(0)),
             B1 := Node(Some(CB1), true, None, {}, Some(1))],
         [Chain(G, 2, map[0 := G, 1 := A1, 2 := A2]), Chain(B1, 1, map[1 := B1])])
  }

  /** Then the main chain was switched to B1, which separated A1 from G. */
  function Tree4(): Tree {
    Tree(G,
         map[G := Node(Some(CG), true, Some(B1), {B1}, Some(0)),
             A1 := Node(Some(CA1), true, Some(A2), {A2}, Some(2)),
             A2 := Node(Some(CA2), true, None, {}, Some(2)),
             B1 := Node(Some(CB1), true, None, {}, Some(0))],
         [Chain(G, 2, map[0 := G, 1 := B1, 2 := A2]), Chain(B1, 1, map[1 := B1]), Chain(A1, 2, map[1 := A1, 2 := A2])])
  }

  /** Then C2 forked off from A1. */
  function Separated(): Tree {
    Tree(G,
         map[G := Node(Some(CG), true, Some(B1), {B1}, Some(0)),
             A1 := Node(Some(CA1), true, Some(A2), {A2, C2}, Some(2)),
             A2 := Node(Some(CA2), true, None, {}, Some(2)),
             B1 := Node(Some(CB1), true, None, {}, Some(0)),
             C2 := Node(Some(CC2), true, None, {}, Some(3))],
         [Chain(G, 2, map[0 := G, 1 := B1, 2 := A2]), Chain(B1, 1, map[1 := B1]),
          Chain(A1, 2, map[1 := A1, 2 := A2]), Chain(C2, 2, map[2 := C2])])
  }

  function SeparatedState(): State {
    Plain(Separated(), {G, A1, A2, B1, C2})
  }

  /** A1 and B1 arrived on G, and the root was moved to A1. */
  function RootedTree(): Tree {
    Tree(G,
         map[G := Node(Some(CG), true, Some(A1), {A1, B1}, Some(0)),
             A1 := Node(Some(CA1), true, None, {}, Some(0)),
             B1 := Node(Some(CB1), true, None, {}, Some(1))],
         [Chain(G, 1, map[0 := G, 1 := A1]), Chain(B1, 1, map[1 := B1])])
  }

  function RootedState(): State {
    Plain(RootedTree(), {G, A1, B1}).(root := A1)
  }

  lemma Leaf1()
    ensures WithLeaf(Init(CG).tree, CA1) == Tree1()
  {
    var t := Init(CG).tree;
    assert t.nodes[G].children + {A1} == {A1};
    assert WithLeaf(t, CA1).nodes == Tree1().nodes;
    assert WithLeaf(t, CA1).chains == Tree1().chains;
  }

  lemma Leaf2()
    ensures WithLeaf(Tree1(), CA2) == Tree2()
  {
    assert Tree1().nodes[A1].children + {A2} == {A2};
    assert WithLeaf(Tree1(), CA2).nodes == Tree2().nodes;
    assert WithLeaf(Tree1(), CA2).chains == Tree2().chains;
  }

  lemma FirstOnOwnChain(id: Id)
    ensures AddCommitment(NewChain(id), id) == Chain(id, id.slot, map[id.slot := id])
  {
  }

  lemma Leaf3()
    ensures WithLeaf(Tree2(), CB1) == Tree3()
  {
    assert Tree2().nodes[G].children + {B1} == {A1, B1};
    FirstOnOwnChain(B1);
    assert WithLeaf(Tree2(), CB1).nodes == Tree3().nodes;
    assert WithLeaf(Tree2(), CB1).chains == Tree3().chains;
  }

  lemma Leaf5()
    ensures WithLeaf(Tree4(), CC2) == Separated()
  {
    assert Tree4().nodes[A1].children + {C2} == {A2, C2};
    FirstOnOwnChain(C2);
    assert WithLeaf(Tree4(), CC2).nodes == Separated().nodes;
    assert WithLeaf(Tree4(), CC2).chains == Separated().chains;
  }

  lemma LeafRooted()
    ensures WithLeaf(Tree1(), CB1) == RootedTree()
  {
    assert Tree1().nodes[G].children + {B1} == {A1, B1};
    FirstOnOwnChain(B1);
    assert WithLeaf(Tree1(), CB1).nodes == RootedTree().nodes;
    assert WithLeaf(Tree1(), CB1).chains == RootedTree().chains;
  }

  // ----- The switch to B1 -----

  /** B1 takes the place of A1, which gets a chain of its own. */
  function Relinked(): Tree {
    Tree(G,
         map[G := Node(Some(CG), true, Some(B1), {A1, B1}, Some(0)),
             A1 := Node(Some(CA1), true, Some(A2), {A2}, Some(0)),
             A2 := Node(Some(CA2), true, None, {}, Some(0)),
             B1 := Node(Some(CB1), true, None, {}, Some(1))],
         [Chain(G, 2, map[0 := G, 1 := A1, 2 := A2]), Chain(B1, 1, map[1 := B1]), Chain(A1, 1, map[1 := A1])])
  }

  /** A1 and A2 moved to that chain. */
  function PathLeft(): Tree {
    Tree(G,
         map[G := Node(Some(CG), true, Some(B1), {A1, B1}, Some(0)),
             A1 := Node(Some(CA1), true, Some(A2), {A2}, Some(2)),
             A2 := Node(Some(CA2), true, None, {}, Some(2)),
             B1 := Node(Some(CB1), true, None, {}, Some(1))],
         [Chain(G, 2, map[0 := G, 1 := A1, 2 := A2]), Chain(B1, 1, map[1 := B1]), Chain(A1, 2, map[1 := A1, 2 := A2])])
  }

  /** B1 moved to the main chain. */
  function PathJoined(): Tree {
    Tree(G,
         map[G := Node(Some(CG), true, Some(B1), {A1, B1}, Some(0)),
             A1 := Node(Some(CA1), true, Some(A2), {A2}, Some(2)),
             A2 := Node(Some(CA2), true, None, {}, Some(2)),
             B1 := Node(Some(CB1), true, None, {}, Some(0))],
         [Chain(G, 2, map[0 := G, 1 := B1, 2 := A2]), Chain(B1, 1, map[1 := B1]), Chain(A1, 2, map[1 := A1, 2 := A2])])
  }

  lemma RelinkedIs()
    ensures Published(Tree3(), B1) && Prev(Tree3(), B1) == G && MainChild(Tree3(), G) == Some(A1)
    ensures Relink(Tree3(), B1) == Relinked()
  {
    assert Relink(Tree3(), B1).nodes == Relinked().nodes;
    assert Relink(Tree3(), B1).chains == Relinked().chains;
  }

  lemma AddTwo()
    ensures AddAll(Chain(A1, 1, map[1 := A1]), [A1, A2]) == Chain(A1, 2, map[1 := A1, 2 := A2])
  {
    var ch := Chain(A1, 1, map[1 := A1]);
    assert [A1, A2][..1] == [A1] && [A1][..0] == [];
    assert AddAll(ch, []) == ch;
    assert AddAll(ch, [A1]).index == map[1 := A1];
    assert AddAll(ch, [A1, A2]).index == map[1 := A1, 2 := A2];
  }

  lemma AddOne()
    ensures AddAll(Chain(G, 2, map[0 := G, 1 := A1, 2 := A2]), [B1]) == Chain(G, 2, map[0 := G, 1 := B1, 2 := A2])
  {
    var ch := Chain(G, 2, map[0 := G, 1 := A1, 2 := A2]);
    assert [B1][..0] == [];
    assert AddAll(ch, []) == ch;
    assert AddAll(ch, [B1]).index == map[0 := G, 1 := B1, 2 := A2];
  }

  lemma PathLeftIs()
    requires Shape(Relinked())
    ensures A1 in Relinked().nodes && PutOnChain(Relinked(), MainPath(Relinked(), A1), 2) == PathLeft()
  {
    var u := Relinked();
    assert MainChild(u, A1) == Some(A2) && MainChild(u, A2) == None;
    assert MainPath(u, A2) == [A2];
    assert MainPath(u, A1) == [A1] + [A2] == [A1, A2];
    AddTwo();
    assert PutOnChain(u, [A1, A2], 2).nodes == PathLeft().nodes;
    assert PutOnChain(u, [A1, A2], 2).chains == PathLeft().chains;
  }

  lemma PathJoinedIs()
    requires Shape(PathLeft())
    ensures B1 in PathLeft().nodes && PutOnChain(PathLeft(), MainPath(PathLeft(), B1), 0) == PathJoined()
  {
    var v := PathLeft();
    assert MainChild(v, B1) == None;
    assert MainPath(v, B1) == [B1];
    AddOne();
    assert PutOnChain(v, [B1], 0).nodes == PathJoined().nodes;
    assert PutOnChain(v, [B1], 0).chains == PathJoined().chains;
  }

  lemma SwitchedStep()
    requires Shape(Tree3())
    ensures Promotable(Tree3(), B1) && SwitchStep(Tree3(), B1, 0) == PathJoined()
  {
    RelinkedIs();
    assert Promotable(Tree3(), B1);
    RelinkKeepsShape(Tree3(), B1);
    PathLeftIs();
    DisplaceFrame(Tree3(), B1);
    PathJoinedIs();
  }

  lemma DetachedIs()
    ensures Detach(PathJoined(), G, A1) == Tree4()
  {
    assert PathJoined().nodes[G].children - {A1} == {B1};
    assert Detach(PathJoined(), G, A1).nodes == Tree4().nodes;
  }

  lemma SwitchToB1(s: State)
    requires Good(s) && s == Plain(Tree3(), {G, A1, A2, B1})
    ensures Allowed(s, Switch(B1)) && Step(s, Switch(B1)) == Plain(Tree4(), s.stored)
    ensures Good(Step(s, Switch(B1)))
  {
    var t := s.tree;
    assert Main(s) == 0;
    MainIsOrigins(s);
    assert Jumps(t, s.stored, 0, G) == Some([]);
    Jump(t, s.stored, 0, B1);
    assert t.chains[t.nodes[B1].chain.value].forkingPoint == B1 && Prev(t, B1) == G;
    assert Jumps(t, s.stored, 0, B1) == Some([B1]) by { assert [B1] + [] == [B1]; }
    assert Moves(s, B1) && LeavesAt(s, B1) == B1;
    FirstRoundReady(s, B1);
    SwitchedStep();
    hide SwitchStep;
    assert Attached(t, B1) && OnChain(t, G, 0);
    assert AllRounds(s, B1) == Done(PathJoined());
    DetachedIs();
    assert SwitchTo(s, B1) == Switched(Plain(Tree4(), s.stored), None);
    StepKeepsInv(s, Switch(B1));
  }

  // ----- The runs -----

  lemma Start()
    ensures Good(Init(CG)) && Init(CG) == Plain(Init(CG).tree, {G})
  {
    InitInv(CG);
  }

  lemma AfterA1()
    ensures var s, u := Init(CG), Plain(Tree1(), {G, A1});
            Good(s) && Allowed(s, Candidate(CA1)) && Step(s, Candidate(CA1)) == u && Good(u)
  {
    hide Good, Allowed, Step;
    Start();
    ThenLeaf(Init(CG), CA1);
    Leaf1();
    assert Init(CG).stored + {A1} == {G, A1};
  }

  lemma AfterA2()
    ensures var s, u := Plain(Tree1(), {G, A1}), Plain(Tree2(), {G, A1, A2});
            Good(s) && Allowed(s, Candidate(CA2)) && Step(s, Candidate(CA2)) == u && Good(u)
  {
    hide Good, Allowed, Step;
    AfterA1();
    ThenLeaf(Plain(Tree1(), {G, A1}), CA2);
    Leaf2();
    assert {G, A1} + {A2} == {G, A1, A2};
  }

  lemma AfterB1()
    ensures var s, u := Plain(Tree2(), {G, A1, A2}), Plain(Tree3(), {G, A1, A2, B1});
            Good(s) && Allowed(s, Candidate(CB1)) && Step(s, Candidate(CB1)) == u && Good(u)
  {
    hide Good, Allowed, Step;
    AfterA2();
    ThenLeaf(Plain(Tree2(), {G, A1, A2}), CB1);
    Leaf3();
    assert {G, A1, A2} + {B1} == {G, A1, A2, B1};
  }

  lemma AfterSwitch()
    ensures var s, u := Plain(Tree3(), {G, A1, A2, B1}), Plain(Tree4(), {G, A1, A2, B1});
            Good(s) && Allowed(s, Switch(B1)) && Step(s, Switch(B1)) == u && Good(u)
  {
    AfterB1();
    SwitchToB1(Plain(Tree3(), {G, A1, A2, B1}));
  }

  lemma AfterC2()
    ensures var s, u := Plain(Tree4(), {G, A1, A2, B1}), SeparatedState();
            Good(s) && Allowed(s, Candidate(CC2)) && Step(s, Candidate(CC2)) == u && Good(u)
  {
    hide Good, Allowed, Step;
    AfterSwitch();
    ThenLeaf(Plain(Tree4(), {G, A1, A2, B1}), CC2);
    Leaf5();
    assert {G, A1, A2, B1} + {C2} == {G, A1, A2, B1, C2};
  }

  const SEPARATING: seq<Op> := [Candidate(CA1), Candidate(CA2), Candidate(CB1), Switch(B1), Candidate(CC2)]

  lemma SeparatedReached()
    ensures Leads(Init(CG), SEPARATING, SeparatedState()) && Good(SeparatedState())
  {
    hide Good, Allowed, Step, Inv, Separated, Tree1, Tree2, Tree3, Tree4;
    AfterA1();
    AfterA2();
    AfterB1();
    AfterSwitch();
    AfterC2();
    GoodInv(Init(CG));
    GoodInv(Plain(Tree1(), {G, A1}));
    GoodInv(Plain(Tree2(), {G, A1, A2}));
    GoodInv(Plain(Tree3(), {G, A1, A2, B1}));
    GoodInv(Plain(Tree4(), {G, A1, A2, B1}));
    var u := SeparatedState();
    var rest: seq<Op> := [];
    Then(Plain(Tree4(), {G, A1, A2, B1}), Candidate(CC2), u, rest, u);
    rest := [Candidate(CC2)] + rest;
    Then(Plain(Tree3(), {G, A1, A2, B1}), Switch(B1), Plain(Tree4(), {G, A1, A2, B1}), rest, u);
    rest := [Switch(B1)] + rest;
    Then(Plain(Tree2(), {G, A1, A2}), Candidate(CB1), Plain(Tree3(), {G, A1, A2, B1}), rest, u);
    rest := [Candidate(CB1)] + rest;
    Then(Plain(Tree1(), {G, A1}), Candidate(CA2), Plain(Tree2(), {G, A1, A2}), rest, u);
    rest := [Candidate(CA2)] + rest;
    Then(Init(CG), Candidate(CA1), Plain(Tree1(), {G, A1}), rest, u);
    assert [Candidate(CA1)] + rest == SEPARATING;
  }

  lemma GoodInv(s: State)
    requires Good(s)
    ensures Inv(s)
  {
  }

  lemma AfterB1Alone()
    ensures var s, u := Plain(Tree1(), {G, A1}), Plain(RootedTree(), {G, A1, B1});
            Good(s) && Allowed(s, Candidate(CB1)) && Step(s, Candidate(CB1)) == u && Good(u)
  {
    hide Good, Allowed, Step;
    AfterA1();
    ThenLeaf(Plain(Tree1(), {G, A1}), CB1);
    LeafRooted();
    assert {G, A1} + {B1} == {G, A1, B1};
  }

  lemma AfterMove()
    ensures var s, u := Plain(RootedTree(), {G, A1, B1}), RootedState();
            Good(s) && Allowed(s, MoveRoot(A1)) && Step(s, MoveRoot(A1)) == u && Good(u)
  {
    AfterB1Alone();
    var s := Plain(RootedTree(), {G, A1, B1});
    assert Main(s) == 0;
    StepKeepsInv(s, MoveRoot(A1));
  }

  const ROOTING: seq<Op> := [Candidate(CA1), Candidate(CB1), MoveRoot(A1)]

  lemma RootedReached()
    ensures Leads(Init(CG), ROOTING, RootedState()) && Good(RootedState())
  {
    hide Good, Allowed, Step, Inv, RootedTree, Tree1;
    AfterA1();
    AfterB1Alone();
    AfterMove();
    GoodInv(Init(CG));
    GoodInv(Plain(Tree1(), {G, A1}));
    GoodInv(Plain(RootedTree(), {G, A1, B1}));
    var u := RootedState();
    var rest: seq<Op> := [];
    Then(Plain(RootedTree(), {G, A1, B1}), MoveRoot(A1), u, rest, u);
    rest := [MoveRoot(A1)] + rest;
    Then(Plain(Tree1(), {G, A1}), Candidate(CB1), Plain(RootedTree(), {G, A1, B1}), rest, u);
    rest := [Candidate(CB1)] + rest;
    Then(Init(CG), Candidate(CA1), Plain(Tree1(), {G, A1}), rest, u);
    assert [Candidate(CA1)] + rest == ROOTING;
  }

  // ----- What goes wrong -----

  /** After that run, switching to C2 reorganizes the branch below A1, is refused at A1, and leaves the chains out of order. */
  lemma RefusedSwitchBreaksChains()
    ensures Leads(Init(CG), SEPARATING, SeparatedState()) && Inv(SeparatedState())
    ensures var r := SwitchTo(SeparatedState(), C2); r.error.Some? && !Chains(r.state.tree)
  {
    var s := SeparatedState();
    SeparatedReached();
    hide Leads;
    var t := s.tree;
    assert Main(s) == 0;
    MainIsOrigins(s);
    assert Jumps(t, s.stored, 0, G) == Some([]);
    Jump(t, s.stored, 0, A1);
    assert t.chains[t.nodes[A1].chain.value].forkingPoint == A1 && Prev(t, A1) == G;
    assert Jumps(t, s.stored, 0, A1) == Some([A1]) by { assert [A1] + [] == [A1]; }
    Jump(t, s.stored, 0, C2);
    assert t.chains[t.nodes[C2].chain.value].forkingPoint == C2 && Prev(t, C2) == A1;
    assert Jumps(t, s.stored, 0, C2) == Some([C2, A1]) by { assert [C2] + [A1] == [C2, A1]; }
    assert !AllAttached(t, [C2, A1]) by { assert !Attached(t, [C2, A1][1]); }
    SwitchSucceedsIff(s, C2);
    RefusedSwitchBreaksIff(s, C2);
  }

  /** After that run, the main chain, whose tip is B1, still reports A2 as its latest commitment. */
  lemma LatestIsStale()
    ensures Leads(Init(CG), SEPARATING, SeparatedState()) && IndexOk(Separated(), Separated().chains[0])
    ensures LatestCommitment(Separated(), 0).id == A2 && !OnChain(Separated(), A2, 0) && OnChain(Separated(), B1, 0)
  {
    SeparatedReached();
    hide Leads;
    assert IndexOk(Separated(), Separated().chains[0]);
  }

  /** After the other run, switching to B1 succeeds and takes the root off the main chain. */
  lemma SwitchBelowRootLosesRoot()
    ensures Leads(Init(CG), ROOTING, RootedState()) && Inv(RootedState())
    ensures var r := SwitchTo(RootedState(), B1); r.error.None? && !OnChain(r.state.tree, A1, Main(RootedState())) && !Inv(r.state)
  {
    var s := RootedState();
    RootedReached();
    hide Leads;
    assert Main(s) == 0;
    MainIsOrigins(s);
    assert Jumps(s.tree, s.stored, 0, G) == Some([]);
    Jump(s.tree, s.stored, 0, B1);
    assert s.tree.chains[s.tree.nodes[B1].chain.value].forkingPoint == B1 && Prev(s.tree, B1) == G;
    assert Jumps(s.tree, s.stored, 0, B1) == Some([B1]) by { assert [B1] + [] == [B1]; }
    assert AllAttached(s.tree, [B1]);
    SwitchSucceedsIff(s, B1);
    assert Moves(s, B1) && LeavesAt(s, B1) == B1;
    RootStaysIff(s, B1);
    SwitchKeepsInvIff(s, B1);
  }
}
