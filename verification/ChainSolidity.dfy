/**
 Solidity does not depend on the order in which commitments arrive.
 */
module ChainSolidity {
  import opened Options
  import opened ChainState
  import opened ChainProcess
  import opened ChainOps
  import opened ChainRuns

  /** All commitments that were handed to the manager. */
  function Arrivals(ops: seq<Op>): set<Commitment> {
    set i | 0 <= i < |ops| && Arrives(ops[i]) :: ops[i].c
  }

  predicate Arrives(op: Op) {
    op.Candidate? || op.FromPeer? || op.OwnEngine?
  }

  /** The commitment and all its predecessors back to the initial root are among `cs`. */
  ghost predicate Linked(cs: set<Commitment>, origin: Id, n: Id)
    decreases n.slot
  {
    || n == origin
    || exists c :: c in cs && c.id == n && origin.slot < n.slot && c.prev.slot < n.slot && Linked(cs, origin, c.prev)
  }

  /** What has been published, by ID. */
  ghost function Contents(t: Tree): map<Id, Commitment> {
    map n | n in t.nodes && t.nodes[n].commitment.Some? :: t.nodes[n].commitment.value
  }

  /** The published commitments are the initial root and what was taken in above it. */
  ghost predicate Collected(m: map<Id, Commitment>, origin: Id, cs: set<Commitment>) {
    && origin in m
    && (forall c :: c in cs ==> c.id in m && m[c.id] == c)
    && (forall n :: n in m && n != origin ==> n.slot > origin.slot && m[n] in cs)
  }

  /** A commitment above the initial root is collected. */
  lemma CollectOne(m: map<Id, Commitment>, origin: Id, cs: set<Commitment>, c: Commitment)
    requires Collected(m, origin, cs) && (c.id in m ==> m[c.id] == c) && c.id.slot > origin.slot
    ensures Collected(m[c.id := c], origin, cs + {c})
  {
  }

  /** Given what has arrived, the tree's solid nodes are determined. */
  lemma {:induction false} SolidIffLinked(s: State, cs: set<Commitment>, n: Id)
    requires Inv(s) && Collected(Contents(s.tree), s.tree.origin, cs)
    ensures n in s.tree.nodes && s.tree.nodes[n].solid <==> Linked(cs, s.tree.origin, n)
    decreases n.slot
  {
    var t := s.tree;
    if n != t.origin {
      if n in t.nodes && t.nodes[n].solid {
        assert SolidAt(t, n) && ShapeAt(t, n);
        SolidIffLinked(s, cs, Prev(t, n));
      }
      if Linked(cs, t.origin, n) {
        var c :| c in cs && c.id == n && t.origin.slot < n.slot && c.prev.slot < n.slot && Linked(cs, t.origin, c.prev);
        SolidIffLinked(s, cs, c.prev);
        assert SolidAt(t, n);
      }
    }
  }

  // ----- What every operation publishes -----

  lemma PlaceholderContents(s: State, id: Id)
    requires id in s.tree.nodes ==> id in s.stored
    ensures Contents(GetOrCreate(s, id).tree) == Contents(s.tree) && GetOrCreate(s, id).tree.origin == s.tree.origin
  {
  }

  lemma EnterContents(s: State, c: Commitment)
    requires Inv(s) && WellFormed(c) && Consistent(s.tree, c) && c.id.slot > s.root.slot
    ensures var u := Enter(s, c).state; Contents(u.tree) == Contents(s.tree)[c.id := c] && u.tree.origin == s.tree.origin
  {
    LoadKeepsInv(s, c.prev);
    PlaceholderContents(s, c.prev);
    var s1 := LoadOrRequest(s, c.prev);
    GetOrCreateKeeps(s1, c.id);
    PlaceholderContents(s1, c.id);
    var s2 := GetOrCreate(s1, c.id);
    if Published(s2.tree, c.id) {
      assert c.id in Contents(s.tree);
    } else {
      AcceptContents(s2.tree, c);
    }
  }

  lemma AcceptContents(t: Tree, c: Commitment)
    requires Shape(t) && Chains(t) && Solidity(t) && Publishable(t, c)
    ensures Contents(Accept(t, c)) == Contents(t)[c.id := c] && Accept(t, c).origin == t.origin
  {
    AcceptKeys(t, c);
    var u := Accept(t, c);
    forall n | n in u.nodes ensures u.nodes[n].commitment == if n == c.id then Some(c) else t.nodes[n].commitment {
      AcceptAt(t, c, n);
    }
  }

  lemma ProcessContents(s: State, c: Commitment)
    requires Inv(s) && WellFormed(c) && Consistent(s.tree, c)
    ensures var u := Process(s, c).state;
            && Contents(u.tree) == (if c.id.slot > s.root.slot then Contents(s.tree)[c.id := c] else Contents(s.tree))
            && u.root == s.root && u.tree.origin == s.tree.origin
  {
    if c.id.slot > s.root.slot {
      assert ShapeAt(s.tree, s.root);
      EnterContents(s, c);
    }
  }

  lemma SwitchContents(s: State, x: Id)
    requires Inv(s) && x in s.tree.nodes
    ensures var u := SwitchTo(s, x).state;
            Contents(u.tree) == Contents(s.tree) && u.root == s.root && u.tree.origin == s.tree.origin
  {
    SwitchKeepsCommitments(s, x);
    assert forall n :: n in s.tree.nodes ==> SameCommitmentAt(s, SwitchTo(s, x).state, n);
  }

  ghost predicate OnlyAdds(s: State, u: State, op: Op) {
    && u.tree.origin == s.tree.origin && (!op.MoveRoot? ==> u.root == s.root)
    && Contents(u.tree) == if Arrives(op) && op.c.id.slot > s.root.slot then Contents(s.tree)[op.c.id := op.c]
                           else Contents(s.tree)
  }

  lemma DetectContents(s: State, x: Id, source: nat)
    requires Inv(s) && x in s.tree.nodes
    ensures Detect(s, x, source).tree == s.tree && Detect(s, x, source).root == s.root
  {
  }

  lemma ArrivalContents(s: State, op: Op)
    requires Inv(s) && Allowed(s, op) && Arrives(op)
    ensures OnlyAdds(s, Step(s, op), op)
  {
    ProcessContents(s, op.c);
    ProcessKeepsInv(s, op.c);
    ProcessNode(s, op.c);
    var r := Process(s, op.c);
    if op.FromPeer? && r.node.Some? {
      DetectContents(r.state, r.node.value, op.source);
    } else if op.OwnEngine? && r.wasForked {
      SwitchContents(r.state, r.node.value);
    }
  }

  /** The only effect of an operation on what is published is to add the arriving commitment, if it is above the root. */
  lemma StepContents(s: State, op: Op)
    requires Inv(s) && Allowed(s, op)
    ensures OnlyAdds(s, Step(s, op), op)
  {
    if Arrives(op) {
      ArrivalContents(s, op);
    } else if op.Load? {
      PlaceholderContents(s, op.id);
    } else if op.Switch? && op.head in s.stored {
      SwitchContents(s, op.head);
    }
  }

  /** The manager is in order and holds what it has taken in since it was initialized with `origin`. */
  ghost predicate Sound(s: State, origin: Id, cs: set<Commitment>) {
    Inv(s) && Reported(s) && s.tree.origin == origin && Collected(Contents(s.tree), origin, cs)
  }

  /** A commitment is taken in when it is above the root at its arrival. */
  function TakenBy(s: State, op: Op): set<Commitment> {
    if Arrives(op) && op.c.id.slot > s.root.slot then {op.c} else {}
  }

  lemma StepPublishes(s: State, op: Op, origin: Id, cs: set<Commitment>)
    requires Sound(s, origin, cs) && Allowed(s, op)
    ensures Sound(Step(s, op), origin, cs + TakenBy(s, op))
  {
    StepKeepsInv(s, op);
    StepContents(s, op);
    if TakenBy(s, op) == {} {
      assert cs + TakenBy(s, op) == cs;
    } else {
      CollectOne(Contents(s.tree), origin, cs, op.c);
    }
  }

  // ----- Whole runs -----

  /** The commitments that were above the root when they arrived. */
  ghost function Taken(s: State, ops: seq<Op>): set<Commitment>
    decreases |ops|
  {
    if ops == [] || !Inv(s) || !Allowed(s, ops[0]) then {} else TakenBy(s, ops[0]) + Taken(Step(s, ops[0]), ops[1..])
  }

  lemma {:induction false} RunPublishes(s: State, ops: seq<Op>, u: State, origin: Id, cs: set<Commitment>)
    requires Sound(s, origin, cs) && Leads(s, ops, u)
    ensures Sound(u, origin, cs + Taken(s, ops))
    decreases |ops|
  {
    if ops == [] {
      assert cs + Taken(s, ops) == cs;
    } else {
      var next := Step(s, ops[0]);
      StepPublishes(s, ops[0], origin, cs);
      RunPublishes(next, ops[1..], u, origin, cs + TakenBy(s, ops[0]));
      assert cs + Taken(s, ops) == cs + TakenBy(s, ops[0]) + Taken(next, ops[1..]);
    }
  }

  /** After any run from the initial root, in any order, with repeats, with loads, switches, root changes and
      evictions in between, and however the last switch ended: a commitment is solid if and only if it and all its
      predecessors back to the initial root were above the root when they arrived; and every solid commitment has a chain. */
  lemma {:induction false} SolidIffTaken(c0: Commitment, ops: seq<Op>, u: State, n: Id)
    requires Ends(Init(c0), ops, u)
    ensures n in u.tree.nodes && u.tree.nodes[n].solid <==> Linked(Taken(Init(c0), ops), c0.id, n)
    ensures n in u.tree.nodes && u.tree.nodes[n].solid ==> u.tree.nodes[n].chain.Some?
  {
    hide Leads, Ends, Taken;
    var s := Init(c0);
    var v := EndsAfterRun(s, ops, u);
    InitInv(c0);
    assert Sound(s, c0.id, {});
    RunPublishes(s, ops, v, c0.id, {});
    assert {} + Taken(s, ops) == Taken(s, ops);
    SolidIffLinked(v, Taken(s, ops), n);
    assert n in v.tree.nodes ==> SolidAt(v.tree, n) && SameCommitmentAt(v, u, n);
  }

  // ----- Runs that leave the root where it is -----

  predicate RootFixed(ops: seq<Op>, root: Id) {
    forall i :: 0 <= i < |ops| && ops[i].MoveRoot? ==> ops[i].id == root
  }

  lemma {:induction false} TakenIsArrived(s: State, ops: seq<Op>, u: State, c: Commitment)
    requires Inv(s) && Reported(s) && Leads(s, ops, u) && RootFixed(ops, s.root)
    ensures c in Taken(s, ops) <==> c in Arrivals(ops) && c.id.slot > s.root.slot
    decreases |ops|
  {
    if ops != [] {
      var next, rest := Step(s, ops[0]), ops[1..];
      StepKeepsInv(s, ops[0]);
      StepContents(s, ops[0]);
      assert next.root == s.root;
      TakenIsArrived(next, rest, u, c);
      ArrivalsCons(ops, c);
    }
  }

  lemma ArrivalsCons(ops: seq<Op>, c: Commitment)
    requires ops != []
    ensures c in Arrivals(ops) <==> (Arrives(ops[0]) && c == ops[0].c) || c in Arrivals(ops[1..])
  {
    var rest := ops[1..];
    if c in Arrivals(ops) {
      var i :| 0 <= i < |ops| && Arrives(ops[i]) && ops[i].c == c;
      assert i > 0 ==> rest[i - 1] == ops[i];
    }
    if c in Arrivals(rest) {
      var i :| 0 <= i < |rest| && Arrives(rest[i]) && rest[i].c == c;
      assert ops[i + 1] == rest[i];
    }
  }

  /** Commitments at or below the initial root link nothing. */
  lemma {:induction false} LinkedAbove(cs: set<Commitment>, cs': set<Commitment>, origin: Id, n: Id)
    requires forall c :: c in cs && c.id.slot > origin.slot ==> c in cs'
    requires Linked(cs, origin, n)
    ensures Linked(cs', origin, n)
    decreases n.slot
  {
    if n != origin {
      var c :| c in cs && c.id == n && origin.slot < n.slot && c.prev.slot < n.slot && Linked(cs, origin, c.prev);
      LinkedAbove(cs, cs', origin, c.prev);
    }
  }

  /** While the root stays where it was initialized, a commitment is solid if and only if it and all its predecessors
      back to the initial root have arrived. */
  lemma {:induction false} SolidIffArrived(c0: Commitment, ops: seq<Op>, u: State, n: Id)
    requires Ends(Init(c0), ops, u) && RootFixed(ops, c0.id)
    ensures n in u.tree.nodes && u.tree.nodes[n].solid <==> Linked(Arrivals(ops), c0.id, n)
  {
    hide Leads, Ends, Taken, Arrivals;
    SolidIffTaken(c0, ops, u, n);
    var s := Init(c0);
    var v := EndsAfterRun(s, ops, u);
    InitInv(c0);
    forall c ensures c in Taken(s, ops) <==> c in Arrivals(ops) && c.id.slot > c0.id.slot {
      TakenIsArrived(s, ops, v, c);
    }
    if Linked(Arrivals(ops), c0.id, n) {
      LinkedAbove(Arrivals(ops), Taken(s, ops), c0.id, n);
    }
    if Linked(Taken(s, ops), c0.id, n) {
      LinkedAbove(Taken(s, ops), Arrivals(ops), c0.id, n);
    }
  }

  /** Two such runs to which the same commitments arrive make the same commitments solid. */
  lemma ArrivalOrderDoesNotMatter(c0: Commitment, ops: seq<Op>, ops': seq<Op>, u: State, u': State, n: Id)
    requires Ends(Init(c0), ops, u) && Ends(Init(c0), ops', u')
    requires RootFixed(ops, c0.id) && RootFixed(ops', c0.id) && Arrivals(ops) == Arrivals(ops')
    ensures (n in u.tree.nodes && u.tree.nodes[n].solid) == (n in u'.tree.nodes && u'.tree.nodes[n].solid)
  {
    SolidIffArrived(c0, ops, u, n);
    SolidIffArrived(c0, ops', u', n);
  }
}
