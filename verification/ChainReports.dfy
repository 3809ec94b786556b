/**
 Forks are reported exactly when they should be, and every report over a run was true at the moment it was made.
 */
module ChainReports {
  import opened Options
  import opened ChainState
  import opened ChainForks
  import opened ChainOps
  import opened ChainRuns
  import opened ChainSteps

  /** The ancestor-or-self of `x` where its branch leaves the main chain. */
  ghost predicate LeavesMain(t: Tree, main: nat, x: Id, d: Id) {
    && Ancestor(t, d, x) && d != t.origin && Published(t, d) && !OnChain(t, d, main) && OnChain(t, Prev(t, d), main)
  }

  /** What a report says is so: some commitment's branch leaves the main chain at the forking point, the forking point's chain
      has the reported commitment as its latest, and the main chain's latest commitment has the recorded weight. */
  ghost predicate TrueIn(s: State, r: Detection) {
    && Inv(s) && r.fork.forkingPoint in s.tree.nodes && s.tree.nodes[r.fork.forkingPoint].chain.Some?
    && (exists x :: LeavesMain(s.tree, Main(s), x, r.fork.forkingPoint))
    && HasLatest(s.tree, s.tree.nodes[r.fork.forkingPoint].chain.value, r.fork.latest)
    && exists c :: HasLatest(s.tree, Main(s), c) && c.weight == r.mainWeight
  }

  ghost predicate HasLatest(t: Tree, k: nat, c: Commitment) {
    && k < |t.chains| && IndexOk(t, t.chains[k])
    && t.nodes[t.chains[k].index[t.chains[k].latest]].commitment == Some(c)
  }

  // ----- When a fork is reported -----

  /** A report is due: the branch of `x` leaves the main chain at `d`, whose parent is stored, the chain of `d` is heavier than the
      main chain, and it has grown since it was last reported. */
  ghost predicate ReportDue(s: State, x: Id, d: Id)
    requires Inv(s)
  {
    && x in s.tree.nodes && s.tree.nodes[x].solid && LeavesMain(s.tree, Main(s), x, d)
    && Prev(s.tree, d) in s.stored && d in s.tree.nodes && s.tree.nodes[d].chain.Some?
    && exists latest, main :: HasLatest(s.tree, s.tree.nodes[d].chain.value, latest) && HasLatest(s.tree, Main(s), main)
         && latest.weight > main.weight && (d in s.forks ==> s.forks[d].latest.id.slot < latest.id.slot)
  }

  /** What a report of `d` says: a first one names the peer, the main chain and the chain of `d`, a further one names what the
      first one did; both carry the latest commitment of the chain. */
  ghost predicate ReportSays(s: State, d: Id, source: nat, r: Detection)
    requires Inv(s)
  {
    && r.fork.forkingPoint == d && d in s.tree.nodes && s.tree.nodes[d].chain.Some?
    && HasLatest(s.tree, s.tree.nodes[d].chain.value, r.fork.latest)
    && (exists main :: HasLatest(s.tree, Main(s), main) && main.weight == r.mainWeight)
    && if d in s.forks
       then r.fork.source == s.forks[d].source && r.fork.mainChain == s.forks[d].mainChain && r.fork.forkedChain == s.forks[d].forkedChain
       else r.fork.source == source && r.fork.mainChain == Main(s) && r.fork.forkedChain == s.tree.nodes[d].chain.value
  }

  /** The state with one more report. */
  ghost predicate WithReport(s: State, u: State, r: Detection) {
    u == s.(forks := s.forks[r.fork.forkingPoint := r.fork], detections := s.detections + [r])
  }

  lemma DueOnlyWhenMoving(s: State, x: Id, d: Id)
    requires Inv(s) && x in s.tree.nodes && s.tree.nodes[x].solid && LeavesMain(s.tree, Main(s), x, d) && Prev(s.tree, d) in s.stored
    ensures Moves(s, x) && d == LeavesAt(s, x)
  {
    MainIsOrigins(s);
    JumpsToMainEnd(s, x);
    if OnChain(s.tree, x, Main(s)) {
      AncestorsOfMain(s.tree, Main(s), d, x);
    } else {
      DepartureIsUnique(s.tree, Main(s), x, d);
    }
  }

  lemma MovingLeaves(s: State, x: Id)
    requires Inv(s) && x in s.tree.nodes && Moves(s, x)
    ensures LeavesMain(s.tree, Main(s), x, LeavesAt(s, x)) && Prev(s.tree, LeavesAt(s, x)) in s.stored
  {
    JumpsToMainEnd(s, x);
    DepartureParent(s, x);
  }

  /** What is due is reported, in so many words. */
  lemma DueIsReported(s: State, x: Id, source: nat, d: Id)
    requires Inv(s) && Reported(s) && ReportDue(s, x, d)
    ensures exists r :: ReportSays(s, d, source, r) && WithReport(s, Detect(s, x, source), r)
  {
    DueOnlyWhenMoving(s, x, d);
    DetectReady(s, x);
    hide Shape, Chains, Indexed, Solidity, Requested;
    var u := Detect(s, x, source);
    var r := u.detections[|s.detections|];
    assert HasLatest(s.tree, Main(s), LatestCommitment(s.tree, Main(s)));
    assert ReportSays(s, d, source, r) && WithReport(s, u, r);
  }

  lemma ReportedIsDue(s: State, x: Id, source: nat)
    requires Inv(s) && Reported(s) && x in s.tree.nodes && Detect(s, x, source) != s
    ensures Moves(s, x) && ReportDue(s, x, LeavesAt(s, x))
  {
    MovingLeaves(s, x);
    DetectReady(s, x);
    var d := LeavesAt(s, x);
    hide Shape, Chains, Indexed, Solidity, Requested;
    assert HasLatest(s.tree, s.tree.nodes[d].chain.value, LatestCommitment(s.tree, s.tree.nodes[d].chain.value));
    assert HasLatest(s.tree, Main(s), LatestCommitment(s.tree, Main(s)));
  }

  /** Fork detection reports exactly when a report is due, and then exactly what is due; otherwise it changes nothing. */
  lemma DetectExactly(s: State, x: Id, source: nat)
    requires Inv(s) && Reported(s) && x in s.tree.nodes
    ensures (forall d :: !ReportDue(s, x, d)) ==> Detect(s, x, source) == s
    ensures forall d :: ReportDue(s, x, d) ==> exists r :: ReportSays(s, d, source, r) && WithReport(s, Detect(s, x, source), r)
  {
    hide Detect, ReportDue, ReportSays, WithReport, Inv, Reported;
    forall d | ReportDue(s, x, d) ensures exists r :: ReportSays(s, d, source, r) && WithReport(s, Detect(s, x, source), r) {
      DueIsReported(s, x, source, d);
    }
    if Detect(s, x, source) != s {
      ReportedIsDue(s, x, source);
    }
  }

  /** A commitment from a peer leads to a report exactly when one is due for its branch once it has joined the tree. */
  lemma PeerReports(s: State, c: Commitment, source: nat)
    requires Inv(s) && Reported(s) && Allowed(s, FromPeer(c, source))
    ensures var v, u := Process(s, c).state, Step(s, FromPeer(c, source));
            && Inv(v) && v.forks == s.forks && v.detections == s.detections
            && ((c.id.slot <= s.root.slot || forall d :: !ReportDue(v, c.id, d)) ==> u == v)
            && (c.id.slot > s.root.slot ==> forall d :: ReportDue(v, c.id, d) ==> exists r :: ReportSays(v, d, source, r) && WithReport(v, u, r))
  {
    hide Process, Detect, ReportDue, ReportSays, WithReport;
    ProcessKeepsInv(s, c);
    ProcessKeepsReports(s, c);
    ProcessNode(s, c);
    ProcessReportsNothing(s, c);
    ProcessAnswers(s, c);
    var r := Process(s, c);
    if r.node.Some? {
      DetectExactly(r.state, r.node.value, source);
      if c.id.slot <= s.root.slot {
        NothingAtRoot(s, source);
      }
    }
  }

  lemma NothingAtRoot(s: State, source: nat)
    requires Inv(s)
    ensures Detect(s, s.root, source) == s
  {
    MainIsOrigins(s);
    assert SolidAt(s.tree, s.root);
    JumpsToMainEnd(s, s.root);
  }

  // ----- Reports over a run -----

  /** The reports of `u` are those of `s`, and perhaps one more that is true in `u`. */
  ghost predicate ReportsMore(s: State, u: State) {
    || u.detections == s.detections
    || (u.detections != [] && u.detections[..|u.detections| - 1] == s.detections && TrueIn(u, u.detections[|u.detections| - 1]))
  }

  lemma DetectReportsTruly(s: State, x: Id, source: nat)
    requires Inv(s) && Reported(s) && x in s.tree.nodes
    ensures ReportsMore(s, Detect(s, x, source))
  {
    var u := Detect(s, x, source);
    if u.detections != s.detections {
      var d := LeavesAt(s, x);
      DetectKeepsReports(s, x, source);
      DetectReady(s, x);
      DepartureParent(s, x);
      assert u.tree == s.tree && Main(u) == Main(s);
      assert u.detections[|s.detections|].fork.forkingPoint == d;
      assert LeavesMain(u.tree, Main(u), x, d);
      assert HasLatest(u.tree, Main(u), LatestCommitment(u.tree, Main(u)));
    }
  }

  lemma ProcessReportsNothing(s: State, c: Commitment)
    requires Inv(s) && WellFormed(c)
    ensures Process(s, c).state.detections == s.detections && Process(s, c).state.forks == s.forks
  {
  }

  lemma StepReportsTruly(s: State, op: Op)
    requires Inv(s) && Reported(s) && Allowed(s, op)
    ensures ReportsMore(s, Step(s, op))
  {
    hide Shape, Chains, Indexed, Solidity, Requested, Reported, Process, Detect, SwitchTo, TrueIn;
    match op
    case Candidate(c) =>
      ProcessReportsNothing(s, c);
    case FromPeer(c, source) =>
      ProcessReportsNothing(s, c);
      ProcessKeepsInv(s, c);
      ProcessKeepsReports(s, c);
      ProcessNode(s, c);
      var r := Process(s, c);
      if r.node.Some? {
        DetectReportsTruly(r.state, r.node.value, source);
      }
    case OwnEngine(c) =>
      ProcessReportsNothing(s, c);
      ProcessKeepsInv(s, c);
      ProcessNode(s, c);
      var r := Process(s, c);
      if r.wasForked && r.node.Some? {
        SwitchKeepsCommitments(r.state, r.node.value);
      }
    case Load(id) =>
    case Switch(head) =>
      if head in s.stored {
        SwitchKeepsCommitments(s, head);
      }
    case MoveRoot(id) =>
    case Evict(index) =>
  }

  /** The run up to some operation ends in the state in which report `i` was made, and the report is true there. */
  ghost predicate MadeAt(s: State, ops: seq<Op>, u: State, i: nat, k: nat, w: State) {
    && k <= |ops| && i < |u.detections| && Leads(s, ops[..k], w)
    && w.detections == u.detections[..i + 1] && TrueIn(w, u.detections[i])
  }

  lemma {:induction false} RunReportsTruly(s: State, ops: seq<Op>, u: State, i: nat) returns (k: nat, w: State)
    requires Inv(s) && Reported(s) && Leads(s, ops, u) && |s.detections| <= i < |u.detections|
    ensures MadeAt(s, ops, u, i, k, w)
    decreases |ops|
  {
    hide TrueIn, Step, Reported, Inv, Allowed;
    StepKeepsInv(s, ops[0]);
    StepReportsTruly(s, ops[0]);
    var next := Step(s, ops[0]);
    RunKeepsReports(next, ops[1..], u);
    if i < |next.detections| {
      LeadsOne(s, ops);
      k, w := 1, next;
    } else {
      k, w := RunReportsTruly(next, ops[1..], u, i);
      LeadsFrom(s, ops, k, w);
      k := k + 1;
    }
  }

  lemma {:induction false} RunKeepsReports(s: State, ops: seq<Op>, u: State)
    requires Inv(s) && Reported(s) && Leads(s, ops, u)
    ensures s.detections <= u.detections
    decreases |ops|
  {
    hide TrueIn, Step, Reported, Inv, Allowed;
    if ops != [] {
      StepKeepsInv(s, ops[0]);
      StepReportsTruly(s, ops[0]);
      RunKeepsReports(Step(s, ops[0]), ops[1..], u);
    }
  }

  lemma {:induction false} LeadsOne(s: State, ops: seq<Op>)
    requires ops != [] && Inv(s) && Allowed(s, ops[0])
    ensures Leads(s, ops[..1], Step(s, ops[0]))
  {
    assert ops[..1][1..] == [];
  }

  lemma {:induction false} LeadsFrom(s: State, ops: seq<Op>, k: nat, w: State)
    requires ops != [] && k < |ops| && Inv(s) && Allowed(s, ops[0]) && Leads(Step(s, ops[0]), ops[1..][..k], w)
    ensures Leads(s, ops[..k + 1], w)
  {
    assert ops[..k + 1][1..] == ops[1..][..k];
  }

  // ----- One record for each forking point -----

  /** All reports of a forking point name the same peer and the same two chains, and its record is the last of them. */
  ghost predicate Recorded(s: State) {
    && (forall i :: 0 <= i < |s.detections| && s.detections[i].fork.forkingPoint in s.forks ==> NamedAlike(s.detections[i].fork, s.forks[s.detections[i].fork.forkingPoint]))
    && (forall i, j :: 0 <= i < j < |s.detections| && s.detections[i].fork.forkingPoint == s.detections[j].fork.forkingPoint ==>
          NamedAlike(s.detections[i].fork, s.detections[j].fork))
    && (forall d :: d in s.forks ==> exists i :: LastReport(s, d, i) && s.detections[i].fork == s.forks[d])
  }

  predicate NamedAlike(a: Fork, b: Fork) {
    a.source == b.source && a.mainChain == b.mainChain && a.forkedChain == b.forkedChain
  }

  ghost predicate LastReport(s: State, d: Id, i: int) {
    && 0 <= i < |s.detections| && s.detections[i].fork.forkingPoint == d
    && forall j :: i < j < |s.detections| ==> s.detections[j].fork.forkingPoint != d
  }

  lemma ReportKeepsRecords(s: State, u: State, r: Detection)
    requires Recorded(s) && WithReport(s, u, r)
    requires r.fork.forkingPoint in s.forks ==> NamedAlike(r.fork, s.forks[r.fork.forkingPoint])
    requires r.fork.forkingPoint !in s.forks ==> forall i :: 0 <= i < |s.detections| ==> s.detections[i].fork.forkingPoint != r.fork.forkingPoint
    ensures Recorded(u)
  {
    forall d | d in u.forks ensures exists i :: LastReport(u, d, i) && u.detections[i].fork == u.forks[d] {
      if d == r.fork.forkingPoint {
        assert LastReport(u, d, |s.detections|);
      } else {
        var i :| LastReport(s, d, i) && s.detections[i].fork == s.forks[d];
        assert LastReport(u, d, i);
      }
    }
  }

  lemma DetectKeepsRecords(s: State, x: Id, source: nat)
    requires Inv(s) && Reported(s) && Recorded(s) && x in s.tree.nodes
    ensures Recorded(Detect(s, x, source))
  {
    hide Detect, Recorded;
    DetectExactly(s, x, source);
    if d :| ReportDue(s, x, d) {
      var r :| ReportSays(s, d, source, r) && WithReport(s, Detect(s, x, source), r);
      DueOnlyWhenMoving(s, x, d);
      DetectReady(s, x);
      if d !in s.forks {
        forall i | 0 <= i < |s.detections| ensures s.detections[i].fork.forkingPoint != d {
          assert ReportedAt(s, s.detections[i]);
        }
      }
      ReportKeepsRecords(s, Detect(s, x, source), r);
    }
  }

  lemma SameRecords(s: State, u: State)
    requires Recorded(s) && u.detections == s.detections && (forall d :: d in u.forks ==> d in s.forks && u.forks[d] == s.forks[d])
    ensures Recorded(u)
  {
    forall d | d in u.forks ensures exists i :: LastReport(u, d, i) && u.detections[i].fork == u.forks[d] {
      var i :| LastReport(s, d, i) && s.detections[i].fork == s.forks[d];
      assert LastReport(u, d, i);
    }
  }

  lemma StepKeepsRecords(s: State, op: Op)
    requires Inv(s) && Reported(s) && Recorded(s) && Allowed(s, op)
    ensures Recorded(Step(s, op))
  {
    hide Shape, Chains, Indexed, Solidity, Requested, Reported, Recorded, Process, Detect, SwitchTo;
    match op
    case Candidate(c) =>
      ProcessReportsNothing(s, c);
      SameRecords(s, Process(s, c).state);
    case FromPeer(c, source) =>
      ProcessReportsNothing(s, c);
      ProcessKeepsInv(s, c);
      ProcessKeepsReports(s, c);
      ProcessNode(s, c);
      var r := Process(s, c);
      SameRecords(s, r.state);
      if r.node.Some? {
        DetectKeepsRecords(r.state, r.node.value, source);
      }
    case OwnEngine(c) =>
      ProcessReportsNothing(s, c);
      ProcessKeepsInv(s, c);
      ProcessNode(s, c);
      var r := Process(s, c);
      if r.wasForked && r.node.Some? {
        SwitchKeepsCommitments(r.state, r.node.value);
      }
      SameRecords(s, Step(s, op));
    case Switch(head) =>
      if head in s.stored {
        SwitchKeepsCommitments(s, head);
      }
      SameRecords(s, Step(s, op));
    case _ =>
      SameRecords(s, Step(s, op));
  }

  lemma {:induction false} RunKeepsRecords(s: State, ops: seq<Op>, u: State)
    requires Inv(s) && Reported(s) && Recorded(s) && Leads(s, ops, u)
    ensures Recorded(u)
    decreases |ops|
  {
    hide Step, Reported, Recorded, Inv, Allowed;
    if ops != [] {
      StepKeepsInv(s, ops[0]);
      StepKeepsRecords(s, ops[0]);
      RunKeepsRecords(Step(s, ops[0]), ops[1..], u);
    }
  }
}
