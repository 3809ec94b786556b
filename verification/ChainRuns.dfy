/**
 Whole runs of the chain manager: every sequence of arrivals, loads, switches,
 root changes and evictions.
 */
module ChainRuns {
  import opened Options
  import opened ChainState
  import opened ChainOps
  import opened ChainSwitchTheorems

  // ----- Detecting forks -----

  /** The commitment that a chain reports as its latest. */
  function LatestCommitment(t: Tree, k: nat): Commitment
    requires k < |t.chains| && IndexOk(t, t.chains[k])
  {
    t.nodes[t.chains[k].index[t.chains[k].latest]].commitment.value
  }

  /** A fork at `d` with chain `k` is reported when it claims more weight than the main chain and has grown since last reported. */
  function Reporting(s: State, d: Id, source: nat, main: nat, k: nat): State
    requires k < |s.tree.chains| && IndexOk(s.tree, s.tree.chains[k])
    requires main < |s.tree.chains| && IndexOk(s.tree, s.tree.chains[main])
  {
    var latest, mainWeight := LatestCommitment(s.tree, k), LatestCommitment(s.tree, main).weight;
    if latest.weight <= mainWeight || (d in s.forks && latest.id.slot <= s.forks[d].latest.id.slot) then s
    else
      var fork := if d in s.forks then s.forks[d].(latest := latest) else Fork(source, main, k, d, latest);
      s.(forks := s.forks[d := fork], detections := s.detections + [Detection(fork, mainWeight)])
  }

  /** The branch of a commitment is reported by the place where it leaves the main chain. */
  ghost function Detect(s: State, x: Id, source: nat): State
    requires Inv(s) && x in s.tree.nodes
  {
    if !Moves(s, x) then s
    else
      var d := LeavesAt(s, x);
      DetectReady(s, x);
      Reporting(s, d, source, Main(s), s.tree.nodes[d].chain.value)
  }

  lemma DetectReady(s: State, x: Id)
    requires Inv(s) && x in s.tree.nodes && Moves(s, x)
    ensures var d := LeavesAt(s, x);
            && d in s.tree.nodes && s.tree.nodes[d].chain.Some? && s.tree.nodes[d].chain.value < |s.tree.chains|
            && IndexOk(s.tree, s.tree.chains[s.tree.nodes[d].chain.value])
            && Main(s) < |s.tree.chains| && IndexOk(s.tree, s.tree.chains[Main(s)])
            && !IsEvicted(s, d.slot)
  {
    MainIsOrigins(s);
    JumpsToMainEnd(s, x);
    DepartureParent(s, x);
    var d := LeavesAt(s, x);
    assert SolidAt(s.tree, d) && ChainAt(s.tree, d);
  }

  /** What the reports over a run promise. */
  ghost predicate Reported(s: State) {
    && (forall d :: d in s.forks ==> s.forks[d].forkingPoint == d && !IsEvicted(s, d.slot))
    && (forall i :: 0 <= i < |s.detections| ==> ReportedAt(s, s.detections[i]))
    && (forall i, j :: 0 <= i < j < |s.detections| && s.detections[i].fork.forkingPoint == s.detections[j].fork.forkingPoint ==>
          s.detections[i].fork.latest.id.slot < s.detections[j].fork.latest.id.slot)
  }

  ghost predicate ReportedAt(s: State, r: Detection) {
    && r.fork.latest.weight > r.mainWeight
    && if r.fork.forkingPoint in s.forks
       then r.fork.latest.id.slot <= s.forks[r.fork.forkingPoint].latest.id.slot
       else IsEvicted(s, r.fork.forkingPoint.slot)
  }

  /** Reporting a fork keeps the promises: a forking point is only reported again for a later commitment. */
  lemma DetectKeepsReports(s: State, x: Id, source: nat)
    requires Inv(s) && Reported(s) && x in s.tree.nodes
    ensures Inv(Detect(s, x, source)) && Reported(Detect(s, x, source))
  {
    var u := Detect(s, x, source);
    if Moves(s, x) {
      DetectReady(s, x);
      var d := LeavesAt(s, x);
      forall n | n in u.tree.nodes ensures RequestedAt(u, n) { assert RequestedAt(s, n); }
      if u != s {
        var r := u.detections[|s.detections|];
        assert r.fork.forkingPoint == d;
        forall i | 0 <= i < |u.detections| ensures ReportedAt(u, u.detections[i]) {
          assert i < |s.detections| ==> ReportedAt(s, s.detections[i]);
        }
        forall i, j | 0 <= i < j < |u.detections| && u.detections[i].fork.forkingPoint == u.detections[j].fork.forkingPoint
          ensures u.detections[i].fork.latest.id.slot < u.detections[j].fork.latest.id.slot
        {
          assert ReportedAt(s, s.detections[i]);
        }
      }
    }
  }

  // ----- Moving the root and evicting -----

  function SetRoot(s: State, id: Id): State {
    s.(root := id)
  }

  /** Moving the root up to a stored commitment keeps the invariant exactly when that commitment is
      solid and on the main chain. */
  lemma SetRootKeepsInvIff(s: State, id: Id)
    requires Inv(s) && id in s.stored && (id.slot > s.root.slot || id == s.root)
    ensures Inv(SetRoot(s, id)) <==> s.tree.nodes[id].solid && OnChain(s.tree, id, Main(s))
  {
    MainIsOrigins(s);
    var u := SetRoot(s, id);
    forall n | n in u.tree.nodes ensures RequestedAt(u, n) { assert RequestedAt(s, n); }
  }

  function EvictUntil(s: State, index: nat): State {
    s.(stored := (set n | n in s.stored && n.slot > index),
       forks := (map d | d in s.forks && d.slot > index :: s.forks[d]),
       requests := (set n | n in s.requests && n.slot > index),
       evicted := if IsEvicted(s, index) then s.evicted else Some(index))
  }

  lemma EvictKeeps(s: State, index: nat)
    requires Inv(s) && Reported(s) && index < s.root.slot
    ensures Inv(EvictUntil(s, index)) && Reported(EvictUntil(s, index))
  {
    var u := EvictUntil(s, index);
    forall n | n in u.tree.nodes ensures RequestedAt(u, n) { assert RequestedAt(s, n); }
    forall i | 0 <= i < |u.detections| ensures ReportedAt(u, u.detections[i]) { assert ReportedAt(s, s.detections[i]); }
  }

  // ----- Runs -----

  datatype Op =
    | Candidate(c: Commitment)            // from the candidate engine
    | FromPeer(c: Commitment, source: nat)
    | OwnEngine(c: Commitment)            // from the main engine, which is always followed
    | Load(id: Id)
    | Switch(head: Id)
    | MoveRoot(id: Id)
    | Evict(index: nat)

  /** A switch that leaves the manager in order: it succeeds above the root, or it is refused before its first round. */
  ghost predicate Orderly(s: State, x: Id)
    requires Inv(s) && x in s.tree.nodes
  {
    Moves(s, x) ==>
      if SwitchTo(s, x).error.None? then LeavesAt(s, x).slot > s.root.slot
      else !Attached(s.tree, JumpsToMain(s, x).value[0])
  }

  /** A commitment of the main engine does not lead to a switch that fails, on which the program panics. */
  ghost predicate NoPanic(s: State, c: Commitment)
    requires Inv(s) && WellFormed(c)
  {
    ProcessKeepsInv(s, c);
    ProcessNode(s, c);
    var r := Process(s, c);
    r.wasForked && r.node.Some? ==> SwitchTo(r.state, r.node.value).error.None?
  }

  /** A commitment from a peer joins the tree, and its branch is reported where it is heavier than the main chain. */
  ghost function ArriveFromPeer(s: State, c: Commitment, source: nat): State
    requires Inv(s) && WellFormed(c)
  {
    ProcessKeepsInv(s, c);
    ProcessNode(s, c);
    var r := Process(s, c);
    if r.node.None? then r.state else Detect(r.state, r.node.value, source)
  }

  /** A commitment of the main engine joins the tree, and the main chain follows it where it forks. */
  ghost function ArriveFromEngine(s: State, c: Commitment): State
    requires Inv(s) && WellFormed(c)
  {
    ProcessKeepsInv(s, c);
    ProcessNode(s, c);
    var r := Process(s, c);
    if r.wasForked && r.node.Some? then SwitchTo(r.state, r.node.value).state else r.state
  }

  /** What the manager's callers respect. */
  ghost predicate Allowed(s: State, op: Op)
    requires Inv(s)
  {
    match op
    case Candidate(c) => WellFormed(c) && Consistent(s.tree, c)
    case FromPeer(c, source) => WellFormed(c) && Consistent(s.tree, c)
    case OwnEngine(c) =>
      && WellFormed(c) && Consistent(s.tree, c)
      && NoPanic(s, c)
      && var r := Process(s, c);
      r.wasForked && r.node.Some? ==> Inv(r.state) && r.node.value in r.state.tree.nodes && Orderly(r.state, r.node.value)
    case Load(id) => !IsEvicted(s, id.slot)
    case Switch(head) => head in s.tree.nodes && head in s.stored ==> Orderly(s, head)
    case MoveRoot(id) =>
      id in s.stored && id in s.tree.nodes && (id.slot > s.root.slot || id == s.root)
      && s.tree.nodes[id].solid && OnChain(s.tree, id, Main(s))
    case Evict(index) => index < s.root.slot
  }

  ghost function Step(s: State, op: Op): State
    requires Inv(s) && Allowed(s, op)
  {
    match op
    case Candidate(c) => Process(s, c).state
    case FromPeer(c, source) => ArriveFromPeer(s, c, source)
    case OwnEngine(c) => ArriveFromEngine(s, c)
    case Load(id) => LoadOrRequest(s, id)
    case Switch(head) => SwitchMainChain(s, head).state
    case MoveRoot(id) => SetRoot(s, id)
    case Evict(index) => EvictUntil(s, index)
  }

  lemma ProcessNode(s: State, c: Commitment)
    requires Inv(s) && WellFormed(c)
    ensures Process(s, c).node.Some? ==> Process(s, c).node.value in Process(s, c).state.tree.nodes
  {
    if Some(c) != s.tree.nodes[s.root].commitment && c.id.slot > s.root.slot {
      LoadKeepsInv(s, c.prev);
      var s1 := LoadOrRequest(s, c.prev);
      GetOrCreateKeeps(s1, c.id);
      var s2 := GetOrCreate(s1, c.id);
      if !Published(s2.tree, c.id) {
        AcceptKeys(s2.tree, c);
      }
    }
  }

  lemma ProcessKeepsReports(s: State, c: Commitment)
    requires Inv(s) && WellFormed(c) && Reported(s)
    ensures Reported(Process(s, c).state)
  {
    var u := Process(s, c).state;
    assert u.forks == s.forks && u.detections == s.detections && u.evicted == s.evicted;
    forall i | 0 <= i < |u.detections| ensures ReportedAt(u, u.detections[i]) { assert ReportedAt(s, s.detections[i]); }
  }

  lemma SwitchKeepsAll(s: State, x: Id)
    requires Inv(s) && Reported(s) && x in s.tree.nodes && Orderly(s, x)
    ensures Inv(SwitchTo(s, x).state) && Reported(SwitchTo(s, x).state)
  {
    var u := SwitchTo(s, x).state;
    if u != s {
      if SwitchTo(s, x).error.None? {
        SwitchKeepsInvIff(s, x);
      } else {
        RefusedSwitchBreaksIff(s, x);
      }
      forall i | 0 <= i < |u.detections| ensures ReportedAt(u, u.detections[i]) { assert ReportedAt(s, s.detections[i]); }
    }
  }

  /** Every allowed operation keeps the invariant and the promises of the reports. */
  lemma StepKeepsInv(s: State, op: Op)
    requires Inv(s) && Reported(s) && Allowed(s, op)
    ensures Inv(Step(s, op)) && Reported(Step(s, op))
  {
    match op
    case Candidate(c) =>
      ProcessKeepsInv(s, c);
      ProcessKeepsReports(s, c);
    case FromPeer(c, source) =>
      ProcessKeepsInv(s, c);
      ProcessKeepsReports(s, c);
      ProcessNode(s, c);
      var r := Process(s, c);
      if r.node.Some? {
        DetectKeepsReports(r.state, r.node.value, source);
      }
    case OwnEngine(c) =>
      ProcessKeepsInv(s, c);
      ProcessKeepsReports(s, c);
      ProcessNode(s, c);
      var r := Process(s, c);
      if r.wasForked && r.node.Some? {
        SwitchKeepsAll(r.state, r.node.value);
      }
    case Load(id) =>
      LoadKeepsInv(s, id);
      var u := LoadOrRequest(s, id);
      forall i | 0 <= i < |u.detections| ensures ReportedAt(u, u.detections[i]) { assert ReportedAt(s, s.detections[i]); }
    case Switch(head) =>
      if head in s.stored {
        SwitchKeepsAll(s, head);
      }
    case MoveRoot(id) =>
      SetRootKeepsInvIff(s, id);
      var u := SetRoot(s, id);
      forall i | 0 <= i < |u.detections| ensures ReportedAt(u, u.detections[i]) { assert ReportedAt(s, s.detections[i]); }
    case Evict(index) =>
      EvictKeeps(s, index);
  }

  /** The operations, each allowed where it happens, lead from `s` to `u`. */
  ghost predicate Leads(s: State, ops: seq<Op>, u: State)
    decreases |ops|
  {
    if ops == [] then u == s
    else Inv(s) && Allowed(s, ops[0]) && Leads(Step(s, ops[0]), ops[1..], u)
  }

  /** The run ends in `u`: all its operations are allowed, and a last switch may end in any way. */
  ghost predicate Ends(s: State, ops: seq<Op>, u: State) {
    || Leads(s, ops, u)
    || exists v, x :: Leads(s, ops, v) && Inv(v) && x in v.tree.nodes && u == SwitchTo(v, x).state
  }

  /** From `v` to `u` at most chains and the links to children changed; nothing lost its chain. */
  ghost predicate SameCommitments(v: State, u: State) {
    && u == v.(tree := u.tree) && u.tree.origin == v.tree.origin && u.tree.nodes.Keys == v.tree.nodes.Keys
    && (forall n :: n in v.tree.nodes ==> SameCommitmentAt(v, u, n))
  }

  ghost predicate SameCommitmentAt(v: State, u: State, n: Id) {
    && n in v.tree.nodes && n in u.tree.nodes
    && u.tree.nodes[n].commitment == v.tree.nodes[n].commitment && u.tree.nodes[n].solid == v.tree.nodes[n].solid
    && (v.tree.nodes[n].chain.Some? ==> u.tree.nodes[n].chain.Some?)
  }

  /** Whatever its outcome, a switch changes only chains and the links to children. */
  lemma SwitchKeepsCommitments(s: State, x: Id)
    requires Inv(s) && x in s.tree.nodes
    ensures SameCommitments(s, SwitchTo(s, x).state)
  {
    SwitchKeepsKeys(s, x);
    SwitchKeepsOrigin(s, x);
    forall n | n in s.tree.nodes ensures SameCommitmentAt(s, SwitchTo(s, x).state, n) {
      SwitchKeepsSolidity(s, x, n);
    }
  }

  /** In every state the manager can reach from its initial root, the invariant holds. */
  lemma {:induction false} ReachableInv(s: State, ops: seq<Op>, u: State)
    requires Inv(s) && Reported(s) && Leads(s, ops, u)
    ensures Inv(u) && Reported(u)
    decreases |ops|
  {
    if ops != [] {
      StepKeepsInv(s, ops[0]);
      ReachableInv(Step(s, ops[0]), ops[1..], u);
    }
  }

  /** However the last switch of a run ended, some allowed run has the same commitments, requests and reports. */
  lemma EndsAfterRun(s: State, ops: seq<Op>, u: State) returns (v: State)
    requires Ends(s, ops, u)
    ensures Leads(s, ops, v) && SameCommitments(v, u)
  {
    if Leads(s, ops, u) {
      v := u;
    } else {
      var w, x :| Leads(s, ops, w) && Inv(w) && x in w.tree.nodes && u == SwitchTo(w, x).state;
      SwitchKeepsCommitments(w, x);
      v := w;
    }
  }
}
