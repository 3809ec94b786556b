/**
 What holds in every state that the chain manager can reach from its initial root, by any sequence of allowed operations.
 */
module ChainReachable {
  import opened Options
  import opened ChainState
  import opened ChainStructure
  import opened ChainForks
  import opened ChainOps
  import opened ChainRuns
  import opened ChainSteps
  import opened ChainReports

  lemma {:induction false} Reached(c0: Commitment, ops: seq<Op>, u: State)
    requires Leads(Init(c0), ops, u)
    ensures Inv(u) && Reported(u)
  {
    InitInv(c0);
    ReachableInv(Init(c0), ops, u);
  }

  /** A commitment shares its parent's chain exactly when it is the parent's main child, and otherwise heads a chain of its own. */
  lemma {:induction false} ReachableChains(c0: Commitment, ops: seq<Op>, u: State, n: Id)
    requires Leads(Init(c0), ops, u) && Published(u.tree, n) && n != u.tree.origin
    ensures Prev(u.tree, n) in u.tree.nodes
    ensures u.tree.nodes[n].chain == u.tree.nodes[Prev(u.tree, n)].chain <==> MainChild(u.tree, Prev(u.tree, n)) == Some(n)
    ensures MainChild(u.tree, Prev(u.tree, n)) != Some(n) ==> HeadsOwnChain(u.tree, n)
  {
    hide Leads;
    Reached(c0, ops, u);
    SharesChainIffMainChild(u.tree, n);
  }

  /** The members of a live chain are exactly the main-child path from its forking point. */
  lemma {:induction false} ReachablePaths(c0: Commitment, ops: seq<Op>, u: State, k: nat)
    requires Leads(Init(c0), ops, u) && k < |u.tree.chains| && OnChain(u.tree, u.tree.chains[k].forkingPoint, k)
    ensures Shape(u.tree) && forall n :: OnChain(u.tree, n, k) <==> n in MainPath(u.tree, u.tree.chains[k].forkingPoint)
  {
    hide Leads, MainPath;
    Reached(c0, ops, u);
    ChainIsMainPath(u.tree, k);
  }

  /** For every slot up to the tip of that path, the chain's per-slot index yields the commitment on the path. */
  lemma {:induction false} ReachableIndex(c0: Commitment, ops: seq<Op>, u: State, k: nat, i: nat)
    requires Leads(Init(c0), ops, u) && k < |u.tree.chains| && OnChain(u.tree, u.tree.chains[k].forkingPoint, k)
    ensures Shape(u.tree)
    ensures var t, h := u.tree, u.tree.chains[k].forkingPoint;
            i < |MainPath(t, h)| ==> h.slot + i in t.chains[k].index && t.chains[k].index[h.slot + i] == MainPath(t, h)[i]
  {
    hide Leads, MainPath;
    Reached(c0, ops, u);
    if i < |MainPath(u.tree, u.tree.chains[k].forkingPoint)| {
      IndexFollowsPath(u.tree, u.tree.chains[k].forkingPoint, k, i);
    }
  }

  /** Above the root, a request is outstanding exactly for the commitments that are known but not published,
      however the last switch ended. */
  lemma ReachableRequests(c0: Commitment, ops: seq<Op>, u: State, n: Id)
    requires Ends(Init(c0), ops, u) && n.slot > u.root.slot
    ensures n in u.requests <==> n in u.tree.nodes && !Published(u.tree, n)
  {
    hide Leads, Ends;
    var v := EndsAfterRun(Init(c0), ops, u);
    Reached(c0, ops, v);
    assert n in v.tree.nodes ==> RequestedAt(v, n);
  }

  /** Every report was true in the state in which the run made it: the fork it names leaves the main chain there, and its latest
      commitment is heavier than the main chain's. Reports of one forking point carry strictly later commitments each time. All
      this however the last switch ended. */
  lemma ReachableReports(c0: Commitment, ops: seq<Op>, u: State, i: nat, j: nat)
    requires Ends(Init(c0), ops, u)
    ensures i < |u.detections| ==> u.detections[i].fork.latest.weight > u.detections[i].mainWeight
    ensures i < |u.detections| ==> exists k, w :: MadeAt(Init(c0), ops, u, i, k, w)
    ensures i < j < |u.detections| && u.detections[i].fork.forkingPoint == u.detections[j].fork.forkingPoint ==>
              u.detections[i].fork.latest.id.slot < u.detections[j].fork.latest.id.slot
  {
    hide Leads, Ends;
    var v := EndsAfterRun(Init(c0), ops, u);
    Reached(c0, ops, v);
    if i < |v.detections| {
      assert ReportedAt(v, v.detections[i]);
      InitInv(c0);
      var k, w := RunReportsTruly(Init(c0), ops, v, i);
      assert MadeAt(Init(c0), ops, u, i, k, w);
    }
  }

  /** A forking point has a record exactly when it was reported and its slot is not evicted; the record is that of its last report,
      and all its reports name the same peer and the same two chains. */
  lemma {:induction false} ReachableRecords(c0: Commitment, ops: seq<Op>, u: State, d: Id, i: nat, j: nat)
    requires Leads(Init(c0), ops, u)
    ensures d in u.forks <==> !IsEvicted(u, d.slot) && exists k :: 0 <= k < |u.detections| && u.detections[k].fork.forkingPoint == d
    ensures d in u.forks && LastReport(u, d, i) ==> u.forks[d] == u.detections[i].fork
    ensures i < j < |u.detections| && u.detections[i].fork.forkingPoint == u.detections[j].fork.forkingPoint ==>
              NamedAlike(u.detections[i].fork, u.detections[j].fork)
  {
    hide Leads;
    Reached(c0, ops, u);
    InitInv(c0);
    RunKeepsRecords(Init(c0), ops, u);
    if d in u.forks {
      var k :| LastReport(u, d, k) && u.detections[k].fork == u.forks[d];
      assert LastReport(u, d, i) ==> i == k;
    }
    if k :| 0 <= k < |u.detections| && u.detections[k].fork.forkingPoint == d {
      assert ReportedAt(u, u.detections[k]);
    }
  }

  /** The root is where it was last moved to; a slot is evicted exactly when an eviction reached it; what is known and not evicted
      can be looked up, and nothing else. */
  lemma {:induction false} ReachableStored(c0: Commitment, ops: seq<Op>, u: State, n: Id)
    requires Leads(Init(c0), ops, u)
    ensures u.root == RootAfter(ops, c0.id)
    ensures IsEvicted(u, n.slot) <==> Evicts(ops, n.slot)
    ensures n in u.stored <==> n in u.tree.nodes && !Evicts(ops, n.slot)
  {
    hide Leads;
    Reached(c0, ops, u);
    InitInv(c0);
    RunRootAndEvicted(Init(c0), ops, u, n.slot);
  }

  ghost predicate DepartsOnlyAt(u: State, x: Id, d: Id)
    requires Inv(u)
  {
    LeavesMain(u.tree, Main(u), x, d) && forall a :: LeavesMain(u.tree, Main(u), x, a) ==> a == d
  }

  /** The walk over forking points finds nothing exactly for a commitment on the main chain. Otherwise exactly one ancestor-or-self
      is off the main chain while its parent is on it; the walk finds it, and fails exactly when its parent is no longer stored. */
  lemma {:induction false} ReachableForkingPoints(c0: Commitment, ops: seq<Op>, u: State, x: Id)
    requires Leads(Init(c0), ops, u) && x in u.tree.nodes && u.tree.nodes[x].solid
    ensures Inv(u) && (OnChain(u.tree, x, Main(u)) <==> JumpsToMain(u, x) == Some([]))
    ensures !OnChain(u.tree, x, Main(u)) ==>
              exists d :: DepartsOnlyAt(u, x, d) &&
                if Prev(u.tree, d) in u.stored
                then JumpsToMain(u, x).Some? && var fps := JumpsToMain(u, x).value; fps != [] && fps[|fps| - 1] == d
                else JumpsToMain(u, x).None?
  {
    hide Leads;
    Reached(c0, ops, u);
    MainIsOrigins(u);
    JumpsToMainEnd(u, x);
    if !OnChain(u.tree, x, Main(u)) {
      var d := Departure(u.tree, Main(u), x);
      DepartureIsBelow(u.tree, Main(u), x);
      forall a | LeavesMain(u.tree, Main(u), x, a) ensures a == d {
        DepartureIsUnique(u.tree, Main(u), x, a);
      }
      assert DepartsOnlyAt(u, x, d);
    }
  }
}
