/**
 Exactly what a switch changes: which main children, which children and which chains.
 */
module ChainEffects {
  import opened Options
  import opened ChainState
  import opened ChainStructure
  import opened ChainForks
  import opened ChainSwitch
  import opened ChainReorg
  import opened ChainOps
  import opened ChainSwitchTheorems
  import opened ChainLatest
  import opened ChainTips

  /** The rounds get as far as forking point `i`: it and all before it are registered with their parents. */
  ghost predicate Passed(t: Tree, fps: seq<Id>, i: nat) {
    i < |fps| && forall j :: 0 <= j <= i ==> Attached(t, fps[j])
  }

  /** The parent of a forking point that the rounds get to. */
  ghost predicate Relinked(t: Tree, fps: seq<Id>, n: Id) {
    exists i: nat :: Passed(t, fps, i) && Prev(t, fps[i]) == n
  }

  // ----- The rounds -----

  lemma PassedNext(t: Tree, w: Tree, fps: seq<Id>, i: nat)
    requires fps != [] && forall f :: Attached(w, f) <==> Attached(t, f)
    ensures Passed(t, fps, i + 1) <==> Attached(t, fps[0]) && Passed(w, fps[1..], i)
  {
    if Attached(t, fps[0]) && Passed(w, fps[1..], i) {
      forall j | 0 <= j <= i + 1 ensures Attached(t, fps[j]) {
        assert j > 0 ==> fps[1..][j - 1] == fps[j];
      }
    }
    if Passed(t, fps, i + 1) {
      forall j | 0 <= j <= i ensures Attached(w, fps[1..][j]) {
        assert fps[1..][j] == fps[j + 1];
      }
    }
  }

  /** What a round does to the links. */
  lemma RoundLinks(t: Tree, fp: Id, main: nat)
    requires Shape(t) && Promotable(t, fp) && main < |t.chains|
    ensures var w := SwitchStep(t, fp, main);
            && Shape(w) && w.nodes.Keys == t.nodes.Keys && MainChild(w, Prev(t, fp)) == Some(fp)
            && (forall n :: n in t.nodes && n != Prev(t, fp) ==> MainChild(w, n) == MainChild(t, n))
            && (forall f :: Attached(w, f) <==> Attached(t, f))
            && (forall f :: f in t.nodes ==> w.nodes[f].commitment == t.nodes[f].commitment)
            && |w.chains| == |t.chains| + 1 && w.chains[|t.chains|].forkingPoint == Displaced(t, fp)
  {
    SwitchStepFrame(t, fp, main);
    SwitchStepHead(t, fp, main);
    StepSameUpTo(t, fp, main);
    StepChains(t, fp, main);
    forall n | n in t.nodes && n != Prev(t, fp) ensures MainChild(SwitchStep(t, fp, main), n) == MainChild(t, n) {
      StepMain(t, fp, main, n);
    }
    assert Relink(t, fp).chains[|t.chains|].forkingPoint == Displaced(t, fp);
  }

  /** The forking point `f` took the place of its parent's main child, which heads chain `k` now. */
  ghost predicate Took(t: Tree, w: Tree, f: Id, k: nat) {
    && Published(t, f) && Prev(t, f) in t.nodes && Prev(t, f) in w.nodes && MainChild(t, Prev(t, f)).Some?
    && MainChild(w, Prev(t, f)) == Some(f) && k < |w.chains| && w.chains[k].forkingPoint == MainChild(t, Prev(t, f)).value
  }

  lemma {:induction false} FirstRelink(t: Tree, fp: Id, main: nat, e: Option<Id>)
    requires RoundReady(t, fp, main, e) && Attached(t, fp)
    ensures Took(t, Rounds(t, fp, main, e).tree, fp, |t.chains|)
  {
    hide SwitchStep, Rounds;
    ReadyParent(t, fp, main, e);
    RoundLinks(t, fp, main);
    StepOfRounds(t, fp, main, e);
    if !OnChain(t, Prev(t, fp), main) {
      ReadyNext(t, fp, main, e);
      var w := SwitchStep(t, fp, main);
      var fp2 := NextForkingPoint(w, Prev(t, fp));
      RoundsEvolve(w, fp2, main, Some(fp));
      RoundsLinks(w, fp2, main, Some(fp), Prev(t, fp));
    }
  }

  /** The next round, when the forking point's parent is not on the main chain. */
  lemma NextRound(t: Tree, fp: Id, main: nat, e: Option<Id>, stored: set<Id>) returns (w: Tree, fp2: Id)
    requires RoundReady(t, fp, main, e) && ChainsUpTo(t, fp.slot) && Jumps(t, stored, main, fp).Some?
    requires Attached(t, fp) && !OnChain(t, Prev(t, fp), main)
    ensures Promotable(t, fp) && w == SwitchStep(t, fp, main) && RoundReady(w, fp2, main, Some(fp)) && ChainsUpTo(w, fp2.slot)
    ensures Jumps(w, stored, main, fp2).Some? && Jumps(t, stored, main, fp).value == [fp] + Jumps(w, stored, main, fp2).value
    ensures Rounds(t, fp, main, e) == Rounds(w, fp2, main, Some(fp)) && fp2.slot <= Prev(t, fp).slot < fp.slot
  {
    hide SwitchStep;
    RoundsStart(t, fp, main, e, stored);
    ReadyNext(t, fp, main, e);
    NextJumps(t, fp, main, e, stored);
    w := SwitchStep(t, fp, main);
    fp2 := NextForkingPoint(w, Prev(t, fp));
  }

  /** A round puts its forking point in the place of its parent's main child. */
  lemma {:induction false} RoundsRelink(t: Tree, fp: Id, main: nat, e: Option<Id>, stored: set<Id>, fps: seq<Id>, i: nat)
    requires RoundReady(t, fp, main, e) && ChainsUpTo(t, fp.slot) && Jumps(t, stored, main, fp) == Some(fps) && Passed(t, fps, i)
    ensures Took(t, Rounds(t, fp, main, e).tree, fps[i], |t.chains| + i) && Prev(t, fps[i]).slot < fp.slot
    decreases fp.slot
  {
    hide SwitchStep, Rounds, Took, Jumps;
    RoundsStart(t, fp, main, e, stored);
    assert Attached(t, fps[0]);
    if i == 0 {
      FirstRelink(t, fp, main, e);
    } else {
      var w, fp2 := NextRound(t, fp, main, e, stored);
      assert Passed(w, fps[1..], i - 1) && |w.chains| + (i - 1) == |t.chains| + i by {
        RoundLinks(t, fp, main);
        PassedNext(t, w, fps, i - 1);
      }
      assert fps[1..][i - 1] == fps[i];
      RoundsRelink(w, fp2, main, Some(fp), stored, fps[1..], i - 1);
      TookBefore(t, fp, main, w, Rounds(w, fp2, main, Some(fp)).tree, fps[i], |t.chains| + i);
    }
  }

  lemma {:induction false} RoundsStart(t: Tree, fp: Id, main: nat, e: Option<Id>, stored: set<Id>)
    requires RoundReady(t, fp, main, e) && ChainsUpTo(t, fp.slot) && Jumps(t, stored, main, fp).Some?
    ensures Shape(t) && main < |t.chains| && Published(t, fp) && Prev(t, fp) in t.nodes && fp.slot == Prev(t, fp).slot + 1
    ensures Attached(t, fp) ==> Promotable(t, fp)
    ensures var fps := Jumps(t, stored, main, fp).value; |fps| > 0 && fps[0] == fp && (OnChain(t, Prev(t, fp), main) ==> fps == [fp])
  {
    ReadyParent(t, fp, main, e);
    ReadyJumps(t, fp, main, e, stored);
  }

  /** What a later round took was as it found it before the first one. */
  lemma TookBefore(t: Tree, fp: Id, main: nat, u: Tree, w: Tree, f: Id, k: nat)
    requires Shape(t) && Promotable(t, fp) && main < |t.chains| && u == SwitchStep(t, fp, main)
    requires Took(u, w, f, k) && Published(u, f) && Prev(u, f).slot < Prev(t, fp).slot
    ensures Took(t, w, f, k) && Published(t, f) && Prev(t, f) == Prev(u, f)
  {
    hide SwitchStep;
    RoundLinks(t, fp, main);
  }

  lemma {:induction false} StepOfRounds(t: Tree, fp: Id, main: nat, e: Option<Id>)
    requires RoundReady(t, fp, main, e) && Attached(t, fp) && Promotable(t, fp)
    ensures var w, p := SwitchStep(t, fp, main), Prev(t, fp);
            && (OnChain(t, p, main) ==> Rounds(t, fp, main, e) == Done(w))
            && (!OnChain(t, p, main) && p in w.nodes && w.nodes[p].chain.Some? && w.nodes[p].chain.value < |w.chains|
                && RoundReady(w, NextForkingPoint(w, p), main, Some(fp)) ==>
                Rounds(t, fp, main, e) == Rounds(w, NextForkingPoint(w, p), main, Some(fp)))
  {
    ReadyParent(t, fp, main, e);
  }

  lemma RelinkedLater(t: Tree, w: Tree, fps: seq<Id>, n: Id)
    requires fps != [] && Attached(t, fps[0]) && w.nodes.Keys == t.nodes.Keys && forall f :: Attached(w, f) <==> Attached(t, f)
    requires forall f :: f in t.nodes ==> w.nodes[f].commitment == t.nodes[f].commitment
    ensures Relinked(w, fps[1..], n) ==> Relinked(t, fps, n)
  {
    if i: nat :| Passed(w, fps[1..], i) && Prev(w, fps[1..][i]) == n {
      PassedNext(t, w, fps, i);
      assert fps[1..][i] == fps[i + 1];
    }
  }

  /** All other links stay. */
  lemma {:induction false} RoundsKeepLinks(t: Tree, fp: Id, main: nat, e: Option<Id>, stored: set<Id>, n: Id)
    requires RoundReady(t, fp, main, e) && ChainsUpTo(t, fp.slot) && Jumps(t, stored, main, fp).Some? && n in t.nodes
    requires !Relinked(t, Jumps(t, stored, main, fp).value, n)
    ensures n in Rounds(t, fp, main, e).tree.nodes && MainChild(Rounds(t, fp, main, e).tree, n) == MainChild(t, n)
    decreases fp.slot
  {
    hide SwitchStep;
    ReadyParent(t, fp, main, e);
    ReadyJumps(t, fp, main, e, stored);
    var fps := Jumps(t, stored, main, fp).value;
    if Attached(t, fp) {
      assert Passed(t, fps, 0) && fps[0] == fp;
      RoundLinks(t, fp, main);
      if !OnChain(t, Prev(t, fp), main) {
        var w, fp2 := NextRound(t, fp, main, e, stored);
        assert fps[1..] == Jumps(w, stored, main, fp2).value;
        RelinkedLater(t, w, fps, n);
        RoundsKeepLinks(w, fp2, main, Some(fp), stored, n);
      }
    }
  }

  /** One chain more for every round. */
  lemma {:induction false} RoundsChainCount(t: Tree, fp: Id, main: nat, e: Option<Id>, stored: set<Id>)
    requires RoundReady(t, fp, main, e) && ChainsUpTo(t, fp.slot) && Jumps(t, stored, main, fp).Some? && Rounds(t, fp, main, e).Done?
    ensures |Rounds(t, fp, main, e).tree.chains| == |t.chains| + |Jumps(t, stored, main, fp).value|
    decreases fp.slot
  {
    hide SwitchStep;
    ReadyParent(t, fp, main, e);
    ReadyJumps(t, fp, main, e, stored);
    RoundLinks(t, fp, main);
    if !OnChain(t, Prev(t, fp), main) {
      var w, fp2 := NextRound(t, fp, main, e, stored);
      RoundsChainCount(w, fp2, main, Some(fp), stored);
    }
  }

  // ----- The switch -----

  /** The forking points on the way from a commitment to the main chain, the ones that a switch works through. */
  ghost function ForkingPoints(s: State, x: Id): seq<Id>
    requires Inv(s) && x in s.tree.nodes && Moves(s, x)
  {
    JumpsToMain(s, x).value
  }

  lemma SwitchRoundsReady(s: State, x: Id)
    requires Inv(s) && x in s.tree.nodes && Moves(s, x)
    ensures var fps := ForkingPoints(s, x);
            && RoundReady(s.tree, fps[0], Main(s), None) && ChainsUpTo(s.tree, fps[0].slot)
            && Jumps(s.tree, s.stored, Main(s), fps[0]) == Some(fps)
            && AllRounds(s, x) == Rounds(s.tree, fps[0], Main(s), None)
  {
    hide Rounds;
    MainIsOrigins(s);
    FirstRoundReady(s, x);
    FirstJump(s, x);
  }

  lemma SwitchedLinks(s: State, x: Id, n: Id)
    requires Inv(s) && x in s.tree.nodes && Moves(s, x) && n in s.tree.nodes
    ensures var u := SwitchTo(s, x).state.tree;
            && n in u.nodes && n in AllRounds(s, x).tree.nodes && MainChild(u, n) == MainChild(AllRounds(s, x).tree, n)
            && u.chains == AllRounds(s, x).tree.chains
  {
    hide Rounds, Jumps;
    SwitchKeepsSolidity(s, x, n);
    if AllRounds(s, x).Done? {
      SwitchDetaches(s, x);
      SwitchNode(s, x, n);
    }
  }

  /** The parent of every forking point that the switch gets to has that forking point as its main child afterwards, and the
      main child it had before heads a chain that the switch created. */
  lemma SwitchRelinks(s: State, x: Id, i: nat)
    requires Inv(s) && x in s.tree.nodes && Moves(s, x) && Passed(s.tree, ForkingPoints(s, x), i)
    ensures var u, f := SwitchTo(s, x).state.tree, ForkingPoints(s, x)[i];
            Took(s.tree, u, f, |s.tree.chains| + i)
  {
    hide Rounds, Jumps, SwitchTo;
    SwitchRoundsReady(s, x);
    var f := ForkingPoints(s, x)[i];
    assert ShapeAt(s.tree, f);
    RoundsRelink(s.tree, ForkingPoints(s, x)[0], Main(s), None, s.stored, ForkingPoints(s, x), i);
    SwitchedLinks(s, x, Prev(s.tree, f));
  }

  /** Every other commitment keeps its main child, whatever the outcome. */
  lemma SwitchKeepsOtherLinks(s: State, x: Id, n: Id)
    requires Inv(s) && x in s.tree.nodes && n in s.tree.nodes
    requires Moves(s, x) ==> !Relinked(s.tree, ForkingPoints(s, x), n)
    ensures n in SwitchTo(s, x).state.tree.nodes && MainChild(SwitchTo(s, x).state.tree, n) == MainChild(s.tree, n)
  {
    if Moves(s, x) {
      hide Rounds, Jumps, SwitchTo;
      SwitchRoundsReady(s, x);
      RoundsKeepLinks(s.tree, ForkingPoints(s, x)[0], Main(s), None, s.stored, n);
      SwitchedLinks(s, x, n);
    }
  }

  lemma RoundsChildren(s: State, x: Id, n: Id)
    requires Inv(s) && x in s.tree.nodes && n in s.tree.nodes && Moves(s, x)
    ensures n in AllRounds(s, x).tree.nodes && AllRounds(s, x).tree.nodes[n].children == s.tree.nodes[n].children
  {
    hide Rounds, Jumps;
    FirstRoundReady(s, x);
    RoundsEvolve(s.tree, JumpsToMain(s, x).value[0], Main(s), None);
    assert AllRounds(s, x).tree.nodes[n].(mainChildId := None, chain := None) == s.tree.nodes[n].(mainChildId := None, chain := None);
  }

  /** The one child that a switch takes off: the old main child where the new branch leaves the main chain. */
  ghost function TakenOff(s: State, x: Id, n: Id): set<Id>
    requires Inv(s) && x in s.tree.nodes
  {
    if Moves(s, x) && SwitchTo(s, x).error.None? && n == Prev(s.tree, LeavesAt(s, x)) then {MainChild(s.tree, n).value} else {}
  }

  /** A switch takes exactly one child off its parent when it succeeds and moves something, and none otherwise. */
  lemma SwitchChildren(s: State, x: Id, n: Id)
    requires Inv(s) && x in s.tree.nodes && n in s.tree.nodes
    ensures n in SwitchTo(s, x).state.tree.nodes
    ensures SwitchTo(s, x).state.tree.nodes[n].children == s.tree.nodes[n].children - TakenOff(s, x, n)
  {
    SwitchKeepsSolidity(s, x, n);
    if Moves(s, x) {
      assert AllRounds(s, x).tree.nodes[n].children == s.tree.nodes[n].children by { RoundsChildren(s, x, n); }
      if SwitchTo(s, x).error.None? {
        SwitchDetaches(s, x);
      }
    }
  }

  /** Whatever was registered with its parent before a successful switch is so afterwards, except for the old main child where
      the new branch leaves the main chain. */
  lemma SwitchKeepsAttachedBut(s: State, x: Id, n: Id)
    requires Inv(s) && x in s.tree.nodes && Moves(s, x) && SwitchTo(s, x).error.None? && Attached(s.tree, n)
    ensures Attached(SwitchTo(s, x).state.tree, n) <==> n != MainChild(s.tree, Prev(s.tree, LeavesAt(s, x))).value
  {
    hide SwitchTo;
    var m := MainChild(s.tree, Prev(s.tree, LeavesAt(s, x))).value;
    assert ShapeAt(s.tree, Prev(s.tree, LeavesAt(s, x)));
    SwitchKeepsSolidity(s, x, n);
    SwitchChildren(s, x, Prev(s.tree, n));
  }

  /** A commitment changes chains only onto the main chain, or with the branch of a displaced main child onto a chain of its own. */
  lemma SwitchMovesOnly(s: State, x: Id, n: Id)
    requires Inv(s) && x in s.tree.nodes && Moves(s, x) && SwitchTo(s, x).error.None? && n in s.tree.nodes
    ensures var u := SwitchTo(s, x).state.tree;
            && n in u.nodes && |u.chains| == |s.tree.chains| + |ForkingPoints(s, x)| && Shape(u)
            && (|| u.nodes[n].chain == s.tree.nodes[n].chain || OnChain(u, n, Main(s))
                || exists i: nat :: i < |ForkingPoints(s, x)| && DisplacedAt(s, x, i) in u.nodes && n in MainPath(u, DisplacedAt(s, x, i)))
  {
    hide Rounds, Jumps, SwitchTo;
    var u := SwitchTo(s, x).state.tree;
    assert TreeInv(u) by { SwitchKeepsTree(s, x); }
    SwitchRoundsReady(s, x);
    SwitchedLinks(s, x, n);
    SwitchDone(s, x);
    RoundsChainCount(s.tree, ForkingPoints(s, x)[0], Main(s), None, s.stored);
    if u.nodes[n].chain != s.tree.nodes[n].chain && !OnChain(u, n, Main(s)) {
      var k := ChangedChain(s, x, n);
      var i: nat := k - |s.tree.chains|;
      ClimbToHead(u, n, k);
      AllPassed(s, x, i);
      SwitchRelinks(s, x, i);
      assert DisplacedAt(s, x, i) == u.chains[k].forkingPoint;
    }
  }

  /** The main child that the parent of a forking point had before. */
  ghost function DisplacedAt(s: State, x: Id, i: nat): Id
    requires Inv(s) && x in s.tree.nodes && Moves(s, x) && i < |ForkingPoints(s, x)|
  {
    var f := ForkingPoints(s, x)[i];
    if Published(s.tree, f) && Prev(s.tree, f) in s.tree.nodes && MainChild(s.tree, Prev(s.tree, f)).Some?
    then MainChild(s.tree, Prev(s.tree, f)).value else f
  }

  lemma SwitchDone(s: State, x: Id)
    requires Inv(s) && x in s.tree.nodes && Moves(s, x) && SwitchTo(s, x).error.None?
    ensures AllRounds(s, x).Done?
  {
  }

  lemma AllPassed(s: State, x: Id, i: nat)
    requires Inv(s) && x in s.tree.nodes && Moves(s, x) && SwitchTo(s, x).error.None? && i < |ForkingPoints(s, x)|
    ensures Passed(s.tree, ForkingPoints(s, x), i)
  {
    SwitchSucceedsIff(s, x);
  }

  lemma ChangedChain(s: State, x: Id, n: Id) returns (k: nat)
    requires Inv(s) && x in s.tree.nodes && Moves(s, x) && SwitchTo(s, x).error.None? && n in s.tree.nodes
    requires n in SwitchTo(s, x).state.tree.nodes
    requires SwitchTo(s, x).state.tree.nodes[n].chain != s.tree.nodes[n].chain && !OnChain(SwitchTo(s, x).state.tree, n, Main(s))
    ensures k >= |s.tree.chains| && OnChain(SwitchTo(s, x).state.tree, n, k)
  {
    SwitchNode(s, x, n);
    assert Evolved(s.tree, AllRounds(s, x).tree, Main(s)) by { AllRoundsComplete(s, x); }
    k := SwitchTo(s, x).state.tree.nodes[n].chain.value;
  }

  /** A head that cannot be looked up is an error and changes nothing; any other one is switched to. */
  lemma SwitchToStored(s: State, head: Id)
    requires Inv(s)
    ensures head !in s.stored ==> SwitchMainChain(s, head).error == Some(UnknownCommitment) && SwitchMainChain(s, head).state == s
    ensures head in s.stored ==> head in s.tree.nodes && SwitchMainChain(s, head) == SwitchTo(s, head)
  {
  }

  /** Which error a switch ends with, and when it changes nothing. */
  lemma {:induction false} SwitchErrors(s: State, x: Id)
    requires Inv(s) && x in s.tree.nodes
    ensures !Moves(s, x) ==> SwitchTo(s, x).state == s
    ensures SwitchTo(s, x).error == Some(NotSolid) <==> !s.tree.nodes[x].solid
    ensures SwitchTo(s, x).error == Some(UnknownCommitment) <==>
              && s.tree.nodes[x].solid && OnChain(s.tree, s.tree.origin, Main(s)) && !OnChain(s.tree, x, Main(s))
              && Published(s.tree, Departure(s.tree, Main(s), x)) && Prev(s.tree, Departure(s.tree, Main(s), x)) !in s.stored
    ensures SwitchTo(s, x).error == Some(NotRegistered) <==>
              Moves(s, x) && exists i: nat :: i < |ForkingPoints(s, x)| && !Attached(s.tree, ForkingPoints(s, x)[i])
  {
    SwitchSucceedsIff(s, x);
    MainIsOrigins(s);
    if s.tree.nodes[x].solid {
      JumpsToMainEnd(s, x);
      if !OnChain(s.tree, x, Main(s)) {
        DepartureIsBelow(s.tree, Main(s), x);
      }
    }
    if Moves(s, x) {
      var fps := ForkingPoints(s, x);
      assert AllAttached(s.tree, fps) <==> forall i: nat :: i < |fps| ==> Attached(s.tree, fps[i]);
    }
  }
}
