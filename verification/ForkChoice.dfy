/**
 The decision whether to switch to a fork, made slot by slot from the verified weights.
 */
module ForkChoice {

  /** What is found for one slot of the forked chain. */
  datatype SlotResult =
    | NoMainCommitment                         // the forked chain is longer than the main chain
    | Weighed(actualWeight: nat, mainWeight: nat)
    | VerificationFailed

  predicate Heavier(r: SlotResult) {
    r.NoMainCommitment? || (r.Weighed? && r.actualWeight > r.mainWeight)
  }

  predicate Lighter(r: SlotResult) {
    r.Weighed? && r.actualWeight < r.mainWeight
  }

  predicate Tie(r: SlotResult) {
    r.Weighed? && r.actualWeight == r.mainWeight
  }

  datatype Decision = Undecided | Switch | Stay | Error

  // ----- The reference: heavier minus lighter slots since the last tie -----

  function CountHeavier(s: seq<SlotResult>): nat {
    if s == [] then 0 else CountHeavier(s[..|s| - 1]) + if Heavier(s[|s| - 1]) then 1 else 0
  }

  function CountLighter(s: seq<SlotResult>): nat {
    if s == [] then 0 else CountLighter(s[..|s| - 1]) + if Lighter(s[|s| - 1]) then 1 else 0
  }

  /** The number of slots up to the last tie. */
  function LastTie(s: seq<SlotResult>): (n: nat)
    ensures n <= |s| && (n > 0 ==> Tie(s[n - 1])) && forall i :: n <= i < |s| ==> !Tie(s[i])
  {
    if s == [] then 0 else if Tie(s[|s| - 1]) then |s| else LastTie(s[..|s| - 1])
  }

  function Net(s: seq<SlotResult>): int {
    var recent := s[LastTie(s)..];
    CountHeavier(recent) - CountLighter(recent)
  }

  /** One more slot adds one, takes one off or starts anew. */
  lemma NetNext(s: seq<SlotResult>, r: SlotResult)
    ensures Net(s + [r]) == if Heavier(r) then Net(s) + 1 else if Lighter(r) then Net(s) - 1 else if Tie(r) then 0 else Net(s)
  {
    var t := s + [r];
    assert t[..|t| - 1] == s;
    if !Tie(r) {
      var recent := t[LastTie(t)..];
      assert recent[..|recent| - 1] == s[LastTie(s)..];
    }
  }

  /** The rule settles the matter after the first `k` slots. */
  predicate Settles(s: seq<SlotResult>, threshold: int, k: nat)
    requires 0 < k <= |s|
  {
    s[k - 1].VerificationFailed? || Net(s[..k]) == threshold || Net(s[..k]) == -threshold
  }

  /** The decision after `k` slots, and that no fewer slots settle it. */
  ghost predicate Decides(s: seq<SlotResult>, threshold: int, k: nat, d: Decision) {
    && k <= |s| && (forall j :: 0 < j < k ==> !Settles(s, threshold, j))
    && if d == Undecided then k == |s| && (k > 0 ==> !Settles(s, threshold, k))
       else k > 0 && Settles(s, threshold, k)
            && d == if s[k - 1].VerificationFailed? then Error else if Net(s[..k]) == threshold then Switch else Stay
  }

  /** Walks the slots of a fork and stops where the net count of heavier slots reaches the threshold either way. */
  method ProcessFork(slots: seq<SlotResult>, threshold: int) returns (d: Decision, k: nat)
    requires threshold > 0
    ensures Decides(slots, threshold, k, d)
  {
    var heavierCount := 0;
    k := 0;
    assert slots[..0] == [];
    NothingCounted();
    hide Net;
    while k < |slots|
      invariant k <= |slots| && heavierCount == Net(slots[..k])
      invariant forall j :: 0 < j <= k ==> !Settles(slots, threshold, j)
    {
      var result := slots[k];
      NetNext(slots[..k], result);
      assert slots[..k] + [result] == slots[..k + 1];
      k := k + 1;
      match result {
        case NoMainCommitment =>
          heavierCount := heavierCount + 1;
        case VerificationFailed =>
          return Error, k;
        case Weighed(actual, main) =>
          if actual > main {
            heavierCount := heavierCount + 1;
          } else if actual < main {
            heavierCount := heavierCount - 1;
          } else {
            heavierCount := 0;
          }
      }
      var decided, shouldSwitch := ForkChoiceRule(heavierCount, threshold);
      if decided {
        return if shouldSwitch then Switch else Stay, k;
      }
      assert !Settles(slots, threshold, k);
    }
    d := Undecided;
  }

  method ForkChoiceRule(heavierCount: int, threshold: int) returns (decided: bool, shouldSwitch: bool)
    ensures decided == (heavierCount == threshold || heavierCount == -threshold)
    ensures shouldSwitch == (heavierCount == threshold)
  {
    if heavierCount == threshold {
      return true, true;
    } else if heavierCount == -threshold {
      return true, false;
    }
    return false, false;
  }

  // ----- What follows for the decision -----

  /** There is exactly one decision, so the rule never decides both ways. */
  lemma DecisionIsUnique(s: seq<SlotResult>, threshold: int, k: nat, d: Decision, l: nat, e: Decision)
    requires threshold > 0 && Decides(s, threshold, k, d) && Decides(s, threshold, l, e)
    ensures k == l && d == e
  {
  }

  lemma {:induction false} CountsBound(s: seq<SlotResult>)
    ensures CountHeavier(s) + CountLighter(s) <= |s|
  {
    if s != [] {
      CountsBound(s[..|s| - 1]);
    }
  }

  /** A switch needs at least the threshold of heavier slots after the last tie, and that many more than lighter ones. */
  lemma SwitchNeedsHeavierSlots(s: seq<SlotResult>, threshold: int, k: nat)
    requires threshold > 0 && Decides(s, threshold, k, Switch)
    ensures var recent := s[..k][LastTie(s[..k])..];
            && CountHeavier(recent) == threshold + CountLighter(recent) && threshold <= |recent|
            && (forall r :: r in recent ==> Heavier(r) || Lighter(r))
  {
    var t := s[..k];
    var recent := t[LastTie(t)..];
    CountsBound(recent);
    forall i | 0 <= i < |recent| ensures Heavier(recent[i]) || Lighter(recent[i]) {
      var j := LastTie(t) + i;
      assert recent[i] == t[j] && !Tie(t[j]);
      assert j + 1 < k ==> !Settles(s, threshold, j + 1);
    }
  }

  /** Continuing with more slots does not change a decision that was made. */
  lemma DecisionIsStable(s: seq<SlotResult>, more: seq<SlotResult>, threshold: int, k: nat, d: Decision)
    requires d != Undecided && Decides(s, threshold, k, d)
    ensures Decides(s + more, threshold, k, d)
  {
    forall j | 0 < j <= k ensures Settles(s + more, threshold, j) == Settles(s, threshold, j) {
      assert (s + more)[..j] == s[..j];
    }
    assert (s + more)[..k] == s[..k];
  }

  /** Staying needs that many more lighter than heavier slots after the last tie. */
  lemma StayNeedsLighterSlots(s: seq<SlotResult>, threshold: int, k: nat)
    requires threshold > 0 && Decides(s, threshold, k, Stay)
    ensures var recent := s[..k][LastTie(s[..k])..]; CountLighter(recent) == threshold + CountHeavier(recent) && threshold <= |recent|
  {
    CountsBound(s[..k][LastTie(s[..k])..]);
  }

  lemma {:induction false} NetOfHeavier(s: seq<SlotResult>)
    requires forall r :: r in s ==> r.NoMainCommitment? || (r.Weighed? && r.actualWeight > r.mainWeight)
    ensures Net(s) == |s|
  {
    if s != [] {
      var init := s[..|s| - 1];
      NetOfHeavier(init);
      NetNext(init, s[|s| - 1]);
      assert init + [s[|s| - 1]] == s;
    }
  }

  lemma {:induction false} NetOfLighter(s: seq<SlotResult>)
    requires forall r :: r in s ==> r.Weighed? && r.actualWeight < r.mainWeight
    ensures Net(s) == -|s|
  {
    if s != [] {
      var init := s[..|s| - 1];
      NetOfLighter(init);
      NetNext(init, s[|s| - 1]);
      assert init + [s[|s| - 1]] == s;
    }
  }

  /** A fork that is heavier or longer from its first slot on is switched to after exactly the threshold of slots; one that is
      lighter from its first slot on is given up after as many. */
  lemma SteadyForks(s: seq<SlotResult>, threshold: int)
    requires 0 < threshold <= |s|
    ensures (forall r :: r in s ==> r.NoMainCommitment? || (r.Weighed? && r.actualWeight > r.mainWeight)) ==> Decides(s, threshold, threshold, Switch)
    ensures (forall r :: r in s ==> r.Weighed? && r.actualWeight < r.mainWeight) ==> Decides(s, threshold, threshold, Stay)
  {
    hide Net;
    if forall r :: r in s ==> r.NoMainCommitment? || (r.Weighed? && r.actualWeight > r.mainWeight) {
      forall j: nat | j <= |s| ensures Net(s[..j]) == j { NetOfHeavier(s[..j]); }
      forall j: nat | 0 < j < threshold ensures !Settles(s, threshold, j) { assert Net(s[..j]) == j && s[j - 1] in s; }
      assert Net(s[..threshold]) == threshold && s[threshold - 1] in s;
    }
    if forall r :: r in s ==> r.Weighed? && r.actualWeight < r.mainWeight {
      forall j: nat | j <= |s| ensures Net(s[..j]) == 0 - j { NetOfLighter(s[..j]); }
      forall j: nat | 0 < j < threshold ensures !Settles(s, threshold, j) { assert Net(s[..j]) == 0 - j && s[j - 1] in s; }
      assert Net(s[..threshold]) == -threshold && s[threshold - 1] in s;
    }
  }

  lemma {:induction false} NetAfterTie(s: seq<SlotResult>, weight: nat, t: seq<SlotResult>)
    ensures Net(s + [Weighed(weight, weight)] + t) == Net(t)
  {
    hide Net;
    var tie := Weighed(weight, weight);
    if t == [] {
      NetNext(s, tie);
      NothingCounted();
      assert s + [tie] + [] == s + [tie];
    } else {
      var init, r := t[..|t| - 1], t[|t| - 1];
      NetAfterTie(s, weight, init);
      NetNext(s + [tie] + init, r);
      NetNext(init, r);
      assert init + [r] == t && s + [tie] + init + [r] == s + [tie] + t;
    }
  }

  /** A tie starts the decision over: when nothing was settled before it, what follows it decides as if it were the whole fork. */
  lemma TieStartsOver(s: seq<SlotResult>, weight: nat, t: seq<SlotResult>, threshold: int, k: nat, d: Decision)
    requires threshold > 0 && forall j :: 0 < j <= |s| ==> !Settles(s, threshold, j)
    ensures Decides(t, threshold, k, d) <==> Decides(s + [Weighed(weight, weight)] + t, threshold, |s| + 1 + k, d)
  {
    hide Net;
    var tie := Weighed(weight, weight);
    var all := s + [tie] + t;
    forall j | 0 < j <= |s| ensures !Settles(all, threshold, j) { assert all[..j] == s[..j] && all[j - 1] == s[j - 1] && !Settles(s, threshold, j); }
    assert !Settles(all, threshold, |s| + 1) by {
      assert all[..|s| + 1] == s + [tie] + [];
      NetAfterTie(s, weight, []);
      NothingCounted();
    }
    forall j | 0 < j <= |t| ensures Net(all[..|s| + 1 + j]) == Net(t[..j]) && all[|s| + j] == t[j - 1] {
      assert all[..|s| + 1 + j] == s + [tie] + t[..j];
      NetAfterTie(s, weight, t[..j]);
    }
    TieDecides(s, all, t, threshold, k, d);
  }

  lemma TieDecides(s: seq<SlotResult>, all: seq<SlotResult>, t: seq<SlotResult>, threshold: int, k: nat, d: Decision)
    requires threshold > 0 && |all| == |s| + 1 + |t| && forall j :: 0 < j <= |s| + 1 ==> !Settles(all, threshold, j)
    requires forall j :: 0 < j <= |t| ==> Net(all[..|s| + 1 + j]) == Net(t[..j]) && all[|s| + j] == t[j - 1]
    ensures Decides(t, threshold, k, d) <==> Decides(all, threshold, |s| + 1 + k, d)
  {
    hide Net;
    forall j | 0 < j <= |t| ensures Settles(all, threshold, |s| + 1 + j) == Settles(t, threshold, j) {}
    if k <= |t| {
      if k > 0 {
        assert Net(all[..|s| + 1 + k]) == Net(t[..k]) && all[|s| + k] == t[k - 1];
        assert Settles(all, threshold, |s| + 1 + k) == Settles(t, threshold, k);
      } else {
        assert !Settles(all, threshold, |s| + 1 + k);
      }
      if Decides(t, threshold, k, d) {
        forall j | 0 < j < |s| + 1 + k ensures !Settles(all, threshold, j) {
          if j > |s| + 1 {
            assert !Settles(t, threshold, j - |s| - 1);
          }
        }
      }
      if Decides(all, threshold, |s| + 1 + k, d) {
        forall j | 0 < j < k ensures !Settles(t, threshold, j) {
          assert !Settles(all, threshold, |s| + 1 + j);
        }
      }
    }
  }

  /** A slot that cannot be verified ends it with an error, unless the matter was settled before. */
  lemma FailureIsError(s: seq<SlotResult>, threshold: int, k: nat)
    requires threshold > 0 && k < |s| && s[k].VerificationFailed? && forall j :: 0 < j <= k ==> !Settles(s, threshold, j)
    ensures Decides(s, threshold, k + 1, Error)
  {
  }

  // ----- Slots in a row -----

  /** The length of the last run of slots that all go one way, negative when they are lighter. */
  function InARow(s: seq<SlotResult>): int {
    if s == [] then 0
    else
      var r, before := s[|s| - 1], InARow(s[..|s| - 1]);
      if Heavier(r) then (if before > 0 then before else 0) + 1
      else if Lighter(r) then (if before < 0 then before else 0) - 1
      else if Tie(r) then 0 else before
  }

  /** Where the last run starts. */
  function RunStart(s: seq<SlotResult>): (n: nat)
    ensures n <= |s|
  {
    if s == [] then 0
    else
      var r, before := s[|s| - 1], InARow(s[..|s| - 1]);
      if Tie(r) then |s|
      else if (Heavier(r) && before < 0) || (Lighter(r) && before > 0) then |s| - 1
      else RunStart(s[..|s| - 1])
  }

  /** The counter is the length of the last run plus what was left over before it. So it counts slots in a row exactly when
      heavier and lighter slots balance out between the last tie and the last run. */
  lemma {:induction false} NetIsInARowIff(s: seq<SlotResult>)
    ensures Net(s) == Net(s[..RunStart(s)]) + InARow(s)
    ensures Net(s) == InARow(s) <==> Net(s[..RunStart(s)]) == 0
  {
    hide Net;
    if s == [] {
      assert s[..0] == s;
    } else {
      var init, r := s[..|s| - 1], s[|s| - 1];
      NetIsInARowIff(init);
      NetNext(init, r);
      assert init + [r] == s;
      if Tie(r) {
        assert s[..|s|] == s;
      } else if RunStart(s) == RunStart(init) {
        assert s[..RunStart(s)] == init[..RunStart(init)];
      }
      NetWithoutRun(init);
    }
  }

  /** Before the first slot of a run, nothing of it is counted. */
  lemma {:induction false} NetWithoutRun(s: seq<SlotResult>)
    ensures InARow(s) == 0 ==> Net(s) == 0 && Net(s[..RunStart(s)]) == 0
  {
    if s == [] {
      assert s[..0] == s;
    } else {
      var init, r := s[..|s| - 1], s[|s| - 1];
      NetWithoutRun(init);
      NetNext(init, r);
      assert init + [r] == s;
      if Tie(r) {
        assert s[..|s|] == s;
      } else if InARow(s) == 0 {
        assert s[..RunStart(s)] == init[..RunStart(init)];
      }
    }
  }

  lemma {:induction false} InARowNext(s: seq<SlotResult>, r: SlotResult)
    ensures InARow(s + [r]) == if Heavier(r) then (if InARow(s) > 0 then InARow(s) else 0) + 1
                               else if Lighter(r) then (if InARow(s) < 0 then InARow(s) else 0) - 1
                               else if Tie(r) then 0 else InARow(s)
  {
    assert (s + [r])[..|s|] == s;
  }

  /** The slots between the last tie and the last run. */
  function BeforeRun(s: seq<SlotResult>): seq<SlotResult> {
    if LastTie(s) <= RunStart(s) then s[LastTie(s)..RunStart(s)] else []
  }

  /** There is no tie in the last run. */
  lemma {:induction false} RunHasNoTie(s: seq<SlotResult>)
    ensures LastTie(s) <= RunStart(s)
  {
    if s != [] {
      RunHasNoTie(s[..|s| - 1]);
    }
  }

  /** What is left over before the last run are the heavier slots minus the lighter ones in between. */
  lemma {:induction false} LeftOver(s: seq<SlotResult>)
    ensures Net(s) == CountHeavier(BeforeRun(s)) - CountLighter(BeforeRun(s)) + InARow(s)
  {
    RunHasNoTie(s);
    NetIsInARowIff(s);
    var p := s[..RunStart(s)];
    SameLastTie(s, RunStart(s));
    assert p[LastTie(p)..] == BeforeRun(s);
  }

  lemma {:induction false} SameLastTie(s: seq<SlotResult>, k: nat)
    requires LastTie(s) <= k <= |s|
    ensures LastTie(s[..k]) == LastTie(s)
  {
    if k < |s| {
      SameLastTie(s[..|s| - 1], k);
      assert s[..|s| - 1][..k] == s[..k];
    } else {
      assert s[..k] == s;
    }
  }

  // ----- Deciding by slots in a row -----

  /** Where the program switches, the last slots in a row reach the threshold exactly when the lighter slots between the last
      tie and the last run make up for the heavier ones. */
  lemma SwitchIsInARowIff(s: seq<SlotResult>, threshold: int, k: nat)
    requires threshold > 0 && Decides(s, threshold, k, Switch)
    ensures InARow(s[..k]) >= threshold <==> CountHeavier(BeforeRun(s[..k])) <= CountLighter(BeforeRun(s[..k]))
  {
    LeftOver(s[..k]);
  }

  /** As long as nothing settles the matter, the counter stays strictly between the thresholds. */
  lemma {:induction false} Unsettled(s: seq<SlotResult>, threshold: int, k: nat)
    requires threshold > 0 && k <= |s| && forall j :: 0 < j <= k ==> !Settles(s, threshold, j)
    ensures -threshold < Net(s[..k]) < threshold
  {
    if k == 0 {
      assert s[..0] == [];
      NothingCounted();
    } else {
      Unsettled(s, threshold, k - 1);
      assert s[..k] == s[..k - 1] + [s[k - 1]];
      NetNext(s[..k - 1], s[k - 1]);
      assert !Settles(s, threshold, k);
    }
  }

  /** A run of heavier slots has no other ones in it. */
  lemma {:induction false} HeavierRun(s: seq<SlotResult>)
    requires InARow(s) > 0 && (forall r :: r in s ==> !r.VerificationFailed?)
    ensures InARow(s) == |s| - RunStart(s) && forall i :: RunStart(s) <= i < |s| ==> Heavier(s[i])
  {
    var init, r := s[..|s| - 1], s[|s| - 1];
    assert r in s;
    if InARow(init) > 0 {
      assert forall x :: x in init ==> x in s;
      HeavierRun(init);
      forall i | RunStart(s) <= i < |s| ensures Heavier(s[i]) {
        assert i < |init| ==> Heavier(init[i]);
      }
    } else {
      FirstOfRun(s);
    }
  }

  /** Over heavier slots the counter rises by one with each. */
  lemma {:induction false} Rises(s: seq<SlotResult>, start: nat, j: nat)
    requires start <= j <= |s| && forall i :: start <= i < j ==> Heavier(s[i])
    ensures Net(s[..j]) == Net(s[..start]) + j - start
  {
    hide Net;
    if j > start {
      Rises(s, start, j - 1);
      assert s[..j] == s[..j - 1] + [s[j - 1]];
      NetNext(s[..j - 1], s[j - 1]);
    }
  }

  /** A run that starts with the last slot starts right before it. */
  lemma {:induction false} FirstOfRun(s: seq<SlotResult>)
    requires s != [] && InARow(s[..|s| - 1]) <= 0 && Heavier(s[|s| - 1]) && forall r :: r in s ==> !r.VerificationFailed?
    ensures RunStart(s) == |s| - 1
  {
    var init := s[..|s| - 1];
    if InARow(init) == 0 {
      NoRunYet(init);
    }
  }

  lemma {:induction false} NoRunYet(s: seq<SlotResult>)
    requires InARow(s) == 0 && forall r :: r in s ==> !r.VerificationFailed?
    ensures RunStart(s) == |s|
  {
    if s != [] {
      assert s[|s| - 1] in s;
    }
  }

  /** The program has decided to switch after one of the first `k` slots. */
  ghost predicate SwitchesBy(s: seq<SlotResult>, threshold: int, k: nat) {
    exists j :: 0 < j <= k && Decides(s, threshold, j, Switch)
  }

  /** When as many slots in a row as the threshold are heavier, and nothing was settled before them, the program has switched by
      then exactly when the lighter slots between the last tie and that run do not outnumber the heavier ones. */
  lemma InARowSwitchesIff(s: seq<SlotResult>, threshold: int, k: nat)
    requires threshold > 0 && k <= |s| && InARow(s[..k]) == threshold && forall r :: r in s[..k] ==> !r.VerificationFailed?
    requires forall j :: 0 < j <= RunStart(s[..k]) ==> !Settles(s, threshold, j)
    ensures SwitchesBy(s, threshold, k) <==> CountHeavier(BeforeRun(s[..k])) >= CountLighter(BeforeRun(s[..k]))
  {
    var p := s[..k];
    var start := RunStart(p);
    var left := Net(p[..start]);
    LeftOver(p);
    NetIsInARowIff(p);
    assert p[..start] == s[..start];
    Unsettled(s, threshold, start);
    HeavierRun(p);
    forall i | start <= i < k ensures Heavier(s[i]) { assert p[i] == s[i]; }
    forall j | start <= j <= k ensures Net(s[..j]) == left + j - start { Rises(s, start, j); }
    hide Net;
    if left >= 0 {
      var end := start + threshold - left;
      forall j | 0 < j < end ensures !Settles(s, threshold, j) {}
      assert Settles(s, threshold, end) && Decides(s, threshold, end, Switch);
    } else {
      forall j | 0 < j <= k ensures !Settles(s, threshold, j) {}
    }
  }

  const H := Weighed(2, 1)
  const L := Weighed(1, 2)

  /** Two heavier slots, a lighter one and two heavier ones make a switch at threshold 3, although at most two are in a row. */
  lemma SwitchWithoutThreeInARow()
    ensures Decides([H, H, L, H, H], 3, 5, Switch)
    ensures forall j :: 0 <= j <= 5 ==> InARow([H, H, L, H, H][..j]) < 3
  {
    hide Net, InARow;
    var s := [H, H, L, H, H];
    assert s[..1] == [] + [H] && s[..2] == s[..1] + [H] && s[..3] == s[..2] + [L] && s[..4] == s[..3] + [H] && s[..5] == s[..4] + [H];
    Counted([], H);
    Counted(s[..1], H);
    Counted(s[..2], L);
    Counted(s[..3], H);
    Counted(s[..4], H);
    NothingCounted();
    assert s[..0] == [];
  }

  /** After two lighter slots, three heavier ones in a row make no switch at threshold 3. */
  lemma ThreeInARowWithoutSwitch()
    ensures InARow([L, L, H, H, H]) == 3 && Decides([L, L, H, H, H], 3, 5, Undecided)
  {
    hide Net, InARow;
    var s := [L, L, H, H, H];
    assert s[..1] == [] + [L] && s[..2] == s[..1] + [L] && s[..3] == s[..2] + [H] && s[..4] == s[..3] + [H] && s[..5] == s[..4] + [H];
    Counted([], L);
    Counted(s[..1], L);
    Counted(s[..2], H);
    Counted(s[..3], H);
    Counted(s[..4], H);
    NothingCounted();
    assert s[..5] == s;
  }

  lemma NothingCounted()
    ensures Net([]) == 0 && InARow([]) == 0
  {
  }

  lemma {:induction false} Counted(s: seq<SlotResult>, r: SlotResult)
    requires r == H || r == L
    ensures Net(s + [r]) == Net(s) + if r == H then 1 else -1
    ensures InARow(s + [r]) == if r == H then (if InARow(s) > 0 then InARow(s) else 0) + 1 else (if InARow(s) < 0 then InARow(s) else 0) - 1
  {
    NetNext(s, r);
    InARowNext(s, r);
  }
}
