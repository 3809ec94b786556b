/**
 The chain manager's locks: any number of concurrent calls that process commitments, switch the main chain or evict, in every
 interleaving, never wait for each other in a circle. Every call first takes the eviction lock, for reading or, to evict, for writing.
 */
module LockOrder {
  import opened Options
  import opened ChainState

  /** Where a call is. Processing commitment `id` with predecessor `prev` locks the predecessor, then the commitment, and then walks
      down the tree, one commitment at a time; switching only walks, on its own or after a commitment of the own engine. */
  datatype Call =
    | Idle
    | Entering(first: Call)              // waits for the eviction lock, to read
    | Excluding                          // waits for the eviction lock, to write
    | Evicting                           // holds the eviction lock alone
    | LockingParent(prev: Id, id: Id)
    | LockingSelf(prev: Id, id: Id)
    | Walking(prev: Id, id: Id, todo: seq<Id>)
    | LockingChild(prev: Id, id: Id, todo: seq<Id>, child: Id)
    | Visiting(prev: Id, id: Id, todo: seq<Id>, child: Id)
    | Releasing(prev: Id)
    | Switching(todo: seq<Id>)
    | SwitchLocking(todo: seq<Id>, child: Id)
    | SwitchVisiting(todo: seq<Id>, child: Id)

  /** The locks a call holds. */
  function Held(c: Call): set<Id> {
    match c
    case LockingParent(prev, id) => {}
    case LockingSelf(prev, id) => {prev}
    case Walking(prev, id, todo) => {prev, id}
    case LockingChild(prev, id, todo, child) => {prev, id}
    case Visiting(prev, id, todo, child) => {prev, id, child}
    case Releasing(prev) => {prev}
    case Switching(todo) => {}
    case SwitchLocking(todo, child) => {}
    case SwitchVisiting(todo, child) => {child}
    case _ => {}
  }

  /** The call holds the eviction lock together with other readers. */
  predicate Inside(c: Call) {
    !c.Idle? && !c.Entering? && !c.Excluding? && !c.Evicting?
  }

  /** The lock a call is waiting for. */
  function Wanted(c: Call): Option<Id> {
    match c
    case LockingParent(prev, id) => Some(prev)
    case LockingSelf(prev, id) => Some(id)
    case LockingChild(prev, id, todo, child) => Some(child)
    case SwitchLocking(todo, child) => Some(child)
    case _ => None
  }

  /** All children of a commitment are in the next slot. */
  ghost predicate ChildrenOf(n: Id, children: seq<Id>) {
    forall d :: d in children ==> d.slot == n.slot + 1
  }

  /** One step of a call that does not wait. The children found on the way can be any, since other calls add some meanwhile. */
  ghost predicate Moves(c: Call, d: Call) {
    match c
    case Idle => d.Excluding? || (d.Entering? && ((d.first.LockingParent? && d.first.id.slot == d.first.prev.slot + 1) || d.first.Switching?))
    case Entering(first) => d == first
    case Excluding => d == Evicting
    case Evicting => d == Idle
    case LockingParent(prev, id) => d == LockingSelf(prev, id)
    case LockingSelf(prev, id) => d == Walking(prev, id, [])
    case Walking(prev, id, todo) =>
      || d == Releasing(prev)
      || (d.Walking? && d == Walking(prev, id, d.todo) && ChildrenOf(id, d.todo))       // a walk starts at the children
      || (todo != [] && d == LockingChild(prev, id, todo[1..], todo[0]))
    case LockingChild(prev, id, todo, child) => d == Visiting(prev, id, todo, child)
    case Visiting(prev, id, todo, child) =>
      d.Walking? && todo <= d.todo && ChildrenOf(child, d.todo[|todo|..]) && d == Walking(prev, id, d.todo)
    case Releasing(prev) => d == Idle || d.Switching?                                   // the own engine's commitment may fork
    case Switching(todo) => d == Idle || (todo != [] && d == SwitchLocking(todo[1..], todo[0]))
    case SwitchLocking(todo, child) => d == SwitchVisiting(todo, child)
    case SwitchVisiting(todo, child) => d.Switching? && todo <= d.todo
  }

  type State = seq<Call>

  ghost predicate Free(s: State, n: Id) {
    forall i :: 0 <= i < |s| ==> n !in Held(s[i])
  }

  /** What a call waits for is available: a commitment's lock when nobody holds it, the eviction lock for a reader when no
      writer holds it or waits for it, and for a writer when nobody holds it. */
  ghost predicate Available(s: State, c: Call) {
    && (Wanted(c).Some? ==> Free(s, Wanted(c).value))
    && (c.Entering? ==> forall j :: 0 <= j < |s| ==> !s[j].Excluding? && !s[j].Evicting?)
    && (c.Excluding? ==> forall j :: 0 <= j < |s| ==> !Inside(s[j]) && !s[j].Evicting?)
  }

  /** Some call takes a step for which it does not have to wait. */
  ghost predicate Step(s: State, i: nat, u: State) {
    && i < |s| && |u| == |s| && (forall j :: 0 <= j < |s| && j != i ==> u[j] == s[j])
    && Moves(s[i], u[i]) && Available(s, s[i])
  }

  // ----- What every step keeps -----

  /** Every lock that is wanted, or will be, lies above all locks that are held. */
  ghost predicate Ordered(c: Call) {
    match c
    case Entering(first) => (first.LockingParent? && first.prev.slot < first.id.slot) || first.Switching?
    case LockingParent(prev, id) => prev.slot < id.slot
    case LockingSelf(prev, id) => prev.slot < id.slot
    case Walking(prev, id, todo) => prev.slot < id.slot && forall d :: d in todo ==> id.slot < d.slot
    case LockingChild(prev, id, todo, child) => prev.slot < id.slot < child.slot && forall d :: d in todo ==> id.slot < d.slot
    case Visiting(prev, id, todo, child) => prev.slot < id.slot < child.slot && forall d :: d in todo ==> id.slot < d.slot
    case _ => true
  }

  ghost predicate Inv(s: State) {
    && (forall i :: 0 <= i < |s| ==> Ordered(s[i]))
    && (forall i, j, n :: 0 <= i < |s| && 0 <= j < |s| && n in Held(s[i]) && n in Held(s[j]) ==> i == j)
    && (forall i, j :: 0 <= i < |s| && 0 <= j < |s| && s[i].Evicting? && (s[j].Evicting? || Inside(s[j])) ==> i == j)
  }

  lemma WantedAboveHeld(c: Call, n: Id)
    requires Ordered(c) && Wanted(c).Some? && n in Held(c)
    ensures n.slot < Wanted(c).value.slot
  {
  }

  lemma MovesKeepOrder(c: Call, d: Call)
    requires Ordered(c) && Moves(c, d)
    ensures Ordered(d)
    ensures forall n :: n in Held(d) ==> n in Held(c) || Wanted(c) == Some(n)
  {
    match c {
      case Visiting(prev, id, todo, child) =>
        forall x | x in d.todo ensures id.slot < x.slot {
          var k :| 0 <= k < |d.todo| && d.todo[k] == x;
          if k < |todo| {
            assert d.todo[k] == todo[k];
          } else {
            assert d.todo[|todo|..][k - |todo|] == x;
          }
        }
      case _ =>
    }
  }

  lemma StepKeepsInv(s: State, i: nat, u: State)
    requires Inv(s) && Step(s, i, u)
    ensures Inv(u)
  {
    MovesKeepOrder(s[i], u[i]);
    assert forall j, n :: 0 <= j < |u| && j != i && n in Held(u[j]) ==> n in Held(s[j]);
  }

  ghost predicate Steps(s: State, u: State) {
    exists i :: Step(s, i, u)
  }

  /** Any number of calls, all idle at first, in any interleaving. */
  ghost predicate Run(states: seq<State>) {
    && states != [] && (forall i :: 0 <= i < |states[0]| ==> states[0][i] == Idle)
    && (forall k :: 0 < k < |states| ==> Steps(states[k - 1], states[k]))
  }

  /** In every interleaving, each commitment's lock has at most one holder, locks are only taken upwards, and nobody is inside
      while somebody evicts. */
  lemma {:induction false} RunInv(states: seq<State>, k: nat)
    requires Run(states) && k < |states|
    ensures Inv(states[k])
  {
    if k > 0 {
      RunInv(states, k - 1);
      assert Steps(states[k - 1], states[k]);
      var i :| Step(states[k - 1], i, states[k]);
      StepKeepsInv(states[k - 1], i, states[k]);
    }
  }

  // ----- No circular wait -----

  ghost predicate WaitsFor(s: State, i: nat, j: nat) {
    i < |s| && j < |s| && Wanted(s[i]).Some? && Wanted(s[i]).value in Held(s[j])
  }

  /** Each call waits for the next one. */
  ghost predicate Waiting(s: State, calls: seq<nat>)
    requires calls != []
  {
    |calls| > 1 ==> WaitsFor(s, calls[0], calls[1]) && Waiting(s, calls[1..])
  }

  /** Along a chain of waiting calls the wanted slots grow. */
  lemma {:induction false} WaitsUpwards(s: State, calls: seq<nat>)
    requires Inv(s) && |calls| > 1 && Waiting(s, calls)
    requires calls[|calls| - 1] < |s| && Wanted(s[calls[|calls| - 1]]).Some?
    ensures calls[0] < |s| && Wanted(s[calls[0]]).Some?
    ensures Wanted(s[calls[0]]).value.slot < Wanted(s[calls[|calls| - 1]]).value.slot
  {
    var rest := calls[1..];
    if |rest| > 1 {
      WaitsUpwards(s, rest);
    }
    WantedAboveHeld(s[calls[1]], Wanted(s[calls[0]]).value);
  }

  /** No chain of waiting calls leads back to its start. */
  lemma {:induction false} NoCircularWait(s: State, calls: seq<nat>)
    requires Inv(s) && calls != [] && Waiting(s, calls)
    ensures !WaitsFor(s, calls[|calls| - 1], calls[0])
  {
    var first, last := calls[0], calls[|calls| - 1];
    if WaitsFor(s, last, first) {
      if |calls| > 1 {
        WaitsUpwards(s, calls);
      }
      WantedAboveHeld(s[first], Wanted(s[last]).value);
    }
  }

  // ----- Progress -----

  /** The call is not idle and does not have to wait. */
  ghost predicate CanStep(s: State, i: nat) {
    i < |s| && s[i] != Idle && Available(s, s[i])
  }

  /** A bound for all slots that are wanted. */
  ghost function HighestWanted(s: State): (m: nat)
    ensures forall i :: 0 <= i < |s| && Wanted(s[i]).Some? ==> Wanted(s[i]).value.slot <= m
  {
    if s == [] then 0 else
      var rest, w := HighestWanted(s[1..]), Wanted(s[0]);
      assert forall i :: 0 < i < |s| ==> s[i] == s[1..][i - 1];
      if w.Some? && w.value.slot > rest then w.value.slot else rest
  }

  /** Among the calls inside, following whom one waits for leads to one that can go on. */
  lemma {:induction false} SomebodyInsideCanStep(s: State, i: nat)
    requires Inv(s) && i < |s| && Inside(s[i])
    ensures exists j: nat :: CanStep(s, j)
    decreases if Wanted(s[i]).Some? then HighestWanted(s) + 1 - Wanted(s[i]).value.slot else 0
  {
    if !CanStep(s, i) {
      var w := Wanted(s[i]).value;
      var j :| 0 <= j < |s| && w in Held(s[j]);
      if Wanted(s[j]).Some? {
        WantedAboveHeld(s[j], w);
      }
      SomebodyInsideCanStep(s, j);
    }
  }

  /** As long as a call is unfinished, somebody can go on: one inside, else the one that evicts or waits to, else one that enters. */
  lemma SomebodyCanStep(s: State, i: nat)
    requires Inv(s) && i < |s| && s[i] != Idle
    ensures exists j: nat :: CanStep(s, j)
  {
    if j: nat :| j < |s| && Inside(s[j]) {
      SomebodyInsideCanStep(s, j);
    } else if j: nat :| j < |s| && s[j].Evicting? {
      assert CanStep(s, j);
    } else if j: nat :| j < |s| && s[j].Excluding? {
      assert CanStep(s, j);
    } else {
      assert CanStep(s, i);
    }
  }

  /** In every interleaving some unfinished call can take a step, as long as there is one: there is no deadlock. */
  lemma NoDeadlock(states: seq<State>, k: nat)
    requires Run(states) && k < |states| && exists i :: 0 <= i < |states[k]| && states[k][i] != Idle
    ensures exists j: nat, u: State :: CanStep(states[k], j) && Step(states[k], j, u)
  {
    RunInv(states, k);
    var s := states[k];
    var i :| 0 <= i < |s| && s[i] != Idle;
    SomebodyCanStep(s, i);
    var j: nat :| CanStep(s, j);
    var d := NextOf(s[j]);
    assert Step(s, j, s[j := d]);
  }

  /** Where a call can go when it does not have to wait. */
  ghost function NextOf(c: Call): (d: Call)
    requires c != Idle
    ensures Moves(c, d)
  {
    match c
    case Entering(first) => first
    case Excluding => Evicting
    case Evicting => Idle
    case LockingParent(prev, id) => LockingSelf(prev, id)
    case LockingSelf(prev, id) => Walking(prev, id, [])
    case Walking(prev, id, todo) => Releasing(prev)
    case LockingChild(prev, id, todo, child) => Visiting(prev, id, todo, child)
    case Visiting(prev, id, todo, child) => Walking(prev, id, todo)
    case Releasing(prev) => Idle
    case Switching(todo) => Idle
    case SwitchLocking(todo, child) => SwitchVisiting(todo, child)
    case SwitchVisiting(todo, child) => Switching(todo)
  }

  /** The children that a walk finds are indeed one slot up: the tree's links say so. */
  lemma ChildrenAreOneSlotUp(t: Tree, n: Id, children: seq<Id>)
    requires Shape(t) && n in t.nodes && forall d :: d in children ==> d in t.nodes[n].children && d in t.nodes
    ensures ChildrenOf(n, children)
  {
    assert ShapeAt(t, n);
    forall d | d in children ensures d.slot == n.slot + 1 {
      assert ShapeAt(t, d);
    }
  }
}
