/**
 The state of the chain manager as a value: the tree of slot commitments, the
 chains laid over it, and the tables kept beside them.

 A commitment node is named by its commitment ID and a chain by its position in
 the list of all chains ever created, so pointers of the program become names
 here. Nodes stay in `nodes` for as long as something may still point at them;
 `stored` are the ones that the manager's own storage can still look up.
 */
module ChainState {
  import opened Options

  /** Every commitment ID embeds the slot of its commitment. */
  datatype Id = Id(slot: nat, hash: nat)

  datatype Commitment = Commitment(id: Id, prev: Id, weight: nat)

  datatype Node = Node(
    commitment: Option<Commitment>,
    solid: bool,
    mainChildId: Option<Id>,
    children: set<Id>,
    chain: Option<nat>)

  datatype Chain = Chain(forkingPoint: Id, latest: nat, index: map<nat, Id>)

  datatype Fork = Fork(source: nat, mainChain: nat, forkedChain: nat, forkingPoint: Id, latest: Commitment)

  /** One triggering of ForkDetected, with the weight the main chain claimed at that moment. */
  datatype Detection = Detection(fork: Fork, mainWeight: nat)

  /** The commitments and chains in memory; `origin` is the commitment the manager was initialized with. */
  datatype Tree = Tree(origin: Id, nodes: map<Id, Node>, chains: seq<Chain>)

  datatype State = State(
    tree: Tree,
    stored: set<Id>,
    root: Id,
    requests: set<Id>,
    forks: map<Id, Fork>,
    detections: seq<Detection>,
    evicted: Option<nat>)

  const NEW_NODE := Node(None, false, None, {}, None)

  // ----- Reading the tree -----

  predicate Published(t: Tree, n: Id) {
    n in t.nodes && t.nodes[n].commitment.Some?
  }

  function Prev(t: Tree, n: Id): Id
    requires Published(t, n)
  {
    t.nodes[n].commitment.value.prev
  }

  /** The node's main child, if the ID recorded for it is a registered child. */
  function MainChild(t: Tree, p: Id): Option<Id>
    requires p in t.nodes
  {
    var m := t.nodes[p].mainChildId;
    if m.Some? && m.value in t.nodes[p].children then m else None
  }

  /** The node is registered as a child of its predecessor. */
  predicate Attached(t: Tree, n: Id) {
    Published(t, n) && Prev(t, n) in t.nodes && n in t.nodes[Prev(t, n)].children
  }

  /** The node is the main child of its predecessor. */
  predicate IsMain(t: Tree, n: Id) {
    Published(t, n) && Prev(t, n) in t.nodes && MainChild(t, Prev(t, n)) == Some(n)
  }

  predicate OnChain(t: Tree, n: Id, k: nat) {
    n in t.nodes && t.nodes[n].chain == Some(k)
  }

  /** The node heads the chain it is on. */
  predicate HeadsOwnChain(t: Tree, n: Id) {
    n in t.nodes && t.nodes[n].chain.Some? &&
    t.nodes[n].chain.value < |t.chains| && t.chains[t.nodes[n].chain.value].forkingPoint == n
  }

  // ----- Invariant -----

  ghost predicate ShapeAt(t: Tree, n: Id)
    requires n in t.nodes
  {
    && (Published(t, n) ==> t.nodes[n].commitment.value.id == n)
    && (Published(t, n) && n != t.origin ==>
          Prev(t, n) in t.nodes && n.slot == Prev(t, n).slot + 1 && t.nodes[Prev(t, n)].children != {})
    && (t.nodes[n].children != {} ==> MainChild(t, n).Some?)
    && (forall c :: c in t.nodes[n].children ==> c != t.origin && Published(t, c) && Prev(t, c) == n)
  }

  /** Links go from a commitment to its published successors, one slot up. */
  ghost predicate Shape(t: Tree) {
    && Published(t, t.origin)
    && (forall n {:trigger ShapeAt(t, n)} :: n in t.nodes ==> ShapeAt(t, n))
  }

  ghost predicate ChainAt(t: Tree, n: Id)
    requires n in t.nodes
  {
    && (t.nodes[n].chain.Some? ==> t.nodes[n].chain.value < |t.chains|)
    && (!Published(t, n) ==> t.nodes[n].chain.None?)
    && (Published(t, n) && n != t.origin ==>
          if IsMain(t, n) then t.nodes[n].chain == t.nodes[Prev(t, n)].chain else HeadsOwnChain(t, n))
  }

  /** Main children share their parent's chain; every other commitment heads its own. */
  ghost predicate Chains(t: Tree) {
    && HeadsOwnChain(t, t.origin)
    && (forall n {:trigger ChainAt(t, n)} :: n in t.nodes ==> ChainAt(t, n))
  }

  /** The chain invariant, up to a slot. */
  ghost predicate ChainsUpTo(t: Tree, slot: nat) {
    && HeadsOwnChain(t, t.origin)
    && (forall n {:trigger ChainAt(t, n)} :: n in t.nodes && n.slot <= slot ==> ChainAt(t, n))
  }

  ghost predicate IndexedAt(t: Tree, n: Id)
    requires n in t.nodes
  {
    t.nodes[n].chain.Some? && t.nodes[n].chain.value < |t.chains| ==>
      var ch := t.chains[t.nodes[n].chain.value];
      n.slot <= ch.latest && n.slot in ch.index && ch.index[n.slot] == n
  }

  ghost predicate IndexOk(t: Tree, ch: Chain) {
    && ch.latest in ch.index
    && (forall i :: i in ch.index ==> Published(t, ch.index[i]) && ch.index[i].slot == i)
  }

  /** The per-slot index of a chain finds every commitment that carries the chain. */
  ghost predicate Indexed(t: Tree) {
    && (forall n {:trigger IndexedAt(t, n)} :: n in t.nodes ==> IndexedAt(t, n))
    && (forall k {:trigger IndexOk(t, t.chains[k])} :: 0 <= k < |t.chains| ==> IndexOk(t, t.chains[k]))
  }

  ghost predicate SolidAt(t: Tree, n: Id)
    requires n in t.nodes
  {
    && (t.nodes[n].solid ==> Published(t, n) && t.nodes[n].chain.Some?)
    && (Published(t, n) && n != t.origin && Prev(t, n) in t.nodes ==> t.nodes[n].solid == t.nodes[Prev(t, n)].solid)
    && (Published(t, n) && n != t.origin && !Attached(t, n) ==> t.nodes[n].solid)
  }

  /** A published commitment is solid exactly when its predecessor is. */
  ghost predicate Solidity(t: Tree) {
    && t.origin in t.nodes && t.nodes[t.origin].solid
    && (forall n {:trigger SolidAt(t, n)} :: n in t.nodes ==> SolidAt(t, n))
  }

  ghost predicate Rooted(s: State) {
    && s.tree.origin in s.tree.nodes
    && s.root in s.tree.nodes && s.tree.nodes[s.root].solid
    && s.tree.nodes[s.root].chain == s.tree.nodes[s.tree.origin].chain
    && s.tree.origin.slot <= s.root.slot
    && (s.evicted.Some? ==> s.evicted.value < s.root.slot)
    && (forall n :: n in s.stored <==> n in s.tree.nodes && !IsEvicted(s, n.slot))
  }

  predicate IsEvicted(s: State, slot: nat) {
    s.evicted.Some? && slot <= s.evicted.value
  }

  ghost predicate RequestedAt(s: State, n: Id)
    requires n in s.tree.nodes
  {
    n.slot > s.root.slot ==> (n in s.requests <==> !Published(s.tree, n))
  }

  /** Above the root, exactly the known but unpublished commitments are being requested. */
  ghost predicate Requested(s: State) {
    && (forall n {:trigger RequestedAt(s, n)} :: n in s.tree.nodes ==> RequestedAt(s, n))
    && (forall n :: n in s.requests ==> n in s.tree.nodes)
  }

  ghost predicate Inv(s: State) {
    && Shape(s.tree)
    && Chains(s.tree)
    && Indexed(s.tree)
    && Solidity(s.tree)
    && Rooted(s)
    && Requested(s)
  }

  // ----- The main-child path -----

  /** The nodes above a slot; what remains ahead of a walk that has reached the slot. */
  ghost function Above(t: Tree, slot: nat): set<Id> {
    set n | n in t.nodes && n.slot > slot
  }

  lemma MainChildIsNext(t: Tree, a: Id)
    requires Shape(t) && a in t.nodes && MainChild(t, a).Some?
    ensures var m := MainChild(t, a).value;
            m in t.nodes && m != t.origin && IsMain(t, m) && Prev(t, m) == a && m.slot == a.slot + 1
            && Above(t, m.slot) < Above(t, a.slot)
  {
    var m := MainChild(t, a).value;
    assert ShapeAt(t, a) && ShapeAt(t, m);
    assert m in Above(t, a.slot) && m !in Above(t, m.slot);
  }

  /** The walk along main children, starting at a node. */
  function MainPath(t: Tree, a: Id): (path: seq<Id>)
    requires Shape(t) && a in t.nodes
    ensures |path| > 0 && path[0] == a
    ensures forall i :: 0 <= i < |path| ==> path[i] in t.nodes && path[i].slot == a.slot + i
    ensures forall i {:trigger MainChild(t, path[i])} :: 0 <= i < |path| - 1 ==> MainChild(t, path[i]) == Some(path[i + 1])
    ensures MainChild(t, path[|path| - 1]) == None
    decreases Above(t, a.slot)
  {
    match MainChild(t, a)
    case None => [a]
    case Some(m) =>
      MainChildIsNext(t, a);
      [a] + MainPath(t, m)
  }

  function AddCommitment(ch: Chain, n: Id): Chain {
    ch.(latest := if n.slot > ch.latest then n.slot else ch.latest, index := ch.index[n.slot := n])
  }

  /** A chain after the commitments of a walk were added to it in order. */
  function AddAll(ch: Chain, path: seq<Id>): Chain {
    if path == [] then ch else AddCommitment(AddAll(ch, path[..|path| - 1]), path[|path| - 1])
  }

  /** Every node of a walk is moved onto chain `k` and entered in its index. */
  function PutOnChain(t: Tree, path: seq<Id>, k: nat): Tree
    requires k < |t.chains|
  {
    t.(nodes := map n | n in t.nodes :: if n in path then t.nodes[n].(chain := Some(k)) else t.nodes[n],
       chains := t.chains[k := AddAll(t.chains[k], path)])
  }

  function NewChain(n: Id): Chain {
    Chain(n, n.slot, map[n.slot := n])
  }

  // ----- Facts about paths -----

  /** Membership of a walk can be read off a node's slot. */
  lemma {:induction false} PathAt(t: Tree, a: Id, n: Id)
    requires Shape(t) && a in t.nodes
    requires n in MainPath(t, a)
    ensures a.slot <= n.slot < a.slot + |MainPath(t, a)| && MainPath(t, a)[n.slot - a.slot] == n
  {
  }

  /** A walk is closed under taking main children. */
  lemma {:induction false} PathDown(t: Tree, a: Id, n: Id)
    requires Shape(t) && a in t.nodes
    requires n in MainPath(t, a) && MainChild(t, n).Some?
    ensures MainChild(t, n).value in MainPath(t, a)
  {
    var path := MainPath(t, a);
    var i := n.slot - a.slot;
    assert path[i] == n;
    assert i + 1 < |path|;
    assert path[i + 1] in path;
  }

  /** Below its start, a walk only enters a node from the parent it is the main child of. */
  lemma {:induction false} PathUp(t: Tree, a: Id, n: Id)
    requires Shape(t) && a in t.nodes
    requires n in MainPath(t, a) && n != a
    ensures n != t.origin && IsMain(t, n) && Prev(t, n) in MainPath(t, a)
  {
    var path := MainPath(t, a);
    var i := n.slot - a.slot;
    assert path[i] == n;
    var p := path[i - 1];
    assert MainChild(t, p) == Some(n);
    assert ShapeAt(t, p);
    assert p in path;
  }

  /** A walk only depends on the links at and after its start. */
  lemma {:induction false} PathFrame(t: Tree, u: Tree, a: Id)
    requires Shape(t) && Shape(u) && a in t.nodes && u.nodes.Keys == t.nodes.Keys
    requires forall n :: n in t.nodes && n.slot >= a.slot ==> MainChild(u, n) == MainChild(t, n)
    ensures MainPath(u, a) == MainPath(t, a)
    decreases Above(t, a.slot)
  {
    if MainChild(t, a).Some? {
      MainChildIsNext(t, a);
      PathFrame(t, u, MainChild(t, a).value);
    }
  }

  /** Moving nodes between chains does not touch the links. */
  lemma PutKeepsShape(t: Tree, path: seq<Id>, k: nat)
    requires Shape(t) && k < |t.chains|
    ensures Shape(PutOnChain(t, path, k))
  {
    var u := PutOnChain(t, path, k);
    forall n | n in u.nodes ensures ShapeAt(u, n) {
      assert ShapeAt(t, n);
    }
  }

  lemma {:induction false} AddAllHead(ch: Chain, path: seq<Id>)
    ensures AddAll(ch, path).forkingPoint == ch.forkingPoint
  {
    if path != [] {
      AddAllHead(ch, path[..|path| - 1]);
    }
  }

  /** Adding a walk to a chain raises its latest slot to the walk's end, if that is higher. */
  lemma {:induction false} AddAllBounds(ch: Chain, path: seq<Id>)
    ensures AddAll(ch, path).forkingPoint == ch.forkingPoint && AddAll(ch, path).latest >= ch.latest
    ensures forall n :: n in path ==> n.slot <= AddAll(ch, path).latest
    ensures AddAll(ch, path).latest == ch.latest || exists n :: n in path && n.slot == AddAll(ch, path).latest
  {
    if path != [] {
      var last := |path| - 1;
      AddAllBounds(ch, path[..last]);
      assert path == path[..last] + [path[last]];
    }
  }

  /** Adding a walk to a chain enters exactly that walk into its index. */
  lemma {:induction false} AddAllEntries(ch: Chain, path: seq<Id>)
    requires forall i, j :: 0 <= i < j < |path| ==> path[i].slot < path[j].slot
    ensures forall n :: n in path ==> n.slot in AddAll(ch, path).index && AddAll(ch, path).index[n.slot] == n
    ensures forall i :: i in AddAll(ch, path).index ==>
              (AddAll(ch, path).index[i] in path && AddAll(ch, path).index[i].slot == i)
              || (i in ch.index && AddAll(ch, path).index[i] == ch.index[i])
    ensures forall i :: i in ch.index ==> i in AddAll(ch, path).index
    ensures forall i :: i in ch.index && (forall n :: n in path ==> n.slot != i) ==> AddAll(ch, path).index[i] == ch.index[i]
  {
    if path != [] {
      var last := |path| - 1;
      AddAllEntries(ch, path[..last]);
      assert path == path[..last] + [path[last]];
    }
  }

  /** Both at once. */
  lemma {:induction false} AddAllIndex(ch: Chain, path: seq<Id>)
    requires forall i, j :: 0 <= i < j < |path| ==> path[i].slot < path[j].slot
    ensures AddAll(ch, path).forkingPoint == ch.forkingPoint
    ensures AddAll(ch, path).latest >= ch.latest
    ensures forall n :: n in path ==>
              n.slot <= AddAll(ch, path).latest && n.slot in AddAll(ch, path).index && AddAll(ch, path).index[n.slot] == n
    ensures forall i :: i in AddAll(ch, path).index ==>
              (AddAll(ch, path).index[i] in path && AddAll(ch, path).index[i].slot == i)
              || (i in ch.index && AddAll(ch, path).index[i] == ch.index[i])
    ensures forall i :: i in ch.index ==> i in AddAll(ch, path).index
    ensures forall i :: i in ch.index && (forall n :: n in path ==> n.slot != i) ==> AddAll(ch, path).index[i] == ch.index[i]
    ensures AddAll(ch, path).latest == ch.latest || exists n :: n in path && n.slot == AddAll(ch, path).latest
  {
    hide AddAll;
    AddAllBounds(ch, path);
    AddAllEntries(ch, path);
  }
}
