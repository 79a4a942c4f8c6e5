/** A program with any number of owning queues over the same memories. What the operations of
    a queue do to its chain and to the memory is a few kinds of events; whatever events happen,
    the live nodes stay partitioned among the chains of the queues. */
module QueueSystem {
  import opened LinkedNodes
  import opened Options
  import opened OwningLLQueue
  import opened Sequences
  import opened Storage

  /** What a queue holds. */
  datatype Held<T> = Held(chain: seq<Node<T>>, resource: Option<nat>)

  /** The history of the resources and the queues of the program, and what the resources say
      about one another. */
  datatype State<T> = State(reports: (nat, nat) -> bool, log: seq<Entry<T>>, queues: seq<Held<T>>)

  function Start<T>(reports: (nat, nat) -> bool): State<T> {
    State(reports, [], [])
  }

  datatype Event<T> =
    | Create(resource: Option<nat>)
    | Obtain(q: nat, nodes: seq<Node<T>>)             // emplace, copy_from_, move_from_
    | GiveBack(q: nat, k: nat)                        // pop, clear, and undoing a copy
    | TakeOver(q: nat, from: nat, resource: Option<nat>, left: Option<nat>)  // moves of a chain

  ghost predicate Enabled<T>(s: State<T>, e: Event<T>) {
    match e
    case Create(_) => true
    case Obtain(q, nodes) =>
      q < |s.queues| && s.queues[q].resource.Some? &&
      Replay(s.log + Allocs(nodes, s.queues[q].resource.value)).Some?
    case GiveBack(q, k) => q < |s.queues| && k <= |s.queues[q].chain| && (k > 0 ==> s.queues[q].resource.Some?)
    case TakeOver(q, from, resource, left) =>
      q < |s.queues| && from < |s.queues| && q != from && s.queues[q].chain == [] &&
      (s.queues[from].chain != [] ==> MayTake(s, q, from, resource))
  }

  /** A chain changes hands together with its resource, or when the resource of the taker says
      that it is interoperable with it. */
  ghost predicate MayTake<T>(s: State<T>, q: nat, from: nat, resource: Option<nat>)
    requires q < |s.queues| && from < |s.queues|
  {
    || resource == s.queues[from].resource
    || (resource == s.queues[q].resource && resource.Some? && s.queues[from].resource.Some? &&
        s.reports(resource.value, s.queues[from].resource.value))
  }

  ghost function Apply<T>(s: State<T>, e: Event<T>): State<T>
    requires Enabled(s, e)
  {
    match e
    case Create(resource) => s.(queues := s.queues + [Held([], resource)])
    case Obtain(q, nodes) =>
      s.(log := s.log + Allocs(nodes, s.queues[q].resource.value),
         queues := s.queues[q := s.queues[q].(chain := s.queues[q].chain + nodes)])
    case GiveBack(q, k) =>
      if k == 0 then s
      else s.(log := s.log + Frees(s.queues[q].chain[..k], s.queues[q].resource.value),
              queues := s.queues[q := s.queues[q].(chain := s.queues[q].chain[k..])])
    case TakeOver(q, from, resource, left) =>
      s.(queues := s.queues[q := Held(s.queues[from].chain, resource)][from := Held([], left)])
  }

  ghost predicate Feasible<T>(s: State<T>, es: seq<Event<T>>)
    decreases |es|
  {
    es == [] || (Enabled(s, es[0]) && Feasible(Apply(s, es[0]), es[1..]))
  }

  ghost function Exec<T>(s: State<T>, es: seq<Event<T>>): State<T>
    requires Feasible(s, es)
    decreases |es|
  {
    if es == [] then s else Exec(Apply(s, es[0]), es[1..])
  }

  // ----- the partition ----------------------------------------------------------------

  ghost predicate Disjoint<T>(a: seq<Node<T>>, b: seq<Node<T>>) {
    forall i :: 0 <= i < |a| ==> a[i] !in b
  }

  ghost predicate AllOwn<T>(s: State<T>) {
    forall q :: 0 <= q < |s.queues| ==> Distinct(s.queues[q].chain) && Owns(s.log, s.queues[q].chain, s.queues[q].resource)
  }

  ghost predicate AllDisjoint<T>(s: State<T>) {
    forall p, q :: 0 <= p < |s.queues| && 0 <= q < |s.queues| && p != q ==> Disjoint(s.queues[p].chain, s.queues[q].chain)
  }

  ghost predicate HeldBySome<T>(queues: seq<Held<T>>, n: Node<T>) {
    exists q :: 0 <= q < |queues| && n in queues[q].chain
  }

  ghost predicate Covered<T>(s: State<T>) {
    forall n <- LiveNodes(s.log) :: HeldBySome(s.queues, n)
  }

  /** The history is legal, chains have no repetition and share no node, their nodes are live,
      and there is no other live node. */
  ghost predicate Partitioned<T>(s: State<T>) {
    Replay(s.log).Some? && AllOwn(s) && AllDisjoint(s) && Covered(s)
  }

  /** New nodes are nobody's. */
  lemma ObtainKeeps<T>(s: State<T>, q: nat, nodes: seq<Node<T>>)
    requires Partitioned(s) && Enabled(s, Obtain(q, nodes))
    ensures Partitioned(Apply(s, Obtain(q, nodes)))
  {
    var id, s' := s.queues[q].resource.value, Apply(s, Obtain(q, nodes));
    FreshAreDistinct(s.log, nodes, id);
    forall p | 0 <= p < |s.queues| ensures Disjoint(nodes, s.queues[p].chain) && Disjoint(s.queues[p].chain, nodes) {
      NewDisjoint(s.log, nodes, id, s.queues[p].chain, s.queues[p].resource);
    }
    ObtainOwn(s, q, nodes);
    ObtainDisjoint(s, q, nodes);
    LiveAfterAllocs(s.log, nodes, id);
    forall n | n in LiveNodes(s'.log) ensures HeldBySome(s'.queues, n) {
      if n in nodes {
        assert n in s'.queues[q].chain;
      } else {
        assert HeldBySome(s.queues, n);
        var p :| 0 <= p < |s.queues| && n in s.queues[p].chain;
        assert n in s'.queues[p].chain;
      }
    }
  }

  lemma NewDisjoint<T>(log: seq<Entry<T>>, nodes: seq<Node<T>>, id: nat, chain: seq<Node<T>>, resource: Option<nat>)
    requires Owns(log, chain, resource) && Replay(log + Allocs(nodes, id)).Some?
    ensures Disjoint(nodes, chain) && Disjoint(chain, nodes)
  {
    forall i | 0 <= i < |chain| ensures chain[i] !in nodes {
      LiveStays(log, nodes, id, chain[i]);
    }
  }

  lemma {:induction false} FreshAreDistinct<T>(log: seq<Entry<T>>, nodes: seq<Node<T>>, id: nat)
    requires Replay(log + Allocs(nodes, id)).Some?
    ensures Distinct(nodes) && forall i :: 0 <= i < |nodes| ==> nodes[i] in Replay(log + Allocs(nodes, id)).value.used
    decreases |nodes|
  {
    if nodes != [] {
      var init, last := nodes[..|nodes| - 1], nodes[|nodes| - 1];
      var log' := log + Allocs(init, id);
      assert nodes == init + [last];
      AllocsOneMore(init, last, id);
      assert log + Allocs(nodes, id) == log' + [Allocated(last, id)];
      assert (log' + [Allocated(last, id)])[..|log'|] == log';
      FreshAreDistinct(log, init, id);
    }
  }

  lemma ObtainOwn<T>(s: State<T>, q: nat, nodes: seq<Node<T>>)
    requires Replay(s.log).Some? && AllOwn(s) && Enabled(s, Obtain(q, nodes))
    requires Distinct(nodes) && Disjoint(s.queues[q].chain, nodes)
    ensures AllOwn(Apply(s, Obtain(q, nodes)))
  {
    var id, s' := s.queues[q].resource.value, Apply(s, Obtain(q, nodes));
    forall p | 0 <= p < |s.queues|
      ensures Distinct(s'.queues[p].chain) && Owns(s'.log, s'.queues[p].chain, s.queues[p].resource)
    {
      if p == q {
        OwnsObtained(s.log, s.queues[q].chain, nodes, id);
      } else {
        OwnsStays(s.log, s.queues[p].chain, s.queues[p].resource, nodes, id);
      }
    }
  }

  lemma OwnsObtained<T>(log: seq<Entry<T>>, chain: seq<Node<T>>, nodes: seq<Node<T>>, id: nat)
    requires Replay(log).Some? && Owns(log, chain, Some(id)) && Replay(log + Allocs(nodes, id)).Some?
    requires Distinct(chain) && Distinct(nodes) && Disjoint(chain, nodes)
    ensures Distinct(chain + nodes) && Owns(log + Allocs(nodes, id), chain + nodes, Some(id))
  {
    LiveAfterAllocs(log, nodes, id);
    var all := chain + nodes;
    forall i | 0 <= i < |all|
      ensures all[i] in LiveNodes(log + Allocs(nodes, id))
    {
      if i >= |chain| { assert all[i] == nodes[i - |chain|]; } else { assert all[i] == chain[i]; }
    }
  }

  lemma ObtainDisjoint<T>(s: State<T>, q: nat, nodes: seq<Node<T>>)
    requires AllDisjoint(s) && Enabled(s, Obtain(q, nodes))
    requires forall p :: 0 <= p < |s.queues| ==> Disjoint(nodes, s.queues[p].chain) && Disjoint(s.queues[p].chain, nodes)
    ensures AllDisjoint(Apply(s, Obtain(q, nodes)))
  {
    var s' := Apply(s, Obtain(q, nodes));
    forall p, r | 0 <= p < |s.queues| && 0 <= r < |s.queues| && p != r
      ensures Disjoint(s'.queues[p].chain, s'.queues[r].chain)
    {
      assert Disjoint(s.queues[p].chain, s.queues[r].chain);
    }
  }

  lemma LegalReturns<T>(log: seq<Entry<T>>, nodes: seq<Node<T>>, id: nat)
    requires Replay(log).Some? && Distinct(nodes) && Owns(log, nodes, Some(id))
    ensures Replay(log + Frees(nodes, id)).Some?
    decreases |nodes|
  {
    if nodes == [] {
      FreesNothing<T>(log, id);
    } else {
      var log' := log + [Freed(nodes[0], id)];
      assert log'[..|log|] == log;
      OwnsLess(log, nodes, id);
      LegalReturns(log', nodes[1..], id);
      FreesFirst(log, nodes, id);
    }
  }

  /** Nodes given back were the queue's alone. */
  lemma GiveBackKeeps<T>(s: State<T>, q: nat, k: nat)
    requires Partitioned(s) && Enabled(s, GiveBack(q, k)) && k > 0
    ensures Partitioned(Apply(s, GiveBack(q, k)))
  {
    var chain, id, s' := s.queues[q].chain, s.queues[q].resource.value, Apply(s, GiveBack(q, k));
    LegalReturns(s.log, chain[..k], id);
    LiveAfterFrees(s.log, chain[..k], id);
    GiveBackOwn(s, q, k);
    GiveBackDisjoint(s, q, k);
    assert chain == chain[..k] + chain[k..];
    forall n | n in LiveNodes(s'.log) ensures HeldBySome(s'.queues, n) {
      assert HeldBySome(s.queues, n);
      var p :| 0 <= p < |s.queues| && n in s.queues[p].chain;
      assert n in s'.queues[p].chain;
    }
  }

  lemma GiveBackOwn<T>(s: State<T>, q: nat, k: nat)
    requires Replay(s.log).Some? && AllOwn(s) && AllDisjoint(s) && Enabled(s, GiveBack(q, k)) && k > 0
    requires Replay(Apply(s, GiveBack(q, k)).log).Some?
    ensures AllOwn(Apply(s, GiveBack(q, k)))
  {
    var chain, id, s' := s.queues[q].chain, s.queues[q].resource.value, Apply(s, GiveBack(q, k));
    forall p | 0 <= p < |s.queues|
      ensures Distinct(s'.queues[p].chain) && Owns(s'.log, s'.queues[p].chain, s.queues[p].resource)
    {
      if p == q {
        forall i | 0 <= i < k ensures chain[..k][i] !in chain[k..] {}
        assert Owns(s.log, chain[k..], s.queues[q].resource);
        OwnsAfterFrees(s.log, chain[k..], s.queues[q].resource, chain[..k], id);
      } else {
        assert Disjoint(chain, s.queues[p].chain);
        OwnsAfterFrees(s.log, s.queues[p].chain, s.queues[p].resource, chain[..k], id);
      }
    }
  }

  lemma GiveBackDisjoint<T>(s: State<T>, q: nat, k: nat)
    requires AllDisjoint(s) && Enabled(s, GiveBack(q, k))
    ensures AllDisjoint(Apply(s, GiveBack(q, k)))
  {
    var s' := Apply(s, GiveBack(q, k));
    forall p, r | 0 <= p < |s.queues| && 0 <= r < |s.queues| && p != r
      ensures Disjoint(s'.queues[p].chain, s'.queues[r].chain)
    {
      assert Disjoint(s.queues[p].chain, s.queues[r].chain);
      assert forall n :: n in s'.queues[p].chain ==> n in s.queues[p].chain;
      assert forall n :: n in s'.queues[r].chain ==> n in s.queues[r].chain;
    }
  }

  /** A chain that changes hands is still held once. */
  lemma TakeOverKeeps<T>(s: State<T>, e: Event<T>)
    requires Partitioned(s) && e.TakeOver? && Enabled(s, e)
    ensures Partitioned(Apply(s, e))
  {
    var s' := Apply(s, e);
    forall p, r | 0 <= p < |s.queues| && 0 <= r < |s.queues| && p != r
      ensures Disjoint(s'.queues[p].chain, s'.queues[r].chain)
    {
      assert Disjoint(s.queues[p].chain, s.queues[r].chain);
      assert p != e.from ==> Disjoint(s.queues[p].chain, s.queues[e.from].chain);
      assert r != e.from ==> Disjoint(s.queues[e.from].chain, s.queues[r].chain);
    }
    forall n | n in LiveNodes(s'.log) ensures HeldBySome(s'.queues, n) {
      assert HeldBySome(s.queues, n);
      var p :| 0 <= p < |s.queues| && n in s.queues[p].chain;
      assert n in s'.queues[if p == e.from then e.q else p].chain;
    }
  }

  lemma CreateKeeps<T>(s: State<T>, resource: Option<nat>)
    requires Partitioned(s)
    ensures Partitioned(Apply(s, Create(resource)))
  {
    var s' := Apply(s, Create(resource));
    forall p, r | 0 <= p < |s'.queues| && 0 <= r < |s'.queues| && p != r
      ensures Disjoint(s'.queues[p].chain, s'.queues[r].chain)
    {
      assert p < |s.queues| && r < |s.queues| ==> Disjoint(s.queues[p].chain, s.queues[r].chain);
    }
    forall n | n in LiveNodes(s'.log) ensures HeldBySome(s'.queues, n) {
      assert HeldBySome(s.queues, n);
      var p :| 0 <= p < |s.queues| && n in s.queues[p].chain;
      assert n in s'.queues[p].chain;
    }
  }

  lemma {:induction false} RunKeepsPartition<T>(s: State<T>, es: seq<Event<T>>)
    requires Partitioned(s) && Feasible(s, es)
    ensures Partitioned(Exec(s, es))
    decreases |es|
  {
    if es != [] {
      var e := es[0];
      if e.Obtain? {
        ObtainKeeps(s, e.q, e.nodes);
      } else if e.GiveBack? {
        if e.k > 0 { GiveBackKeeps(s, e.q, e.k); }
      } else if e.TakeOver? {
        TakeOverKeeps(s, e);
      } else {
        CreateKeeps(s, e.resource);
      }
      RunKeepsPartition(Apply(s, e), es[1..]);
    }
  }

  // ----- the operations as events -------------------------------------------------------

  /** The state `OwningLLQueue.Queue.CopyAssign`, and the rebuilding `CrossMoveAssign`, say they
      reach: the old nodes go back, new ones are obtained, and when one is refused those go
      back too. */
  ghost function Rebuilt<T>(s: State<T>, q: nat, built: seq<Node<T>>, ok: bool): State<T>
    requires q < |s.queues| && s.queues[q].resource.Some?
  {
    var id := s.queues[q].resource.value;
    var log := s.log + Frees(s.queues[q].chain, id) + Allocs(built, id);
    s.(log := if ok then log else log + Frees(built, id),
       queues := s.queues[q := s.queues[q].(chain := if ok then built else [])])
  }

  /** The state `Clear` says it reaches. */
  ghost function Cleared<T>(s: State<T>, q: nat): State<T>
    requires q < |s.queues|
  {
    s.(log := if s.queues[q].resource.None? then s.log
              else s.log + Frees(s.queues[q].chain, s.queues[q].resource.value),
       queues := s.queues[q := s.queues[q].(chain := [])])
  }

  lemma ClearKeepsPartition<T>(s: State<T>, q: nat)
    requires Partitioned(s) && q < |s.queues|
    ensures Partitioned(Cleared(s, q))
    ensures s.queues[q].resource.None? ==> s.queues[q].chain == []
  {
    var chain := s.queues[q].chain;
    HeldNeedsResource(s, q);
    if chain == [] {
      if s.queues[q].resource.Some? { FreesNothing<T>(s.log, s.queues[q].resource.value); }
      assert Cleared(s, q) == s;
    } else {
      assert chain[..|chain|] == chain && chain[|chain|..] == [];
      assert Cleared(s, q) == Apply(s, GiveBack(q, |chain|));
      GiveBackKeeps(s, q, |chain|);
    }
  }

  /** Only a queue with a resource holds anything. */
  lemma HeldNeedsResource<T>(s: State<T>, q: nat)
    requires AllOwn(s) && q < |s.queues|
    ensures s.queues[q].chain != [] ==> s.queues[q].resource.Some?
  {
    assert Owns(s.log, s.queues[q].chain, s.queues[q].resource);
    if s.queues[q].chain != [] { assert s.queues[q].chain[0] in LiveNodes(s.log); }
  }

  lemma RebuildKeepsPartition<T>(s: State<T>, q: nat, built: seq<Node<T>>, ok: bool)
    requires Partitioned(s) && q < |s.queues| && s.queues[q].resource.Some?
    requires Replay(Rebuilt(s, q, built, ok).log).Some?
    ensures Partitioned(Rebuilt(s, q, built, ok))
  {
    var id, s1 := s.queues[q].resource.value, Cleared(s, q);
    ClearKeepsPartition(s, q);
    if !ok { ReplayPrefix(s1.log + Allocs(built, id), Frees(built, id)); }
    ObtainKeeps(s1, q, built);
    var s2 := Apply(s1, Obtain(q, built));
    assert s2.queues[q].chain == [] + built == built;
    if ok {
      assert s2 == Rebuilt(s, q, built, true);
    } else {
      assert Cleared(s2, q) == Rebuilt(s, q, built, false);
      ClearKeepsPartition(s2, q);
    }
  }

  /** The state `MoveAssign`, and the `CrossMoveAssign` that takes a chain over, say they
      reach. */
  ghost function Moved<T>(s: State<T>, q: nat, from: nat, resource: Option<nat>, left: Option<nat>): State<T>
    requires q < |s.queues| && from < |s.queues|
  {
    s.(log := if s.queues[q].chain == [] || s.queues[q].resource.None? then s.log
              else s.log + Frees(s.queues[q].chain, s.queues[q].resource.value),
       queues := s.queues[q := Held(s.queues[from].chain, resource)][from := Held([], left)])
  }

  lemma MoveKeepsPartition<T>(s: State<T>, q: nat, from: nat, resource: Option<nat>, left: Option<nat>)
    requires Partitioned(s) && q < |s.queues| && from < |s.queues| && q != from
    requires s.queues[from].chain != [] ==> MayTake(s, q, from, resource)
    ensures Partitioned(Moved(s, q, from, resource, left))
  {
    var chain := s.queues[q].chain;
    HeldNeedsResource(s, q);
    var s1 := if chain == [] then s else Cleared(s, q);
    if chain != [] { ClearKeepsPartition(s, q); }
    TakeOverKeeps(s1, TakeOver(q, from, resource, left));
    assert Apply(s1, TakeOver(q, from, resource, left)) == Moved(s, q, from, resource, left);
  }

  // ----- the operations on the objects ---------------------------------------------------

  /** The `i`th queue of `s` is the object `q`, and `s` has the history of its memory. */
  ghost predicate Mirrors<T>(s: State<T>, i: nat, q: Queue<T>)
    reads q, q.list, q.memory
  {
    && i < |s.queues| && s.log == q.memory.log && s.reports == q.memory.reports
    && s.queues[i] == Held(q.list.chain, q.resource)
  }

  lemma ChainsApart<T>(s: State<T>, i: nat, j: nat)
    requires AllDisjoint(s) && i < |s.queues| && j < |s.queues| && i != j
    ensures Disjoint(s.queues[i].chain, s.queues[j].chain)
  {
  }

  /** `emplace` is the event of obtaining one node, or none. */
  method EmplaceEvent<T>(q: Queue<T>, v: Slot<T>, ghost s: State<T>, ghost i: nat)
    returns (ok: bool, ghost nodes: seq<Node<T>>)
    requires q.memory.Valid() && q.Valid() && q.resource.Some? && v != Raw && Mirrors(s, i, q)
    modifies q.list, q.memory, q.list.chain
    ensures q.memory.Valid() && q.Valid() && Enabled(s, Obtain(i, nodes))
    ensures Mirrors(Apply(s, Obtain(i, nodes)), i, q)
    ensures q.list.vals == if ok then old(q.list.vals) + [v] else old(q.list.vals)
  {
    nodes := [];
    ObtainNone(s, i);
    ok := q.EmplaceNode(v);
    if ok {
      nodes := [q.list.chain[|s.queues[i].chain|]];
      ObtainOne(s, i, nodes[0]);
    }
  }

  lemma ObtainNone<T>(s: State<T>, i: nat)
    requires i < |s.queues| && s.queues[i].resource.Some? && Replay(s.log).Some?
    ensures Enabled(s, Obtain(i, [])) && Apply(s, Obtain(i, [])) == s
  {
    assert s.log + Allocs<T>([], s.queues[i].resource.value) == s.log;
    assert s.queues[i].chain + [] == s.queues[i].chain;
  }

  lemma ObtainOne<T>(s: State<T>, i: nat, n: Node<T>)
    requires i < |s.queues| && s.queues[i].resource.Some?
    requires Replay(s.log + [Allocated(n, s.queues[i].resource.value)]).Some?
    ensures Enabled(s, Obtain(i, [n]))
    ensures Apply(s, Obtain(i, [n])) ==
              s.(log := s.log + [Allocated(n, s.queues[i].resource.value)],
                 queues := s.queues[i := s.queues[i].(chain := s.queues[i].chain + [n])])
  {
    assert Allocs([n], s.queues[i].resource.value) == [Allocated(n, s.queues[i].resource.value)];
  }

  /** `emplace` keeps the program partitioned. */
  method Emplace<T>(q: Queue<T>, v: Slot<T>, ghost s: State<T>, ghost i: nat) returns (ok: bool, ghost s': State<T>)
    requires q.memory.Valid() && q.Valid() && q.resource.Some? && v != Raw
    requires Mirrors(s, i, q) && Partitioned(s)
    modifies q.list, q.memory, q.list.chain
    ensures q.memory.Valid() && q.Valid() && Mirrors(s', i, q) && Partitioned(s')
    ensures s'.queues == s.queues[i := s'.queues[i]]
    ensures q.list.vals == if ok then old(q.list.vals) + [v] else old(q.list.vals)
  {
    ghost var nodes;
    ok, nodes := EmplaceEvent(q, v, s, i);
    ObtainKeeps(s, i, nodes);
    s' := Apply(s, Obtain(i, nodes));
  }

  /** `pop` keeps the program partitioned. */
  method Pop<T>(q: Queue<T>, ghost s: State<T>, ghost i: nat) returns (r: Option<Slot<T>>, ghost s': State<T>)
    requires q.memory.Valid() && q.Valid() && Mirrors(s, i, q) && Partitioned(s)
    modifies q.list, q.memory`log, q.list.chain
    ensures q.memory.Valid() && q.Valid() && Mirrors(s', i, q) && Partitioned(s')
    ensures s'.queues == s.queues[i := s'.queues[i]]
    ensures r == if old(q.list.vals) == [] then None else Some(old(q.list.vals[0]))
  {
    s' := s;
    if q.list.front == null { return None, s'; }
    var v := q.PopNode();
    r := Some(v);
    ghost var chain := s.queues[i].chain;
    assert chain[..1] == [chain[0]];
    assert Frees(chain[..1], s.queues[i].resource.value) == [Freed(chain[0], s.queues[i].resource.value)];
    GiveBackKeeps(s, i, 1);
    s' := Apply(s, GiveBack(i, 1));
  }

  /** `clear`, and with it destruction, keeps the program partitioned. */
  method Clear<T>(q: Queue<T>, ghost s: State<T>, ghost i: nat) returns (ghost s': State<T>)
    requires q.memory.Valid() && q.Valid() && Mirrors(s, i, q) && Partitioned(s)
    modifies q.list, q.memory`log, q.list.chain
    ensures q.memory.Valid() && q.Valid() && Mirrors(s', i, q) && Partitioned(s') && q.list.chain == []
    ensures s'.queues == s.queues[i := s'.queues[i]]
  {
    ClearKeepsPartition(s, i);
    FreesNothing<T>(s.log, q.Id());
    q.Clear();
    s' := Cleared(s, i);
  }

  /** Copy assignment reaches the state `Rebuilt`. */
  method CopyAssignEvents<T>(q: Queue<T>, other: Queue<T>, ghost s: State<T>, ghost i: nat, ghost j: nat)
    returns (ok: bool, ghost built: seq<Node<T>>)
    requires q.memory.Valid() && q.Valid() && q.resource.Some? && other.list.Valid()
    requires q.memory == other.memory && q.list != other.list && q != other && i != j
    requires Mirrors(s, i, q) && Mirrors(s, j, other) && Disjoint(s.queues[i].chain, s.queues[j].chain)
    modifies q.list, q.memory, q.list.chain
    ensures q.memory.Valid() && q.Valid()
    ensures Mirrors(Rebuilt(s, i, built, ok), i, q) && Mirrors(Rebuilt(s, i, built, ok), j, other)
    ensures ok ==> q.list.vals == other.list.vals
  {
    ok, built := q.CopyAssign(other);
  }

  /** Copy assignment, also when it fails, keeps the program partitioned. */
  method CopyAssign<T>(q: Queue<T>, other: Queue<T>, ghost s: State<T>, ghost i: nat, ghost j: nat)
    returns (ok: bool, ghost s': State<T>)
    requires q.memory.Valid() && q.Valid() && q.resource.Some? && other.list.Valid()
    requires q.memory == other.memory && q.list != other.list && q != other && i != j
    requires Mirrors(s, i, q) && Mirrors(s, j, other) && Partitioned(s)
    modifies q.list, q.memory, q.list.chain
    ensures q.memory.Valid() && q.Valid() && Mirrors(s', i, q) && Mirrors(s', j, other) && Partitioned(s')
    ensures s'.queues == s.queues[i := s'.queues[i]]
    ensures ok ==> q.list.vals == other.list.vals
  {
    ChainsApart(s, i, j);
    ghost var built;
    ok, built := CopyAssignEvents(q, other, s, i, j);
    RebuildKeepsPartition(s, i, built, ok);
    s' := Rebuilt(s, i, built, ok);
  }

  /** Move assignment between queues of one type keeps the program partitioned. */
  method MoveAssign<T>(q: Queue<T>, other: Queue<T>, left: Option<nat>, ghost s: State<T>, ghost i: nat, ghost j: nat)
    returns (ghost s': State<T>)
    requires q.memory.Valid() && q.Valid() && other.Valid()
    requires q.memory == other.memory && q.list != other.list && q != other && i != j
    requires Mirrors(s, i, q) && Mirrors(s, j, other) && Partitioned(s)
    modifies q`resource, q.list, q.memory`log, q.list.chain, other`resource, other.list
    ensures q.memory.Valid() && q.Valid() && other.Valid()
    ensures Mirrors(s', i, q) && Mirrors(s', j, other) && Partitioned(s')
    ensures s'.queues == s.queues[i := s'.queues[i]][j := s'.queues[j]]
    ensures q.list.vals == old(other.list.vals)
  {
    ChainsApart(s, i, j);
    FreesNothing<T>(q.memory.log, q.Id());
    q.MoveAssign(other, left);
    MoveKeepsPartition(s, i, j, q.resource, left);
    s' := Moved(s, i, j, q.resource, left);
  }

  /** The state a move across resource types reaches. */
  ghost function Crossed<T>(s: State<T>, i: nat, j: nat, takeover: bool, built: seq<Node<T>>, ok: bool): State<T>
    requires i < |s.queues| && j < |s.queues| && s.queues[i].resource.Some?
  {
    if takeover then Moved(s, i, j, s.queues[i].resource, s.queues[j].resource) else Rebuilt(s, i, built, ok)
  }

  /** Move assignment across resource types reaches the state `Crossed`: the chain taken over
      when the resources interoperate, rebuilt when they do not. */
  method CrossMoveAssign<T>(q: Queue<T>, other: Queue<T>, ghost s: State<T>, ghost i: nat, ghost j: nat)
    returns (ok: bool, ghost takeover: bool, ghost built: seq<Node<T>>)
    requires q.memory.Valid() && q.Valid() && q.resource.Some? && other.Valid()
    requires q.memory == other.memory && q.list != other.list && q != other && i != j
    requires Mirrors(s, i, q) && Mirrors(s, j, other) && Disjoint(s.queues[i].chain, s.queues[j].chain)
    modifies q.list, q.memory, q.list.chain, other.list, other.list.chain
    ensures q.memory.Valid() && q.Valid() && other.Valid()
    ensures takeover == q.Interoperable(s.queues[j].chain, other)
    ensures var s' := Crossed(s, i, j, takeover, built, ok);
            Mirrors(s', i, q) && Mirrors(s', j, other)
    ensures ok ==> q.list.vals == old(other.list.vals)
  {
    takeover := q.Interoperable(s.queues[j].chain, other);
    FreesNothing<T>(q.memory.log, q.Id());
    ok, built := q.CrossMoveAssign(other);
  }

  /** Either way the program stays partitioned. */
  lemma CrossMoveKeepsPartition<T>(s: State<T>, i: nat, j: nat, takeover: bool, built: seq<Node<T>>, ok: bool)
    requires Partitioned(s) && i < |s.queues| && j < |s.queues| && i != j && s.queues[i].resource.Some?
    requires takeover ==> MayTake(s, i, j, s.queues[i].resource)
    requires Replay(Crossed(s, i, j, takeover, built, ok).log).Some?
    ensures var s' := Crossed(s, i, j, takeover, built, ok);
            Partitioned(s') && s'.queues == s.queues[i := s'.queues[i]][j := s'.queues[j]]
  {
    if takeover {
      MoveKeepsPartition(s, i, j, s.queues[i].resource, s.queues[j].resource);
    } else {
      RebuildKeepsPartition(s, i, built, ok);
    }
  }

  // ----- what the partition means -----------------------------------------------------

  /** In every program, exactly one queue holds each live node, once, and it has a resource to
      give it back to. */
  lemma EveryLiveNodeHeldOnce<T>(reports: (nat, nat) -> bool, es: seq<Event<T>>, n: Node<T>) returns (q: nat, i: nat)
    requires Feasible(Start(reports), es) && n in LiveNodes(Exec(Start(reports), es).log)
    ensures var s := Exec(Start(reports), es);
            && q < |s.queues| && i < |s.queues[q].chain| && s.queues[q].chain[i] == n
            && s.queues[q].resource.Some?
            && forall p, j :: 0 <= p < |s.queues| && 0 <= j < |s.queues[p].chain| && s.queues[p].chain[j] == n ==>
                 p == q && j == i
  {
    RunKeepsPartition(Start(reports), es);
    var s := Exec(Start(reports), es);
    assert HeldBySome(s.queues, n);
    q :| 0 <= q < |s.queues| && n in s.queues[q].chain;
    i :| 0 <= i < |s.queues[q].chain| && s.queues[q].chain[i] == n;
    forall p | 0 <= p < |s.queues| && p != q ensures n !in s.queues[p].chain {
      assert Disjoint(s.queues[q].chain, s.queues[p].chain);
    }
  }

  /** Every node is given back at most once; once every queue is empty, as after `clear` or
      destruction, every node has been. */
  lemma EveryNodeFreedOnce<T>(reports: (nat, nat) -> bool, es: seq<Event<T>>, n: Node<T>)
    requires Feasible(Start(reports), es)
    ensures var s := Exec(Start(reports), es);
            && Replay(s.log).Some?
            && Count(s.log, n, true) <= Count(s.log, n, false) <= 1
            && ((forall q :: 0 <= q < |s.queues| ==> s.queues[q].chain == []) ==>
                  LiveNodes(s.log) == map[] && Count(s.log, n, true) == Count(s.log, n, false))
  {
    RunKeepsPartition(Start(reports), es);
    var s := Exec(Start(reports), es);
    FreedExactlyOnce(s.log, n);
    assert forall m :: m in LiveNodes(s.log) ==> HeldBySome(s.queues, m);
    if forall q :: 0 <= q < |s.queues| ==> s.queues[q].chain == [] {
      assert forall m: Node<T> :: !HeldBySome(s.queues, m);
      assert LiveNodes(s.log) == map[];
    }
  }

  // ----- where nodes go back ------------------------------------------------------------

  /** A way for a chain from resource to resource: each says that it is interoperable with the
      one before. */
  ghost predicate Takes(reports: (nat, nat) -> bool, path: seq<nat>) {
    path != [] && forall i :: 0 <= i < |path| - 1 ==> reports(path[i + 1], path[i])
  }

  ghost predicate Reachable(reports: (nat, nat) -> bool, a: nat, b: nat) {
    exists path :: Takes(reports, path) && path[0] == a && path[|path| - 1] == b
  }

  lemma ReachesItself(reports: (nat, nat) -> bool, a: nat)
    ensures Reachable(reports, a, a)
  {
    assert Takes(reports, [a]) && [a][0] == a && [a][|[a]| - 1] == a;
  }

  lemma ReachesOn(reports: (nat, nat) -> bool, a: nat, b: nat, c: nat)
    requires Reachable(reports, a, b) && reports(c, b)
    ensures Reachable(reports, a, c)
  {
    var path :| Takes(reports, path) && path[0] == a && path[|path| - 1] == b;
    var longer := path + [c];
    assert Takes(reports, longer) && longer[0] == a && longer[|longer| - 1] == c;
  }

  /** Each node a queue holds has come to its resource from the one that gave it out. */
  ghost predicate AllWithin<T>(s: State<T>) {
    forall q :: 0 <= q < |s.queues| ==> Within(s.reports, s.log, s.queues[q])
  }

  ghost predicate Within<T>(reports: (nat, nat) -> bool, log: seq<Entry<T>>, h: Held<T>) {
    forall i :: 0 <= i < |h.chain| ==>
      h.chain[i] in LiveNodes(log) && h.resource.Some? &&
      Reachable(reports, LiveNodes(log)[h.chain[i]], h.resource.value)
  }

  /** Every node given back went to a resource `r` for which `ok(r, a)`, where `a` is the one
      that gave it out. */
  ghost predicate FreedOnlyTo<T>(ok: (nat, nat) -> bool, log: seq<Entry<T>>) {
    log == [] ||
    var init, last := log[..|log| - 1], log[|log| - 1];
    FreedOnlyTo(ok, init) &&
    (last.Freed? && last.node in LiveNodes(init) ==> ok(last.id, LiveNodes(init)[last.node]))
  }

  ghost function FromReachable(reports: (nat, nat) -> bool): (nat, nat) -> bool {
    (r: nat, a: nat) => Reachable(reports, a, r)
  }

  lemma {:induction false} AllocsFreeNothing<T>(ok: (nat, nat) -> bool, log: seq<Entry<T>>, nodes: seq<Node<T>>, id: nat)
    requires FreedOnlyTo(ok, log)
    ensures FreedOnlyTo(ok, log + Allocs(nodes, id))
    decreases |nodes|
  {
    if nodes == [] {
      assert log + Allocs(nodes, id) == log;
    } else {
      var init, last := nodes[..|nodes| - 1], nodes[|nodes| - 1];
      assert nodes == init + [last];
      AllocsOneMore(init, last, id);
      AllocsFreeNothing(ok, log, init, id);
      assert log + Allocs(nodes, id) == (log + Allocs(init, id)) + [Allocated(last, id)];
    }
  }

  lemma {:induction false} FreesGoThere<T>(ok: (nat, nat) -> bool, log: seq<Entry<T>>, nodes: seq<Node<T>>, id: nat)
    requires FreedOnlyTo(ok, log) && Replay(log).Some? && Distinct(nodes)
    requires forall i :: 0 <= i < |nodes| ==> nodes[i] in LiveNodes(log) && ok(id, LiveNodes(log)[nodes[i]])
    ensures FreedOnlyTo(ok, log + Frees(nodes, id))
    decreases |nodes|
  {
    if nodes == [] {
      FreesNothing<T>(log, id);
    } else {
      var log' := log + [Freed(nodes[0], id)];
      assert log'[..|log|] == log;
      FreesGoThere(ok, log', nodes[1..], id);
      FreesFirst(log, nodes, id);
    }
  }

  lemma WithinAfterAllocs<T>(s: State<T>, h: Held<T>, nodes: seq<Node<T>>, id: nat)
    requires Replay(s.log).Some? && Within(s.reports, s.log, h) && Replay(s.log + Allocs(nodes, id)).Some?
    ensures Within(s.reports, s.log + Allocs(nodes, id), h)
  {
    forall i | 0 <= i < |h.chain|
      ensures var live := LiveNodes(s.log + Allocs(nodes, id));
              h.chain[i] in live && live[h.chain[i]] == LiveNodes(s.log)[h.chain[i]]
    {
      LiveStays(s.log, nodes, id, h.chain[i]);
    }
  }

  lemma ObtainKeepsWithin<T>(s: State<T>, q: nat, nodes: seq<Node<T>>)
    requires Partitioned(s) && AllWithin(s) && Enabled(s, Obtain(q, nodes))
    ensures AllWithin(Apply(s, Obtain(q, nodes)))
  {
    var id, s' := s.queues[q].resource.value, Apply(s, Obtain(q, nodes));
    LiveAfterAllocs(s.log, nodes, id);
    ReachesItself(s.reports, id);
    forall p | 0 <= p < |s.queues| ensures Within(s.reports, s'.log, s'.queues[p]) {
      WithinAfterAllocs(s, s.queues[p], nodes, id);
    }
  }

  lemma GiveBackKeepsWithin<T>(s: State<T>, q: nat, k: nat)
    requires Partitioned(s) && AllWithin(s) && Enabled(s, GiveBack(q, k)) && k > 0
    requires FreedOnlyTo(FromReachable(s.reports), s.log)
    ensures AllWithin(Apply(s, GiveBack(q, k)))
    ensures FreedOnlyTo(FromReachable(s.reports), Apply(s, GiveBack(q, k)).log)
  {
    var freed, id, s' := s.queues[q].chain[..k], s.queues[q].resource.value, Apply(s, GiveBack(q, k));
    assert Within(s.reports, s.log, s.queues[q]);
    FreesGoThere(FromReachable(s.reports), s.log, freed, id);
    GiveBackKeeps(s, q, k);
    LiveAfterFrees(s.log, freed, id);
    forall p | 0 <= p < |s.queues| ensures Within(s.reports, s'.log, s'.queues[p]) {
      assert Within(s.reports, s.log, s.queues[p]);
      assert Owns(s'.log, s'.queues[p].chain, s'.queues[p].resource);
    }
  }

  lemma TakeOverKeepsWithin<T>(s: State<T>, e: Event<T>)
    requires AllWithin(s) && e.TakeOver? && Enabled(s, e)
    ensures AllWithin(Apply(s, e))
  {
    var h := s.queues[e.from];
    assert Within(s.reports, s.log, h);
    if h.chain != [] && e.resource != h.resource {
      forall i | 0 <= i < |h.chain| ensures Reachable(s.reports, LiveNodes(s.log)[h.chain[i]], e.resource.value) {
        ReachesOn(s.reports, LiveNodes(s.log)[h.chain[i]], h.resource.value, e.resource.value);
      }
    }
    assert Within(s.reports, s.log, Held(h.chain, e.resource));
  }

  lemma {:induction false} RunFreesWithin<T>(s: State<T>, es: seq<Event<T>>)
    requires Partitioned(s) && AllWithin(s) && FreedOnlyTo(FromReachable(s.reports), s.log) && Feasible(s, es)
    ensures AllWithin(Exec(s, es)) && FreedOnlyTo(FromReachable(s.reports), Exec(s, es).log)
    decreases |es|
  {
    if es != [] {
      var e := es[0];
      RunKeepsPartition(s, [e]);
      assert Exec(s, [e]) == Apply(s, e);
      if e.Obtain? {
        ObtainKeepsWithin(s, e.q, e.nodes);
        AllocsFreeNothing(FromReachable(s.reports), s.log, e.nodes, s.queues[e.q].resource.value);
      } else if e.GiveBack? {
        if e.k > 0 { GiveBackKeepsWithin(s, e.q, e.k); }
      } else if e.TakeOver? {
        TakeOverKeepsWithin(s, e);
      }
      RunFreesWithin(Apply(s, e), es[1..]);
    }
  }

  /** In every program a node goes back only to a resource that its chain reached by takeovers
      from the one that gave it out. */
  lemma EveryFreeIsWithinReach<T>(reports: (nat, nat) -> bool, es: seq<Event<T>>)
    requires Feasible(Start<T>(reports), es)
    ensures FreedOnlyTo(FromReachable(reports), Exec(Start<T>(reports), es).log)
  {
    RunFreesWithin(Start<T>(reports), es);
  }

  /** What the reports promise: along every way a chain can take, the last resource can free
      what the first gave out. */
  ghost predicate Covers(reports: (nat, nat) -> bool, canFree: (nat, nat) -> bool) {
    forall path :: Takes(reports, path) ==> canFree(path[|path| - 1], path[0])
  }

  lemma {:induction false} FreedOnlyToMore<T>(ok: (nat, nat) -> bool, ok': (nat, nat) -> bool, log: seq<Entry<T>>)
    requires FreedOnlyTo(ok, log) && forall r, a :: ok(r, a) ==> ok'(r, a)
    ensures FreedOnlyTo(ok', log)
    decreases |log|
  {
    if log != [] { FreedOnlyToMore(ok, ok', log[..|log| - 1]); }
  }

  /** Every node goes back to a resource that can free it, in every program, when the reports
      promise it along every way. */
  lemma EveryFreeIsRight<T>(reports: (nat, nat) -> bool, canFree: (nat, nat) -> bool, es: seq<Event<T>>)
    requires Covers(reports, canFree) && Feasible(Start<T>(reports), es)
    ensures FreedOnlyTo(canFree, Exec(Start<T>(reports), es).log)
  {
    EveryFreeIsWithinReach(reports, es);
    FreedOnlyToMore(FromReachable(reports), canFree, Exec(Start<T>(reports), es).log);
  }

  /** It is enough that a resource can free its own nodes, that no report is false, and that
      being able to free is transitive. */
  lemma {:induction false} TransitiveCovers(reports: (nat, nat) -> bool, canFree: (nat, nat) -> bool, path: seq<nat>)
    requires forall a :: canFree(a, a)
    requires forall r, a :: reports(r, a) ==> canFree(r, a)
    requires forall a, b, c :: canFree(b, a) && canFree(c, b) ==> canFree(c, a)
    requires Takes(reports, path)
    ensures canFree(path[|path| - 1], path[0])
    decreases |path|
  {
    if |path| > 1 {
      var init := path[..|path| - 1];
      assert forall i :: 0 <= i < |init| ==> init[i] == path[i];
      TransitiveCovers(reports, canFree, init);
      assert reports(path[|path| - 2 + 1], path[|path| - 2]);
    }
  }

  lemma TransitiveIsEnough(reports: (nat, nat) -> bool, canFree: (nat, nat) -> bool)
    requires forall a :: canFree(a, a)
    requires forall r, a :: reports(r, a) ==> canFree(r, a)
    requires forall a, b, c :: canFree(b, a) && canFree(c, b) ==> canFree(c, a)
    ensures Covers(reports, canFree)
  {
    forall path | Takes(reports, path) ensures canFree(path[|path| - 1], path[0]) {
      TransitiveCovers(reports, canFree, path);
    }
  }

  lemma {:induction false} ExecOneMore<T>(s: State<T>, es: seq<Event<T>>, e: Event<T>)
    requires Feasible(s, es) && Enabled(Exec(s, es), e)
    ensures Feasible(s, es + [e]) && Exec(s, es + [e]) == Apply(Exec(s, es), e)
    decreases |es|
  {
    if es == [] {
      assert es + [e] == [e] && [e][1..] == [];
    } else {
      assert (es + [e])[1..] == es[1..] + [e];
      ExecOneMore(Apply(s, es[0]), es[1..], e);
    }
  }

  /** One queue for each resource of the path, the `at`th holding the node. */
  ghost function Row<T>(path: seq<nat>, at: nat, n: Node<T>): seq<Held<T>> {
    seq(|path|, i requires 0 <= i < |path| => Held(if i == at then [n] else [], Some(path[i])))
  }

  lemma RowCreated<T>(reports: (nat, nat) -> bool, path: seq<nat>, n: Node<T>) returns (es: seq<Event<T>>)
    requires path != []
    ensures Feasible(Start<T>(reports), es)
    ensures Exec(Start<T>(reports), es) == State(reports, [Allocated(n, path[0])], Row(path, 0, n))
  {
    es := [];
    for i := 0 to |path|
      invariant Feasible(Start<T>(reports), es)
      invariant Exec(Start<T>(reports), es) == State(reports, [], Row(path[..i], i, n))
    {
      ExecOneMore(Start<T>(reports), es, Create(Some(path[i])));
      es := es + [Create(Some(path[i]))];
      assert Row(path[..i], i, n) + [Held([], Some(path[i]))] == Row(path[..i + 1], i + 1, n);
    }
    assert path[..|path|] == path;
    var s := Exec(Start<T>(reports), es);
    ObtainsNode(s, path, n);
    ExecOneMore(Start<T>(reports), es, Obtain(0, [n]));
    es := es + [Obtain(0, [n])];
  }

  lemma ObtainsNode<T>(s: State<T>, path: seq<nat>, n: Node<T>)
    requires path != [] && s.log == [] && s.queues == Row(path, |path|, n)
    ensures Enabled(s, Obtain(0, [n]))
    ensures Apply(s, Obtain(0, [n])) == State(s.reports, [Allocated(n, path[0])], Row(path, 0, n))
  {
    assert s.log + Allocs([n], path[0]) == [Allocated(n, path[0])];
    assert [Allocated(n, path[0])][..0] == [];
    assert [] + [n] == [n];
    assert Apply(s, Obtain(0, [n])).queues == Row(path, 0, n);
  }

  lemma RowTaken<T>(s: State<T>, path: seq<nat>, i: nat, n: Node<T>)
    requires Takes(s.reports, path) && i + 1 < |path| && s.queues == Row(path, i, n)
    ensures var e := TakeOver(i + 1, i, Some(path[i + 1]), Some(path[i]));
            Enabled(s, e) && Apply(s, e) == s.(queues := Row(path, i + 1, n))
  {
    var e := TakeOver(i + 1, i, Some(path[i + 1]), Some(path[i]));
    assert s.reports(path[i + 1], path[i]);
    assert Apply(s, e).queues == Row(path, i + 1, n);
  }

  /** And needed: when the last resource of some way cannot free what the first gave out, a
      program that sends a chain along that way gives its node back wrongly. */
  lemma WrongFree<T>(reports: (nat, nat) -> bool, canFree: (nat, nat) -> bool, path: seq<nat>, n: Node<T>)
    returns (es: seq<Event<T>>)
    requires Takes(reports, path) && !canFree(path[|path| - 1], path[0])
    ensures Feasible(Start<T>(reports), es)
    ensures Exec(Start<T>(reports), es).log == [Allocated(n, path[0]), Freed(n, path[|path| - 1])]
    ensures !FreedOnlyTo(canFree, Exec(Start<T>(reports), es).log)
  {
    es := RowCreated(reports, path, n);
    for i := 0 to |path| - 1
      invariant Feasible(Start<T>(reports), es)
      invariant Exec(Start<T>(reports), es) == State(reports, [Allocated(n, path[0])], Row(path, i, n))
    {
      RowTaken(Exec(Start<T>(reports), es), path, i, n);
      ExecOneMore(Start<T>(reports), es, TakeOver(i + 1, i, Some(path[i + 1]), Some(path[i])));
      es := es + [TakeOver(i + 1, i, Some(path[i + 1]), Some(path[i]))];
    }
    var last := |path| - 1;
    ExecOneMore(Start<T>(reports), es, GiveBack(last, 1));
    es := es + [GiveBack(last, 1)];
    WrongLog(canFree, path[0], path[last], n);
  }

  lemma WrongLog<T>(canFree: (nat, nat) -> bool, a: nat, r: nat, n: Node<T>)
    requires !canFree(r, a)
    ensures [Allocated(n, a)] + Frees([n][..1], r) == [Allocated(n, a), Freed(n, r)]
    ensures !FreedOnlyTo(canFree, [Allocated(n, a), Freed(n, r)])
  {
    var log := [Allocated(n, a), Freed(n, r)];
    assert [n][..1] == [n];
    var init := log[..1];
    assert init == [Allocated(n, a)] && init[..0] == [];
    assert Replay<T>(init[..0]) == Some(Books(map[], {}));
    assert n in LiveNodes(init) && LiveNodes(init)[n] == a;
  }

  /** Three resources, each honestly interoperable with the next one only: a node of the first
      ends up with the third, which cannot free it. */
  lemma ThreeResourcesFreeWrongly<T>(n: Node<T>) returns (es: seq<Event<T>>)
    ensures var neighbours := (r: nat, a: nat) => r <= a + 1 && a <= r + 1;
            && Feasible(Start<T>(neighbours), es)
            && Exec(Start<T>(neighbours), es).log == [Allocated(n, 0), Freed(n, 2)]
            && !FreedOnlyTo(neighbours, Exec(Start<T>(neighbours), es).log)
  {
    var neighbours := (r: nat, a: nat) => r <= a + 1 && a <= r + 1;
    assert Takes(neighbours, [0, 1, 2]);
    es := WrongFree(neighbours, neighbours, [0, 1, 2], n);
  }
}
