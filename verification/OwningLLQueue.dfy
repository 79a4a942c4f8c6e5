/** The linked queue that owns its nodes: every node comes from the memory behind a resource
    and goes back to it, chains can be taken over between interoperable resources, and the
    live nodes are always partitioned among the queues. */
module OwningLLQueue {
  import opened LinkedNodes
  import opened Options
  import opened Sequences
  import opened Storage

  /** All the resources, by number. Whether the k-th request to resource `a` succeeds is given
      by `grants(a, k)`; what `a` says when asked whether it is interoperable with `b`, by
      `reports(a, b)`. It need not be symmetric or transitive. */
  class Memory<T> {
    const grants: (nat, nat) -> bool
    const reports: (nat, nat) -> bool
    var requests: map<nat, nat>
    // every node ever given out or back, in order
    ghost var log: seq<Entry<T>>

    ghost predicate Valid()
      reads this
    {
      Replay(log).Some?
    }

    function Asked(id: nat): nat
      reads this
    {
      if id in requests then requests[id] else 0
    }

    constructor (grants: (nat, nat) -> bool, reports: (nat, nat) -> bool)
      ensures Valid() && log == [] && this.grants == grants && this.reports == reports
      ensures forall a :: Asked(a) == 0
    {
      this.grants, this.reports := grants, reports;
      requests := map[];
      log := [];
    }

    /** `allocate` of resource `id`: storage for one node, or null. */
    method Allocate(id: nat) returns (r: Option<Node<T>>)
      requires Valid()
      modifies this
      ensures Valid()
      ensures requests == old(requests[id := Asked(id) + 1])
      ensures r.Some? <==> grants(id, old(Asked(id)))
      ensures r.None? ==> log == old(log)
      ensures r.Some? ==> fresh(r.value) && r.value.val == Raw && log == old(log) + [Allocated(r.value, id)]
    {
      var k := Asked(id);
      requests := requests[id := k + 1];
      if !grants(id, k) { return None; }
      var node := new Node<T>();
      UnmentionedIsUnused(log, node);
      log := log + [Allocated(node, id)];
      assert log[..|log| - 1] == old(log);
      r := Some(node);
    }

    /** `deallocate` of resource `id`: the node must be live and no longer hold a value. */
    method Deallocate(id: nat, node: Node<T>)
      requires Valid() && node in LiveNodes(log) && node.val == Raw
      modifies this`log
      ensures Valid() && log == old(log) + [Freed(node, id)]
    {
      log := log + [Freed(node, id)];
      assert log[..|log| - 1] == old(log);
    }
  }

  /** Every node of `chain` is live, and there is a resource to give it back to. */
  ghost predicate Owns<T>(log: seq<Entry<T>>, chain: seq<Node<T>>, resource: Option<nat>) {
    forall i :: 0 <= i < |chain| ==> chain[i] in LiveNodes(log) && resource.Some?
  }

  lemma OwnsMore<T>(log: seq<Entry<T>>, chain: seq<Node<T>>, id: nat, n: Node<T>)
    requires Owns(log, chain, Some(id)) && Replay(log + [Allocated(n, id)]).Some?
    ensures Owns(log + [Allocated(n, id)], chain + [n], Some(id))
  {
    assert (log + [Allocated(n, id)])[..|log|] == log;
  }

  lemma OwnsLess<T>(log: seq<Entry<T>>, chain: seq<Node<T>>, id: nat)
    requires Owns(log, chain, Some(id)) && Distinct(chain) && chain != []
    requires Replay(log + [Freed(chain[0], id)]).Some?
    ensures Owns(log + [Freed(chain[0], id)], chain[1..], Some(id))
  {
    assert (log + [Freed(chain[0], id)])[..|log|] == log;
  }

  lemma OwnsAfterFrees<T>(log: seq<Entry<T>>, chain: seq<Node<T>>, resource: Option<nat>, freed: seq<Node<T>>, id: nat)
    requires Owns(log, chain, resource) && Replay(log).Some?
    requires forall i :: 0 <= i < |freed| ==> freed[i] !in chain
    ensures Replay(log + Frees(freed, id)).Some? ==> Owns(log + Frees(freed, id), chain, resource)
  {
    if Replay(log + Frees(freed, id)).Some? {
      LiveAfterFrees(log, freed, id);
      forall i | 0 <= i < |chain| ensures chain[i] in LiveNodes(log + Frees(freed, id)) {
        assert chain[i] !in NodeSet(freed);
      }
    }
  }

  /** What a queue owns, it still owns after another one obtained nodes, or obtained some and
      gave them back. */
  lemma OwnsStays<T>(log: seq<Entry<T>>, chain: seq<Node<T>>, resource: Option<nat>, built: seq<Node<T>>, id: nat)
    requires Owns(log, chain, resource) && Replay(log + Allocs(built, id)).Some?
    ensures Owns(log + Allocs(built, id), chain, resource)
    ensures Replay(log + Allocs(built, id) + Frees(built, id)).Some? ==>
              Owns(log + Allocs(built, id) + Frees(built, id), chain, resource)
  {
    var log' := log + Allocs(built, id);
    forall i | 0 <= i < |chain|
      ensures chain[i] !in built && chain[i] in LiveNodes(log') && LiveNodes(log')[chain[i]] == LiveNodes(log)[chain[i]]
    {
      LiveStays(log, built, id, chain[i]);
    }
    assert Owns(log', chain, resource);
    assert forall j :: 0 <= j < |built| ==> built[j] !in chain;
    OwnsAfterFrees(log', chain, resource, built, id);
  }

  lemma {:induction false} ReplayPrefix<T>(log: seq<Entry<T>>, more: seq<Entry<T>>)
    requires Replay(log + more).Some?
    ensures Replay(log).Some?
    decreases |more|
  {
    if more == [] {
      assert log + more == log;
    } else {
      assert (log + more)[..|log + more| - 1] == log + more[..|more| - 1];
      ReplayPrefix(log, more[..|more| - 1]);
    }
  }

  /** All of the next `n` requests succeed. */
  ghost predicate AllGranted(grants: (nat, nat) -> bool, id: nat, asked: nat, n: nat) {
    forall k :: asked <= k < asked + n ==> grants(id, k)
  }

  /** `vals` with the first `k` moved out, one after the other. */
  ghost function Hollowed<T>(vals: seq<Slot<T>>, k: nat): (r: seq<Slot<T>>)
    requires k <= |vals|
    ensures |r| == |vals|
  {
    if k == 0 then vals else Hollowed(vals, k - 1)[k - 1 := MovedFrom]
  }

  /** The first `k` are gone and no other has changed. */
  lemma {:induction false} HollowedAt<T>(vals: seq<Slot<T>>, k: nat, i: nat)
    requires k <= |vals| && i < |vals|
    ensures Hollowed(vals, k)[i] == if i < k then MovedFrom else vals[i]
  {
    if k > 0 { HollowedAt(vals, k - 1, i); }
  }

  /** The queue. Its resource is `None` when it is null. */
  class Queue<T> {
    const memory: Memory<T>
    const list: LLQueue<T>
    var resource: Option<nat>

    ghost predicate Valid()
      reads this, list, memory, list.chain
    {
      list.Valid() && Owns(memory.log, list.chain, resource)
    }

    /** The number of the resource. */
    ghost function Id(): nat
      reads this
    {
      if resource.Some? then resource.value else 0
    }

    constructor (memory: Memory<T>, resource: Option<nat>)
      requires memory.Valid()
      ensures this.memory == memory && this.resource == resource && fresh(list)
      ensures Valid() && list.chain == [] && list.vals == []
    {
      this.memory, this.resource := memory, resource;
      list := new LLQueue<T>();
    }

    /** Takes over the nodes and the resource of `other`, whose resource is left as `left`. */
    constructor Move(other: Queue<T>, left: Option<nat>)
      requires other.memory.Valid() && other.Valid()
      modifies other`resource, other.list
      ensures memory == other.memory && fresh(list) && Valid() && other.Valid()
      ensures list.chain == old(other.list.chain) && list.vals == old(other.list.vals)
      ensures resource == old(other.resource) && other.resource == left && other.list.chain == []
    {
      memory, resource := other.memory, other.resource;
      list := new LLQueue<T>();
      new;
      other.resource := left;
      list.TakeFrom(other.list);
    }

    /** `emplace`: takes a node from the resource and links it, or reports that there is
        none. */
    method EmplaceNode(v: Slot<T>) returns (ok: bool)
      requires v != Raw && memory.Valid() && Valid() && resource.Some?
      modifies list, memory, if list.back == null then {} else {list.back}
      ensures memory.Valid() && Valid()
      ensures ok <==> memory.grants(Id(), old(memory.Asked(Id())))
      ensures memory.requests == old(memory.requests[Id() := memory.Asked(Id()) + 1])
      ensures !ok ==> unchanged(list) && memory.log == old(memory.log)
      ensures ok ==>
                && |list.chain| == |old(list.chain)| + 1 && fresh(list.chain[|old(list.chain)|])
                && list.chain == old(list.chain) + [list.chain[|old(list.chain)|]]
                && list.vals == old(list.vals) + [v]
                && memory.log == old(memory.log) + [Allocated(list.chain[|old(list.chain)|], Id())]
    {
      var r := memory.Allocate(resource.value);
      if r.None? { return false; }
      OwnsMore(old(memory.log), list.chain, resource.value, r.value);
      list.Emplace(r.value, v);
      ok := true;
    }

    /** `pop_`: the front value; its node goes back to the resource. */
    method PopNode() returns (v: Slot<T>)
      requires memory.Valid() && Valid() && list.chain != []
      modifies list, memory`log, list.chain[0]
      ensures memory.Valid() && Valid()
      ensures v == old(list.vals[0]) && list.vals == old(list.vals[1..])
      ensures list.chain == old(list.chain[1..])
      ensures memory.log == old(memory.log) + [Freed(old(list.chain[0]), Id())]
    {
      var r := list.Pop();
      var node := r.value;
      v := node.val;
      node.val := MovedFrom;
      node.val := Raw;
      memory.Deallocate(resource.value, node);
      OwnsLess(old(memory.log), old(list.chain), resource.value);
    }

    /** `clear`: every value is destroyed and every node goes back, front to back. */
    method Clear()
      requires memory.Valid() && Valid()
      modifies list, memory`log, list.chain
      ensures memory.Valid() && Valid() && list.chain == [] && list.vals == []
      ensures memory.log == old(memory.log) + Frees(old(list.chain), Id())
    {
      ghost var id, chain := Id(), list.chain;
      ghost var log := memory.log + Frees(list.chain, id);
      while list.front != null
        invariant memory.Valid() && Valid()
        invariant memory.log + Frees(list.chain, id) == log
        invariant forall i :: 0 <= i < |list.chain| ==> list.chain[i] in chain
        decreases |list.chain|
      {
        FreesFirst(memory.log, list.chain, id);
        var _ := PopNode();
      }
    }

    /** All this queue holds was built since the memory was as given, one grant a node. */
    ghost predicate Building(log: seq<Entry<T>>, asked: nat)
      reads this, list, memory
    {
      && memory.log == log + Allocs(list.chain, Id())
      && memory.Asked(Id()) == asked + |list.chain|
      && AllGranted(memory.grants, Id(), asked, |list.chain|)
    }

    /** What was built has all gone back, because the next request failed. */
    ghost predicate Undone(log: seq<Entry<T>>, asked: nat, built: seq<Node<T>>)
      reads this, list, memory
    {
      && list.chain == [] && list.vals == []
      && memory.log == log + Allocs(built, Id()) + Frees(built, Id())
      && !memory.grants(Id(), asked + |built|)
    }

    /** `emplace_unchecked` inside the copying loops, with their handler. */
    method EmplaceOrClear(v: Slot<T>, ghost log: seq<Entry<T>>, ghost asked: nat)
      returns (ok: bool, ghost built: seq<Node<T>>)
      requires v != Raw && memory.Valid() && Valid() && resource.Some? && Building(log, asked)
      modifies list, memory, list.chain
      ensures memory.Valid() && Valid()
      ensures ok ==>
                && Building(log, asked) && built == list.chain
                && |built| == |old(list.chain)| + 1 && fresh(built[|old(list.chain)|])
                && built == old(list.chain) + [built[|old(list.chain)|]]
                && list.vals == old(list.vals) + [v]
      ensures !ok ==> Undone(log, asked, built) && built == old(list.chain)
    {
      built := list.chain;
      ok := EmplaceNode(v);
      if ok {
        AllocsOneMore(built, list.chain[|built|], Id());
        built := list.chain;
      } else {
        Clear();
      }
    }

    /** `copy_from_`: a copy of every value of `other`, in order, in nodes from this queue's
        resource; when one cannot be had, what was built goes back. `built` are the nodes
        obtained. */
    method CopyFrom(other: Queue<T>) returns (ok: bool, ghost built: seq<Node<T>>)
      requires memory.Valid() && Valid() && list.chain == [] && resource.Some?
      requires other.list.Valid() && other.list != list
      modifies list, memory
      ensures memory.Valid() && Valid()
      ensures ok ==>
                && list.vals == other.list.vals && list.chain == built && (forall i :: 0 <= i < |built| ==> fresh(built[i]))
                && Building(old(memory.log), old(memory.Asked(Id())))
      ensures !ok ==>
                && Undone(old(memory.log), old(memory.Asked(Id())), built) && |built| < |other.list.vals|
    {
      ghost var log, asked, source, vals := memory.log, memory.Asked(Id()), other.list.chain, other.list.vals;
      built := [];
      ok := true;
      var node := other.list.front;
      while node != null
        invariant memory.Valid() && Valid() && ok && Building(log, asked)
        invariant built == list.chain && (forall i :: 0 <= i < |built| ==> fresh(built[i])) && |built| <= |source|
        invariant list.vals == vals[..|built|]
        invariant node == if |built| < |source| then source[|built|] else null
        decreases |source| - |built|
      {
        LinkAt(source, |built|);
        ok, built := EmplaceOrClear(node.val, log, asked);
        if !ok { return; }
        node := node.next;
      }
    }

    /** The value of node `k` of `other` goes into a new node here. */
    method MoveNode(other: Queue<T>, node: Node<T>, ghost k: nat, ghost log: seq<Entry<T>>, ghost asked: nat)
      returns (ok: bool, ghost built: seq<Node<T>>)
      requires memory.Valid() && Valid() && resource.Some? && Building(log, asked)
      requires other.list.Valid() && other.list != list && k < |other.list.chain| && node == other.list.chain[k]
      requires forall i :: 0 <= i < |list.chain| ==> list.chain[i] !in other.list.chain
      modifies list, memory, list.chain, node`val, other.list`vals
      ensures memory.Valid() && Valid() && other.list.Valid()
      ensures ok ==>
                && Building(log, asked) && built == list.chain
                && |built| == |old(list.chain)| + 1 && fresh(built[|old(list.chain)|])
                && built == old(list.chain) + [built[|old(list.chain)|]]
                && list.vals == old(list.vals) + [old(other.list.vals[k])]
                && other.list.vals == old(other.list.vals)[k := MovedFrom]
      ensures !ok ==> Undone(log, asked, built) && built == old(list.chain) && other.list.vals == old(other.list.vals)
    {
      ok, built := EmplaceOrClear(node.val, log, asked);
      if ok { other.list.MoveOut(node, k); }
    }

    /** The first `k` of the values `other` held are here, the others still there. */
    ghost predicate Moving(other: Queue<T>, source: seq<Node<T>>, vals: seq<Slot<T>>, k: nat)
      reads list, other.list
    {
      && k <= |vals| == |source| && |list.chain| == k && other.list.chain == source
      && list.vals == vals[..k] && other.list.vals == Hollowed(vals, k)
    }

    /** One round of `move_from_`: the value of node `k` of `other` goes into a new node. */
    method MoveOne(other: Queue<T>, node: Node<T>, ghost k: nat, ghost source: seq<Node<T>>,
                   ghost vals: seq<Slot<T>>, ghost log: seq<Entry<T>>, ghost asked: nat)
      returns (ok: bool, ghost built: seq<Node<T>>)
      requires memory.Valid() && Valid() && resource.Some? && Building(log, asked)
      requires other.list.Valid() && other.list != list
      requires Moving(other, source, vals, k) && k < |source| && node == source[k]
      requires forall i :: 0 <= i < k ==> list.chain[i] !in source
      modifies list, memory, list.chain, node`val, other.list`vals
      ensures memory.Valid() && Valid() && other.list.Valid()
      ensures ok ==>
                && Building(log, asked) && built == list.chain && Moving(other, source, vals, k + 1)
                && built == old(list.chain) + [built[k]] && fresh(built[k])
      ensures !ok ==> Undone(log, asked, built) && built == old(list.chain) && other.list.vals == old(other.list.vals)
    {
      HollowedAt(vals, k, k);
      ok, built := MoveNode(other, node, k, log, asked);
      assert vals[..k] + [vals[k]] == vals[..k + 1];
    }

    /** `move_from_`: as `CopyFrom`, but each value is moved out of `other`, whose nodes and
        resource are left alone; values moved before a failure are lost. */
    method MoveFrom(other: Queue<T>) returns (ok: bool, ghost built: seq<Node<T>>)
      requires memory.Valid() && Valid() && list.chain == [] && resource.Some?
      requires other.list.Valid() && other.list != list
      modifies list, memory, other.list`vals, other.list.chain
      ensures memory.Valid() && Valid() && other.list.Valid()
      ensures ok ==>
                && list.vals == old(other.list.vals) && list.chain == built
                && (forall i :: 0 <= i < |built| ==> fresh(built[i]))
                && Building(old(memory.log), old(memory.Asked(Id())))
      ensures !ok ==> Undone(old(memory.log), old(memory.Asked(Id())), built)
      ensures |built| <= |old(other.list.vals)| && (!ok ==> |built| < |old(other.list.vals)|)
      ensures other.list.vals == Hollowed(old(other.list.vals), |built|)
    {
      ghost var log, asked, source, vals := memory.log, memory.Asked(Id()), other.list.chain, other.list.vals;
      built := [];
      ok := true;
      var node := other.list.front;
      while node != null
        invariant memory.Valid() && Valid() && ok && Building(log, asked) && other.list.Valid()
        invariant built == list.chain && Moving(other, source, vals, |built|)
        invariant forall i :: 0 <= i < |built| ==> fresh(built[i])
        invariant node == if |built| < |source| then source[|built|] else null
        decreases |source| - |built|
      {
        LinkAt(source, |built|);
        ok, built := MoveOne(other, node, |built|, source, vals, log, asked);
        if !ok { return; }
        node := node.next;
      }
    }

    /** `move_other_into_`: when the resources are interoperable the whole chain is taken over,
        otherwise the values are moved into new nodes. */
    method MoveOtherInto(other: Queue<T>) returns (ok: bool, ghost built: seq<Node<T>>)
      requires memory.Valid() && Valid() && list.chain == [] && resource.Some?
      requires other.memory == memory && other.Valid() && other.list != list
      modifies list, memory, other.list, other.list.chain
      ensures memory.Valid() && Valid() && other.Valid()
      ensures ok ==> list.vals == old(other.list.vals)
      ensures Interoperable(old(other.list.chain), other) ==>
                && ok && list.chain == old(other.list.chain) && memory.log == old(memory.log)
                && memory.requests == old(memory.requests) && other.list.chain == []
      ensures !Interoperable(old(other.list.chain), other) ==>
                && other.list.chain == old(other.list.chain) && |built| <= |old(other.list.vals)|
                && other.list.vals == Hollowed(old(other.list.vals), |built|)
                && (ok ==> list.chain == built && (forall i :: 0 <= i < |built| ==> fresh(built[i])) && |built| == |old(other.list.chain)| &&
                           Building(old(memory.log), old(memory.Asked(Id()))))
                && (!ok ==> Undone(old(memory.log), old(memory.Asked(Id())), built) &&
                            |built| < |old(other.list.chain)|)
    {
      if other.list.front != null && memory.reports(resource.value, other.resource.value) {
        FreesNothing<T>(memory.log, Id());
        Clear();
        list.TakeFrom(other.list);
        return true, [];
      }
      ok, built := MoveFrom(other);
      if !ok { ReplayPrefix(old(memory.log) + Allocs(built, Id()), Frees(built, Id())); }
      OwnsStays(old(memory.log), other.list.chain, other.resource, built, Id());
    }

    /** There is something to take, and this queue's resource, asked about the other's, says
        that it is interoperable. */
    ghost predicate Interoperable(chain: seq<Node<T>>, other: Queue<T>)
      reads this, other
    {
      chain != [] && resource.Some? && other.resource.Some? && memory.reports(resource.value, other.resource.value)
    }

    /** Copy assignment, also across resource types (`copy_assign_`): this queue's nodes go
        back, then the values are copied into nodes from the same resource. */
    method CopyAssign(other: Queue<T>) returns (ok: bool, ghost built: seq<Node<T>>)
      requires memory.Valid() && Valid() && resource.Some?
      requires other == this || (other.list.Valid() && other.list != list)
      requires forall i :: 0 <= i < |list.chain| ==> other == this || list.chain[i] !in other.list.chain
      modifies list, memory, list.chain
      ensures memory.Valid() && Valid()
      ensures other == this ==> ok && unchanged(list) && unchanged(memory)
      ensures other != this ==>
                && (forall i :: 0 <= i < |list.chain| ==> fresh(list.chain[i]))
                && (ok ==>
                      && list.vals == other.list.vals && list.chain == built
                      && Building(old(memory.log) + Frees(old(list.chain), Id()), old(memory.Asked(Id()))))
                && (!ok ==>
                      Undone(old(memory.log) + Frees(old(list.chain), Id()), old(memory.Asked(Id())), built))
    {
      if this == other { return true, []; }
      Clear();
      ok, built := CopyFrom(other);
    }

    /** Move assignment between queues of one type: this queue's nodes go back to its own
        resource, then it takes the source's nodes and resource; `left` is what the move leaves
        of the source's resource. */
    method MoveAssign(other: Queue<T>, left: Option<nat>)
      requires memory.Valid() && Valid() && other.memory == memory
      requires other == this || (other.Valid() && other.list != list)
      requires forall i :: 0 <= i < |list.chain| ==> other == this || list.chain[i] !in other.list.chain
      modifies this`resource, list, memory`log, list.chain, other`resource, other.list
      ensures memory.Valid() && Valid() && other.Valid()
      ensures other == this ==> unchanged(this) && unchanged(list) && unchanged(memory)
      ensures other != this ==>
                && list.chain == old(other.list.chain) && list.vals == old(other.list.vals)
                && resource == old(other.resource) && other.resource == left && other.list.chain == []
                && memory.log == old(memory.log) + Frees(old(list.chain), old(Id()))
    {
      if this != other {
        OwnsAfterFrees(memory.log, other.list.chain, other.resource, list.chain, Id());
        Clear();
        resource, other.resource := other.resource, left;
        list.TakeFrom(other.list);
      }
    }

    /** Move assignment across resource types (`move_assign_`). */
    method CrossMoveAssign(other: Queue<T>) returns (ok: bool, ghost built: seq<Node<T>>)
      requires memory.Valid() && Valid() && resource.Some?
      requires other.memory == memory && other.Valid() && other.list != list
      requires forall i :: 0 <= i < |list.chain| ==> list.chain[i] !in other.list.chain
      modifies list, memory, list.chain, other.list, other.list.chain
      ensures memory.Valid() && Valid() && other.Valid()
      ensures ok ==> list.vals == old(other.list.vals)
      ensures var log := old(memory.log) + Frees(old(list.chain), Id());
              Interoperable(old(other.list.chain), other) ==>
                && ok && list.chain == old(other.list.chain) && memory.log == log
                && memory.requests == old(memory.requests) && other.list.chain == []
      ensures var log := old(memory.log) + Frees(old(list.chain), Id());
              !Interoperable(old(other.list.chain), other) ==>
                && other.list.chain == old(other.list.chain) && |built| <= |old(other.list.vals)|
                && other.list.vals == Hollowed(old(other.list.vals), |built|)
                && (ok ==> list.chain == built && (forall i :: 0 <= i < |built| ==> fresh(built[i])) &&
                           |built| == |old(other.list.chain)| && Building(log, old(memory.Asked(Id()))))
                && (!ok ==> Undone(log, old(memory.Asked(Id())), built) && |built| < |old(other.list.chain)|)
    {
      OwnsAfterFrees(memory.log, other.list.chain, other.resource, list.chain, Id());
      Clear();
      ok, built := MoveOtherInto(other);
    }
  }

  /** A queue of two values over resource 0 of a new memory. */
  method TwoValues<T>(memory: Memory<T>, a: T, b: T) returns (q: Queue<T>)
    requires memory.Valid() && memory.Asked(1) == 0
    requires forall k :: memory.grants(0, k)
    modifies memory
    ensures memory.Valid() && memory.Asked(1) == 0
    ensures fresh(q) && fresh(q.list) && q.memory == memory && q.Valid() && q.resource == Some(0)
    ensures q.list.vals == [Live(a), Live(b)]
    ensures forall i :: 0 <= i < |q.list.chain| ==> fresh(q.list.chain[i])
  {
    q := new Queue<T>(memory, Some(0));
    var first := q.EmplaceNode(Live(a));
    var second := q.EmplaceNode(Live(b));
  }

  /** Of two values, with one node to be had, a move takes the first. */
  method MoveWithOneNode<T>(target: Queue<T>, source: Queue<T>) returns (ok: bool)
    requires target.memory.Valid() && target.Valid() && target.list.chain == [] && target.resource == Some(1)
    requires source.list.Valid() && source.list != target.list && |source.list.vals| == 2
    requires target.memory.Asked(1) == 0 && target.memory.grants(1, 0) && !target.memory.grants(1, 1)
    modifies target.list, target.memory, source.list`vals, source.list.chain
    ensures !ok && target.list.vals == []
    ensures source.list.vals == Hollowed(old(source.list.vals), 1)
  {
    ghost var built;
    ok, built := target.MoveFrom(source);
  }

  /** A move that fails midway loses what it has moved: of two values, with one node to be had,
      the first is gone from both queues. */
  method FailedMoveLosesValue<T>(a: T, b: T) returns (source: Queue<T>, target: Queue<T>, ok: bool)
    ensures !ok && target.list.vals == [] && source.list.vals == [MovedFrom, Live(b)]
  {
    var memory := new Memory<T>((r, k) => r == 0 || k == 0, (r, k) => false);
    source := TwoValues(memory, a, b);
    target := new Queue<T>(memory, Some(1));
    ok := MoveWithOneNode(target, source);
    assert Hollowed([Live(a), Live(b)], 1) == [MovedFrom, Live(b)];
  }
}
