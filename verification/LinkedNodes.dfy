/** The heap nodes of the linked queue, the memory they come from, and the queue's shape. */
module LinkedNodes {
  import opened Options
  import opened Sequences
  import opened Storage

  class Node<T> {
    var next: Node?<T>
    var val: Slot<T>

    /** Storage without a value. */
    constructor ()
      ensures next == null && val == Raw
    {
      next, val := null, Raw;
    }
  }

  // ----- the history of a memory -----------------------------------------------------

  /** A node given out by, or given back to, the resource numbered `id`. */
  datatype Entry<T> = Allocated(node: Node<T>, id: nat) | Freed(node: Node<T>, id: nat)

  /** `live` are the nodes given out and not given back, with where they came from; `used`
      the nodes ever given out. */
  datatype Books<T> = Books(live: map<Node<T>, nat>, used: set<Node<T>>)

  /** Only a new node is given out and only a live node is taken back; whether by a resource
      that can is another matter. */
  ghost function Book<T>(b: Books<T>, e: Entry<T>): Option<Books<T>> {
    match e
    case Allocated(n, a) => if n !in b.used then Some(Books(b.live[n := a], b.used + {n})) else None
    case Freed(n, _) => if n in b.live then Some(b.(live := b.live - {n})) else None
  }

  ghost function Replay<T>(log: seq<Entry<T>>): Option<Books<T>> {
    if log == [] then Some(Books(map[], {}))
    else match Replay(log[..|log| - 1])
         case None => None
         case Some(b) => Book(b, log[|log| - 1])
  }

  /** The nodes given out and not given back, with where they came from. */
  ghost function LiveNodes<T>(log: seq<Entry<T>>): map<Node<T>, nat> {
    if Replay(log).Some? then Replay(log).value.live else map[]
  }

  ghost function Count<T>(log: seq<Entry<T>>, n: Node<T>, freed: bool): nat {
    if log == [] then 0
    else (if log[|log| - 1].node == n && log[|log| - 1].Freed? == freed then 1 else 0)
         + Count(log[..|log| - 1], n, freed)
  }

  /** In a legal history a node is given out at most once, and given back exactly once unless
      it is still live; and what is live was given out. */
  lemma {:induction false} FreedExactlyOnce<T>(log: seq<Entry<T>>, n: Node<T>)
    requires Replay(log).Some?
    ensures var b := Replay(log).value;
            && Count(log, n, false) == (if n in b.used then 1 else 0)
            && Count(log, n, true) + (if n in b.live then 1 else 0) == Count(log, n, false)
  {
    if log != [] { FreedExactlyOnce(log[..|log| - 1], n); }
  }

  /** What was never mentioned was never given out. */
  lemma {:induction false} UnmentionedIsUnused<T>(log: seq<Entry<T>>, n: Node<T>)
    requires Replay(log).Some? && forall i :: 0 <= i < |log| ==> log[i].node != n
    ensures n !in Replay(log).value.used
  {
    if log != [] { UnmentionedIsUnused(log[..|log| - 1], n); }
  }

  ghost function Allocs<T>(nodes: seq<Node<T>>, id: nat): (r: seq<Entry<T>>)
    ensures |r| == |nodes|
  {
    seq(|nodes|, i requires 0 <= i < |nodes| => Allocated(nodes[i], id))
  }

  ghost function Frees<T>(nodes: seq<Node<T>>, id: nat): (r: seq<Entry<T>>)
    ensures |r| == |nodes|
  {
    seq(|nodes|, i requires 0 <= i < |nodes| => Freed(nodes[i], id))
  }

  lemma AllocsOneMore<T>(nodes: seq<Node<T>>, n: Node<T>, id: nat)
    ensures Allocs(nodes + [n], id) == Allocs(nodes, id) + [Allocated(n, id)]
  {
  }

  /** Giving nodes back one by one, front to back, is giving them all back. */
  lemma FreesFirst<T>(log: seq<Entry<T>>, nodes: seq<Node<T>>, id: nat)
    requires nodes != []
    ensures (log + [Freed(nodes[0], id)]) + Frees(nodes[1..], id) == log + Frees(nodes, id)
  {
    assert Frees(nodes, id) == [Freed(nodes[0], id)] + Frees(nodes[1..], id);
  }

  lemma {:induction false} LiveIsUsed<T>(log: seq<Entry<T>>)
    requires Replay(log).Some?
    ensures LiveNodes(log).Keys <= Replay(log).value.used
  {
    if log != [] { LiveIsUsed(log[..|log| - 1]); }
  }

  /** Giving out new nodes disturbs no live one, nor does giving the new ones back. */
  lemma {:induction false} LiveStays<T>(log: seq<Entry<T>>, nodes: seq<Node<T>>, id: nat, n: Node<T>)
    requires n in LiveNodes(log) && Replay(log + Allocs(nodes, id)).Some?
    ensures n !in nodes
    ensures n in LiveNodes(log + Allocs(nodes, id))
    ensures LiveNodes(log + Allocs(nodes, id))[n] == LiveNodes(log)[n]
    decreases |nodes|
  {
    if nodes == [] {
      assert log + Allocs(nodes, id) == log;
    } else {
      var init, last := nodes[..|nodes| - 1], nodes[|nodes| - 1];
      var log' := log + Allocs(init, id);
      assert nodes == init + [last];
      AllocsOneMore(init, last, id);
      assert log + Allocs(nodes, id) == log' + [Allocated(last, id)];
      assert (log' + [Allocated(last, id)])[..|log'|] == log';
      LiveStays(log, init, id, n);
      LiveIsUsed(log');
    }
  }

  lemma FreesNothing<T>(log: seq<Entry<T>>, id: nat)
    ensures log + Frees([], id) == log
  {
  }

  lemma {:induction false} LiveAfterAllocs<T>(log: seq<Entry<T>>, nodes: seq<Node<T>>, id: nat)
    requires Replay(log).Some? && Replay(log + Allocs(nodes, id)).Some?
    ensures LiveNodes(log + Allocs(nodes, id)) == LiveNodes(log) + map n | n in nodes :: id
    decreases |nodes|
  {
    if nodes == [] {
      assert log + Allocs(nodes, id) == log;
    } else {
      var init, last := nodes[..|nodes| - 1], nodes[|nodes| - 1];
      var log' := log + Allocs(init, id);
      assert nodes == init + [last];
      AllocsOneMore(init, last, id);
      assert log + Allocs(nodes, id) == log' + [Allocated(last, id)];
      LiveAfterAllocs(log, init, id);
    }
  }

  lemma {:induction false} LiveAfterFrees<T>(log: seq<Entry<T>>, nodes: seq<Node<T>>, id: nat)
    requires Replay(log).Some? && Replay(log + Frees(nodes, id)).Some?
    ensures LiveNodes(log + Frees(nodes, id)) == LiveNodes(log) - NodeSet(nodes)
    decreases |nodes|
  {
    if nodes == [] {
      assert log + Frees(nodes, id) == log;
    } else {
      var init, last := nodes[..|nodes| - 1], nodes[|nodes| - 1];
      var log' := log + Frees(init, id);
      assert nodes == init + [last];
      assert log + Frees(nodes, id) == log' + [Freed(last, id)];
      LiveAfterFrees(log, init, id);
    }
  }

  // ----- the shape -------------------------------------------------------------------

  ghost function NodeSet<T>(chain: seq<Node<T>>): set<Node<T>> {
    set n | n in chain
  }

  /** Every node points at the one after it, the last at nothing. */
  ghost predicate Linked<T>(chain: seq<Node<T>>)
    reads chain
  {
    && (forall i :: 0 <= i < |chain| - 1 ==> chain[i].next == chain[i + 1])
    && (chain != [] ==> chain[|chain| - 1].next == null)
  }

  lemma LinkAt<T>(chain: seq<Node<T>>, i: nat)
    requires Linked(chain) && i < |chain|
    ensures chain[i].next == if i + 1 < |chain| then chain[i + 1] else null
  {
  }

  lemma LinkedTail<T>(chain: seq<Node<T>>)
    requires Linked(chain) && chain != []
    ensures Linked(chain[1..])
  {
    var rest := chain[1..];
    assert forall i :: 0 <= i < |rest| ==> rest[i] == chain[i + 1];
  }

  /** The queue adapter: the shape without the memory. */
  class LLQueue<T> {
    var front: Node?<T>
    var back: Node?<T>
    // the linked nodes and what is in them, front to back: values, or what a move left of one
    ghost var chain: seq<Node<T>>
    ghost var vals: seq<Slot<T>>

    ghost predicate Valid()
      reads this, chain
    {
      && Distinct(chain) && Linked(chain)
      && |vals| == |chain| && (forall i :: 0 <= i < |chain| ==> chain[i].val == vals[i] != Raw)
      && front == (if chain == [] then null else chain[0])
      && back == (if chain == [] then null else chain[|chain| - 1])
    }

    constructor ()
      ensures Valid() && chain == [] && vals == []
    {
      front, back, chain, vals := null, null, [], [];
    }

    /** Constructs a value in storage that is not linked here, and links it at the back. */
    method Emplace(node: Node<T>, v: Slot<T>)
      requires v != Raw && Valid() && node !in chain && node.val == Raw
      modifies this, node, if back == null then {} else {back}
      ensures Valid() && chain == old(chain) + [node] && vals == old(vals) + [v]
    {
      node.next, node.val := null, v;
      if back == null {
        front := node;
      } else {
        back.next := node;
      }
      back := node;
      chain, vals := chain + [node], vals + [v];
    }

    /** Unlinks the front node and hands it over with its value. */
    method Pop() returns (r: Option<Node<T>>)
      requires Valid()
      modifies this
      ensures Valid()
      ensures old(chain) == [] ==> r == None && chain == [] && vals == []
      ensures old(chain) != [] ==>
                && r == Some(old(chain[0])) && r.value.val == old(vals[0])
                && chain == old(chain[1..]) && vals == old(vals[1..])
    {
      if front == null { return None; }
      var node := front;
      LinkAt(chain, 0);
      LinkedTail(chain);
      front := node.next;
      if front == null { back := null; }
      chain, vals := chain[1..], vals[1..];
      r := Some(node);
    }

    /** The value in the `k`th node is moved out; its node stays linked. */
    method MoveOut(node: Node<T>, ghost k: nat)
      requires Valid() && k < |chain| && node == chain[k]
      modifies node`val, this`vals
      ensures Valid() && vals == old(vals)[k := MovedFrom]
    {
      node.val := MovedFrom;
      vals := vals[k := MovedFrom];
    }

    /** Takes over the chain of `other`, which is left empty. */
    method TakeFrom(other: LLQueue<T>)
      requires Valid() && other.Valid() && this != other && chain == []
      modifies this, other
      ensures Valid() && chain == old(other.chain) && vals == old(other.vals)
      ensures other.Valid() && other.chain == [] && other.vals == []
    {
      front, back, chain, vals := other.front, other.back, other.chain, other.vals;
      other.front, other.back, other.chain, other.vals := null, null, [], [];
    }
  }
}
