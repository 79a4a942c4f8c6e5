/** The dummy-headed linked queue for one consumer and one (SPSC) or many (MPSC) producers,
    as a machine: a producer publishes in two steps, so the chain can be broken for a while;
    the consumer moves the value of the second node back into the head and hands the head
    out. */
module ConcurrentList {
  import opened Options
  import opened Sequences
  import opened Storage

  type Tid = nat

  type Ref = nat

  datatype Kind = SingleProducer | MultiProducer

  /** A node. The producer of the value in it is history that travels with the value. */
  datatype Node<T> = Node(next: Option<Ref>, val: Slot<Entry<T>>)

  /** The next access of a thread inside `emplace`. */
  datatype Producer<T> =
    | Construct(node: Ref, v: T)
    | Exchange(node: Ref, v: T)      // MpBack::link
    | Store(prev: Ref, node: Ref)
    | StoreNext(node: Ref, v: T)     // SpBack::link
    | SetBack(node: Ref)
    | EmplaceDone(node: Ref)

  /** The next access of the consumer. */
  datatype Consumer =
    | Idle
    | PopLoadNext(head: Ref)
    | PopTake(head: Ref, next: Ref)
    | PopDestroy(head: Ref, next: Ref)
    | PopAdvance(head: Ref, next: Ref)
    | PopDone(result: Option<Ref>)

  /** A pushed value and who pushed it. */
  datatype Entry<T> = Entry(who: Tid, v: T)

  /** `client` are the nodes in callers' hands. The rest is history: the linked nodes in the
      order their producers took the tail, the producer that still has to link each broken
      place, the producer preparing each unlinked node, and what was pushed and popped. */
  datatype State<T> = State(
    kind: Kind,
    nodes: map<Ref, Node<T>>,
    front: Option<Ref>,
    back: Option<Ref>,
    producers: map<Tid, Producer<T>>,
    consumer: Consumer,
    client: set<Ref>,
    chain: seq<Ref>,
    linker: map<Ref, Tid>,
    writer: map<Ref, Tid>,
    pushed: seq<Entry<T>>,
    popped: seq<Entry<T>>)

  /** `Skeleton(storage)`: the first node is the spare head, all other storage is the
      callers'. */
  function Init<T>(kind: Kind, spare: Ref, others: set<Ref>): State<T>
    requires spare !in others
  {
    State(kind, map r | r in others + {spare} :: Node(None, Raw), Some(spare), Some(spare),
          map[], Idle, others, [spare], map[], map[], [], [])
  }

  // ----- the steps ------------------------------------------------------------------

  function StepProducer<T>(s: State<T>, t: Tid): State<T>
    requires t in s.producers
  {
    match s.producers[t]
    case Construct(node, v) =>
      s.(nodes := s.nodes[node := Node(None, Live(Entry(t, v)))],
         producers := s.producers[t := if s.kind.MultiProducer? then Exchange(node, v)
                                       else StoreNext(node, v)])
    case Exchange(node, v) =>
      if s.back.Some? then
        var prev := s.back.value;
        s.(back := Some(node),
           producers := s.producers[t := Store(prev, node)],
           chain := s.chain + [node], linker := s.linker[prev := t], writer := s.writer - {node},
           pushed := s.pushed + [Entry(t, v)])
      else s
    case Store(prev, node) =>
      if prev in s.nodes then
        s.(nodes := s.nodes[prev := s.nodes[prev].(next := Some(node))],
           producers := s.producers[t := EmplaceDone(node)],
           linker := s.linker - {prev})
      else s
    case StoreNext(node, v) =>
      if s.back.Some? && s.back.value in s.nodes then
        var prev := s.back.value;
        s.(nodes := s.nodes[prev := s.nodes[prev].(next := Some(node))],
           producers := s.producers[t := SetBack(node)],
           chain := s.chain + [node], writer := s.writer - {node},
           pushed := s.pushed + [Entry(t, v)])
      else s
    case SetBack(node) =>
      s.(back := Some(node), producers := s.producers[t := EmplaceDone(node)])
    case EmplaceDone(_) => s
  }

  function StepConsumer<T>(s: State<T>): State<T> {
    match s.consumer
    case PopLoadNext(head) =>
      if head in s.nodes then
        s.(consumer := match s.nodes[head].next
                       case None => PopDone(None)
                       case Some(next) => PopTake(head, next))
      else s
    case PopTake(head, next) =>
      if head in s.nodes && next in s.nodes && s.nodes[next].val.Live? then
        var v := s.nodes[next].val.val;
        s.(nodes := s.nodes[head := s.nodes[head].(val := Live(v))]
                           [next := s.nodes[next].(val := MovedFrom)],
           consumer := PopDestroy(head, next))
      else s
    case PopDestroy(head, next) =>
      if next in s.nodes then
        s.(nodes := s.nodes[next := s.nodes[next].(val := Raw)], consumer := PopAdvance(head, next))
      else s
    case PopAdvance(head, next) =>
      s.(front := Some(next), consumer := PopDone(Some(head)),
         chain := if s.chain == [] then [] else s.chain[1..],
         popped := if head in s.nodes && s.nodes[head].val.Live? then s.popped + [s.nodes[head].val.val]
                   else s.popped)
    case _ => s
  }

  datatype Event<T> =
    | CallEmplace(t: Tid, node: Ref, v: T)
    | AdvanceProducer(t: Tid)
    | ReturnEmplace(t: Tid)
    | CallPop
    | AdvanceConsumer
    | ReturnPop
    | PopSpare

  /** Callers emplace only into storage of their own, an SPSC queue has one producer at a time,
      and the spare is popped by a lone caller from a queue that reports itself empty. */
  predicate Enabled<T>(s: State<T>, e: Event<T>) {
    match e
    case CallEmplace(t, node, _) =>
      s.front.Some? && t !in s.producers && node in s.client &&
      (s.kind.SingleProducer? ==> s.producers == map[])
    case AdvanceProducer(t) => t in s.producers && !s.producers[t].EmplaceDone?
    case ReturnEmplace(t) => t in s.producers && s.producers[t].EmplaceDone?
    case CallPop => s.front.Some? && s.consumer.Idle?
    case AdvanceConsumer => !s.consumer.Idle? && !s.consumer.PopDone?
    case ReturnPop => s.consumer.PopDone?
    case PopSpare =>
      s.front.Some? && s.consumer.Idle? && s.producers == map[] &&
      s.front.value in s.nodes && s.nodes[s.front.value].next.None?
  }

  function Apply<T>(s: State<T>, e: Event<T>): State<T>
    requires Enabled(s, e)
  {
    match e
    case CallEmplace(t, node, v) =>
      s.(producers := s.producers[t := Construct(node, v)], client := s.client - {node},
         writer := s.writer[node := t])
    case AdvanceProducer(t) => StepProducer(s, t)
    case ReturnEmplace(t) => s.(producers := s.producers - {t})
    case CallPop => s.(consumer := PopLoadNext(s.front.value))
    case AdvanceConsumer => StepConsumer(s)
    case ReturnPop =>
      s.(consumer := Idle,
         client := s.client + (if s.consumer.result.Some? then {s.consumer.result.value} else {}))
    case PopSpare =>
      s.(front := None, back := None, client := s.client + {s.front.value}, chain := [])
  }

  predicate Feasible<T>(s: State<T>, es: seq<Event<T>>)
    decreases |es|
  {
    es == [] || (Enabled(s, es[0]) && Feasible(Apply(s, es[0]), es[1..]))
  }

  function Exec<T>(s: State<T>, es: seq<Event<T>>): State<T>
    requires Feasible(s, es)
    decreases |es|
  {
    if es == [] then s else Exec(Apply(s, es[0]), es[1..])
  }

  // ----- the invariant --------------------------------------------------------------

  /** Every link of the chain is in place except where a producer still has to store it. */
  ghost predicate Chained<T>(nodes: map<Ref, Node<T>>, chain: seq<Ref>, linker: map<Ref, Tid>,
                             producers: map<Tid, Producer<T>>) {
    && Distinct(chain)
    && (forall i :: 0 <= i < |chain| ==> chain[i] in nodes)
    && (forall i :: 0 <= i < |chain| ==> nodes[chain[i]].next == NextOf(chain, linker, i))
    && (forall i :: 0 <= i < |chain| ==> PendingOk(chain, linker, producers, i))
    && (forall r <- linker :: r in chain)
    && (forall t <- producers :: producers[t].Store? ==>
          producers[t].prev in linker && linker[producers[t].prev] == t)
  }

  /** The producer that has to store the link after the `i`th node is about to do so. */
  ghost predicate PendingOk<T>(chain: seq<Ref>, linker: map<Ref, Tid>, producers: map<Tid, Producer<T>>,
                               i: nat)
    requires i < |chain|
  {
    chain[i] in linker ==>
      && i + 1 < |chain|
      && linker[chain[i]] in producers
      && producers[linker[chain[i]]] == Store(chain[i], chain[i + 1])
  }

  /** The next pointer of the `i`th linked node. */
  ghost function NextOf(chain: seq<Ref>, linker: map<Ref, Tid>, i: nat): Option<Ref>
    requires i < |chain|
  {
    if i + 1 == |chain| || chain[i] in linker then None else Some(chain[i + 1])
  }

  /** The node a producer prepares and has not linked. */
  function Prepares<T>(p: Producer<T>): Option<Ref> {
    match p
    case Construct(node, _) => Some(node)
    case Exchange(node, _) => Some(node)
    case StoreNext(node, _) => Some(node)
    case _ => None
  }

  /** The popped node the consumer is about to return. */
  function Returns(c: Consumer): set<Ref> {
    if c.PopDone? && c.result.Some? then {c.result.value} else {}
  }

  /** Every node is linked, or a caller's, or being prepared, or being returned; never two. */
  ghost predicate Owned<T>(s: State<T>) {
    && (forall r <- s.nodes :: r in s.chain || r in s.client || r in s.writer || r in Returns(s.consumer))
    && s.client <= s.nodes.Keys && s.writer.Keys <= s.nodes.Keys && Returns(s.consumer) <= s.nodes.Keys
    && (forall r <- s.chain :: r !in s.client && r !in s.writer && r !in Returns(s.consumer))
    && s.client !! s.writer.Keys
    && s.client !! Returns(s.consumer)
    && s.writer.Keys !! Returns(s.consumer)
    && (forall r <- s.writer :: s.writer[r] in s.producers && Prepares(s.producers[s.writer[r]]) == Some(r))
    && (forall t <- s.producers :: Prepares(s.producers[t]).Some? ==>
          Prepares(s.producers[t]).value in s.writer && s.writer[Prepares(s.producers[t]).value] == t)
  }

  /** What a producer's program counter says. */
  ghost predicate ProducerOk<T>(kind: Kind, nodes: map<Ref, Node<T>>, chain: seq<Ref>, t: Tid, p: Producer<T>) {
    match p
    case Construct(_, _) => true
    case Exchange(node, v) => kind.MultiProducer? && node in nodes && nodes[node] == Node(None, Live(Entry(t, v)))
    case Store(_, _) => kind.MultiProducer?
    case StoreNext(node, v) => kind.SingleProducer? && node in nodes && nodes[node] == Node(None, Live(Entry(t, v)))
    case SetBack(node) => kind.SingleProducer? && chain != [] && node == chain[|chain| - 1]
    case EmplaceDone(_) => true
  }

  /** The tail pointer is the last linked node, except in an SPSC queue between the store of
      the link and the update of the tail. */
  ghost predicate Ends<T>(s: State<T>) {
    && (s.front.None? <==> s.chain == [])
    && (s.front.None? ==> s.back.None? && s.producers == map[])
    && (s.front.Some? ==> s.front.value == s.chain[0])
    && (s.front.Some? && (forall t <- s.producers :: !s.producers[t].SetBack?) ==>
          s.back == Some(s.chain[|s.chain| - 1]))
    && (s.kind.SingleProducer? ==> forall t, u | t in s.producers && u in s.producers :: t == u)
  }

  /** The values of the linked nodes: all but the head hold a live value, in push order; the
      head holds none, except while the consumer is moving one into it. */
  ghost predicate Valued<T>(nodes: map<Ref, Node<T>>, chain: seq<Ref>, consumer: Consumer,
                            pushed: seq<Entry<T>>, popped: seq<Entry<T>>) {
    && popped <= pushed
    && (chain == [] ==> |pushed| == |popped|)
    && (chain != [] ==> |pushed| == |popped| + |chain| - 1)
    && (forall i :: 0 <= i < |chain| ==> chain[i] in nodes)
    && (forall i :: 2 <= i < |chain| ==> nodes[chain[i]].val == Live(pushed[|popped| + i - 1]))
    && (chain != [] ==> nodes[chain[0]].val == HeadSlot(consumer, pushed, popped))
    && (|chain| > 1 ==> nodes[chain[1]].val == SecondSlot(consumer, pushed, popped))
  }

  /** The head holds a value only between the move into it and its handing out. */
  ghost function HeadSlot<T>(consumer: Consumer, pushed: seq<Entry<T>>, popped: seq<Entry<T>>): Slot<Entry<T>> {
    if (consumer.PopDestroy? || consumer.PopAdvance?) && |popped| < |pushed|
    then Live(pushed[|popped|]) else Raw
  }

  /** The second node gives its value up in the same steps. */
  ghost function SecondSlot<T>(consumer: Consumer, pushed: seq<Entry<T>>, popped: seq<Entry<T>>): Slot<Entry<T>> {
    if consumer.PopDestroy? then MovedFrom
    else if consumer.PopAdvance? || |popped| >= |pushed| then Raw
    else Live(pushed[|popped|])
  }

  /** What the consumer's program counter says. */
  ghost predicate ConsumerOk<T>(s: State<T>) {
    match s.consumer
    case Idle => true
    case PopLoadNext(head) => s.chain != [] && head == s.chain[0]
    case PopTake(head, next) =>
      |s.chain| > 1 && head == s.chain[0] && next == s.chain[1] && head !in s.linker
    case PopDestroy(head, next) =>
      |s.chain| > 1 && head == s.chain[0] && next == s.chain[1] && head !in s.linker
    case PopAdvance(head, next) =>
      |s.chain| > 1 && head == s.chain[0] && next == s.chain[1] && head !in s.linker
    case PopDone(result) =>
      && s.front.Some?
      && (result.Some? ==>
            && result.value in s.nodes
            && s.popped != []
            && s.nodes[result.value].val == Live(s.popped[|s.popped| - 1]))
  }

  ghost predicate Inv<T>(s: State<T>) {
    && Chained(s.nodes, s.chain, s.linker, s.producers)
    && Owned(s)
    && (forall t <- s.producers :: ProducerOk(s.kind, s.nodes, s.chain, t, s.producers[t]))
    && Ends(s)
    && Valued(s.nodes, s.chain, s.consumer, s.pushed, s.popped)
    && ConsumerOk(s)
  }

  lemma InitInv<T>(kind: Kind, spare: Ref, others: set<Ref>)
    requires spare !in others
    ensures Inv(Init<T>(kind, spare, others))
  {
  }

  // ----- preservation, part by part -------------------------------------------------

  /** Changing nodes off the chain, values only on it, and producers that are not linking. */
  lemma ChainedFrame<T>(nodes: map<Ref, Node<T>>, chain: seq<Ref>, linker: map<Ref, Tid>,
                        producers: map<Tid, Producer<T>>, nodes': map<Ref, Node<T>>,
                        producers': map<Tid, Producer<T>>)
    requires Chained(nodes, chain, linker, producers)
    requires forall r <- chain :: r in nodes' && (r in nodes ==> nodes'[r].next == nodes[r].next)
    requires forall t <- producers :: producers[t].Store? ==> t in producers' && producers'[t] == producers[t]
    requires forall t <- producers' :: producers'[t].Store? ==> t in producers && producers'[t] == producers[t]
    ensures Chained(nodes', chain, linker, producers')
  {
    forall i | 0 <= i < |chain| ensures PendingOk(chain, linker, producers', i) {
      assert PendingOk(chain, linker, producers, i);
    }
  }

  /** Taking the tail: the chain grows past a link that is still to be stored. */
  lemma ChainedExchange<T>(nodes: map<Ref, Node<T>>, chain: seq<Ref>, linker: map<Ref, Tid>,
                           producers: map<Tid, Producer<T>>, t: Tid, node: Ref)
    requires Chained(nodes, chain, linker, producers) && chain != []
    requires t in producers && !producers[t].Store?
    requires node !in chain && node in nodes && nodes[node].next.None?
    ensures var prev := chain[|chain| - 1];
            Chained(nodes, chain + [node], linker[prev := t], producers[t := Store(prev, node)])
  {
    var prev := chain[|chain| - 1];
    var chain', linker' := chain + [node], linker[prev := t];
    var producers' := producers[t := Store(prev, node)];
    assert forall i :: 0 <= i < |chain| ==> chain'[i] == chain[i];
    assert PendingOk(chain, linker, producers, |chain| - 1);
    assert prev !in linker;
    forall i | 0 <= i < |chain'| ensures nodes[chain'[i]].next == NextOf(chain', linker', i) {
      if i < |chain| { assert nodes[chain[i]].next == NextOf(chain, linker, i); }
    }
    forall i | 0 <= i < |chain'| ensures PendingOk(chain', linker', producers', i) {
      if i < |chain| { assert PendingOk(chain, linker, producers, i); }
    }
  }

  /** Storing the link of a broken place. */
  lemma ChainedStore<T>(nodes: map<Ref, Node<T>>, chain: seq<Ref>, linker: map<Ref, Tid>,
                        producers: map<Tid, Producer<T>>, t: Tid)
    requires Chained(nodes, chain, linker, producers)
    requires t in producers && producers[t].Store?
    ensures var Store(prev, node) := producers[t];
            && prev in nodes && prev in chain && node in chain && prev in linker
            && Chained(nodes[prev := nodes[prev].(next := Some(node))], chain, linker - {prev},
                       producers[t := EmplaceDone(node)])
  {
    var Store(prev, node) := producers[t];
    var k :| 0 <= k < |chain| && chain[k] == prev;
    assert PendingOk(chain, linker, producers, k);
    var linker', producers' := linker - {prev}, producers[t := EmplaceDone(node)];
    forall i | 0 <= i < |chain| ensures PendingOk(chain, linker', producers', i) {
      assert PendingOk(chain, linker, producers, i);
    }
    StoredLinks(nodes, chain, linker, k, node);
  }

  /** The links after a store: the `k`th is mended, the others are as they were. */
  lemma StoredLinks<T>(nodes: map<Ref, Node<T>>, chain: seq<Ref>, linker: map<Ref, Tid>, k: nat, node: Ref)
    requires Distinct(chain) && k + 1 < |chain| && chain[k + 1] == node && chain[k] in linker
    requires forall i :: 0 <= i < |chain| ==> chain[i] in nodes
    requires forall i :: 0 <= i < |chain| ==> nodes[chain[i]].next == NextOf(chain, linker, i)
    ensures forall i :: 0 <= i < |chain| ==>
              nodes[chain[k] := nodes[chain[k]].(next := Some(node))][chain[i]].next
              == NextOf(chain, linker - {chain[k]}, i)
  {
    var nodes' := nodes[chain[k] := nodes[chain[k]].(next := Some(node))];
    forall i | 0 <= i < |chain| ensures nodes'[chain[i]].next == NextOf(chain, linker - {chain[k]}, i) {
      assert nodes[chain[i]].next == NextOf(chain, linker, i);
    }
  }

  /** Linking in one step. */
  lemma ChainedAppend<T>(nodes: map<Ref, Node<T>>, chain: seq<Ref>, linker: map<Ref, Tid>,
                         producers: map<Tid, Producer<T>>, t: Tid, node: Ref)
    requires Chained(nodes, chain, linker, producers) && chain != []
    requires t in producers && !producers[t].Store?
    requires node !in chain && node in nodes && nodes[node].next.None?
    ensures var prev := chain[|chain| - 1];
            Chained(nodes[prev := nodes[prev].(next := Some(node))], chain + [node], linker,
                    producers[t := SetBack(node)])
  {
    var prev := chain[|chain| - 1];
    var chain' := chain + [node];
    var nodes' := nodes[prev := nodes[prev].(next := Some(node))];
    var producers' := producers[t := SetBack(node)];
    assert PendingOk(chain, linker, producers, |chain| - 1);
    assert prev !in linker;
    forall i | 0 <= i < |chain'| ensures nodes'[chain'[i]].next == NextOf(chain', linker, i) {
      if i < |chain| { assert nodes[chain[i]].next == NextOf(chain, linker, i); }
    }
    forall i | 0 <= i < |chain'| ensures PendingOk(chain', linker, producers', i) {
      if i < |chain| { assert PendingOk(chain, linker, producers, i); }
    }
  }

  /** Dropping a head whose link is in place. */
  lemma ChainedPop<T>(nodes: map<Ref, Node<T>>, chain: seq<Ref>, linker: map<Ref, Tid>,
                      producers: map<Tid, Producer<T>>)
    requires Chained(nodes, chain, linker, producers) && |chain| > 1 && chain[0] !in linker
    ensures Chained(nodes, chain[1..], linker, producers)
  {
    var chain' := chain[1..];
    assert forall i :: 0 <= i < |chain'| ==> chain'[i] == chain[i + 1];
    forall i | 0 <= i < |chain'| ensures nodes[chain'[i]].next == NextOf(chain', linker, i) {
      assert nodes[chain[i + 1]].next == NextOf(chain, linker, i + 1);
    }
    forall r <- linker ensures r in chain' {
      var k :| 0 <= k < |chain| && chain[k] == r;
      assert chain'[k - 1] == r;
    }
    forall i | 0 <= i < |chain'| ensures PendingOk(chain', linker, producers, i) {
      assert PendingOk(chain, linker, producers, i + 1);
    }
  }

  /** Nobody's value changes. */
  lemma ValuedFrame<T>(nodes: map<Ref, Node<T>>, chain: seq<Ref>, consumer: Consumer,
                       pushed: seq<Entry<T>>, popped: seq<Entry<T>>, nodes': map<Ref, Node<T>>)
    requires Valued(nodes, chain, consumer, pushed, popped)
    requires forall r <- chain :: r in nodes' && (r in nodes ==> nodes'[r].val == nodes[r].val)
    ensures Valued(nodes', chain, consumer, pushed, popped)
  {
  }

  lemma ValuedAppend<T>(nodes: map<Ref, Node<T>>, chain: seq<Ref>, consumer: Consumer,
                        pushed: seq<Entry<T>>, popped: seq<Entry<T>>, node: Ref, e: Entry<T>)
    requires Valued(nodes, chain, consumer, pushed, popped) && chain != []
    requires node in nodes && nodes[node].val == Live(e)
    requires consumer.PopDestroy? || consumer.PopAdvance? ==> |chain| > 1
    ensures Valued(nodes, chain + [node], consumer, pushed + [e], popped)
  {
  }

  /** The consumer's facts survive a node being linked behind everything it looks at. */
  lemma LinkKeepsConsumer<T>(s: State<T>, s': State<T>, node: Ref)
    requires ConsumerOk(s) && Distinct(s.chain)
    requires s'.consumer == s.consumer && s'.chain == s.chain + [node]
    requires s'.popped == s.popped && s'.front == s.front
    requires forall r <- s.nodes :: r in s'.nodes && s'.nodes[r].val == s.nodes[r].val
    requires forall r <- s'.linker :: r in s.linker || (s.chain != [] && r == s.chain[|s.chain| - 1])
    ensures ConsumerOk(s')
  {
  }

  /** The other producers are not disturbed by a change to one's own node and the tail's
      next pointer. */
  lemma ProducersFrame<T>(s: State<T>, t: Tid, s': State<T>)
    requires forall u <- s.producers :: ProducerOk(s.kind, s.nodes, s.chain, u, s.producers[u])
    requires Owned(s) && s'.kind == s.kind
    requires s'.producers.Keys == s.producers.Keys
    requires forall u <- s.producers :: u != t ==> s'.producers[u] == s.producers[u]
    requires forall r <- s.writer :: s.writer[r] != t ==> r in s'.nodes && (r in s.nodes ==> s'.nodes[r] == s.nodes[r])
    requires s'.chain == s.chain || forall u <- s.producers :: u != t ==> !s.producers[u].SetBack?
    requires t in s'.producers ==> ProducerOk(s'.kind, s'.nodes, s'.chain, t, s'.producers[t])
    ensures forall u <- s'.producers :: ProducerOk(s'.kind, s'.nodes, s'.chain, u, s'.producers[u])
  {
    forall u <- s'.producers ensures ProducerOk(s'.kind, s'.nodes, s'.chain, u, s'.producers[u]) {
      if u != t {
        assert ProducerOk(s.kind, s.nodes, s.chain, u, s.producers[u]);
        assert Prepares(s.producers[u]).Some? ==> Prepares(s.producers[u]).value in s.writer;
      }
    }
  }

  lemma ConstructKeepsOwned<T>(s: State<T>, t: Tid)
    requires Owned(s) && t in s.producers && s.producers[t].Construct?
    ensures Owned(StepProducer(s, t))
    ensures s.producers[t].node in s.nodes && s.producers[t].node !in s.chain
  {
    assert Prepares(s.producers[t]) == Some(s.producers[t].node);
  }

  lemma ConstructKeepsInv<T>(s: State<T>, t: Tid)
    requires Inv(s) && t in s.producers && s.producers[t].Construct?
    ensures Inv(StepProducer(s, t))
  {
    var s' := StepProducer(s, t);
    var node := s.producers[t].node;
    ConstructKeepsOwned(s, t);
    ChainedFrame(s.nodes, s.chain, s.linker, s.producers, s'.nodes, s'.producers);
    ValuedFrame(s.nodes, s.chain, s.consumer, s.pushed, s.popped, s'.nodes);
    assert Prepares(s.producers[t]) == Some(node);
    ProducersFrame(s, t, s');
    assert node !in Returns(s.consumer);
  }

  /** Linking a node moves it from the producer's hands into the chain. */
  lemma LinkKeepsOwned<T>(s: State<T>, t: Tid, s': State<T>)
    requires Owned(s) && t in s.producers && Prepares(s.producers[t]).Some?
    requires var node := Prepares(s.producers[t]).value;
             && s'.nodes.Keys == s.nodes.Keys && s'.chain == s.chain + [node] && s'.client == s.client
             && s'.writer == s.writer - {node} && s'.consumer == s.consumer
             && s'.producers.Keys == s.producers.Keys
             && (forall u <- s.producers :: u != t ==> s'.producers[u] == s.producers[u])
             && Prepares(s'.producers[t]).None?
    ensures Owned(s')
    ensures Prepares(s.producers[t]).value !in s.chain && Prepares(s.producers[t]).value in s.nodes
  {
  }

  lemma ExchangeKeepsInv<T>(s: State<T>, t: Tid)
    requires Inv(s) && t in s.producers && s.producers[t].Exchange?
    ensures Inv(StepProducer(s, t))
  {
    var s' := StepProducer(s, t);
    var Exchange(node, v) := s.producers[t];
    assert ProducerOk(s.kind, s.nodes, s.chain, t, s.producers[t]);
    assert forall u <- s.producers :: ProducerOk(s.kind, s.nodes, s.chain, u, s.producers[u]) && !s.producers[u].SetBack?;
    assert s.back == Some(s.chain[|s.chain| - 1]);
    LinkKeepsOwned(s, t, s');
    ChainedExchange(s.nodes, s.chain, s.linker, s.producers, t, node);
    ValuedAppend(s.nodes, s.chain, s.consumer, s.pushed, s.popped, node, Entry(t, v));
    LinkKeepsConsumer(s, s', node);
    ProducersFrame(s, t, s');
  }

  /** Steps that change neither who owns which node nor what anyone prepares. */
  lemma NextStoreKeepsOwned<T>(s: State<T>, t: Tid, s': State<T>)
    requires Owned(s) && t in s.producers && Prepares(s.producers[t]).None?
    requires s'.nodes.Keys == s.nodes.Keys && s'.chain == s.chain && s'.client == s.client
    requires s'.writer == s.writer && s'.consumer == s.consumer
    requires s'.producers.Keys == s.producers.Keys && Prepares(s'.producers[t]).None?
    requires forall u <- s.producers :: u != t ==> s'.producers[u] == s.producers[u]
    ensures Owned(s')
  {
  }

  lemma StoreKeepsChain<T>(s: State<T>, t: Tid)
    requires Chained(s.nodes, s.chain, s.linker, s.producers) && Owned(s)
    requires t in s.producers && s.producers[t].Store?
    ensures var s' := StepProducer(s, t);
            && Chained(s'.nodes, s'.chain, s'.linker, s'.producers) && Owned(s')
            && s.producers[t].prev in s.chain && s.producers[t].prev in s.nodes
            && s' == s.(nodes := s'.nodes, producers := s'.producers, linker := s'.linker)
            && (forall r <- s.nodes :: r in s'.nodes && s'.nodes[r].val == s.nodes[r].val)
            && (forall r <- s.nodes :: r !in s.chain ==> s'.nodes[r] == s.nodes[r])
            && s'.producers == s.producers[t := EmplaceDone(s.producers[t].node)]
            && s'.linker.Keys <= s.linker.Keys
  {
    ChainedStore(s.nodes, s.chain, s.linker, s.producers, t);
    NextStoreKeepsOwned(s, t, StepProducer(s, t));
  }

  lemma StoreKeepsInv<T>(s: State<T>, t: Tid)
    requires Inv(s) && t in s.producers && s.producers[t].Store?
    ensures Inv(StepProducer(s, t))
  {
    var s' := StepProducer(s, t);
    StoreKeepsChain(s, t);
    ValuedFrame(s.nodes, s.chain, s.consumer, s.pushed, s.popped, s'.nodes);
    ProducersFrame(s, t, s');
  }

  lemma StoreNextKeepsChain<T>(s: State<T>, t: Tid)
    requires Chained(s.nodes, s.chain, s.linker, s.producers) && Owned(s) && s.chain != []
    requires t in s.producers && s.producers[t].StoreNext?
    requires s.back == Some(s.chain[|s.chain| - 1])
    requires s.producers[t].node in s.nodes && s.nodes[s.producers[t].node].next.None?
    ensures var s' := StepProducer(s, t);
            var StoreNext(node, v) := s.producers[t];
            && Chained(s'.nodes, s'.chain, s'.linker, s'.producers) && Owned(s')
            && s'.chain == s.chain + [node] && s'.pushed == s.pushed + [Entry(t, v)]
            && s' == s.(nodes := s'.nodes, producers := s'.producers, chain := s'.chain,
                        writer := s'.writer, pushed := s'.pushed)
            && (forall r <- s.nodes :: r in s'.nodes && s'.nodes[r].val == s.nodes[r].val)
            && (forall r <- s.nodes :: r !in s.chain ==> s'.nodes[r] == s.nodes[r])
            && s'.producers == s.producers[t := SetBack(node)]
  {
    assert s.back.value in s.nodes;
    LinkKeepsOwned(s, t, StepProducer(s, t));
    ChainedAppend(s.nodes, s.chain, s.linker, s.producers, t, s.producers[t].node);
  }

  lemma StoreNextKeepsValues<T>(s: State<T>, t: Tid, s': State<T>)
    requires Valued(s.nodes, s.chain, s.consumer, s.pushed, s.popped) && s.chain != []
    requires t in s.producers && s.producers[t].StoreNext?
    requires var StoreNext(node, v) := s.producers[t];
             && node in s.nodes && s.nodes[node].val == Live(Entry(t, v))
             && s'.chain == s.chain + [node] && s'.pushed == s.pushed + [Entry(t, v)]
             && s'.popped == s.popped && s'.consumer == s.consumer
    requires s.consumer.PopDestroy? || s.consumer.PopAdvance? ==> |s.chain| > 1
    requires forall r <- s.nodes :: r in s'.nodes && s'.nodes[r].val == s.nodes[r].val
    ensures Valued(s'.nodes, s'.chain, s'.consumer, s'.pushed, s'.popped)
  {
    var StoreNext(node, v) := s.producers[t];
    ValuedAppend(s.nodes, s.chain, s.consumer, s.pushed, s.popped, node, Entry(t, v));
    ValuedFrame(s.nodes, s'.chain, s.consumer, s'.pushed, s.popped, s'.nodes);
  }

  lemma StoreNextKeepsInv<T>(s: State<T>, t: Tid)
    requires Inv(s) && t in s.producers && s.producers[t].StoreNext?
    ensures Inv(StepProducer(s, t))
  {
    var s' := StepProducer(s, t);
    var StoreNext(node, v) := s.producers[t];
    assert ProducerOk(s.kind, s.nodes, s.chain, t, s.producers[t]);
    assert forall u <- s.producers :: u == t;
    StoreNextKeepsChain(s, t);
    StoreNextKeepsValues(s, t, s');
    LinkKeepsConsumer(s, s', node);
    ProducersFrame(s, t, s');
  }

  lemma SetBackKeepsInv<T>(s: State<T>, t: Tid)
    requires Inv(s) && t in s.producers && s.producers[t].SetBack?
    ensures Inv(StepProducer(s, t))
  {
    var s' := StepProducer(s, t);
    assert ProducerOk(s.kind, s.nodes, s.chain, t, s.producers[t]);
    ChainedFrame(s.nodes, s.chain, s.linker, s.producers, s'.nodes, s'.producers);
    ProducersFrame(s, t, s');
    NextStoreKeepsOwned(s, t, s');
  }

  lemma StepProducerKeepsInv<T>(s: State<T>, t: Tid)
    requires Inv(s) && t in s.producers
    ensures Inv(StepProducer(s, t))
  {
    match s.producers[t]
    case Construct(_, _) => ConstructKeepsInv(s, t);
    case Exchange(_, _) => ExchangeKeepsInv(s, t);
    case Store(_, _) => StoreKeepsInv(s, t);
    case StoreNext(_, _) => StoreNextKeepsInv(s, t);
    case SetBack(_) => SetBackKeepsInv(s, t);
    case EmplaceDone(_) =>
  }

  // ----- the consumer ---------------------------------------------------------------

  /** The consumer's steps before it hands the head out change only values in the chain. */
  lemma ConsumerFrame<T>(s: State<T>, s': State<T>)
    requires Chained(s.nodes, s.chain, s.linker, s.producers) && Owned(s)
    requires forall t <- s.producers :: ProducerOk(s.kind, s.nodes, s.chain, t, s.producers[t])
    requires s' == s.(nodes := s'.nodes, consumer := s'.consumer)
    requires s'.nodes.Keys == s.nodes.Keys
    requires forall r <- s.nodes :: s'.nodes[r].next == s.nodes[r].next
    requires forall r <- s.nodes :: r !in s.chain ==> s'.nodes[r] == s.nodes[r]
    requires Returns(s'.consumer) == Returns(s.consumer)
    ensures Chained(s'.nodes, s'.chain, s'.linker, s'.producers) && Owned(s')
    ensures forall t <- s'.producers :: ProducerOk(s'.kind, s'.nodes, s'.chain, t, s'.producers[t])
  {
    ChainedFrame(s.nodes, s.chain, s.linker, s.producers, s'.nodes, s'.producers);
    forall t <- s'.producers ensures ProducerOk(s'.kind, s'.nodes, s'.chain, t, s'.producers[t]) {
      assert ProducerOk(s.kind, s.nodes, s.chain, t, s.producers[t]);
      assert Prepares(s.producers[t]).Some? ==> Prepares(s.producers[t]).value in s.writer;
    }
  }

  /** The head's next pointer is null exactly when the chain ends there or its link is
      still to be stored. */
  lemma HeadLink<T>(s: State<T>)
    requires Chained(s.nodes, s.chain, s.linker, s.producers) && s.chain != []
    ensures s.chain[0] in s.nodes
    ensures s.nodes[s.chain[0]].next.None? <==> |s.chain| == 1 || s.chain[0] in s.linker
    ensures s.nodes[s.chain[0]].next.Some? ==> s.nodes[s.chain[0]].next.value == s.chain[1]
  {
    assert s.nodes[s.chain[0]].next == NextOf(s.chain, s.linker, 0);
  }

  /** Before it has touched a value the consumer's progress does not show in the nodes. */
  lemma ValuedBefore<T>(nodes: map<Ref, Node<T>>, chain: seq<Ref>, consumer: Consumer,
                        pushed: seq<Entry<T>>, popped: seq<Entry<T>>, consumer': Consumer)
    requires Valued(nodes, chain, consumer, pushed, popped)
    requires !consumer.PopDestroy? && !consumer.PopAdvance?
    requires !consumer'.PopDestroy? && !consumer'.PopAdvance?
    ensures Valued(nodes, chain, consumer', pushed, popped)
  {
  }

  lemma PopLoadNextKeepsInv<T>(s: State<T>)
    requires Inv(s) && s.consumer.PopLoadNext?
    ensures Inv(StepConsumer(s))
  {
    var s' := StepConsumer(s);
    HeadLink(s);
    ConsumerFrame(s, s');
    ValuedBefore(s.nodes, s.chain, s.consumer, s.pushed, s.popped, s'.consumer);
  }

  lemma TakeKeepsValues<T>(nodes: map<Ref, Node<T>>, chain: seq<Ref>, consumer: Consumer,
                           pushed: seq<Entry<T>>, popped: seq<Entry<T>>, consumer': Consumer)
    requires Valued(nodes, chain, consumer, pushed, popped) && Distinct(chain) && |chain| > 1
    requires consumer.PopTake? && consumer'.PopDestroy?
    ensures |popped| < |pushed| && nodes[chain[1]].val == Live(pushed[|popped|])
    ensures Valued(nodes[chain[0] := nodes[chain[0]].(val := Live(pushed[|popped|]))]
                        [chain[1] := nodes[chain[1]].(val := MovedFrom)],
                   chain, consumer', pushed, popped)
  {
    assert nodes[chain[1]].val == SecondSlot(consumer, pushed, popped);
  }

  lemma PopTakeStep<T>(s: State<T>)
    requires Chained(s.nodes, s.chain, s.linker, s.producers)
    requires Valued(s.nodes, s.chain, s.consumer, s.pushed, s.popped)
    requires s.consumer.PopTake? && ConsumerOk(s)
    ensures |s.popped| < |s.pushed| && s.chain[0] in s.nodes && s.chain[1] in s.nodes
    ensures StepConsumer(s) ==
            s.(nodes := s.nodes[s.chain[0] := s.nodes[s.chain[0]].(val := Live(s.pushed[|s.popped|]))]
                               [s.chain[1] := s.nodes[s.chain[1]].(val := MovedFrom)],
               consumer := PopDestroy(s.chain[0], s.chain[1]))
    ensures Valued(StepConsumer(s).nodes, s.chain, StepConsumer(s).consumer, s.pushed, s.popped)
    ensures ConsumerOk(StepConsumer(s)) && Returns(StepConsumer(s).consumer) == {}
    ensures var nodes' := StepConsumer(s).nodes;
            && nodes'.Keys == s.nodes.Keys
            && (forall r <- s.nodes :: nodes'[r].next == s.nodes[r].next)
            && (forall r <- s.nodes :: r !in s.chain ==> nodes'[r] == s.nodes[r])
  {
    TakeKeepsValues(s.nodes, s.chain, s.consumer, s.pushed, s.popped,
                    PopDestroy(s.consumer.head, s.consumer.next));
  }

  lemma PopTakeKeepsInv<T>(s: State<T>)
    requires Inv(s) && s.consumer.PopTake?
    ensures Inv(StepConsumer(s))
  {
    PopTakeStep(s);
    ConsumerFrame(s, StepConsumer(s));
  }

  lemma DestroyKeepsValues<T>(nodes: map<Ref, Node<T>>, chain: seq<Ref>, consumer: Consumer,
                              pushed: seq<Entry<T>>, popped: seq<Entry<T>>, consumer': Consumer)
    requires Valued(nodes, chain, consumer, pushed, popped) && Distinct(chain) && |chain| > 1
    requires consumer.PopDestroy? && consumer'.PopAdvance?
    ensures Valued(nodes[chain[1] := nodes[chain[1]].(val := Raw)], chain, consumer', pushed, popped)
  {
  }

  lemma PopDestroyKeepsInv<T>(s: State<T>)
    requires Inv(s) && s.consumer.PopDestroy?
    ensures Inv(StepConsumer(s))
  {
    assert s.chain[1] in s.nodes;
    DestroyKeepsValues(s.nodes, s.chain, s.consumer, s.pushed, s.popped,
                       PopAdvance(s.consumer.head, s.consumer.next));
    ConsumerFrame(s, StepConsumer(s));
  }

  lemma PopKeepsOwned<T>(s: State<T>, s': State<T>)
    requires Owned(s) && Distinct(s.chain) && |s.chain| > 1 && Returns(s.consumer) == {}
    requires s.chain[0] in s.nodes
    requires s'.nodes == s.nodes && s'.chain == s.chain[1..] && s'.client == s.client
    requires s'.writer == s.writer && s'.producers == s.producers
    requires Returns(s'.consumer) == {s.chain[0]}
    ensures Owned(s')
  {
    assert s.chain == [s.chain[0]] + s'.chain;
    assert s.chain[0] !in s'.chain by {
      assert forall i :: 0 <= i < |s'.chain| ==> s'.chain[i] == s.chain[i + 1];
    }
  }

  lemma PopKeepsValues<T>(nodes: map<Ref, Node<T>>, chain: seq<Ref>, consumer: Consumer,
                          pushed: seq<Entry<T>>, popped: seq<Entry<T>>, consumer': Consumer)
    requires Valued(nodes, chain, consumer, pushed, popped) && |chain| > 1
    requires consumer.PopAdvance? && consumer'.PopDone?
    ensures |popped| < |pushed| && nodes[chain[0]].val == Live(pushed[|popped|])
    ensures Valued(nodes, chain[1..], consumer', pushed, popped + [pushed[|popped|]])
  {
    var chain', popped' := chain[1..], popped + [pushed[|popped|]];
    assert forall i :: 0 <= i < |chain'| ==> chain'[i] == chain[i + 1];
  }

  lemma PopAdvanceKeepsInv<T>(s: State<T>)
    requires Inv(s) && s.consumer.PopAdvance?
    ensures Inv(StepConsumer(s))
  {
    var s' := StepConsumer(s);
    ChainedPop(s.nodes, s.chain, s.linker, s.producers);
    PopKeepsOwned(s, s');
    PopKeepsValues(s.nodes, s.chain, s.consumer, s.pushed, s.popped, s'.consumer);
    forall t <- s'.producers ensures ProducerOk(s'.kind, s'.nodes, s'.chain, t, s'.producers[t]) {
      assert ProducerOk(s.kind, s.nodes, s.chain, t, s.producers[t]);
    }
  }

  lemma StepConsumerKeepsInv<T>(s: State<T>)
    requires Inv(s)
    ensures Inv(StepConsumer(s))
  {
    match s.consumer
    case PopLoadNext(_) => PopLoadNextKeepsInv(s);
    case PopTake(_, _) => PopTakeKeepsInv(s);
    case PopDestroy(_, _) => PopDestroyKeepsInv(s);
    case PopAdvance(_, _) => PopAdvanceKeepsInv(s);
    case Idle =>
    case PopDone(_) =>
  }

  // ----- calls and returns ----------------------------------------------------------

  lemma CallEmplaceKeepsOwned<T>(s: State<T>, t: Tid, node: Ref, v: T)
    requires Owned(s) && Enabled(s, CallEmplace(t, node, v))
    ensures Owned(Apply(s, CallEmplace(t, node, v)))
  {
  }

  /** A producer that is not linking comes or goes: tail and other producers are as before. */
  lemma CallReturnKeepsEnds<T>(s: State<T>, t: Tid, s': State<T>)
    requires Ends(s) && forall u <- s.producers :: ProducerOk(s.kind, s.nodes, s.chain, u, s.producers[u])
    requires s'.kind == s.kind && s'.nodes == s.nodes && s'.chain == s.chain
    requires s'.front == s.front && s'.back == s.back
    requires forall u <- s'.producers :: u != t ==> u in s.producers && s'.producers[u] == s.producers[u]
    requires forall u <- s.producers :: u != t ==> u in s'.producers && s'.producers[u] == s.producers[u]
    requires t in s.producers ==> s.producers[t].EmplaceDone?
    requires t in s'.producers ==>
               s'.producers[t].Construct? && s.front.Some? &&
               (s.kind.SingleProducer? ==> s.producers == map[])
    ensures Ends(s') && forall u <- s'.producers :: ProducerOk(s'.kind, s'.nodes, s'.chain, u, s'.producers[u])
  {
    if s.front.None? {
      assert s'.producers == map[];
    } else if forall u <- s'.producers :: !s'.producers[u].SetBack? {
      assert forall u <- s.producers :: !s.producers[u].SetBack?;
    }
  }

  lemma CallEmplaceKeepsInv<T>(s: State<T>, t: Tid, node: Ref, v: T)
    requires Inv(s) && Enabled(s, CallEmplace(t, node, v))
    ensures Inv(Apply(s, CallEmplace(t, node, v)))
  {
    var s' := Apply(s, CallEmplace(t, node, v));
    CallEmplaceKeepsOwned(s, t, node, v);
    CallReturnKeepsEnds(s, t, s');
    ChainedFrame(s.nodes, s.chain, s.linker, s.producers, s'.nodes, s'.producers);
  }

  lemma ReturnEmplaceKeepsOwned<T>(s: State<T>, t: Tid)
    requires Owned(s) && Enabled(s, ReturnEmplace(t))
    ensures Owned(Apply(s, ReturnEmplace(t)))
  {
  }

  lemma ReturnEmplaceKeepsInv<T>(s: State<T>, t: Tid)
    requires Inv(s) && Enabled(s, ReturnEmplace(t))
    ensures Inv(Apply(s, ReturnEmplace(t)))
  {
    var s' := Apply(s, ReturnEmplace(t));
    ReturnEmplaceKeepsOwned(s, t);
    CallReturnKeepsEnds(s, t, s');
    ChainedFrame(s.nodes, s.chain, s.linker, s.producers, s'.nodes, s'.producers);
  }

  lemma ReturnPopKeepsOwned<T>(s: State<T>)
    requires Owned(s) && s.consumer.PopDone?
    ensures Owned(Apply(s, ReturnPop))
  {
  }

  lemma CallReturnPopKeepsInv<T>(s: State<T>, e: Event<T>)
    requires Inv(s) && Enabled(s, e) && (e.CallPop? || e.ReturnPop?)
    ensures Inv(Apply(s, e))
  {
    if e.ReturnPop? { ReturnPopKeepsOwned(s); }
    ValuedBefore(s.nodes, s.chain, s.consumer, s.pushed, s.popped, Apply(s, e).consumer);
  }

  lemma PopSpareKeepsInv<T>(s: State<T>)
    requires Inv(s) && Enabled(s, PopSpare)
    ensures Inv(Apply(s, PopSpare))
    ensures |s.chain| == 1
  {
    assert s.nodes[s.chain[0]].next == NextOf(s.chain, s.linker, 0);
    assert PendingOk(s.chain, s.linker, s.producers, 0);
  }

  lemma ApplyKeepsInv<T>(s: State<T>, e: Event<T>)
    requires Inv(s) && Enabled(s, e)
    ensures Inv(Apply(s, e))
  {
    match e
    case CallEmplace(t, node, v) => CallEmplaceKeepsInv(s, t, node, v);
    case AdvanceProducer(t) => StepProducerKeepsInv(s, t);
    case ReturnEmplace(t) => ReturnEmplaceKeepsInv(s, t);
    case CallPop => CallReturnPopKeepsInv(s, e);
    case AdvanceConsumer => StepConsumerKeepsInv(s);
    case ReturnPop => CallReturnPopKeepsInv(s, e);
    case PopSpare => PopSpareKeepsInv(s);
  }

  lemma {:induction false} ExecKeepsInv<T>(s: State<T>, es: seq<Event<T>>)
    requires Inv(s) && Feasible(s, es)
    ensures Inv(Exec(s, es))
    decreases |es|
  {
    if es != [] {
      ApplyKeepsInv(s, es[0]);
      ExecKeepsInv(Apply(s, es[0]), es[1..]);
    }
  }
}
