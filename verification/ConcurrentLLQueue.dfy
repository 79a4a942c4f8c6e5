/** The concurrent linked queue itself: nodes, a front and a back updated in place. A method
    performs one access of a producer or of the consumer and is proved to be the step of the
    machine; the whole operations at the end are proved against the queue. */
module ConcurrentLLQueues {
  import opened ConcurrentList
  import opened ConcurrentListResults
  import opened ConcurrentListTheorems
  import opened Options
  import opened Storage

  class ConcurrentLLQueue<T> {
    const kind: Kind
    var nodes: map<Ref, Node<T>>
    var front: Option<Ref>
    var back: Option<Ref>
    var producers: map<Tid, Producer<T>>
    var consumer: Consumer
    // history: who owns which node, the order of the tail, and what was pushed and popped
    ghost var client: set<Ref>
    ghost var chain: seq<Ref>
    ghost var linker: map<Ref, Tid>
    ghost var writer: map<Ref, Tid>
    ghost var pushed: seq<Entry<T>>
    ghost var popped: seq<Entry<T>>

    /** The machine state this object is in. */
    ghost function View(): State<T>
      reads this
    {
      State(kind, nodes, front, back, producers, consumer, client, chain, linker, writer, pushed, popped)
    }

    ghost predicate Valid()
      reads this
    {
      Inv(View())
    }

    /** A queue whose head is the spare node; all other nodes are the callers'. */
    constructor (kind: Kind, spare: Ref, others: set<Ref>)
      requires spare !in others
      ensures Valid() && View() == Init(kind, spare, others)
    {
      this.kind := kind;
      nodes := map r | r in others + {spare} :: Node(None, Raw);
      front, back := Some(spare), Some(spare);
      producers, consumer := map[], Idle;
      client, chain, linker, writer, pushed, popped := others, [spare], map[], map[], [], [];
      new;
      InitInv<T>(kind, spare, others);
    }

    /** A producer enters `emplace` with storage of its own. */
    method BeginEmplace(t: Tid, node: Ref, v: T)
      requires Valid() && Enabled(View(), CallEmplace(t, node, v))
      modifies this`producers, this`client, this`writer
      ensures Valid() && View() == Apply(old(View()), CallEmplace(t, node, v))
    {
      ApplyKeepsInv(View(), CallEmplace(t, node, v));
      producers := producers[t := Construct(node, v)];
      client := client - {node};
      writer := writer[node := t];
    }

    method EndEmplace(t: Tid) returns (node: Ref)
      requires Valid() && t in producers && producers[t].EmplaceDone?
      modifies this`producers
      ensures Valid() && View() == Apply(old(View()), ReturnEmplace(t)) && node == old(producers[t].node)
      ensures producers == old(producers) - {t}
    {
      ApplyKeepsInv(View(), ReturnEmplace(t));
      node := producers[t].node;
      producers := producers - {t};
    }

    /** `construct_at` on the node, with a null next. */
    method ConstructNode(t: Tid)
      requires t in producers && producers[t].Construct?
      modifies this`nodes, this`producers
      ensures View() == StepProducer(old(View()), t)
    {
      var node, v := producers[t].node, producers[t].v;
      nodes := nodes[node := Node(None, Live(Entry(t, v)))];
      producers := producers[t := if kind.MultiProducer? then Exchange(node, v) else StoreNext(node, v)];
    }

    /** `MpBack::link`, first half: the tail is exchanged for the new node. */
    method ExchangeBack(t: Tid)
      requires t in producers && producers[t].Exchange? && back.Some?
      modifies this`back, this`producers, this`chain, this`linker, this`writer, this`pushed
      ensures View() == StepProducer(old(View()), t)
    {
      var node, v, prev := producers[t].node, producers[t].v, back.value;
      back := Some(node);
      producers := producers[t := Store(prev, node)];
      chain, linker, writer := chain + [node], linker[prev := t], writer - {node};
      pushed := pushed + [Entry(t, v)];
    }

    /** `MpBack::link`, second half: the previous tail is linked to the new node. */
    method StoreLink(t: Tid)
      requires t in producers && producers[t].Store? && producers[t].prev in nodes
      modifies this`nodes, this`producers, this`linker
      ensures View() == StepProducer(old(View()), t)
    {
      var prev, node := producers[t].prev, producers[t].node;
      nodes := nodes[prev := nodes[prev].(next := Some(node))];
      producers := producers[t := EmplaceDone(node)];
      linker := linker - {prev};
    }

    /** `SpBack::link`, first half: the tail is linked to the new node. */
    method LinkAfterBack(t: Tid)
      requires t in producers && producers[t].StoreNext? && back.Some? && back.value in nodes
      modifies this`nodes, this`producers, this`chain, this`writer, this`pushed
      ensures View() == StepProducer(old(View()), t)
    {
      var node, v, prev := producers[t].node, producers[t].v, back.value;
      nodes := nodes[prev := nodes[prev].(next := Some(node))];
      producers := producers[t := SetBack(node)];
      chain, writer := chain + [node], writer - {node};
      pushed := pushed + [Entry(t, v)];
    }

    /** `SpBack::link`, second half: the new node becomes the tail. */
    method MoveBack(t: Tid)
      requires t in producers && producers[t].SetBack?
      modifies this`back, this`producers
      ensures View() == StepProducer(old(View()), t)
    {
      var node := producers[t].node;
      back := Some(node);
      producers := producers[t := EmplaceDone(node)];
    }

    /** One access of `emplace`. */
    method AdvanceProducer(t: Tid)
      requires Valid() && t in producers && !producers[t].EmplaceDone?
      modifies this
      ensures Valid() && View() == StepProducer(old(View()), t)
    {
      ApplyKeepsInv(View(), Event.AdvanceProducer(t));
      TailIsThere(View(), t);
      match producers[t] {
        case Construct(_, _) => ConstructNode(t);
        case Exchange(_, _) => ExchangeBack(t);
        case Store(_, _) => StoreLink(t);
        case StoreNext(_, _) => LinkAfterBack(t);
        case SetBack(_) => MoveBack(t);
      }
    }

    /** The consumer enters `pop`. */
    method BeginPop()
      requires Valid() && Enabled(View(), CallPop)
      modifies this`consumer
      ensures Valid() && View() == Apply(old(View()), CallPop)
    {
      ApplyKeepsInv(View(), CallPop);
      consumer := PopLoadNext(front.value);
    }

    method EndPop() returns (r: Option<Ref>)
      requires Valid() && consumer.PopDone?
      modifies this`consumer, this`client
      ensures Valid() && View() == Apply(old(View()), ReturnPop) && r == old(consumer.result)
      ensures consumer == Idle
    {
      ApplyKeepsInv(View(), ReturnPop);
      r := consumer.result;
      consumer := Idle;
      client := client + if r.Some? then {r.value} else {};
    }

    /** `head->next`, and null when nothing is linked there yet. */
    method LoadNext()
      requires consumer.PopLoadNext? && consumer.head in nodes
      modifies this`consumer
      ensures View() == StepConsumer(old(View()))
    {
      var head := consumer.head;
      var next := nodes[head].next;
      consumer := if next.None? then PopDone(None) else PopTake(head, next.value);
    }

    /** The value of the second node is moved into the head. */
    method TakeValue()
      requires consumer.PopTake? && consumer.head in nodes && consumer.next in nodes
      requires nodes[consumer.next].val.Live?
      modifies this`nodes, this`consumer
      ensures View() == StepConsumer(old(View()))
    {
      var head, next := consumer.head, consumer.next;
      var v := nodes[next].val.val;
      nodes := nodes[head := nodes[head].(val := Live(v))][next := nodes[next].(val := MovedFrom)];
      consumer := ConcurrentList.PopDestroy(head, next);
    }

    /** What the move left in the second node is destroyed. */
    method DestroyValue()
      requires consumer.PopDestroy? && consumer.next in nodes
      modifies this`nodes, this`consumer
      ensures View() == StepConsumer(old(View()))
    {
      var head, next := consumer.head, consumer.next;
      nodes := nodes[next := nodes[next].(val := Raw)];
      consumer := ConcurrentList.PopAdvance(head, next);
    }

    /** The second node becomes the head. */
    method AdvanceFront()
      requires consumer.PopAdvance?
      modifies this`front, this`consumer, this`chain, this`popped
      ensures View() == StepConsumer(old(View()))
    {
      var head, next := consumer.head, consumer.next;
      front := Some(next);
      consumer := PopDone(Some(head));
      chain := if chain == [] then [] else chain[1..];
      if head in nodes && nodes[head].val.Live? { popped := popped + [nodes[head].val.val]; }
    }

    /** One access of `pop`. */
    method AdvanceConsumer()
      requires Valid() && !consumer.Idle? && !consumer.PopDone?
      modifies this
      ensures Valid() && View() == StepConsumer(old(View()))
    {
      ApplyKeepsInv(View(), Event.AdvanceConsumer);
      ConsumerNodesThere(View());
      match consumer {
        case PopLoadNext(_) => LoadNext();
        case PopTake(_, _) => TakeValue();
        case PopDestroy(_, _) => DestroyValue();
        case PopAdvance(_, _) => AdvanceFront();
      }
    }

    /** `empty`. */
    method Empty() returns (r: bool)
      requires Valid() && front.Some?
      ensures View().chain != [] && (r <==> NothingLinked(View()))
      ensures producers == map[] ==> (r <==> |pushed| == |popped|)
    {
      HeadIsLastIff(View());
      r := nodes[front.value].next.None?;
    }

    /** `pop_spare`: the head of a drained queue is handed out, and null after that. */
    method PopSpare() returns (r: Option<Ref>)
      requires Valid() && (front.Some? ==> Enabled(View(), Event.PopSpare))
      modifies this
      ensures Valid() && r == old(front)
      ensures View() == if old(front).Some? then Apply(old(View()), Event.PopSpare) else old(View())
    {
      r := front;
      if front.None? { return; }
      ApplyKeepsInv(View(), Event.PopSpare);
      back := None;
      front := None;
      client, chain := client + {r.value}, [];
    }

    // ----- whole operations that nobody interrupts ---------------------------------------

    /** `emplace`, while the others stand still wherever they are: the value is the last one. */
    method Emplace(t: Tid, node: Ref, v: T) returns (r: Ref)
      requires Valid() && Enabled(View(), CallEmplace(t, node, v))
      modifies this
      ensures Valid() && r == node && producers == old(producers) && consumer == old(consumer)
      ensures popped == old(popped) && pushed == old(pushed) + [Entry(t, v)]
    {
      ghost var s0 := View();
      BeginEmplace(t, node, v);
      assert producers - {t} == s0.producers;
      RunEmplace(s0, t, node, v);
      r := EndEmplace(t);
    }

    /** Its accesses. */
    method RunEmplace(ghost s0: State<T>, t: Tid, ghost node: Ref, ghost v: T)
      requires Valid() && EmplacingSince(s0, View(), t, node, v)
      modifies this
      ensures Valid() && EmplacingSince(s0, View(), t, node, v) && producers[t].EmplaceDone?
    {
      while !producers[t].EmplaceDone?
        invariant Valid() && EmplacingSince(s0, View(), t, node, v)
        decreases EmplaceRemaining(producers[t])
      {
        TailIsThere(View(), t);
        EmplacingStep(s0, View(), t, node, v);
        AdvanceProducer(t);
      }
    }

    /** `pop`, while the producers stand still: null exactly when the head has no next, and else
        the head with the oldest value in it. With no producer inside, null means empty. */
    method Pop() returns (r: Option<Ref>)
      requires Valid() && Enabled(View(), CallPop)
      modifies this
      ensures Valid() && producers == old(producers) && pushed == old(pushed) && consumer.Idle?
      ensures old(front.value in nodes) && (r.None? <==> old(nodes[front.value].next).None?)
      ensures old(producers) == map[] ==> (r.None? <==> old(popped) == old(pushed))
      ensures PopGave(old(View()), View(), r)
    {
      ghost var s0 := View();
      QuietHead(s0);
      BeginPop();
      RunPop(s0);
      r := EndPop();
    }

    /** Its accesses. */
    method RunPop(ghost s0: State<T>)
      requires s0.front.Some? && s0.front.value in s0.nodes
      requires Valid() && PoppingSince(s0, View())
      modifies this
      ensures Valid() && consumer.PopDone? && producers == s0.producers && pushed == s0.pushed
      ensures consumer.result.None? <==> s0.nodes[s0.front.value].next.None?
      ensures PopGave(s0, View(), consumer.result)
    {
      while !consumer.PopDone?
        invariant Valid() && PoppingSince(s0, View())
        decreases PopRemaining(consumer)
      {
        PoppingStep(s0, View());
        AdvanceConsumer();
      }
      PoppedValue(s0, View());
    }
  }
}
