/** What the operations of the concurrent list report when they are done, whatever other threads
    do meanwhile, and that they are done after a fixed number of accesses. */
module ConcurrentListResults {
  import opened ConcurrentList
  import opened ConcurrentListTheorems
  import opened Options
  import opened Storage

  // ----- emplace ------------------------------------------------------------------------

  lemma PushedByOne<T>(e: Entry<T>, who: Tid)
    ensures PushedBy([e], who) == if e.who == who then [e.v] else []
  {
    assert [e][1..] == [];
  }

  lemma {:induction false} PushedByAppend<T>(log: seq<Entry<T>>, e: Entry<T>, who: Tid)
    ensures PushedBy(log + [e], who) == PushedBy(log, who) + PushedBy([e], who)
    decreases |log|
  {
    if log == [] {
      assert log + [e] == [e];
    } else {
      PushedByAppend(log[1..], e, who);
      assert (log + [e])[1..] == log[1..] + [e];
    }
  }

  /** How many accesses of producer `t` there are. */
  function OwnSteps<T>(es: seq<Event<T>>, t: Tid): nat {
    if es == [] then 0 else (if es[0] == AdvanceProducer(t) then 1 else 0) + OwnSteps(es[1..], t)
  }

  /** Producer `t` is inside `emplace` of `v` into `node`, begun when it had pushed `base`. */
  ghost predicate InsideEmplace<T>(s: State<T>, t: Tid, node: Ref, v: T, base: seq<T>) {
    && t in s.producers
    && match s.producers[t]
       case Construct(n, w) => n == node && w == v && PushedBy(s.pushed, t) == base
       case Exchange(n, w) => n == node && w == v && PushedBy(s.pushed, t) == base
       case StoreNext(n, w) => n == node && w == v && PushedBy(s.pushed, t) == base
       case Store(_, n) => n == node && PushedBy(s.pushed, t) == base + [v]
       case SetBack(n) => n == node && PushedBy(s.pushed, t) == base + [v]
       case EmplaceDone(n) => n == node && PushedBy(s.pushed, t) == base + [v]
  }

  lemma OwnEmplaceStep<T>(s: State<T>, t: Tid, node: Ref, v: T, base: seq<T>)
    requires InsideEmplace(s, t, node, v, base) && !s.producers[t].EmplaceDone?
    requires s.producers[t].Exchange? ==> s.back.Some?
    requires s.producers[t].Store? ==> s.producers[t].prev in s.nodes
    requires s.producers[t].StoreNext? ==> s.back.Some? && s.back.value in s.nodes
    ensures InsideEmplace(StepProducer(s, t), t, node, v, base)
    ensures EmplaceRemaining(StepProducer(s, t).producers[t]) + 1 == EmplaceRemaining(s.producers[t])
  {
    PushedByOne(Entry(t, v), t);
    PushedByAppend(s.pushed, Entry(t, v), t);
  }

  lemma OthersLeaveProducer<T>(s: State<T>, e: Event<T>, t: Tid)
    requires Enabled(s, e) && t in s.producers && e != AdvanceProducer(t) && e != ReturnEmplace(t)
    ensures t in Apply(s, e).producers && Apply(s, e).producers[t] == s.producers[t]
  {
  }

  /** What an event adds to the values pushed. */
  lemma EventPushes<T>(s: State<T>, e: Event<T>)
    requires Enabled(s, e)
    ensures Apply(s, e).pushed == s.pushed ||
            (e.AdvanceProducer? && (s.producers[e.t].Exchange? || s.producers[e.t].StoreNext?) &&
             Apply(s, e).pushed == s.pushed + [Entry(e.t, s.producers[e.t].v)])
  {
  }

  /** Others push under their own names. */
  lemma OthersPush<T>(s: State<T>, e: Event<T>, t: Tid)
    requires Enabled(s, e) && e != AdvanceProducer(t)
    ensures PushedBy(Apply(s, e).pushed, t) == PushedBy(s.pushed, t)
  {
    EventPushes(s, e);
    if Apply(s, e).pushed != s.pushed {
      var entry := Entry(e.t, s.producers[e.t].v);
      PushedByOne(entry, t);
      PushedByAppend(s.pushed, entry, t);
    }
  }

  lemma InsideEmplaceStays<T>(s: State<T>, e: Event<T>, t: Tid, node: Ref, v: T, base: seq<T>)
    requires Inv(s) && Enabled(s, e) && e != ReturnEmplace(t) && InsideEmplace(s, t, node, v, base)
    ensures InsideEmplace(Apply(s, e), t, node, v, base)
    ensures EmplaceRemaining(Apply(s, e).producers[t]) + OwnSteps([e], t) == EmplaceRemaining(s.producers[t])
  {
    if e == AdvanceProducer(t) {
      TailIsThere(s, t);
      OwnEmplaceStep(s, t, node, v, base);
    } else {
      OthersLeaveProducer(s, e, t);
      OthersPush(s, e, t);
    }
  }

  /** An emplace reports what it did: when it is done its value, and no other, has been pushed by
      its producer, in the node it was given; and it is done after three accesses of its own. */
  lemma {:induction false} EmplaceReportsItsEffect<T>(s: State<T>, es: seq<Event<T>>, t: Tid, node: Ref, v: T, base: seq<T>)
    requires Inv(s) && Feasible(s, es) && InsideEmplace(s, t, node, v, base)
    requires forall i :: 0 <= i < |es| ==> es[i] != ReturnEmplace(t)
    ensures InsideEmplace(Exec(s, es), t, node, v, base)
    ensures EmplaceRemaining(Exec(s, es).producers[t]) + OwnSteps(es, t) == EmplaceRemaining(s.producers[t]) <= 3
    decreases |es|
  {
    if es != [] {
      InsideEmplaceStays(s, es[0], t, node, v, base);
      ApplyKeepsInv(s, es[0]);
      assert forall i :: 0 <= i < |es[1..]| ==> es[1..][i] == es[i + 1];
      EmplaceReportsItsEffect(Apply(s, es[0]), es[1..], t, node, v, base);
    }
  }

  // ----- pop ----------------------------------------------------------------------------

  /** Nothing is linked behind the head: the queue is empty, or the producer that took the tail
      right behind the head has not stored its link yet. */
  ghost predicate NothingLinked<T>(s: State<T>)
    requires s.chain != []
  {
    || |s.pushed| == |s.popped|
    || exists t :: t in s.producers && s.producers[t].Store? && s.producers[t].prev == s.chain[0]
  }

  function OwnPopSteps<T>(es: seq<Event<T>>): nat {
    if es == [] then 0 else (if es[0].AdvanceConsumer? then 1 else 0) + OwnPopSteps(es[1..])
  }

  /** The consumer is inside `pop`, begun when `base` had been popped. */
  ghost predicate InsidePop<T>(s: State<T>, base: seq<Entry<T>>) {
    match s.consumer
    case Idle => false
    case PopLoadNext(_) => s.popped == base
    case PopTake(_, _) => s.popped == base
    case PopDestroy(_, _) => s.popped == base
    case PopAdvance(_, _) => s.popped == base
    case PopDone(None) => s.popped == base
    case PopDone(Some(r)) =>
      r in s.nodes && s.nodes[r].val.Live? && s.popped == base + [s.nodes[r].val.val]
  }

  /** It has found a second node. */
  predicate Taking(c: Consumer) {
    c.PopTake? || c.PopDestroy? || c.PopAdvance? || (c.PopDone? && c.result.Some?)
  }

  lemma OwnPopStep<T>(s: State<T>, base: seq<Entry<T>>)
    requires InsidePop(s, base) && !s.consumer.PopDone?
    requires s.consumer.PopLoadNext? || s.consumer.PopTake? || s.consumer.PopDestroy? ==> s.consumer.head in s.nodes
    requires s.consumer.PopTake? || s.consumer.PopDestroy? ==> s.consumer.next in s.nodes
    requires s.consumer.PopTake? ==> s.nodes[s.consumer.next].val.Live?
    requires s.consumer.PopAdvance? ==> s.consumer.head in s.nodes && s.nodes[s.consumer.head].val.Live?
    ensures InsidePop(StepConsumer(s), base)
    ensures PopRemaining(StepConsumer(s).consumer) < PopRemaining(s.consumer)
    ensures Taking(s.consumer) ==> Taking(StepConsumer(s).consumer)
  {
  }

  /** The head that is about to be handed out holds the value. */
  lemma HeadIsFilled<T>(s: State<T>)
    requires Inv(s) && s.consumer.PopAdvance?
    ensures s.consumer.head in s.nodes && s.nodes[s.consumer.head].val.Live?
  {
    assert s.nodes[s.chain[0]].val == HeadSlot(s.consumer, s.pushed, s.popped);
  }

  /** Others leave the consumer and what it has popped alone. */
  lemma OthersDoNotPop<T>(s: State<T>, e: Event<T>)
    requires Enabled(s, e) && !s.consumer.Idle? && !e.AdvanceConsumer? && e != ReturnPop
    ensures Apply(s, e).consumer == s.consumer && Apply(s, e).popped == s.popped
  {
  }

  lemma InsidePopKept<T>(s: State<T>, s': State<T>, base: seq<Entry<T>>)
    requires InsidePop(s, base) && s'.consumer == s.consumer && s'.popped == s.popped
    requires ConsumerOk(s) && ConsumerOk(s')
    ensures InsidePop(s', base)
  {
  }

  lemma InsidePopStays<T>(s: State<T>, e: Event<T>, base: seq<Entry<T>>)
    requires Inv(s) && Enabled(s, e) && e != ReturnPop && InsidePop(s, base)
    ensures Inv(Apply(s, e)) && InsidePop(Apply(s, e), base)
    ensures PopRemaining(Apply(s, e).consumer) + OwnPopSteps([e]) <= PopRemaining(s.consumer)
    ensures !e.AdvanceConsumer? ==> Apply(s, e).consumer == s.consumer
    ensures Taking(s.consumer) ==> Taking(Apply(s, e).consumer)
  {
    ApplyKeepsInv(s, e);
    if e.AdvanceConsumer? {
      ConsumerNodesThere(s);
      if s.consumer.PopAdvance? { HeadIsFilled(s); }
      OwnPopStep(s, base);
    } else {
      OthersDoNotPop(s, e);
      InsidePopKept(s, Apply(s, e), base);
    }
  }

  /** A pop reports what it did: the one value popped is in the node it returns, and when it
      returns null none was; and it is done after four accesses of its own. */
  lemma {:induction false} PopReportsItsEffect<T>(s: State<T>, es: seq<Event<T>>, base: seq<Entry<T>>)
    requires Inv(s) && Feasible(s, es) && InsidePop(s, base)
    requires forall i :: 0 <= i < |es| ==> es[i] != ReturnPop
    ensures InsidePop(Exec(s, es), base)
    ensures PopRemaining(Exec(s, es).consumer) + OwnPopSteps(es) <= PopRemaining(s.consumer) <= 4
    ensures Taking(s.consumer) ==> Taking(Exec(s, es).consumer)
    decreases |es|
  {
    if es != [] {
      InsidePopStays(s, es[0], base);
      assert forall i :: 0 <= i < |es[1..]| ==> es[1..][i] == es[i + 1];
      PopReportsItsEffect(Apply(s, es[0]), es[1..], base);
    }
  }

  /** At some moment of the run nothing is linked behind the head. */
  ghost predicate UnlinkedSometime<T>(s: State<T>, es: seq<Event<T>>)
    requires Feasible(s, es)
    decreases |es|
  {
    || (s.chain != [] && NothingLinked(s))
    || (es != [] && UnlinkedSometime(Apply(s, es[0]), es[1..]))
  }

  lemma FirstLoad<T>(s: State<T>)
    requires Inv(s) && s.consumer.PopLoadNext?
    ensures s.chain != []
    ensures if StepConsumer(s).consumer == PopDone(None) then NothingLinked(s)
            else Taking(StepConsumer(s).consumer)
  {
    ConsumerNodesThere(s);
    PopReturnsNullIff(s);
  }

  /** A pop that returns null is right: at some moment since its call nothing was linked behind
      the head. */
  lemma {:induction false} NullPopSawNothingLinked<T>(s: State<T>, es: seq<Event<T>>)
    requires Inv(s) && Feasible(s, es) && s.consumer.PopLoadNext?
    requires forall i :: 0 <= i < |es| ==> es[i] != ReturnPop
    requires Exec(s, es).consumer == PopDone(None)
    ensures UnlinkedSometime(s, es)
    decreases |es|
  {
    var e, s1 := es[0], Apply(s, es[0]);
    ApplyKeepsInv(s, e);
    InsidePopStays(s, e, s.popped);
    assert forall i :: 0 <= i < |es[1..]| ==> es[1..][i] == es[i + 1];
    if e.AdvanceConsumer? {
      FirstLoad(s);
      if s1.consumer != PopDone(None) {
        PopReportsItsEffect(s1, es[1..], s.popped);
      }
    } else {
      NullPopSawNothingLinked(s1, es[1..]);
    }
  }

  /** What `empty()` looks at: the head has no next exactly when nothing is linked behind it. */
  lemma HeadIsLastIff<T>(s: State<T>)
    requires Inv(s) && s.front.Some?
    ensures s.chain != [] && s.front.value in s.nodes
    ensures s.nodes[s.front.value].next.None? <==> NothingLinked(s)
  {
    HeadLink(s);
    assert PendingOk(s.chain, s.linker, s.producers, 0);
    forall t | t in s.producers && s.producers[t].Store? && s.producers[t].prev == s.chain[0]
      ensures s.chain[0] in s.linker
    {
    }
  }
}
