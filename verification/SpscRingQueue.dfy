/** The queue object itself: two wrapping cursors stored by one thread each, values constructed
    and destroyed in a fixed array of slots. A method performs one access of the producer or of
    the consumer and is proved to be the step of the protocol; the whole operations at the end
    are proved against the queue. */
module SpscQueue {
  import opened Options
  import RingSpec
  import opened SpscProtocol
  import opened SpscResults
  import opened SpscTheorems
  import opened Storage
  import opened Words

  class SPSCRingQueue<T> {
    const data: array<Slot<T>>
    const mask: nat
    var back: nat
    var front: nat
    var producer: Pc<T>
    var consumer: Pc<T>
    // history: what was published and what left, and the extreme lengths during the calls
    var pushed: seq<T>
    var removed: seq<RingSpec.Removal<T>>
    ghost var longest: nat
    ghost var shortest: nat

    /** The protocol state this object is in. */
    ghost function View(): State<T>
      reads this, data
    {
      State(data[..], front, back, producer, consumer, pushed, removed, longest, shortest)
    }

    ghost predicate Valid()
      reads this, data
    {
      data.Length == mask + 1 && Inv(View())
    }

    constructor (capacity: nat)
      requires ValidCapacity(capacity)
      ensures Valid() && fresh(data) && View() == Init(capacity)
    {
      data := new Slot<T>[capacity](_ => Raw);
      mask := capacity - 1;
      back, front := 0, 0;
      producer, consumer := Idle, Idle;
      pushed, removed, longest, shortest := [], [], 0, 0;
      new;
      assert data[..] == seq(capacity, i => Raw);
      InitInv<T>(capacity);
    }

    /** `num & m_mask`. */
    function Idx(num: nat): (i: nat)
      requires IsPow2(mask + 1) && data.Length == mask + 1
      ensures i == SlotOf(num, data.Length) && i < data.Length
    {
      AndMask(num, mask + 1);
      BitAnd(num, mask)
    }

    /** Keeps the history of lengths. */
    ghost method NoteLength()
      modifies this`longest, this`shortest
      ensures View() == Note(old(View()))
    {
      var s := Note(View());
      longest, shortest := s.longest, s.shortest;
    }

    /** A thread enters or leaves an operation. */
    method BeginPush(op: Op<T>)
      requires Valid() && Enabled(View(), CallProducer(op))
      modifies this
      ensures Valid() && View() == Apply(old(View()), CallProducer(op))
    {
      ApplyKeepsInv(View(), CallProducer(op));
      producer := StartPc(op);
      longest := 0;
      NoteLength();
    }

    method EndPush() returns (r: Result<T>)
      requires Valid() && producer.Done?
      modifies this
      ensures Valid() && View() == Apply(old(View()), ReturnProducer) && r == old(producer.result)
    {
      ApplyKeepsInv(View(), ReturnProducer);
      r := producer.result;
      producer := Idle;
      NoteLength();
    }

    method BeginPop(op: Op<T>)
      requires Valid() && Enabled(View(), CallConsumer(op))
      modifies this
      ensures Valid() && View() == Apply(old(View()), CallConsumer(op))
    {
      ApplyKeepsInv(View(), CallConsumer(op));
      consumer := StartPc(op);
      shortest := data.Length;
      NoteLength();
    }

    method EndPop() returns (r: Result<T>)
      requires Valid() && consumer.Done?
      modifies this
      ensures Valid() && View() == Apply(old(View()), ReturnConsumer) && r == old(consumer.result)
    {
      ApplyKeepsInv(View(), ReturnConsumer);
      r := consumer.result;
      consumer := Idle;
      NoteLength();
    }

    /** One of the two loads of `size()`, and the test that follows the second. */
    method LoadForSize(pc: Pc<T>, backFirst: bool) returns (next: Pc<T>)
      requires pc.SizeLoads? || pc.SizeHasBack? || pc.SizeHasFront?
      requires data.Length == mask + 1
      ensures next == StepSize(View(), pc, backFirst)
    {
      if pc.SizeLoads? {
        if backFirst {
          next := SizeHasBack(pc.why, back, |pushed|);
        } else {
          next := SizeHasFront(pc.why, front, |removed|);
        }
      } else {
        var b, f := if pc.SizeHasBack? then pc.b else back, if pc.SizeHasBack? then front else pc.f;
        var size := Wrap(b - f);
        var why := pc.why;
        if why.ToPush? {
          var remaining := Wrap(mask + 1 - size);
          if remaining == 0 {
            next := Done(PushResult(false));
          } else if why.tests > 1 {
            next := SizeLoads(ToPush(why.v, why.tests - 1, true));
          } else {
            next := LoadBack(why.v);
          }
        } else if why.ToReport? {
          next := Done(SizeResult(size));
        } else if size == 0 {
          next := if why.ToPop? then Done(PopResult(None)) else Done(ClearResult);
        } else {
          next := if why.ToPop? then LoadFront else ClearLoadSlot;
        }
      }
    }

    /** `emplace` after its test. */
    method StepEmplacing()
      requires data.Length == mask + 1 && IsPow2(data.Length)
      requires producer.LoadBack? || producer.Construct? || producer.StoreBack?
      modifies this`producer, this`back, this`pushed, data
      ensures forall backFirst :: View() == StepProducer(old(View()), backFirst)
    {
      match producer {
        case LoadBack(v) => producer := Construct(v, back);
        case Construct(v, head) =>
          data[Idx(head)] := Live(v);
          producer := StoreBack(v, head);
        case StoreBack(v, head) =>
          back := Wrap(head + 1);
          pushed := pushed + [v];
          producer := Done(PushResult(true));
      }
    }

    /** One access of `push`, `emplace` or `size` by the producer. */
    method AdvanceProducer(backFirst: bool)
      requires Valid() && !producer.Idle? && !producer.Done?
      modifies this, data
      ensures Valid() && View() == Apply(old(View()), Event.AdvanceProducer(backFirst))
    {
      ApplyKeepsInv(View(), Event.AdvanceProducer(backFirst));
      if producer.SizeLoads? || producer.SizeHasBack? || producer.SizeHasFront? {
        producer := LoadForSize(producer, backFirst);
      } else {
        StepEmplacing();
      }
      NoteLength();
    }

    /** The slot accesses of `pop` and `clear`. */
    method StepRemoving()
      requires data.Length == mask + 1 && IsPow2(data.Length) && Removing(consumer)
      requires consumer.Move? || consumer.ClearDestroy? ==> data[SlotOf(consumer.tail, data.Length)].Live?
      modifies this`consumer, this`front, this`removed, data
      ensures forall backFirst :: View() == StepConsumer(old(View()), backFirst)
    {
      match consumer {
        case LoadFront => consumer := Move(front);
        case Move(tail) =>
          var temp := data[Idx(tail)].val;
          data[Idx(tail)] := MovedFrom;
          consumer := Destroy(tail, temp);
        case Destroy(tail, temp) =>
          data[Idx(tail)] := Raw;
          consumer := StoreFront(tail, temp);
        case StoreFront(tail, temp) =>
          front := Wrap(tail + 1);
          removed := removed + [RingSpec.Handed(temp)];
          consumer := Done(PopResult(Some(temp)));
        case ClearLoadSlot => consumer := ClearDestroy(front);
        case ClearDestroy(tail) =>
          var gone := data[Idx(tail)].val;
          data[Idx(tail)] := Raw;
          consumer := ClearLoadFront(gone);
        case ClearLoadFront(gone) => consumer := ClearStore(front, gone);
        case ClearStore(tail, gone) =>
          front := Wrap(tail + 1);
          removed := removed + [RingSpec.Destroyed(gone)];
          consumer := SizeLoads(ToClear);
      }
    }

    /** One access of `pop`, `clear` or `size` by the consumer. */
    method AdvanceConsumer(backFirst: bool)
      requires Valid() && !consumer.Idle? && !consumer.Done?
      modifies this, data
      ensures Valid() && View() == Apply(old(View()), Event.AdvanceConsumer(backFirst))
    {
      ApplyKeepsInv(View(), Event.AdvanceConsumer(backFirst));
      if consumer.SizeLoads? || consumer.SizeHasBack? || consumer.SizeHasFront? {
        consumer := LoadForSize(consumer, backFirst);
      } else {
        if consumer.Move? || consumer.ClearDestroy? { FrontIsLive(View()); }
        StepRemoving();
      }
      NoteLength();
    }

    // ----- whole operations that the other side does not interrupt -----------------------

    /** `push` or `emplace`, of which `tests` ask whether there is room. With no test the caller
        vouches for that. The value goes in exactly when it fits, and is then the last. */
    method Push(v: T, tests: nat, backFirst: bool) returns (ok: bool)
      requires Valid() && producer.Idle? && (tests == 0 ==> |Queue(View())| < data.Length)
      modifies this, data
      ensures Valid() && producer.Idle? && consumer == old(consumer)
      ensures ok <==> |old(Queue(View()))| < data.Length
      ensures Queue(View()) == if ok then old(Queue(View())) + [v] else old(Queue(View()))
    {
      ghost var s0 := View();
      BeginPush(Op.Push(v, tests));
      RunPush(s0, v, backFirst);
      ok := producer.result.ok;
      var _ := EndPush();
    }

    /** Its accesses. */
    method RunPush(ghost s0: State<T>, v: T, backFirst: bool)
      requires Valid() && |s0.removed| <= |s0.pushed| && PushingSince(s0, View(), v)
      modifies this, data
      ensures Valid() && producer.Done? && PushingSince(s0, View(), v)
    {
      while !producer.Done?
        invariant Valid() && PushingSince(s0, View(), v)
        decreases PushRemaining(producer)
      {
        PushingSinceStep(s0, View(), v, backFirst);
        AdvanceProducer(backFirst);
      }
    }

    /** `try_pop`, or with `checked` false `pop`, for which the caller vouches that there is a
        value: the first value comes out, if there is one. */
    method Pop(checked: bool, backFirst: bool) returns (r: Option<T>)
      requires Valid() && consumer.Idle? && (!checked ==> Queue(View()) != [])
      modifies this, data
      ensures Valid() && consumer.Idle? && producer == old(producer)
      ensures r == if old(Queue(View())) == [] then None else Some(old(Queue(View()))[0])
      ensures Queue(View()) == if r.None? then old(Queue(View())) else old(Queue(View()))[1..]
    {
      ghost var s0 := View();
      BeginPop(Op.Pop(checked));
      RunPop(s0, backFirst);
      r := consumer.result.value;
      var _ := EndPop();
    }

    /** Its accesses. */
    method RunPop(ghost s0: State<T>, backFirst: bool)
      requires Valid() && |s0.removed| <= |s0.pushed| && PoppingSince(s0, View())
      modifies this, data
      ensures Valid() && consumer.Done? && PoppingSince(s0, View())
    {
      while !consumer.Done?
        invariant Valid() && PoppingSince(s0, View())
        decreases PopRemaining(consumer)
      {
        PoppingSinceStep(s0, View(), backFirst);
        AdvanceConsumer(backFirst);
      }
    }

    /** `size`, asked by the producer while the consumer stands still. */
    method ProducerSize(backFirst: bool) returns (n: nat)
      requires Valid() && producer.Idle?
      modifies this, data
      ensures Valid() && producer.Idle? && consumer == old(consumer)
      ensures n == |old(Queue(View()))| && Queue(View()) == old(Queue(View()))
    {
      ghost var s0 := View();
      BeginPush(Op.Size);
      while !producer.Done?
        invariant Valid() && Sizing(s0, View(), producer) && consumer == s0.consumer
        decreases SizeRemaining(producer)
      {
        ProducerSizingStep(s0, View(), backFirst);
        AdvanceProducer(backFirst);
      }
      n := producer.result.n;
      var _ := EndPush();
    }

    /** `size`, asked by the consumer while the producer stands still. */
    method ConsumerSize(backFirst: bool) returns (n: nat)
      requires Valid() && consumer.Idle?
      modifies this, data
      ensures Valid() && consumer.Idle? && producer == old(producer)
      ensures n == |old(Queue(View()))| && Queue(View()) == old(Queue(View()))
    {
      ghost var s0 := View();
      BeginPop(Op.Size);
      while !consumer.Done?
        invariant Valid() && Sizing(s0, View(), consumer) && producer == s0.producer
        decreases SizeRemaining(consumer)
      {
        ConsumerSizingStep(s0, View(), backFirst);
        AdvanceConsumer(backFirst);
      }
      n := consumer.result.n;
      var _ := EndPop();
    }

    /** `clear`, which the producer does not interrupt: every value is destroyed, oldest first. */
    method Clear(backFirst: bool)
      requires Valid() && consumer.Idle?
      modifies this, data
      ensures Valid() && consumer.Idle? && producer == old(producer)
      ensures Queue(View()) == [] && removed == old(removed) + RingSpec.Kill(old(Queue(View())))
    {
      ghost var s0 := View();
      BeginPop(Op.Clear);
      while !consumer.Done?
        invariant Valid() && ClearingSince(s0, View())
        decreases ClearRemaining(Length(View()), consumer)
      {
        ClearingStep(s0, View(), backFirst);
        AdvanceConsumer(backFirst);
      }
      ClearedSince(s0, View());
      var _ := EndPop();
    }
  }
}
