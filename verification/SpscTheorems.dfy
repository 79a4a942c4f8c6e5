/** What holds of every interleaving of the producer and the consumer of the SPSC ring. */
module SpscTheorems {
  import opened BoundedFifo
  import opened Options
  import opened RingSpec
  import opened RingWindow
  import opened SpscProtocol
  import opened Storage
  import opened Words

  lemma ReachableInv<T>(cap: nat, es: seq<Event<T>>)
    requires ValidCapacity(cap) && Feasible(Init(cap), es)
    ensures Inv(Exec(Init(cap), es))
  {
    InitInv<T>(cap);
    ExecKeepsInv(Init(cap), es);
  }

  // ----- refinement of the bounded queue ---------------------------------------------

  /** The values published and not yet removed. */
  ghost function Queue<T>(s: State<T>): seq<T>
    requires |s.removed| <= |s.pushed|
  {
    s.pushed[|s.removed|..]
  }

  /** A push takes effect when the back cursor is stored, a removal when the front cursor is. */
  function EffectOf<T>(s: State<T>, e: Event<T>): Effect<T> {
    if e.AdvanceProducer? && s.producer.StoreBack? then Pushed(s.producer.v)
    else if e.AdvanceConsumer? && s.consumer.StoreFront? then Popped(s.consumer.temp)
    else if e.AdvanceConsumer? && s.consumer.ClearStore? then Popped(s.consumer.gone)
    else NoEffect
  }

  function Effects<T>(s: State<T>, es: seq<Event<T>>): seq<Effect<T>>
    requires IsPow2(|s.slots|) && Feasible(s, es)
    decreases |es|
  {
    if es == [] then [] else [EffectOf(s, es[0])] + Effects(Apply(s, es[0]), es[1..])
  }

  lemma EffectOnHistory<T>(s: State<T>, e: Event<T>)
    requires IsPow2(|s.slots|) && Enabled(s, e)
    ensures var effect, s' := EffectOf(s, e), Apply(s, e);
            && s'.pushed == s.pushed + (if effect.Pushed? then [effect.v] else [])
            && |s'.removed| == |s.removed| + (if effect.Popped? then 1 else 0)
  {
  }

  /** Every access does to the abstract queue what the bounded FIFO allows. */
  lemma EventRefines<T>(s: State<T>, e: Event<T>)
    requires Inv(s) && Enabled(s, e)
    ensures Inv(Apply(s, e))
    ensures FifoStep(|s.slots|, Queue(s), EffectOf(s, e)) == Some(Queue(Apply(s, e)))
  {
    ApplyKeepsInv(s, e);
    EffectOnHistory(s, e);
    var s' := Apply(s, e);
    if EffectOf(s, e).Pushed? {
      assert Queue(s') == Queue(s) + [s.producer.v];
    } else if EffectOf(s, e).Popped? {
      assert Queue(s') == Queue(s)[1..];
    }
  }

  lemma {:induction false} ExecRefines<T>(s: State<T>, es: seq<Event<T>>)
    requires Inv(s) && Feasible(s, es)
    ensures Inv(Exec(s, es))
    ensures FifoRun(|s.slots|, Queue(s), Effects(s, es)) == Some(Queue(Exec(s, es)))
    decreases |es|
  {
    if es != [] {
      EventRefines(s, es[0]);
      ExecRefines(Apply(s, es[0]), es[1..]);
      var effects := Effects(s, es);
      assert effects[0] == EffectOf(s, es[0]);
      assert effects[1..] == Effects(Apply(s, es[0]), es[1..]);
    }
  }

  /** Every interleaving is a run of the bounded FIFO. */
  lemma RunRefines<T>(cap: nat, es: seq<Event<T>>)
    requires ValidCapacity(cap) && Feasible(Init(cap), es)
    ensures Inv(Exec(Init(cap), es))
    ensures FifoRun(cap, [], Effects(Init(cap), es)) == Some(Queue(Exec(Init(cap), es)))
  {
    InitInv<T>(cap);
    ExecRefines(Init(cap), es);
  }

  /** Nothing is lost, duplicated or reordered: what left, in order, followed by what is
      there, is what was pushed; and a value popped is what its caller gets. */
  lemma EachValueOnceInOrder<T>(cap: nat, es: seq<Event<T>>)
    requires ValidCapacity(cap) && Feasible(Init(cap), es)
    ensures var s := Exec(Init(cap), es);
            && |s.removed| <= |s.pushed| <= |s.removed| + cap
            && s.pushed == Values(s.removed) + Queue(s)
            && (s.consumer.Done? && s.consumer.result.PopResult? && s.consumer.result.value.Some? ==>
                  s.removed != [] && s.removed[|s.removed| - 1] == Handed(s.consumer.result.value.value))
  {
    ReachableInv(cap, es);
    ExecSlots(Init<T>(cap), es);
  }

  lemma {:induction false} ExecSlots<T>(s: State<T>, es: seq<Event<T>>)
    requires IsPow2(|s.slots|) && Feasible(s, es)
    ensures |Exec(s, es).slots| == |s.slots|
    decreases |es|
  {
    if es != [] { ExecSlots(Apply(s, es[0]), es[1..]); }
  }

  // ----- wrapping cursors --------------------------------------------------------------

  /** However often the 64-bit cursors have wrapped, they select the slots of the unbounded
      ones and their wrapped difference is the length. */
  lemma WordsFollowCounters<T>(cap: nat, es: seq<Event<T>>)
    requires ValidCapacity(cap) && Feasible(Init(cap), es)
    ensures var s := Exec(Init(cap), es);
            && |s.slots| == cap
            && SlotOf(s.back, cap) == SlotOf(|s.pushed|, cap)
            && SlotOf(s.front, cap) == SlotOf(|s.removed|, cap)
            && Wrap(s.back - s.front) == Length(s) <= cap
            && (Wrap(cap - Wrap(s.back - s.front)) == 0 <==> Length(s) == cap)
  {
    ReachableInv(cap, es);
    ExecSlots(Init<T>(cap), es);
    var s := Exec(Init(cap), es);
    SlotOfWrapped(|s.pushed|, cap);
    SlotOfWrapped(|s.removed|, cap);
    SizeIsDistance(cap, |s.pushed|, |s.removed|);
  }

  // ----- stale loads --------------------------------------------------------------------

  /** The size a thread will compute when its second load happens now. */
  function SizeNow<T>(s: State<T>, pc: Pc<T>): nat
    requires pc.SizeHasBack? || pc.SizeHasFront?
  {
    if pc.SizeHasBack? then Wrap(pc.b - s.front) else Wrap(s.back - pc.f)
  }

  /** With either order of the two loads, the producer never underestimates the length and
      the consumer never overestimates it, and neither leaves the range of legal lengths. */
  lemma StaleLoadsAreConservative<T>(cap: nat, es: seq<Event<T>>)
    requires ValidCapacity(cap) && Feasible(Init(cap), es)
    ensures var s := Exec(Init(cap), es);
            && (s.producer.SizeHasBack? || s.producer.SizeHasFront? ==> Length(s) <= SizeNow(s, s.producer) <= cap)
            && (s.consumer.SizeHasBack? || s.consumer.SizeHasFront? ==> SizeNow(s, s.consumer) <= Length(s) <= cap)
  {
    ReachableInv(cap, es);
    ExecSlots(Init<T>(cap), es);
    var s := Exec(Init(cap), es);
    SizeIsDistance(cap, |s.pushed|, |s.removed|);
    if s.producer.SizeHasFront? { SizeIsDistance(cap, |s.pushed|, s.producer.seen); }
    if s.consumer.SizeHasBack? { SizeIsDistance(cap, s.consumer.seen, |s.removed|); }
  }

  /** Past the emptiness test of `pop` or of `clear`. */
  predicate Removing<T>(pc: Pc<T>) {
    pc.LoadFront? || pc.Move? || pc.ClearLoadSlot? || pc.ClearDestroy? || FrontBusy(pc)
  }

  /** About to finish a full test after one that passed. */
  predicate Retesting<T>(pc: Pc<T>) {
    (pc.SizeHasBack? || pc.SizeHasFront?) && pc.why.ToPush? && pc.why.passed
  }

  /** A producer past its test has room, a consumer past its test has a value, however stale
      the loads were; and a second full test, as debug builds make, never refuses. */
  lemma TestsAreNeverWrong<T>(cap: nat, es: seq<Event<T>>, backFirst: bool)
    requires ValidCapacity(cap) && Feasible(Init(cap), es)
    ensures var s := Exec(Init(cap), es);
            && (s.producer.LoadBack? || s.producer.Construct? || s.producer.StoreBack? ==> Length(s) < cap)
            && (Removing(s.consumer) ==> Length(s) > 0)
            && (Retesting(s.producer) ==> StepSize(s, s.producer, backFirst) != Done(PushResult(false)))
  {
    ReachableInv(cap, es);
    ExecSlots(Init<T>(cap), es);
    var s := Exec(Init(cap), es);
    if s.producer.SizeHasBack? {
      SizeIsDistance(cap, |s.pushed|, |s.removed|);
    } else if s.producer.SizeHasFront? {
      SizeIsDistance(cap, |s.pushed|, s.producer.seen);
    }
  }

  /** Runs grow at the end. */
  lemma {:induction false} ExecLast<T>(s: State<T>, es: seq<Event<T>>)
    requires IsPow2(|s.slots|) && Feasible(s, es) && es != []
    ensures var k := |es| - 1;
            && Feasible(s, es[..k]) && |Exec(s, es[..k]).slots| == |s.slots|
            && Enabled(Exec(s, es[..k]), es[k]) && Exec(s, es) == Apply(Exec(s, es[..k]), es[k])
    decreases |es|
  {
    var k := |es| - 1;
    if k > 0 {
      ExecLast(Apply(s, es[0]), es[1..]);
      assert es[1..][..k - 1] == es[..k][1..];
    }
  }

  /** `k` events into the run the queue had length `n`, and the producer has not been called
      since. */
  ghost predicate LengthDuringPush<T>(s: State<T>, es: seq<Event<T>>, k: nat, n: int)
    requires IsPow2(|s.slots|)
  {
    && k <= |es| && Feasible(s, es[..k]) && Length(Exec(s, es[..k])) == n
    && forall j :: k <= j < |es| ==> !es[j].CallProducer?
  }

  ghost predicate LengthDuringPop<T>(s: State<T>, es: seq<Event<T>>, k: nat, n: int)
    requires IsPow2(|s.slots|)
  {
    && k <= |es| && Feasible(s, es[..k]) && Length(Exec(s, es[..k])) == n
    && forall j :: k <= j < |es| ==> !es[j].CallConsumer?
  }

  /** Each event either sets the extreme length to the present one or leaves it. */
  lemma ExtremesStep<T>(s: State<T>, e: Event<T>)
    requires Inv(s) && Enabled(s, e)
    ensures var s' := Apply(s, e);
            && (!s'.producer.Idle? && s'.longest != Length(s') ==>
                  s'.longest == s.longest && !s.producer.Idle? && !e.CallProducer?)
            && (!s'.consumer.Idle? && s'.shortest != Length(s') ==>
                  s'.shortest == s.shortest && !s.consumer.Idle? && !e.CallConsumer?)
  {
    ApplyKeepsInv(s, e);
  }

  /** A moment of the run so far is a moment of the whole run. */
  lemma EarlierDuringPush<T>(s: State<T>, es: seq<Event<T>>, k: nat, n: int)
    requires IsPow2(|s.slots|) && es != [] && !es[|es| - 1].CallProducer?
    requires LengthDuringPush(s, es[..|es| - 1], k, n)
    ensures LengthDuringPush(s, es, k, n)
  {
    var init := es[..|es| - 1];
    assert init[..k] == es[..k];
    assert forall j :: 0 <= j < |init| ==> init[j] == es[j];
  }

  lemma EarlierDuringPop<T>(s: State<T>, es: seq<Event<T>>, k: nat, n: int)
    requires IsPow2(|s.slots|) && es != [] && !es[|es| - 1].CallConsumer?
    requires LengthDuringPop(s, es[..|es| - 1], k, n)
    ensures LengthDuringPop(s, es, k, n)
  {
    var init := es[..|es| - 1];
    assert init[..k] == es[..k];
    assert forall j :: 0 <= j < |init| ==> init[j] == es[j];
  }

  /** So is its end. */
  lemma LengthAtTheEnd<T>(s: State<T>, es: seq<Event<T>>)
    requires IsPow2(|s.slots|) && Feasible(s, es)
    ensures LengthDuringPush(s, es, |es|, Length(Exec(s, es)))
    ensures LengthDuringPop(s, es, |es|, Length(Exec(s, es)))
  {
    assert es[..|es|] == es;
  }

  /** The last event of a run. */
  lemma LastEvent<T>(s: State<T>, es: seq<Event<T>>)
    requires Inv(s) && Feasible(s, es) && es != []
    ensures var init, e, s' := es[..|es| - 1], es[|es| - 1], Exec(s, es);
            && Feasible(s, init)
            && (!s'.producer.Idle? && s'.longest != Length(s') ==>
                  s'.longest == Exec(s, init).longest && !Exec(s, init).producer.Idle? && !e.CallProducer?)
            && (!s'.consumer.Idle? && s'.shortest != Length(s') ==>
                  s'.shortest == Exec(s, init).shortest && !Exec(s, init).consumer.Idle? && !e.CallConsumer?)
  {
    ExecLast(s, es);
    ExecKeepsInv(s, es[..|es| - 1]);
    ExtremesStep(Exec(s, es[..|es| - 1]), es[|es| - 1]);
  }

  lemma {:induction false} LongestWasReached<T>(s: State<T>, es: seq<Event<T>>) returns (k: nat)
    requires Inv(s) && Feasible(s, es) && s.producer.Idle? && !Exec(s, es).producer.Idle?
    ensures LengthDuringPush(s, es, k, Exec(s, es).longest)
    decreases |es|
  {
    LastEvent(s, es);
    if Exec(s, es).longest == Length(Exec(s, es)) {
      LengthAtTheEnd(s, es);
      k := |es|;
    } else {
      k := LongestWasReached(s, es[..|es| - 1]);
      EarlierDuringPush(s, es, k, Exec(s, es).longest);
    }
  }

  lemma {:induction false} ShortestWasReached<T>(s: State<T>, es: seq<Event<T>>) returns (k: nat)
    requires Inv(s) && Feasible(s, es) && s.consumer.Idle? && !Exec(s, es).consumer.Idle?
    ensures LengthDuringPop(s, es, k, Exec(s, es).shortest)
    decreases |es|
  {
    LastEvent(s, es);
    if Exec(s, es).shortest == Length(Exec(s, es)) {
      LengthAtTheEnd(s, es);
      k := |es|;
    } else {
      k := ShortestWasReached(s, es[..|es| - 1]);
      EarlierDuringPop(s, es, k, Exec(s, es).shortest);
    }
  }

  /** A push that reports the ring full is right: at some moment of the call it was. */
  lemma RefusedPushSawFull<T>(cap: nat, es: seq<Event<T>>) returns (k: nat)
    requires ValidCapacity(cap) && Feasible(Init(cap), es)
    requires Exec(Init(cap), es).producer == Done(PushResult(false))
    ensures LengthDuringPush(Init(cap), es, k, cap)
  {
    InitInv<T>(cap);
    ReachableInv(cap, es);
    ExecSlots(Init<T>(cap), es);
    k := LongestWasReached(Init(cap), es);
  }

  /** A pop that reports the ring empty, or a clear that finishes, is right: at some moment
      of the call it was. */
  lemma RefusedPopSawEmpty<T>(cap: nat, es: seq<Event<T>>) returns (k: nat)
    requires ValidCapacity(cap) && Feasible(Init(cap), es)
    requires Exec(Init(cap), es).consumer == Done(PopResult(None)) || Exec(Init(cap), es).consumer == Done(ClearResult)
    ensures LengthDuringPop(Init(cap), es, k, 0)
  {
    InitInv<T>(cap);
    ReachableInv(cap, es);
    k := ShortestWasReached(Init(cap), es);
  }

  // ----- slots and lifetimes ------------------------------------------------------------

  /** The producer constructs only in a raw slot, the consumer takes only a live value, and it
      is the oldest; while both are at work their slots differ. */
  lemma LifetimesRespected<T>(cap: nat, es: seq<Event<T>>)
    requires ValidCapacity(cap) && Feasible(Init(cap), es)
    ensures var s := Exec(Init(cap), es);
            && |s.slots| == cap && |s.removed| <= |s.pushed|
            && (s.producer.Construct? ==> s.slots[SlotOf(s.producer.head, cap)] == Raw)
            && (s.consumer.Move? || s.consumer.ClearDestroy? ==>
                  Queue(s) != [] && s.slots[SlotOf(s.consumer.tail, cap)] == Live(Queue(s)[0]))
            && (s.consumer.Destroy? ==> s.slots[SlotOf(s.consumer.tail, cap)] == MovedFrom)
            && (s.producer.Construct? && (s.consumer.Move? || s.consumer.ClearDestroy? || s.consumer.Destroy?) ==>
                  SlotOf(s.producer.head, cap) != SlotOf(s.consumer.tail, cap))
  {
    ReachableInv(cap, es);
    ExecSlots(Init<T>(cap), es);
    var s := Exec(Init(cap), es);
    SlotOfWrapped(|s.pushed|, cap);
    SlotOfWrapped(|s.removed|, cap);
    if s.consumer.Move? || s.consumer.ClearDestroy? { FrontIsLive(s); }
    if s.producer.Construct? && Length(s) > 0 { SlotsDistinct(|s.removed|, |s.pushed|, cap); }
  }

  lemma WrappedSlot(counter: nat, n: nat, cap: nat)
    requires ValidCapacity(cap)
    ensures SlotOf(counter + n, cap) == SlotOf(counter % WORD + n, cap)
  {
    var m, x := counter + n, counter % WORD + n;
    SlotOfWrapped(m, cap);
    SlotOfWrapped(x, cap);
    assert m == (counter / WORD) * WORD + x;
    DivModUnique(m, WORD, counter / WORD + x / WORD, x % WORD);
  }

  /** Between operations the ring holds exactly the queue, oldest first from the front
      cursor, and nothing else is alive: destruction after a clear leaks nothing. */
  lemma QuiescentSlots<T>(cap: nat, es: seq<Event<T>>, n: nat)
    requires ValidCapacity(cap) && Feasible(Init(cap), es)
    requires Exec(Init(cap), es).producer.Idle? && Exec(Init(cap), es).consumer.Idle? && n < cap
    ensures var s := Exec(Init(cap), es);
            && |s.slots| == cap && |s.removed| <= |s.pushed|
            && s.slots[SlotOf(s.front + n, cap)] == if n < |Queue(s)| then Live(Queue(s)[n]) else Raw
  {
    ReachableInv(cap, es);
    ExecSlots(Init<T>(cap), es);
    var s := Exec(Init(cap), es);
    var m := |s.removed| + n;
    WrappedSlot(|s.removed|, n, cap);
    assert s.slots[SlotOf(m, cap)]
        == Expected(ReadCursors(|s.removed|, s.consumer), WriteCursors(|s.pushed|, s.producer), s.pushed,
                    FrontSlot(s.consumer), BackSlot(s.producer), m);
  }

  // ----- operations that are not interrupted -----------------------------------------

  /** What the consumer owns is as it was. */
  ghost predicate ConsumerAsleep<T>(s0: State<T>, s: State<T>) {
    s.consumer == s0.consumer && s.front == s0.front && s.removed == s0.removed && |s.slots| == |s0.slots|
  }

  /** The producer is somewhere inside `push` of `v`, begun in `s0`; the consumer has not moved. */
  ghost predicate PushingSince<T>(s0: State<T>, s: State<T>, v: T) {
    && ConsumerAsleep(s0, s)
    && if s.producer.Done? then
         && s.producer.result == PushResult(Length(s0) < |s.slots|)
         && s.pushed == if Length(s0) < |s.slots| then s0.pushed + [v] else s0.pushed
       else
         && s.pushed == s0.pushed && s.back == s0.back
         && match s.producer
            case SizeLoads(why) => why.ToPush? && why.v == v && why.tests > 0
            case SizeHasBack(why, b, _) => why.ToPush? && why.v == v && why.tests > 0 && b == s.back
            case SizeHasFront(why, f, _) => why.ToPush? && why.v == v && why.tests > 0 && f == s.front
            case LoadBack(w) => w == v && Length(s0) < |s.slots|
            case Construct(w, _) => w == v && Length(s0) < |s.slots|
            case StoreBack(w, _) => w == v && Length(s0) < |s.slots|
            case _ => false
  }

  /** How many accesses a push has before it at most. */
  function PushRemaining<T>(pc: Pc<T>): nat {
    match pc
    case SizeLoads(why) => if why.ToPush? then 2 * why.tests + 4 else 0
    case SizeHasBack(why, _, _) => if why.ToPush? then 2 * why.tests + 3 else 0
    case SizeHasFront(why, _, _) => if why.ToPush? then 2 * why.tests + 3 else 0
    case LoadBack(_) => 3
    case Construct(_, _) => 2
    case StoreBack(_, _) => 1
    case _ => 0
  }

  lemma PushingSinceStep<T>(s0: State<T>, s: State<T>, v: T, backFirst: bool)
    requires Inv(s) && PushingSince(s0, s, v) && !s.producer.Done?
    requires |s0.removed| <= |s0.pushed|
    ensures var s' := Apply(s, AdvanceProducer(backFirst));
            PushingSince(s0, s', v) && PushRemaining(s'.producer) < PushRemaining(s.producer)
  {
    SizeIsDistance(|s.slots|, |s.pushed|, |s.removed|);
  }

  /** What the producer owns is as it was. */
  ghost predicate ProducerAsleep<T>(s0: State<T>, s: State<T>) {
    s.producer == s0.producer && s.back == s0.back && s.pushed == s0.pushed && |s.slots| == |s0.slots|
  }

  /** The consumer is somewhere inside `pop`, begun in `s0`; the producer has not moved. */
  ghost predicate PoppingSince<T>(s0: State<T>, s: State<T>)
    requires |s0.removed| <= |s0.pushed|
  {
    && ProducerAsleep(s0, s)
    && if s.consumer.Done? then
         if Length(s0) == 0 then s.consumer.result == PopResult(None) && s.removed == s0.removed
         else
           && s.consumer.result == PopResult(Some(s0.pushed[|s0.removed|]))
           && s.removed == s0.removed + [RingSpec.Handed(s0.pushed[|s0.removed|])]
       else
         && s.removed == s0.removed && s.front == s0.front
         && match s.consumer
            case SizeLoads(why) => why.ToPop?
            case SizeHasBack(why, b, _) => why.ToPop? && b == s.back
            case SizeHasFront(why, f, _) => why.ToPop? && f == s.front
            case LoadFront => Length(s0) > 0
            case Move(_) => Length(s0) > 0
            case Destroy(_, _) => Length(s0) > 0
            case StoreFront(_, _) => Length(s0) > 0
            case _ => false
  }

  function PopRemaining<T>(pc: Pc<T>): nat {
    match pc
    case SizeLoads(_) => 6
    case SizeHasBack(_, _, _) => 5
    case SizeHasFront(_, _, _) => 5
    case LoadFront => 4
    case Move(_) => 3
    case Destroy(_, _) => 2
    case StoreFront(_, _) => 1
    case _ => 0
  }

  lemma PoppingSinceStep<T>(s0: State<T>, s: State<T>, backFirst: bool)
    requires |s0.removed| <= |s0.pushed|
    requires Inv(s) && PoppingSince(s0, s) && !s.consumer.Done?
    ensures var s' := Apply(s, AdvanceConsumer(backFirst));
            PoppingSince(s0, s') && PopRemaining(s'.consumer) < PopRemaining(s.consumer)
  {
    SizeIsDistance(|s.slots|, |s.pushed|, |s.removed|);
    if s.consumer.Move? { FrontIsLive(s); }
  }
}
