/** What an operation of the SPSC ring reports when it is done, whatever the other side does
    meanwhile: what it did, and for `size` a length the queue had during the call. */
module SpscResults {
  import opened Options
  import opened RingSpec
  import opened SpscProtocol
  import opened SpscTheorems
  import opened Words

  /** The producer, or the consumer, stays in the call it is in. */
  ghost predicate ProducerStays<T>(es: seq<Event<T>>) {
    forall i :: 0 <= i < |es| ==> es[i] != ReturnProducer
  }

  ghost predicate ConsumerStays<T>(es: seq<Event<T>>) {
    forall i :: 0 <= i < |es| ==> es[i] != ReturnConsumer
  }

  // ----- the answer of size ------------------------------------------------------------

  /** At some moment of the run the queue has length `n`. */
  ghost predicate LengthSometime<T>(s: State<T>, es: seq<Event<T>>, n: int)
    requires IsPow2(|s.slots|) && Feasible(s, es)
    decreases |es|
  {
    Length(s) == n || (es != [] && LengthSometime(Apply(s, es[0]), es[1..], n))
  }

  /** The producer, inside `size`, has loaded the front cursor and will answer `n`, or has. */
  ghost predicate ProducerWillAnswer<T>(s: State<T>, n: int) {
    && Length(s) <= n <= |s.slots| && 0 <= n
    && match s.producer
       case SizeHasFront(why, _, seen) => why.ToReport? && n == |s.pushed| - seen
       case Done(result) => result == SizeResult(n)
       case _ => false
  }

  /** It has not. */
  predicate ProducerAsks<T>(pc: Pc<T>) {
    (pc.SizeLoads? || pc.SizeHasBack?) && pc.why.ToReport?
  }

  lemma ProducerAnswerStays<T>(s: State<T>, e: Event<T>, n: nat)
    requires Inv(s) && Enabled(s, e) && e != ReturnProducer && ProducerWillAnswer(s, n)
    ensures ProducerWillAnswer(Apply(s, e), n)
  {
    ApplyKeepsInv(s, e);
    if s.producer.SizeHasFront? { SizeIsDistance(|s.slots|, |s.pushed|, s.producer.seen); }
  }

  /** The answer is the length at the moment of the load of the front cursor. */
  lemma ProducerAsksStep<T>(s: State<T>, e: Event<T>)
    requires Inv(s) && Enabled(s, e) && e != ReturnProducer && ProducerAsks(s.producer)
    ensures ProducerAsks(Apply(s, e).producer) || ProducerWillAnswer(Apply(s, e), Length(s))
  {
    SizeIsDistance(|s.slots|, |s.pushed|, |s.removed|);
  }

  lemma {:induction false} ProducerAnswered<T>(s: State<T>, es: seq<Event<T>>, n: nat)
    requires Inv(s) && Feasible(s, es) && ProducerStays(es) && ProducerWillAnswer(s, n)
    ensures ProducerWillAnswer(Exec(s, es), n)
    decreases |es|
  {
    if es != [] {
      ProducerAnswerStays(s, es[0], n);
      ApplyKeepsInv(s, es[0]);
      assert forall i :: 0 <= i < |es[1..]| ==> es[1..][i] == es[i + 1];
      ProducerAnswered(Apply(s, es[0]), es[1..], n);
    }
  }

  /** What `size()` answers to the producer is a length the queue had during the call, within
      the capacity, and not less than the length now: only the consumer can have moved on. */
  lemma {:induction false} ProducerSizeMeans<T>(s: State<T>, es: seq<Event<T>>)
    requires Inv(s) && Feasible(s, es) && ProducerStays(es) && ProducerAsks(s.producer)
    requires Exec(s, es).producer.Done?
    ensures var s' := Exec(s, es);
            && s'.producer.result.SizeResult?
            && Length(s') <= s'.producer.result.n <= |s'.slots|
            && LengthSometime(s, es, s'.producer.result.n)
    decreases |es|
  {
    if es != [] {
      var e := es[0];
      ProducerAsksStep(s, e);
      ApplyKeepsInv(s, e);
      assert forall i :: 0 <= i < |es[1..]| ==> es[1..][i] == es[i + 1];
      if ProducerAsks(Apply(s, e).producer) {
        ProducerSizeMeans(Apply(s, e), es[1..]);
      } else {
        ProducerAnswered(Apply(s, e), es[1..], Length(s));
      }
    }
  }

  /** The consumer, inside `size`, has loaded the back cursor and will answer `n`, or has. */
  ghost predicate ConsumerWillAnswer<T>(s: State<T>, n: int) {
    && 0 <= n <= Length(s)
    && match s.consumer
       case SizeHasBack(why, _, seen) => why.ToReport? && n == seen - |s.removed|
       case Done(result) => result == SizeResult(n)
       case _ => false
  }

  predicate ConsumerAsks<T>(pc: Pc<T>) {
    (pc.SizeLoads? || pc.SizeHasFront?) && pc.why.ToReport?
  }

  lemma ConsumerAnswerStays<T>(s: State<T>, e: Event<T>, n: nat)
    requires Inv(s) && Enabled(s, e) && e != ReturnConsumer && ConsumerWillAnswer(s, n)
    ensures ConsumerWillAnswer(Apply(s, e), n)
  {
    ApplyKeepsInv(s, e);
    if s.consumer.SizeHasBack? { SizeIsDistance(|s.slots|, s.consumer.seen, |s.removed|); }
  }

  /** The answer is the length at the moment of the load of the back cursor. */
  lemma ConsumerAsksStep<T>(s: State<T>, e: Event<T>)
    requires Inv(s) && Enabled(s, e) && e != ReturnConsumer && ConsumerAsks(s.consumer)
    ensures ConsumerAsks(Apply(s, e).consumer) || ConsumerWillAnswer(Apply(s, e), Length(s))
  {
    SizeIsDistance(|s.slots|, |s.pushed|, |s.removed|);
  }

  lemma {:induction false} ConsumerAnswered<T>(s: State<T>, es: seq<Event<T>>, n: nat)
    requires Inv(s) && Feasible(s, es) && ConsumerStays(es) && ConsumerWillAnswer(s, n)
    ensures ConsumerWillAnswer(Exec(s, es), n)
    decreases |es|
  {
    if es != [] {
      ConsumerAnswerStays(s, es[0], n);
      ApplyKeepsInv(s, es[0]);
      assert forall i :: 0 <= i < |es[1..]| ==> es[1..][i] == es[i + 1];
      ConsumerAnswered(Apply(s, es[0]), es[1..], n);
    }
  }

  /** What `size()` answers to the consumer is a length the queue had during the call, and not
      more than the length now: only the producer can have moved on. */
  lemma {:induction false} ConsumerSizeMeans<T>(s: State<T>, es: seq<Event<T>>)
    requires Inv(s) && Feasible(s, es) && ConsumerStays(es) && ConsumerAsks(s.consumer)
    requires Exec(s, es).consumer.Done?
    ensures var s' := Exec(s, es);
            && s'.consumer.result.SizeResult?
            && s'.consumer.result.n <= Length(s')
            && LengthSometime(s, es, s'.consumer.result.n)
    decreases |es|
  {
    if es != [] {
      var e := es[0];
      ConsumerAsksStep(s, e);
      ApplyKeepsInv(s, e);
      assert forall i :: 0 <= i < |es[1..]| ==> es[1..][i] == es[i + 1];
      if ConsumerAsks(Apply(s, e).consumer) {
        ConsumerSizeMeans(Apply(s, e), es[1..]);
      } else {
        ConsumerAnswered(Apply(s, e), es[1..], Length(s));
      }
    }
  }

  // ----- the other results --------------------------------------------------------------

  /** The producer is inside `push` of `v`, begun when `base` had been pushed. */
  ghost predicate InsidePush<T>(s: State<T>, base: seq<T>, v: T) {
    match s.producer
    case SizeLoads(why) => why.ToPush? && why.v == v && s.pushed == base
    case SizeHasBack(why, _, _) => why.ToPush? && why.v == v && s.pushed == base
    case SizeHasFront(why, _, _) => why.ToPush? && why.v == v && s.pushed == base
    case LoadBack(w) => w == v && s.pushed == base
    case Construct(w, _) => w == v && s.pushed == base
    case StoreBack(w, _) => w == v && s.pushed == base
    case Done(result) => result.PushResult? && s.pushed == base + (if result.ok then [v] else [])
    case _ => false
  }

  lemma InsidePushStays<T>(s: State<T>, e: Event<T>, base: seq<T>, v: T)
    requires IsPow2(|s.slots|) && Enabled(s, e) && e != ReturnProducer && InsidePush(s, base, v)
    ensures InsidePush(Apply(s, e), base, v)
  {
  }

  /** A push reports what it did: success exactly when its value has been published, once. */
  lemma {:induction false} PushReportsItsEffect<T>(s: State<T>, es: seq<Event<T>>, base: seq<T>, v: T)
    requires Inv(s) && Feasible(s, es) && ProducerStays(es) && InsidePush(s, base, v)
    ensures InsidePush(Exec(s, es), base, v)
    decreases |es|
  {
    if es != [] {
      InsidePushStays(s, es[0], base, v);
      ApplyKeepsInv(s, es[0]);
      assert forall i :: 0 <= i < |es[1..]| ==> es[1..][i] == es[i + 1];
      PushReportsItsEffect(Apply(s, es[0]), es[1..], base, v);
    }
  }

  /** The consumer is inside `pop`, begun when `base` had left. */
  ghost predicate InsidePop<T>(s: State<T>, base: seq<Removal<T>>) {
    match s.consumer
    case SizeLoads(why) => why.ToPop? && s.removed == base
    case SizeHasBack(why, _, _) => why.ToPop? && s.removed == base
    case SizeHasFront(why, _, _) => why.ToPop? && s.removed == base
    case LoadFront => s.removed == base
    case Move(_) => s.removed == base
    case Destroy(_, _) => s.removed == base
    case StoreFront(_, _) => s.removed == base
    case Done(result) =>
      result.PopResult? && s.removed == base + (if result.value.Some? then [Handed(result.value.value)] else [])
    case _ => false
  }

  lemma InsidePopStays<T>(s: State<T>, e: Event<T>, base: seq<Removal<T>>)
    requires IsPow2(|s.slots|) && Enabled(s, e) && e != ReturnConsumer && InsidePop(s, base)
    ensures InsidePop(Apply(s, e), base)
  {
  }

  /** A pop reports what it did: one value handed over, the one it returns, or none. */
  lemma {:induction false} PopReportsItsEffect<T>(s: State<T>, es: seq<Event<T>>, base: seq<Removal<T>>)
    requires Inv(s) && Feasible(s, es) && ConsumerStays(es) && InsidePop(s, base)
    ensures InsidePop(Exec(s, es), base)
    decreases |es|
  {
    if es != [] {
      InsidePopStays(s, es[0], base);
      ApplyKeepsInv(s, es[0]);
      assert forall i :: 0 <= i < |es[1..]| ==> es[1..][i] == es[i + 1];
      PopReportsItsEffect(Apply(s, es[0]), es[1..], base);
    }
  }

  /** The consumer is inside `clear`: what has left since `base` was destroyed in place. */
  ghost predicate InsideClear<T>(s: State<T>, base: seq<Removal<T>>) {
    && base <= s.removed
    && (forall i :: |base| <= i < |s.removed| ==> s.removed[i].Destroyed?)
    && match s.consumer
       case SizeLoads(why) => why.ToClear?
       case SizeHasBack(why, _, _) => why.ToClear?
       case SizeHasFront(why, _, _) => why.ToClear?
       case ClearLoadSlot => true
       case ClearDestroy(_) => true
       case ClearLoadFront(_) => true
       case ClearStore(_, _) => true
       case Done(result) => result == ClearResult
       case _ => false
  }

  lemma InsideClearStays<T>(s: State<T>, e: Event<T>, base: seq<Removal<T>>)
    requires IsPow2(|s.slots|) && Enabled(s, e) && e != ReturnConsumer && InsideClear(s, base)
    ensures InsideClear(Apply(s, e), base)
  {
  }

  /** A clear hands nothing over: every value it takes out is destroyed in its slot. */
  lemma {:induction false} ClearOnlyDestroys<T>(s: State<T>, es: seq<Event<T>>, base: seq<Removal<T>>)
    requires Inv(s) && Feasible(s, es) && ConsumerStays(es) && InsideClear(s, base)
    ensures InsideClear(Exec(s, es), base)
    decreases |es|
  {
    if es != [] {
      InsideClearStays(s, es[0], base);
      ApplyKeepsInv(s, es[0]);
      assert forall i :: 0 <= i < |es[1..]| ==> es[1..][i] == es[i + 1];
      ClearOnlyDestroys(Apply(s, es[0]), es[1..], base);
    }
  }

  // ----- size and clear that are not interrupted ---------------------------------------

  /** A thread is somewhere inside `size`, begun in `s0`, and nothing has changed since. */
  ghost predicate Sizing<T>(s0: State<T>, s: State<T>, pc: Pc<T>) {
    && s.front == s0.front && s.back == s0.back && s.pushed == s0.pushed && s.removed == s0.removed
    && |s.slots| == |s0.slots|
    && match pc
       case SizeLoads(why) => why.ToReport?
       case SizeHasBack(why, b, _) => why.ToReport? && b == s.back
       case SizeHasFront(why, f, _) => why.ToReport? && f == s.front
       case Done(result) => result.SizeResult? && result.n == Length(s0)
       case _ => false
  }

  function SizeRemaining<T>(pc: Pc<T>): nat {
    match pc
    case SizeLoads(_) => 2
    case SizeHasBack(_, _, _) => 1
    case SizeHasFront(_, _, _) => 1
    case _ => 0
  }

  lemma ProducerSizingStep<T>(s0: State<T>, s: State<T>, backFirst: bool)
    requires Inv(s) && Sizing(s0, s, s.producer) && !s.producer.Done?
    ensures var s' := Apply(s, AdvanceProducer(backFirst));
            && Sizing(s0, s', s'.producer) && s'.consumer == s.consumer
            && SizeRemaining(s'.producer) < SizeRemaining(s.producer)
  {
    SizeIsDistance(|s.slots|, |s.pushed|, |s.removed|);
  }

  lemma ConsumerSizingStep<T>(s0: State<T>, s: State<T>, backFirst: bool)
    requires Inv(s) && Sizing(s0, s, s.consumer) && !s.consumer.Done?
    ensures var s' := Apply(s, AdvanceConsumer(backFirst));
            && Sizing(s0, s', s'.consumer) && s'.producer == s.producer
            && SizeRemaining(s'.consumer) < SizeRemaining(s.consumer)
  {
    SizeIsDistance(|s.slots|, |s.pushed|, |s.removed|);
  }

  /** The consumer is somewhere inside `clear`, begun in `s0`; the producer has not moved. */
  ghost predicate ClearingSince<T>(s0: State<T>, s: State<T>) {
    && ProducerAsleep(s0, s) && InsideClear(s, s0.removed) && |s.removed| <= |s.pushed|
    && match s.consumer
       case SizeLoads(_) => true
       case SizeHasBack(_, b, _) => b == s.back
       case SizeHasFront(_, f, _) => f == s.front
       case Done(_) => Length(s) == 0
       case _ => Length(s) > 0
  }

  /** Seven accesses for each value, and two to see that none is left. */
  function ClearRemaining<T>(length: nat, pc: Pc<T>): int {
    7 * length +
    match pc
    case SizeLoads(_) => 3
    case SizeHasBack(_, _, _) => 2
    case SizeHasFront(_, _, _) => 2
    case ClearLoadSlot => 1
    case ClearDestroy(_) => 0
    case ClearLoadFront(_) => -1
    case ClearStore(_, _) => -2
    case _ => 0
  }

  lemma ClearingStep<T>(s0: State<T>, s: State<T>, backFirst: bool)
    requires Inv(s) && ClearingSince(s0, s) && !s.consumer.Done?
    ensures var s' := Apply(s, AdvanceConsumer(backFirst));
            && Inv(s') && ClearingSince(s0, s')
            && 0 <= ClearRemaining(Length(s'), s'.consumer) < ClearRemaining(Length(s), s.consumer)
  {
    ApplyKeepsInv(s, AdvanceConsumer(backFirst));
    SizeIsDistance(|s.slots|, |s.pushed|, |s.removed|);
    InsideClearStays(s, AdvanceConsumer(backFirst), s0.removed);
    if s.consumer.ClearDestroy? { FrontIsLive(s); }
  }

  /** What a clear has done when it is done: destroyed everything, oldest first. */
  lemma ClearedSince<T>(s0: State<T>, s: State<T>)
    requires Inv(s0) && Inv(s) && ClearingSince(s0, s) && s.consumer.Done?
    ensures Queue(s) == [] && s.removed == s0.removed + Kill(Queue(s0))
  {
    assert Values(s.removed) == s.pushed;
    forall i | |s0.removed| <= i < |s.removed| ensures s.removed[i] == Destroyed(s0.pushed[i]) {
      assert Values(s.removed)[i] == s.removed[i].v;
    }
  }
}
