/** The single-producer single-consumer ring as a machine. Both cursors are 64-bit words that
    wrap; `size()` reads them with two separate loads, in either order. The producer constructs
    and then stores the back cursor, the consumer empties a slot and then stores the front
    cursor. */
module SpscProtocol {
  import opened BoundedFifo
  import opened Options
  import opened RingSpec
  import opened RingWindow
  import opened Storage
  import opened Words

  /** Why a thread reads the size. `tests` counts the tests left: `push` asks `full()` and, in
      debug builds, so does the `emplace` it calls; `passed` says that one of them passed. */
  datatype Why<T> = ToPush(v: T, tests: nat, passed: bool) | ToPop | ToClear | ToReport

  datatype Result<T> = PushResult(ok: bool) | PopResult(value: Option<T>) | ClearResult | SizeResult(n: nat)

  /** The next access of a thread. `seen` is history: the unbounded value of the cursor that
      was loaded. */
  datatype Pc<T> =
    | Idle
    | SizeLoads(why: Why<T>)
    | SizeHasBack(why: Why<T>, b: nat, seen: nat)
    | SizeHasFront(why: Why<T>, f: nat, seen: nat)
    | LoadBack(v: T)
    | Construct(v: T, head: nat)
    | StoreBack(v: T, head: nat)
    | LoadFront
    | Move(tail: nat)
    | Destroy(tail: nat, temp: T)
    | StoreFront(tail: nat, temp: T)
    | ClearLoadSlot
    | ClearDestroy(tail: nat)
    | ClearLoadFront(gone: T)
    | ClearStore(tail: nat, gone: T)
    | Done(result: Result<T>)

  /** `pushed` and `removed` are history: every value published and every value that left, in
      order. `longest` is the greatest length of the queue since the producer's last call,
      `shortest` the least since the consumer's. */
  datatype State<T> = State(
    slots: seq<Slot<T>>,
    front: nat,
    back: nat,
    producer: Pc<T>,
    consumer: Pc<T>,
    pushed: seq<T>,
    removed: seq<Removal<T>>,
    longest: nat,
    shortest: nat)

  function Init<T>(cap: nat): State<T> {
    State(seq(cap, i => Raw), 0, 0, Idle, Idle, [], [], 0, 0)
  }

  function Wrap(x: int): nat {
    x % WORD
  }

  // ----- the steps ------------------------------------------------------------------

  /** What a thread does with the size it computed from its two loads. */
  function Decide<T>(cap: nat, why: Why<T>, b: nat, f: nat): Pc<T> {
    var size := Wrap(b - f);
    match why
    case ToPush(v, tests, _) =>
      if Wrap(cap - size) == 0 then Done(PushResult(false))
      else if tests > 1 then SizeLoads(ToPush(v, tests - 1, true))
      else LoadBack(v)
    case ToPop => if size == 0 then Done(PopResult(None)) else LoadFront
    case ToClear => if size == 0 then Done(ClearResult) else ClearLoadSlot
    case ToReport => Done(SizeResult(size))
  }

  /** One load of `size()`. */
  function StepSize<T>(s: State<T>, pc: Pc<T>, backFirst: bool): Pc<T> {
    match pc
    case SizeLoads(why) =>
      if backFirst then SizeHasBack(why, s.back, |s.pushed|) else SizeHasFront(why, s.front, |s.removed|)
    case SizeHasBack(why, b, _) => Decide(|s.slots|, why, b, s.front)
    case SizeHasFront(why, f, _) => Decide(|s.slots|, why, s.back, f)
    case _ => pc
  }

  /** `emplace` after its test: load the back cursor, construct, publish. */
  function StepProducer<T>(s: State<T>, backFirst: bool): State<T>
    requires IsPow2(|s.slots|)
  {
    match s.producer
    case LoadBack(v) => s.(producer := Construct(v, s.back))
    case Construct(v, head) =>
      s.(slots := s.slots[SlotOf(head, |s.slots|) := Live(v)], producer := StoreBack(v, head))
    case StoreBack(v, head) =>
      s.(back := Wrap(head + 1), pushed := s.pushed + [v], producer := Done(PushResult(true)))
    case _ => s.(producer := StepSize(s, s.producer, backFirst))
  }

  /** `pop` after its test: load the front cursor, move out, destroy, publish; and the loop
      of `clear`. */
  function StepConsumer<T>(s: State<T>, backFirst: bool): State<T>
    requires IsPow2(|s.slots|)
  {
    match s.consumer
    case LoadFront => s.(consumer := Move(s.front))
    case Move(tail) =>
      if s.slots[SlotOf(tail, |s.slots|)].Live? then
        s.(slots := s.slots[SlotOf(tail, |s.slots|) := MovedFrom],
           consumer := Destroy(tail, s.slots[SlotOf(tail, |s.slots|)].val))
      else s
    case Destroy(tail, temp) =>
      s.(slots := s.slots[SlotOf(tail, |s.slots|) := Raw], consumer := StoreFront(tail, temp))
    case StoreFront(tail, temp) =>
      s.(front := Wrap(tail + 1), removed := s.removed + [Handed(temp)],
         consumer := Done(PopResult(Some(temp))))
    case ClearLoadSlot => s.(consumer := ClearDestroy(s.front))
    case ClearDestroy(tail) =>
      if s.slots[SlotOf(tail, |s.slots|)].Live? then
        s.(slots := s.slots[SlotOf(tail, |s.slots|) := Raw],
           consumer := ClearLoadFront(s.slots[SlotOf(tail, |s.slots|)].val))
      else s
    case ClearLoadFront(gone) => s.(consumer := ClearStore(s.front, gone))
    case ClearStore(tail, gone) =>
      s.(front := Wrap(tail + 1), removed := s.removed + [Destroyed(gone)],
         consumer := SizeLoads(ToClear))
    case _ => s.(consumer := StepSize(s, s.consumer, backFirst))
  }

  datatype Op<T> = Push(v: T, tests: nat) | Pop(checked: bool) | Clear | Size

  datatype Event<T> =
    | CallProducer(op: Op<T>)
    | AdvanceProducer(backFirst: bool)
    | ReturnProducer
    | CallConsumer(op: Op<T>)
    | AdvanceConsumer(backFirst: bool)
    | ReturnConsumer

  /** How many values are in the queue. */
  function Length<T>(s: State<T>): int {
    |s.pushed| - |s.removed|
  }

  /** The unchecked forms demand room, or a value, of their callers. */
  predicate Enabled<T>(s: State<T>, e: Event<T>) {
    match e
    case CallProducer(op) =>
      s.producer.Idle? && (op.Push? || op.Size?) && (op.Push? && op.tests == 0 ==> Length(s) < |s.slots|)
    case AdvanceProducer(_) => !s.producer.Idle? && !s.producer.Done?
    case ReturnProducer => s.producer.Done?
    case CallConsumer(op) =>
      s.consumer.Idle? && !op.Push? && (op.Pop? && !op.checked ==> Length(s) > 0)
    case AdvanceConsumer(_) => !s.consumer.Idle? && !s.consumer.Done?
    case ReturnConsumer => s.consumer.Done?
  }

  function StartPc<T>(op: Op<T>): Pc<T> {
    match op
    case Push(v, tests) => if tests == 0 then LoadBack(v) else SizeLoads(ToPush(v, tests, false))
    case Pop(checked) => if checked then SizeLoads(ToPop) else LoadFront
    case Clear => SizeLoads(ToClear)
    case Size => SizeLoads(ToReport)
  }

  /** Keeps the history of lengths. */
  function Note<T>(s: State<T>): State<T> {
    var n := if Length(s) >= 0 then Length(s) else 0;
    s.(longest := if n > s.longest then n else s.longest, shortest := if n < s.shortest then n else s.shortest)
  }

  function Act<T>(s: State<T>, e: Event<T>): State<T>
    requires IsPow2(|s.slots|) && Enabled(s, e)
  {
    match e
    case CallProducer(op) => s.(producer := StartPc(op), longest := 0)
    case AdvanceProducer(backFirst) => StepProducer(s, backFirst)
    case ReturnProducer => s.(producer := Idle)
    case CallConsumer(op) => s.(consumer := StartPc(op), shortest := |s.slots|)
    case AdvanceConsumer(backFirst) => StepConsumer(s, backFirst)
    case ReturnConsumer => s.(consumer := Idle)
  }

  function Apply<T>(s: State<T>, e: Event<T>): (s': State<T>)
    requires IsPow2(|s.slots|) && Enabled(s, e)
    ensures |s'.slots| == |s.slots|
  {
    Note(Act(s, e))
  }

  predicate Feasible<T>(s: State<T>, es: seq<Event<T>>)
    requires IsPow2(|s.slots|)
    decreases |es|
  {
    es == [] || (Enabled(s, es[0]) && Feasible(Apply(s, es[0]), es[1..]))
  }

  function Exec<T>(s: State<T>, es: seq<Event<T>>): State<T>
    requires IsPow2(|s.slots|) && Feasible(s, es)
    decreases |es|
  {
    if es == [] then s else Exec(Apply(s, es[0]), es[1..])
  }

  // ----- the invariant --------------------------------------------------------------

  /** The consumer has taken the front value out of its slot and not yet published that. */
  predicate FrontBusy<T>(pc: Pc<T>) {
    pc.Destroy? || pc.StoreFront? || pc.ClearLoadFront? || pc.ClearStore?
  }

  function FrontSlot<T>(pc: Pc<T>): Slot<T> {
    if pc.Destroy? then MovedFrom else Raw
  }

  function BackSlot<T>(pc: Pc<T>): Slot<T> {
    if pc.StoreBack? then Live(pc.v) else Raw
  }

  function ReadCursors<T>(removed: nat, consumer: Pc<T>): Cursors {
    Cursors(if FrontBusy(consumer) then removed + 1 else removed, removed)
  }

  function WriteCursors<T>(pushed: nat, producer: Pc<T>): Cursors {
    Cursors(if producer.StoreBack? then pushed + 1 else pushed, pushed)
  }

  /** The slots as the unbounded cursors see them. */
  ghost predicate Slots<T>(slots: seq<Slot<T>>, pushed: seq<T>, removed: nat, producer: Pc<T>, consumer: Pc<T>)
  {
    && CursorOrder(|slots|, ReadCursors(removed, consumer), WriteCursors(|pushed|, producer))
    && Window(slots, ReadCursors(removed, consumer), WriteCursors(|pushed|, producer), pushed,
              FrontSlot(consumer), BackSlot(producer))
  }

  /** The words are the unbounded cursors modulo 2^64. */
  ghost predicate Counters<T>(s: State<T>) {
    && ValidCapacity(|s.slots|)
    && s.back == |s.pushed| % WORD && s.front == |s.removed| % WORD
    && |s.removed| <= |s.pushed| <= |s.removed| + |s.slots|
    && Values(s.removed) == s.pushed[..|s.removed|]
    && (!s.producer.Idle? ==> Length(s) <= s.longest <= |s.slots|)
    && (!s.consumer.Idle? ==> s.shortest <= Length(s))
  }

  /** What the producer's program counter says. Its own cursor is never stale; the front
      cursor it loaded may be, and then it only overestimates the length. */
  ghost predicate ProducerOk<T>(cap: nat, back: nat, pushed: nat, removed: nat, longest: nat, pc: Pc<T>) {
    match pc
    case Idle => true
    case SizeLoads(why) => WhyOk(cap, pushed, removed, why)
    case SizeHasBack(why, b, seen) => WhyOk(cap, pushed, removed, why) && seen == pushed && b == back
    case SizeHasFront(why, f, seen) =>
      WhyOk(cap, pushed, seen, why) && f == seen % WORD && seen <= removed && seen <= pushed <= seen + cap &&
      pushed - seen <= longest
    case LoadBack(_) => pushed < removed + cap
    case Construct(_, head) => pushed < removed + cap && head == back
    case StoreBack(_, head) => pushed < removed + cap && head == back
    case Done(result) =>
      match result {
        case PushResult(ok) => !ok ==> longest == cap
        case SizeResult(n) => n <= longest
        case _ => false
      }
    case _ => false
  }

  /** A producer that passed one full test has room for good. */
  ghost predicate WhyOk<T>(cap: nat, pushed: nat, removed: nat, why: Why<T>) {
    why.ToReport? || (why.ToPush? && why.tests > 0 && (why.passed ==> pushed < removed + cap))
  }

  /** What the consumer's program counter says. */
  ghost predicate ConsumerOk<T>(s: State<T>, pc: Pc<T>) {
    match pc
    case Idle => true
    case SizeLoads(why) => !why.ToPush?
    case SizeHasFront(why, f, seen) => !why.ToPush? && seen == |s.removed| && f == s.front
    case SizeHasBack(why, b, seen) =>
      !why.ToPush? && b == seen % WORD && |s.removed| <= seen <= |s.pushed| && s.shortest <= seen - |s.removed|
    case LoadFront => Length(s) > 0
    case Move(tail) => Length(s) > 0 && tail == s.front
    case Destroy(tail, temp) => Length(s) > 0 && tail == s.front && temp == s.pushed[|s.removed|]
    case StoreFront(tail, temp) => Length(s) > 0 && tail == s.front && temp == s.pushed[|s.removed|]
    case ClearLoadSlot => Length(s) > 0
    case ClearDestroy(tail) => Length(s) > 0 && tail == s.front
    case ClearLoadFront(gone) => Length(s) > 0 && gone == s.pushed[|s.removed|]
    case ClearStore(tail, gone) => Length(s) > 0 && tail == s.front && gone == s.pushed[|s.removed|]
    case Done(result) =>
      match result {
        case PushResult(_) => false
        case PopResult(None) => s.shortest == 0
        case PopResult(Some(v)) => s.removed != [] && s.removed[|s.removed| - 1] == Handed(v)
        case ClearResult => s.shortest == 0
        case SizeResult(n) => s.shortest <= n <= |s.slots|
      }
    case _ => false
  }

  ghost predicate Inv<T>(s: State<T>) {
    && Counters(s)
    && Slots(s.slots, s.pushed, |s.removed|, s.producer, s.consumer)
    && ProducerOk(|s.slots|, s.back, |s.pushed|, |s.removed|, s.longest, s.producer)
    && ConsumerOk(s, s.consumer)
  }

  lemma InitInv<T>(cap: nat)
    requires ValidCapacity(cap)
    ensures Inv(Init<T>(cap))
  {
  }

  // ----- preservation ---------------------------------------------------------------

  /** The size computed from a back value and a front value not above it is their true
      distance, and the full test compares it with the capacity. */
  lemma SizeIsDistance(cap: nat, b: nat, f: nat)
    requires ValidCapacity(cap) && f <= b <= f + cap
    ensures Wrap(b % WORD - f % WORD) == b - f
    ensures Wrap(cap - (b - f)) == 0 <==> b - f == cap
  {
    WrappedDifference(b, f, WORD);
  }

  /** The producer's part of the invariant survives the consumer's progress. */
  lemma ProducerMonotone<T>(cap: nat, back: nat, pushed: nat, removed: nat, removed': nat, longest: nat, pc: Pc<T>)
    requires ProducerOk(cap, back, pushed, removed, longest, pc) && removed <= removed' <= pushed
    ensures ProducerOk(cap, back, pushed, removed', longest, pc)
  {
  }

  /** Loads and tests of the producer. */
  lemma ProducerSizeStep<T>(s: State<T>, backFirst: bool)
    requires Inv(s) && (s.producer.SizeLoads? || s.producer.SizeHasBack? || s.producer.SizeHasFront?)
    ensures var pc := StepSize(s, s.producer, backFirst);
            && ProducerOk(|s.slots|, s.back, |s.pushed|, |s.removed|, s.longest, pc)
            && !pc.StoreBack?
  {
    var pc := s.producer;
    if pc.SizeHasBack? {
      SizeIsDistance(|s.slots|, |s.pushed|, |s.removed|);
    } else if pc.SizeHasFront? {
      SizeIsDistance(|s.slots|, |s.pushed|, pc.seen);
    }
  }

  /** Loads and tests of the consumer. */
  lemma ConsumerSizeStep<T>(s: State<T>, backFirst: bool)
    requires Inv(s) && (s.consumer.SizeLoads? || s.consumer.SizeHasBack? || s.consumer.SizeHasFront?)
    ensures var pc := StepSize(s, s.consumer, backFirst);
            ConsumerOk(s, pc) && !FrontBusy(pc) && !pc.Idle?
  {
    var pc := s.consumer;
    if pc.SizeHasBack? {
      SizeIsDistance(|s.slots|, pc.seen, |s.removed|);
    } else if pc.SizeHasFront? {
      SizeIsDistance(|s.slots|, |s.pushed|, |s.removed|);
    }
  }

  /** Construction makes the slot after the last value live. */
  lemma ConstructSlots<T>(s: State<T>)
    requires Inv(s) && s.producer.Construct?
    ensures var s' := StepProducer(s, false);
            Slots(s'.slots, s'.pushed, |s'.removed|, s'.producer, s'.consumer)
  {
    var cap, v := |s.slots|, s.producer.v;
    var read, write := ReadCursors(|s.removed|, s.consumer), WriteCursors(|s.pushed|, StoreBack(v, 0));
    SlotOfWrapped(|s.pushed|, cap);
    assert Window(s.slots, read, write, s.pushed, FrontSlot(s.consumer), Raw);
    SetBack(s.slots, read, write, s.pushed, FrontSlot(s.consumer), Raw, Live(v));
  }

  lemma PublishSlots<T>(s: State<T>)
    requires Inv(s) && s.producer.StoreBack?
    ensures var s' := StepProducer(s, false);
            Slots(s'.slots, s'.pushed, |s'.removed|, s'.producer, s'.consumer)
  {
    var read, write := ReadCursors(|s.removed|, s.consumer), WriteCursors(|s.pushed|, s.producer);
    AdvanceWrite(s.slots, read, write, s.pushed, FrontSlot(s.consumer), s.producer.v);
  }

  lemma ProducerStepKeepsInv<T>(s: State<T>, backFirst: bool)
    requires Inv(s) && !s.producer.Idle? && !s.producer.Done?
    ensures Inv(Note(StepProducer(s, backFirst)))
  {
    var pc := s.producer;
    if pc.StoreBack? {
      PublishSlots(s);
      PublishKeepsInv(s);
    } else if pc.LoadBack? || pc.Construct? {
      ConstructKeepsInv(s);
    } else {
      ProducerSizeKeepsInv(s, backFirst);
    }
  }

  lemma ConstructKeepsInv<T>(s: State<T>)
    requires Inv(s) && (s.producer.LoadBack? || s.producer.Construct?)
    ensures forall backFirst :: Inv(Note(StepProducer(s, backFirst)))
  {
    if s.producer.Construct? { ConstructSlots(s); }
  }

  lemma ProducerSizeKeepsInv<T>(s: State<T>, backFirst: bool)
    requires Inv(s) && (s.producer.SizeLoads? || s.producer.SizeHasBack? || s.producer.SizeHasFront?)
    ensures Inv(Note(s.(producer := StepSize(s, s.producer, backFirst))))
  {
    ProducerSizeStep(s, backFirst);
  }

  lemma PublishKeepsInv<T>(s: State<T>)
    requires Inv(s) && s.producer.StoreBack?
    requires var s' := StepProducer(s, false);
             Slots(s'.slots, s'.pushed, |s'.removed|, s'.producer, s'.consumer)
    ensures Inv(Note(StepProducer(s, false)))
  {
    NextWord(|s.pushed|);
    var s' := Note(StepProducer(s, false));
    assert s'.pushed[..|s.removed|] == s.pushed[..|s.removed|];
    assert ConsumerOk(s', s'.consumer);
  }

  /** The slot at the front cursor, which is live while the consumer is about to empty it. */
  lemma FrontIsLive<T>(s: State<T>)
    requires Inv(s) && Length(s) > 0 && !FrontBusy(s.consumer)
    ensures s.slots[SlotOf(s.front, |s.slots|)] == Live(s.pushed[|s.removed|])
  {
    SlotOfWrapped(|s.removed|, |s.slots|);
  }

  /** Emptying the front slot, in one step or two. */
  lemma EmptySlots<T>(s: State<T>, pc: Pc<T>)
    requires Inv(s) && Length(s) > 0 && FrontBusy(pc)
    ensures Slots(s.slots[SlotOf(s.front, |s.slots|) := FrontSlot(pc)], s.pushed, |s.removed|, s.producer, pc)
  {
    var read, write := ReadCursors(|s.removed|, pc), WriteCursors(|s.pushed|, s.producer);
    SlotOfWrapped(|s.removed|, |s.slots|);
    var was := if FrontBusy(s.consumer) then FrontSlot(s.consumer) else Live(s.pushed[|s.removed|]);
    assert Window(s.slots, read, write, s.pushed, was, BackSlot(s.producer));
    SetFront(s.slots, read, write, s.pushed, was, BackSlot(s.producer), FrontSlot(pc));
  }

  /** Publishing the empty front slot. */
  lemma ReleaseSlots<T>(s: State<T>, pc: Pc<T>)
    requires Inv(s) && (s.consumer.StoreFront? || s.consumer.ClearStore?) && !FrontBusy(pc)
    ensures Slots(s.slots, s.pushed, |s.removed| + 1, s.producer, pc)
  {
    var read, write := ReadCursors(|s.removed|, s.consumer), WriteCursors(|s.pushed|, s.producer);
    AdvanceRead(s.slots, read, write, s.pushed, BackSlot(s.producer));
  }

  /** Removing the front value, handed out or destroyed. */
  lemma ReleaseKeepsInv<T>(s: State<T>, end: Removal<T>, pc: Pc<T>)
    requires Inv(s) && (s.consumer.StoreFront? || s.consumer.ClearStore?)
    requires end.v == s.pushed[|s.removed|]
    requires pc == SizeLoads(ToClear) || pc == Done(PopResult(Some(end.v)))
    requires pc.Done? ==> end.Handed?
    ensures Inv(Note(s.(front := Wrap(s.front + 1), removed := s.removed + [end], consumer := pc)))
  {
    var n := |s.removed|;
    NextWord(n);
    ReleaseSlots(s, pc);
    ValuesAppend(s.removed, [end]);
    assert s.pushed[..n + 1] == s.pushed[..n] + [s.pushed[n]];
    assert Values([end]) == [s.pushed[n]];
    ProducerMonotone(|s.slots|, s.back, |s.pushed|, n, n + 1, s.longest, s.producer);
  }

  lemma ConsumerStepKeepsInv<T>(s: State<T>, backFirst: bool)
    requires Inv(s) && !s.consumer.Idle? && !s.consumer.Done?
    ensures Inv(Note(StepConsumer(s, backFirst)))
  {
    var pc := s.consumer;
    if pc.SizeLoads? || pc.SizeHasBack? || pc.SizeHasFront? {
      ConsumerSizeKeepsInv(s, backFirst);
    } else if pc.StoreFront? {
      ReleaseKeepsInv(s, Handed(pc.temp), Done(PopResult(Some(pc.temp))));
    } else if pc.ClearStore? {
      ReleaseKeepsInv(s, Destroyed(pc.gone), SizeLoads(ToClear));
    } else {
      EmptyingKeepsInv(s, backFirst);
    }
  }

  lemma ConsumerSizeKeepsInv<T>(s: State<T>, backFirst: bool)
    requires Inv(s) && (s.consumer.SizeLoads? || s.consumer.SizeHasBack? || s.consumer.SizeHasFront?)
    ensures Inv(Note(s.(consumer := StepSize(s, s.consumer, backFirst))))
  {
    ConsumerSizeStep(s, backFirst);
  }

  /** The steps of `pop` and `clear` up to the store of the front cursor. */
  lemma EmptyingKeepsInv<T>(s: State<T>, backFirst: bool)
    requires Inv(s)
    requires var pc := s.consumer;
             pc.LoadFront? || pc.Move? || pc.Destroy? || pc.ClearLoadSlot? || pc.ClearDestroy? || pc.ClearLoadFront?
    ensures Inv(Note(StepConsumer(s, backFirst)))
  {
    var pc, s' := s.consumer, StepConsumer(s, backFirst);
    if pc.Move? || pc.ClearDestroy? {
      FrontIsLive(s);
      EmptySlots(s, s'.consumer);
    } else if pc.Destroy? {
      EmptySlots(s, s'.consumer);
    }
  }

  lemma ApplyKeepsInv<T>(s: State<T>, e: Event<T>)
    requires Inv(s) && Enabled(s, e)
    ensures Inv(Apply(s, e))
  {
    if e.AdvanceProducer? {
      ProducerStepKeepsInv(s, e.backFirst);
    } else if e.AdvanceConsumer? {
      ConsumerStepKeepsInv(s, e.backFirst);
    } else {
      CallKeepsInv(s, e);
    }
  }

  /** Calls and returns. */
  lemma CallKeepsInv<T>(s: State<T>, e: Event<T>)
    requires Inv(s) && Enabled(s, e) && !e.AdvanceProducer? && !e.AdvanceConsumer?
    ensures Inv(Apply(s, e))
  {
  }

  lemma {:induction false} ExecKeepsInv<T>(s: State<T>, es: seq<Event<T>>)
    requires Inv(s) && Feasible(s, es)
    ensures Inv(Exec(s, es))
    decreases |es|
  {
    if es != [] {
      ApplyKeepsInv(s, es[0]);
      ExecKeepsInv(Apply(s, es[0]), es[1..]);
    }
  }
}
