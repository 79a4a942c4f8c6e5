/** The ticket protocol of the multi-producer multi-consumer ring, as a machine whose
    every step is one atomic access, one construction, one move or one destruction.
    Any number of threads run `try_` and `wait_` operations side by side; a schedule is
    a sequence of events and a run executes it from the empty queue. */
module MpmcProtocol {
  import opened BoundedFifo
  import opened Words
  import opened Options
  import opened RingWindow
  import opened Storage
  import opened TicketBook

  /** How often a waiting thread re-checks its cursor before it goes round its loop. */
  const SPIN_LIMIT: nat := 65536

  datatype Op<T> = TryPush(v: T) | WaitPush(v: T) | TryPop | WaitPop | Size | Full

  /** The next access of a thread, with the locals it has loaded. */
  datatype Pc<T> =
    | PushLoadConsumed
    | TryPushLoadCommitted(consumed: nat)
    | TryPushLoadReserved(consumed: nat, committed: nat)
    | WaitPushLoadReserved(consumed: nat)
    | PushSpin(consumed: nat, i: nat)
    | PushCas(reserved: nat)
    | PushTurn(ticket: nat)
    | PushTurnSpin(ticket: nat, cur: nat, i: nat)
    | Construct(ticket: nat)
    | PushCommit(ticket: nat)
    | PushDone(ok: bool)
    | PopLoadProduced
    | TryPopLoadCommitted(produced: nat)
    | TryPopLoadReserved(produced: nat, committed: nat)
    | WaitPopLoadReserved(produced: nat)
    | PopSpin(produced: nat, i: nat)
    | PopCas(reserved: nat)
    | PopTurn(ticket: nat)
    | PopTurnSpin(ticket: nat, cur: nat, i: nat)
    | Move(ticket: nat)
    | Destroy(popped: T, ticket: nat)
    | PopCommit(popped: T, ticket: nat)
    | PopDone(result: Option<T>)
    | SizeLoadConsumed
    | SizeLoadProduced(consumed: nat)
    | SizeDone(size: int)
    | FullLoadConsumed
    | FullLoadReserved(consumed: nat)
    | FullDone(full: bool)

  /** A thread inside an operation: the call it made, where it is, and what the call has
      done to the abstract queue so far. */
  datatype Thread<T> = Thread(op: Op<T>, pc: Pc<T>, effect: Effect<T>)

  /** The queue object, the threads inside an operation, and the history: the values
      committed by producers and by consumers in commit order, and which thread took
      which ticket. */
  datatype State<T> = State(
    slots: seq<Slot<T>>,
    read: Cursors,
    write: Cursors,
    threads: map<Tid, Thread<T>>,
    written: seq<T>,
    delivered: seq<T>,
    pushHolder: seq<Tid>,
    popHolder: seq<Tid>)
  {
    function Cap(): nat { |slots| }
  }

  function Init<T>(cap: nat): State<T>
    requires ValidCapacity(cap)
  {
    State(seq(cap, i => Raw), Cursors(0, 0), Cursors(0, 0), map[], [], [], [], [])
  }

  // ----- the steps ------------------------------------------------------------------

  predicate IsPush<T>(op: Op<T>) { op.TryPush? || op.WaitPush? }

  predicate IsPop<T>(op: Op<T>) { op.TryPop? || op.WaitPop? }

  predicate Finished<T>(pc: Pc<T>) {
    pc.PushDone? || pc.PopDone? || pc.SizeDone? || pc.FullDone?
  }

  function StartPc<T>(op: Op<T>): Pc<T> {
    match op
    case TryPush(_) => PushLoadConsumed
    case WaitPush(_) => PushLoadConsumed
    case TryPop => PopLoadProduced
    case WaitPop => PopLoadProduced
    case Size => SizeLoadConsumed
    case Full => FullLoadConsumed
  }

  function Goto<T>(s: State<T>, t: Tid, pc: Pc<T>): State<T>
    requires t in s.threads
  {
    s.(threads := s.threads[t := s.threads[t].(pc := pc)])
  }

  /** A won compare-exchange on `m_write.reserved`. */
  function TakeWriteTicket<T>(s: State<T>, t: Tid): State<T>
    requires t in s.threads
  {
    var th := s.threads[t];
    var ticket := s.write.reserved;
    s.(write := s.write.(reserved := ticket + 1),
       pushHolder := s.pushHolder + [t],
       threads := s.threads[t := th.(pc := if th.op.TryPush? then Construct(ticket) else PushTurn(ticket))])
  }

  /** `construct_at` on the slot of the ticket. */
  function ConstructValue<T>(s: State<T>, t: Tid, ticket: nat, v: T): State<T>
    requires ValidCapacity(s.Cap()) && t in s.threads
  {
    s.(slots := s.slots[SlotOf(ticket, s.Cap()) := Live(v)],
       threads := s.threads[t := s.threads[t].(pc := PushCommit(ticket))])
  }

  /** The new value of `m_write.committed` becomes visible. */
  function CommitPush<T>(s: State<T>, t: Tid, committed: nat, v: T): State<T>
    requires t in s.threads
  {
    s.(write := s.write.(committed := committed),
       written := s.written + [v],
       threads := s.threads[t := Thread(s.threads[t].op, PushDone(true), Pushed(v))])
  }

  /** A won compare-exchange on `m_read.reserved`. */
  function TakeReadTicket<T>(s: State<T>, t: Tid): State<T>
    requires t in s.threads
  {
    var op := s.threads[t].op;
    var ticket := s.read.reserved;
    s.(read := s.read.(reserved := ticket + 1),
       popHolder := s.popHolder + [t],
       threads := s.threads[t := Thread(op, if op.TryPop? then Move(ticket) else PopTurn(ticket),
                                        if ticket < |s.written| then Popped(s.written[ticket])
                                        else NoEffect)])
  }

  /** The value is moved out of the slot into the thread's result. */
  function MoveOut<T>(s: State<T>, t: Tid, ticket: nat, v: T): State<T>
    requires ValidCapacity(s.Cap()) && t in s.threads
  {
    s.(slots := s.slots[SlotOf(ticket, s.Cap()) := MovedFrom],
       threads := s.threads[t := s.threads[t].(pc := Destroy(v, ticket))])
  }

  /** `destroy_at` on the slot of the ticket. */
  function DestroySlot<T>(s: State<T>, t: Tid, ticket: nat, v: T): State<T>
    requires ValidCapacity(s.Cap()) && t in s.threads
  {
    s.(slots := s.slots[SlotOf(ticket, s.Cap()) := Raw],
       threads := s.threads[t := s.threads[t].(pc := PopCommit(v, ticket))])
  }

  /** The new value of `m_read.committed` becomes visible. */
  function CommitPop<T>(s: State<T>, t: Tid, committed: nat, v: T): State<T>
    requires t in s.threads
  {
    s.(read := s.read.(committed := committed),
       delivered := s.delivered + [v],
       threads := s.threads[t := s.threads[t].(pc := PopDone(Some(v)))])
  }

  /** One atomic step of `try_emplace` or `wait_emplace`; `spurious` makes the weak
      compare-exchange fail. */
  function StepPush<T>(s: State<T>, t: Tid, spurious: bool): State<T>
    requires ValidCapacity(s.Cap()) && t in s.threads && IsPush(s.threads[t].op)
  {
    var th := s.threads[t];
    match th.pc
    case PushLoadConsumed =>
      Goto(s, t, if th.op.TryPush? then TryPushLoadCommitted(s.read.committed)
                 else WaitPushLoadReserved(s.read.committed))
    case TryPushLoadCommitted(consumed) =>
      Goto(s, t, TryPushLoadReserved(consumed, s.write.committed))
    case TryPushLoadReserved(consumed, committed) =>
      var reserved := s.write.reserved;
      Goto(s, t, if reserved - consumed >= s.Cap() || reserved != committed then PushDone(false)
                 else PushCas(reserved))
    case WaitPushLoadReserved(consumed) =>
      var reserved := s.write.reserved;
      Goto(s, t, if reserved - consumed >= s.Cap() then PushSpin(consumed, 0) else PushCas(reserved))
    case PushSpin(consumed, i) =>
      Goto(s, t, if s.read.committed != consumed || i + 1 >= SPIN_LIMIT then PushLoadConsumed
                 else PushSpin(consumed, i + 1))
    case PushCas(reserved) =>
      if spurious || s.write.reserved != reserved then
        Goto(s, t, if th.op.TryPush? then PushDone(false) else PushLoadConsumed)
      else TakeWriteTicket(s, t)
    case PushTurn(ticket) =>
      var cur := s.write.committed;
      Goto(s, t, if cur == ticket then Construct(ticket) else PushTurnSpin(ticket, cur, 0))
    case PushTurnSpin(ticket, cur, i) =>
      Goto(s, t, if s.write.committed != cur || i + 1 >= SPIN_LIMIT then PushTurn(ticket)
                 else PushTurnSpin(ticket, cur, i + 1))
    case Construct(ticket) =>
      ConstructValue(s, t, ticket, th.op.v)
    case PushCommit(ticket) =>
      CommitPush(s, t, if th.op.TryPush? then s.write.committed + 1 else ticket + 1, th.op.v)
    case _ => s
  }

  /** One atomic step of `try_pop` or `wait_pop`. */
  function StepPop<T>(s: State<T>, t: Tid, spurious: bool): State<T>
    requires ValidCapacity(s.Cap()) && t in s.threads && IsPop(s.threads[t].op)
  {
    var th := s.threads[t];
    match th.pc
    case PopLoadProduced =>
      Goto(s, t, if th.op.TryPop? then TryPopLoadCommitted(s.write.committed)
                 else WaitPopLoadReserved(s.write.committed))
    case TryPopLoadCommitted(produced) =>
      Goto(s, t, TryPopLoadReserved(produced, s.read.committed))
    case TryPopLoadReserved(produced, committed) =>
      var reserved := s.read.reserved;
      Goto(s, t, if produced <= reserved || reserved != committed then PopDone(None)
                 else PopCas(reserved))
    case WaitPopLoadReserved(produced) =>
      var reserved := s.read.reserved;
      Goto(s, t, if produced <= reserved then PopSpin(produced, 0) else PopCas(reserved))
    case PopSpin(produced, i) =>
      Goto(s, t, if s.write.committed != produced || i + 1 >= SPIN_LIMIT then PopLoadProduced
                 else PopSpin(produced, i + 1))
    case PopCas(reserved) =>
      if spurious || s.read.reserved != reserved then
        Goto(s, t, if th.op.TryPop? then PopDone(None) else PopLoadProduced)
      else TakeReadTicket(s, t)
    case PopTurn(ticket) =>
      var cur := s.read.committed;
      Goto(s, t, if cur == ticket then Move(ticket) else PopTurnSpin(ticket, cur, 0))
    case PopTurnSpin(ticket, cur, i) =>
      Goto(s, t, if s.read.committed != cur || i + 1 >= SPIN_LIMIT then PopTurn(ticket)
                 else PopTurnSpin(ticket, cur, i + 1))
    case Move(ticket) =>
      var slot := s.slots[SlotOf(ticket, s.Cap())];
      if slot.Live? then MoveOut(s, t, ticket, slot.val) else s
    case Destroy(popped, ticket) => DestroySlot(s, t, ticket, popped)
    case PopCommit(popped, ticket) =>
      CommitPop(s, t, if th.op.TryPop? then s.read.committed + 1 else ticket + 1, popped)
    case _ => s
  }

  /** One atomic step of `size` or `full`. */
  function StepObserve<T>(s: State<T>, t: Tid): State<T>
    requires t in s.threads
  {
    match s.threads[t].pc
    case SizeLoadConsumed => Goto(s, t, SizeLoadProduced(s.read.reserved))
    case SizeLoadProduced(consumed) => Goto(s, t, SizeDone(s.write.committed - consumed))
    case FullLoadConsumed => Goto(s, t, FullLoadReserved(s.read.committed))
    case FullLoadReserved(consumed) => Goto(s, t, FullDone(s.write.reserved - consumed >= s.Cap()))
    case _ => s
  }

  /** One atomic step of thread `t`. */
  function Step<T>(s: State<T>, t: Tid, spurious: bool): State<T>
    requires ValidCapacity(s.Cap()) && t in s.threads
  {
    var op := s.threads[t].op;
    if IsPush(op) then StepPush(s, t, spurious)
    else if IsPop(op) then StepPop(s, t, spurious)
    else StepObserve(s, t)
  }

  datatype Event<T> = Call(t: Tid, op: Op<T>) | Advance(t: Tid, spurious: bool) | Return(t: Tid)

  predicate Enabled<T>(s: State<T>, e: Event<T>) {
    match e
    case Call(t, _) => t !in s.threads
    case Advance(t, _) => t in s.threads && !Finished(s.threads[t].pc)
    case Return(t) => t in s.threads && Finished(s.threads[t].pc)
  }

  function Apply<T>(s: State<T>, e: Event<T>): State<T>
    requires ValidCapacity(s.Cap()) && Enabled(s, e)
  {
    match e
    case Call(t, op) => s.(threads := s.threads[t := Thread(op, StartPc(op), NoEffect)])
    case Advance(t, spurious) => Step(s, t, spurious)
    case Return(t) => s.(threads := s.threads - {t})
  }

  lemma ApplyKeepsCapacity<T>(s: State<T>, e: Event<T>)
    requires ValidCapacity(s.Cap()) && Enabled(s, e)
    ensures Apply(s, e).Cap() == s.Cap()
  {
  }

  /** Every event of the schedule is possible when its turn comes. */
  predicate Feasible<T>(s: State<T>, es: seq<Event<T>>)
    requires ValidCapacity(s.Cap())
    decreases |es|
  {
    es == [] ||
    (Enabled(s, es[0]) && (ApplyKeepsCapacity(s, es[0]); Feasible(Apply(s, es[0]), es[1..])))
  }

  /** The state a schedule leads to. */
  function Exec<T>(s: State<T>, es: seq<Event<T>>): State<T>
    requires ValidCapacity(s.Cap()) && Feasible(s, es)
    decreases |es|
  {
    if es == [] then s
    else ApplyKeepsCapacity(s, es[0]); Exec(Apply(s, es[0]), es[1..])
  }

  // ----- the invariant --------------------------------------------------------------

  /** The write ticket a thread holds and has not committed. */
  function PushTicket<T>(pc: Pc<T>): Option<nat> {
    match pc
    case PushTurn(n) => Some(n)
    case PushTurnSpin(n, _, _) => Some(n)
    case Construct(n) => Some(n)
    case PushCommit(n) => Some(n)
    case _ => None
  }

  /** The read ticket a thread holds and has not committed. */
  function PopTicket<T>(pc: Pc<T>): Option<nat> {
    match pc
    case PopTurn(n) => Some(n)
    case PopTurnSpin(n, _, _) => Some(n)
    case Move(n) => Some(n)
    case Destroy(_, n) => Some(n)
    case PopCommit(_, n) => Some(n)
    case _ => None
  }

  ghost predicate Ordered<T>(s: State<T>) {
    && ValidCapacity(s.Cap())
    && CursorOrder(s.Cap(), s.read, s.write)
    && |s.written| == s.write.committed
    && |s.delivered| == s.read.committed
    && s.delivered == s.written[..s.read.committed]
    && |s.pushHolder| == s.write.reserved
    && |s.popHolder| == s.read.reserved
  }

  /** The threads that hold a write ticket, and which one. */
  ghost function PushHeld<T>(threads: map<Tid, Thread<T>>): map<Tid, nat> {
    map t | t in threads && PushTicket(threads[t].pc).Some? :: PushTicket(threads[t].pc).value
  }

  /** The threads that hold a read ticket, and which one. */
  ghost function PopHeld<T>(threads: map<Tid, Thread<T>>): map<Tid, nat> {
    map t | t in threads && PopTicket(threads[t].pc).Some? :: PopTicket(threads[t].pc).value
  }

  ghost predicate Ticketed<T>(s: State<T>) {
    && Book(s.write.committed, s.write.reserved, s.pushHolder, PushHeld(s.threads))
    && Book(s.read.committed, s.read.reserved, s.popHolder, PopHeld(s.threads))
  }

  /** How a change of one thread's program counter shows in the two books. */
  lemma HeldAfter<T>(threads: map<Tid, Thread<T>>, t: Tid, th: Thread<T>)
    ensures PushHeld(threads[t := th]) ==
            (if PushTicket(th.pc).Some? then PushHeld(threads)[t := PushTicket(th.pc).value]
             else PushHeld(threads) - {t})
    ensures PopHeld(threads[t := th]) ==
            (if PopTicket(th.pc).Some? then PopHeld(threads)[t := PopTicket(th.pc).value]
             else PopHeld(threads) - {t})
  {
  }

  /** A thread without a ticket in hand is in neither book. */
  lemma HeldWithout<T>(threads: map<Tid, Thread<T>>, t: Tid)
    ensures t !in PushHeld(threads) ==> PushHeld(threads) - {t} == PushHeld(threads)
    ensures t !in PopHeld(threads) ==> PopHeld(threads) - {t} == PopHeld(threads)
    ensures PushHeld(threads - {t}) == PushHeld(threads) - {t}
    ensures PopHeld(threads - {t}) == PopHeld(threads) - {t}
  {
  }

  /** Past the wait on the write side: working on the slot or about to publish it. */
  predicate PushTurnPc<T>(pc: Pc<T>) { pc.Construct? || pc.PushCommit? }

  /** Past the wait on the read side. */
  predicate PopTurnPc<T>(pc: Pc<T>) { pc.Move? || pc.Destroy? || pc.PopCommit? }

  /** Only the holder of ticket `committed` is past its wait. */
  ghost predicate InTurn<T>(s: State<T>) {
    && (forall t <- s.threads :: PushTurnPc(s.threads[t].pc) ==>
          PushTicket(s.threads[t].pc) == Some(s.write.committed))
    && (forall t <- s.threads :: PopTurnPc(s.threads[t].pc) ==>
          PopTicket(s.threads[t].pc) == Some(s.read.committed))
  }

  /** What a thread's locals say about the shared state, and which operation and effect
      go with its program counter. */
  ghost predicate LocalPush<T>(cap: nat, read: Cursors, write: Cursors, written: seq<T>, th: Thread<T>)
    requires |written| == write.committed
    requires IsPush(th.op)
  {
    match th.pc
    case PushLoadConsumed => th.effect.NoEffect?
    case TryPushLoadCommitted(consumed) =>
      th.op.TryPush? && th.effect.NoEffect? && consumed <= read.committed
    case TryPushLoadReserved(consumed, committed) =>
      th.op.TryPush? && th.effect.NoEffect? &&
      consumed <= read.committed && committed <= write.committed
    case WaitPushLoadReserved(consumed) =>
      th.op.WaitPush? && th.effect.NoEffect? && consumed <= read.committed
    case PushSpin(consumed, i) => th.op.WaitPush? && th.effect.NoEffect? && i < SPIN_LIMIT
    case PushCas(reserved) =>
      th.effect.NoEffect? && reserved < read.committed + cap &&
      (th.op.TryPush? ==> reserved <= write.committed)
    case PushTurn(ticket) => th.op.WaitPush? && th.effect.NoEffect?
    case PushTurnSpin(ticket, cur, i) =>
      th.op.WaitPush? && th.effect.NoEffect? && cur < ticket && i < SPIN_LIMIT
    case Construct(ticket) => th.effect.NoEffect?
    case PushCommit(ticket) => th.effect.NoEffect?
    case PushDone(ok) =>
      th.effect == (if ok then Pushed(th.op.v) else NoEffect) &&
      (th.op.WaitPush? ==> ok)
    case _ => false
  }

  ghost predicate LocalPop<T>(cap: nat, read: Cursors, write: Cursors, written: seq<T>, th: Thread<T>)
    requires |written| == write.committed
    requires IsPop(th.op)
  {
    match th.pc
    case PopLoadProduced => th.effect.NoEffect?
    case TryPopLoadCommitted(produced) =>
      th.op.TryPop? && th.effect.NoEffect? && produced <= write.committed
    case TryPopLoadReserved(produced, committed) =>
      th.op.TryPop? && th.effect.NoEffect? &&
      produced <= write.committed && committed <= read.committed
    case WaitPopLoadReserved(produced) =>
      th.op.WaitPop? && th.effect.NoEffect? && produced <= write.committed
    case PopSpin(_, i) => th.op.WaitPop? && th.effect.NoEffect? && i < SPIN_LIMIT
    case PopCas(reserved) =>
      th.effect.NoEffect? && reserved < write.committed &&
      (th.op.TryPop? ==> reserved <= read.committed)
    case PopTurn(ticket) =>
      th.op.WaitPop? && ticket < write.committed && th.effect == Popped(written[ticket])
    case PopTurnSpin(ticket, cur, i) =>
      th.op.WaitPop? && ticket < write.committed && th.effect == Popped(written[ticket]) &&
      cur < ticket && i < SPIN_LIMIT
    case Move(ticket) =>
      ticket < write.committed &&
      th.effect == Popped(written[ticket])
    case Destroy(popped, ticket) =>
      ticket < write.committed &&
      popped == written[ticket] && th.effect == Popped(popped)
    case PopCommit(popped, ticket) =>
      ticket < write.committed &&
      popped == written[ticket] && th.effect == Popped(popped)
    case PopDone(result) =>
      (th.op.WaitPop? ==> result.Some?) &&
      th.effect == (if result.Some? then Popped(result.value) else NoEffect)
    case _ => false
  }

  ghost predicate LocalObserve<T>(cap: nat, read: Cursors, write: Cursors, written: seq<T>, th: Thread<T>)
    requires |written| == write.committed
  {
    match th.pc
    case SizeLoadConsumed => th.op.Size? && th.effect.NoEffect?
    case SizeLoadProduced(consumed) => th.op.Size? && th.effect.NoEffect? && consumed <= read.reserved
    case SizeDone(size) => th.op.Size? && th.effect.NoEffect? && size >= 0
    case FullLoadConsumed => th.op.Full? && th.effect.NoEffect?
    case FullLoadReserved(consumed) => th.op.Full? && th.effect.NoEffect? && consumed <= read.committed
    case FullDone(_) => th.op.Full? && th.effect.NoEffect?
    case _ => false
  }

  ghost predicate Local<T>(cap: nat, read: Cursors, write: Cursors, written: seq<T>, th: Thread<T>)
    requires |written| == write.committed
  {
    if IsPush(th.op) then LocalPush(cap, read, write, written, th)
    else if IsPop(th.op) then LocalPop(cap, read, write, written, th)
    else LocalObserve(cap, read, write, written, th)
  }

  ghost predicate Locals<T>(s: State<T>)
    requires Ordered(s)
  {
    forall t <- s.threads :: Local(s.Cap(), s.read, s.write, s.written, s.threads[t])
  }

  /** The slot of the oldest outstanding read ticket, told by its holder's progress. */
  ghost function FrontSlot<T>(read: Cursors, written: seq<T>, popHolder: seq<Tid>,
                              threads: map<Tid, Thread<T>>): Slot<T>
  {
    if read.committed < |popHolder| && popHolder[read.committed] in threads then
      var pc := threads[popHolder[read.committed]].pc;
      if pc.Destroy? then MovedFrom
      else if !pc.PopCommit? && read.committed < |written| then Live(written[read.committed])
      else Raw
    else Raw
  }

  /** The slot of the oldest outstanding write ticket, told by its holder's progress. */
  ghost function BackSlot<T>(write: Cursors, pushHolder: seq<Tid>,
                             threads: map<Tid, Thread<T>>): Slot<T>
  {
    if write.committed < |pushHolder| && pushHolder[write.committed] in threads then
      var th := threads[pushHolder[write.committed]];
      if th.pc.PushCommit? && IsPush(th.op) then Live(th.op.v) else Raw
    else Raw
  }

  ghost predicate Slotted<T>(s: State<T>)
    requires Ordered(s)
  {
    Window(s.slots, s.read, s.write, s.written,
           FrontSlot(s.read, s.written, s.popHolder, s.threads),
           BackSlot(s.write, s.pushHolder, s.threads))
  }

  ghost predicate Inv<T>(s: State<T>) {
    Ordered(s) && Ticketed(s) && InTurn(s) && Slotted(s) && Locals(s)
  }

  /** The part of the invariant that does not speak of locals. */
  ghost predicate Shape<T>(s: State<T>) {
    Ordered(s) && Ticketed(s) && InTurn(s) && Slotted(s)
  }

  // ----- preservation ---------------------------------------------------------------

  lemma InitInv<T>(cap: nat)
    requires ValidCapacity(cap)
    ensures Inv(Init<T>(cap))
  {
  }

  lemma GotoKeepsTickets<T>(s: State<T>, t: Tid, pc: Pc<T>)
    requires Ticketed(s) && t in s.threads
    requires PushTicket(pc) == PushTicket(s.threads[t].pc)
    requires PopTicket(pc) == PopTicket(s.threads[t].pc)
    ensures Ticketed(s.(threads := s.threads[t := s.threads[t].(pc := pc)]))
  {
    HeldAfter(s.threads, t, s.threads[t].(pc := pc));
    HeldAfter(s.threads, t, s.threads[t]);
    assert s.threads[t := s.threads[t]] == s.threads;
  }

  /** Steps that only move the thread's own program counter. */
  lemma GotoKeepsShape<T>(s: State<T>, t: Tid, pc: Pc<T>)
    requires Shape(s) && t in s.threads
    requires PushTicket(pc) == PushTicket(s.threads[t].pc)
    requires PopTicket(pc) == PopTicket(s.threads[t].pc)
    requires pc.Construct? ==> pc.ticket == s.write.committed
    requires pc.Move? ==> pc.ticket == s.read.committed
    requires !pc.PushCommit? && !s.threads[t].pc.PushCommit?
    requires !pc.Destroy? && !s.threads[t].pc.Destroy?
    requires !pc.PopCommit? && !s.threads[t].pc.PopCommit?
    ensures Shape(Goto(s, t, pc))
  {
    GotoKeepsTickets(s, t, pc);
  }

  /** `t` took neither of the two oldest outstanding tickets. */
  ghost predicate NotTheOldest<T>(s: State<T>, t: Tid)
    requires Ordered(s)
  {
    && (s.read.committed < s.read.reserved ==> s.popHolder[s.read.committed] != t)
    && (s.write.committed < s.write.reserved ==> s.pushHolder[s.write.committed] != t)
  }

  lemma WithoutTicketNotOldest<T>(s: State<T>, t: Tid)
    requires Ordered(s) && Ticketed(s)
    requires t !in PushHeld(s.threads) && t !in PopHeld(s.threads)
    ensures NotTheOldest(s, t)
  {
  }

  lemma TakeWriteTicketKeepsTickets<T>(s: State<T>, t: Tid)
    requires Ticketed(s) && t in s.threads
    requires PushTicket(s.threads[t].pc).None? && PopTicket(s.threads[t].pc).None?
    ensures Ticketed(TakeWriteTicket(s, t))
  {
    HeldAfter(s.threads, t, TakeWriteTicket(s, t).threads[t]);
    HeldWithout(s.threads, t);
    Take(s.write.committed, s.write.reserved, s.pushHolder, PushHeld(s.threads), t);
  }

  lemma TakeWriteTicketKeepsSlots<T>(s: State<T>, t: Tid)
    requires Ordered(s) && Slotted(s) && t in s.threads
    requires s.write.reserved < s.read.committed + s.Cap()
    requires NotTheOldest(s, t)
    ensures Ordered(TakeWriteTicket(s, t)) && Slotted(TakeWriteTicket(s, t))
  {
  }

  lemma TakeWriteTicketKeepsShape<T>(s: State<T>, t: Tid)
    requires Shape(s) && t in s.threads
    requires PushTicket(s.threads[t].pc).None? && PopTicket(s.threads[t].pc).None?
    requires s.write.reserved < s.read.committed + s.Cap()
    requires s.threads[t].op.TryPush? ==> s.write.reserved == s.write.committed
    ensures Shape(TakeWriteTicket(s, t))
  {
    TakeWriteTicketKeepsTickets(s, t);
    WithoutTicketNotOldest(s, t);
    TakeWriteTicketKeepsSlots(s, t);
  }

  lemma ConstructValueKeepsSlots<T>(s: State<T>, t: Tid)
    requires Ordered(s) && Slotted(s)
    requires t in s.threads && s.threads[t].pc.Construct? && IsPush(s.threads[t].op)
    requires s.write.committed < s.write.reserved && s.pushHolder[s.write.committed] == t
    ensures Slotted(ConstructValue(s, t, s.write.committed, s.threads[t].op.v))
  {
    SetBack(s.slots, s.read, s.write, s.written, FrontSlot(s.read, s.written, s.popHolder, s.threads),
            BackSlot(s.write, s.pushHolder, s.threads), Live(s.threads[t].op.v));
  }

  lemma ConstructValueKeepsShape<T>(s: State<T>, t: Tid)
    requires Shape(s) && t in s.threads && s.threads[t].pc.Construct? && IsPush(s.threads[t].op)
    ensures Shape(ConstructValue(s, t, s.threads[t].pc.ticket, s.threads[t].op.v))
  {
    GotoKeepsTickets(s, t, PushCommit(s.write.committed));
    assert t in PushHeld(s.threads) && s.pushHolder[s.write.committed] == t;
    ConstructValueKeepsSlots(s, t);
  }

  /** The thread that publishes is the only one past its wait. */
  lemma CommitPushKeepsTickets<T>(s: State<T>, t: Tid)
    requires Ticketed(s) && InTurn(s)
    requires t in s.threads && s.threads[t].pc.PushCommit? && IsPush(s.threads[t].op)
    ensures var s' := CommitPush(s, t, s.write.committed + 1, s.threads[t].op.v);
            && Ticketed(s')
            && InTurn(s')
            && s.write.committed < s.write.reserved && s.pushHolder[s.write.committed] == t
            && (forall u <- s'.threads :: !PushTurnPc(s'.threads[u].pc))
  {
    var s' := CommitPush(s, t, s.write.committed + 1, s.threads[t].op.v);
    HeldAfter(s.threads, t, s'.threads[t]);
    HeldWithout(s.threads, t);
    assert t in PushHeld(s.threads) && PushHeld(s.threads)[t] == s.write.committed;
    Commit(s.write.committed, s.write.reserved, s.pushHolder, PushHeld(s.threads), t);
    forall u <- s'.threads
      ensures !PushTurnPc(s'.threads[u].pc)
    {
      if u != t && PushTicket(s.threads[u].pc).Some? { assert u in PushHeld(s.threads); }
    }
  }

  lemma CommitPushKeepsShape<T>(s: State<T>, t: Tid)
    requires Shape(s) && t in s.threads && s.threads[t].pc.PushCommit? && IsPush(s.threads[t].op)
    ensures Shape(CommitPush(s, t, s.write.committed + 1, s.threads[t].op.v))
  {
    CommitPushKeepsTickets(s, t);
    AdvanceWrite(s.slots, s.read, s.write, s.written,
                 FrontSlot(s.read, s.written, s.popHolder, s.threads), s.threads[t].op.v);
  }

  lemma TakeReadTicketKeepsTickets<T>(s: State<T>, t: Tid)
    requires Ticketed(s) && t in s.threads
    requires PushTicket(s.threads[t].pc).None? && PopTicket(s.threads[t].pc).None?
    ensures Ticketed(TakeReadTicket(s, t))
  {
    HeldAfter(s.threads, t, TakeReadTicket(s, t).threads[t]);
    HeldWithout(s.threads, t);
    Take(s.read.committed, s.read.reserved, s.popHolder, PopHeld(s.threads), t);
  }

  lemma TakeReadTicketKeepsSlots<T>(s: State<T>, t: Tid)
    requires Ordered(s) && Slotted(s) && t in s.threads
    requires s.read.reserved < s.write.committed
    requires NotTheOldest(s, t)
    ensures Ordered(TakeReadTicket(s, t)) && Slotted(TakeReadTicket(s, t))
  {
  }

  lemma TakeReadTicketKeepsShape<T>(s: State<T>, t: Tid)
    requires Shape(s) && t in s.threads
    requires PushTicket(s.threads[t].pc).None? && PopTicket(s.threads[t].pc).None?
    requires s.read.reserved < s.write.committed
    requires s.threads[t].op.TryPop? ==> s.read.reserved == s.read.committed
    ensures Shape(TakeReadTicket(s, t))
  {
    TakeReadTicketKeepsTickets(s, t);
    WithoutTicketNotOldest(s, t);
    TakeReadTicketKeepsSlots(s, t);
  }

  lemma MoveOutKeepsShape<T>(s: State<T>, t: Tid)
    requires Shape(s) && t in s.threads && s.threads[t].pc.Move?
    requires s.read.committed < s.write.committed
    ensures Shape(MoveOut(s, t, s.threads[t].pc.ticket, s.written[s.read.committed]))
  {
    GotoKeepsTickets(s, t, Destroy(s.written[s.read.committed], s.read.committed));
    assert t in PopHeld(s.threads) && s.popHolder[s.read.committed] == t;
    SetFront(s.slots, s.read, s.write, s.written, FrontSlot(s.read, s.written, s.popHolder, s.threads),
             BackSlot(s.write, s.pushHolder, s.threads), MovedFrom);
  }

  lemma DestroySlotKeepsShape<T>(s: State<T>, t: Tid)
    requires Shape(s) && t in s.threads && s.threads[t].pc.Destroy?
    ensures Shape(DestroySlot(s, t, s.threads[t].pc.ticket, s.threads[t].pc.popped))
  {
    GotoKeepsTickets(s, t, PopCommit(s.threads[t].pc.popped, s.read.committed));
    assert t in PopHeld(s.threads) && s.popHolder[s.read.committed] == t;
    SetFront(s.slots, s.read, s.write, s.written, FrontSlot(s.read, s.written, s.popHolder, s.threads),
             BackSlot(s.write, s.pushHolder, s.threads), Raw);
  }

  lemma CommitPopKeepsTickets<T>(s: State<T>, t: Tid)
    requires Ticketed(s) && InTurn(s) && t in s.threads && s.threads[t].pc.PopCommit?
    ensures var s' := CommitPop(s, t, s.read.committed + 1, s.threads[t].pc.popped);
            && Ticketed(s')
            && InTurn(s')
            && s.read.committed < s.read.reserved && s.popHolder[s.read.committed] == t
            && (forall u <- s'.threads :: !PopTurnPc(s'.threads[u].pc))
  {
    var s' := CommitPop(s, t, s.read.committed + 1, s.threads[t].pc.popped);
    HeldAfter(s.threads, t, s'.threads[t]);
    HeldWithout(s.threads, t);
    assert t in PopHeld(s.threads) && PopHeld(s.threads)[t] == s.read.committed;
    Commit(s.read.committed, s.read.reserved, s.popHolder, PopHeld(s.threads), t);
    forall u <- s'.threads
      ensures !PopTurnPc(s'.threads[u].pc)
    {
      if u != t && PopTicket(s.threads[u].pc).Some? { assert u in PopHeld(s.threads); }
    }
  }

  lemma CommitPopKeepsShape<T>(s: State<T>, t: Tid)
    requires Shape(s) && t in s.threads && s.threads[t].pc.PopCommit?
    requires s.read.committed < s.write.committed
    requires s.threads[t].pc.popped == s.written[s.read.committed]
    ensures Shape(CommitPop(s, t, s.read.committed + 1, s.threads[t].pc.popped))
  {
    CommitPopKeepsTickets(s, t);
    AdvanceRead(s.slots, s.read, s.write, s.written, BackSlot(s.write, s.pushHolder, s.threads));
  }

  /** A thread's locals stay right while the cursors grow. */
  lemma LocalMonotone<T>(cap: nat, read: Cursors, write: Cursors, written: seq<T>,
                         read': Cursors, write': Cursors, written': seq<T>, th: Thread<T>)
    requires |written| == write.committed && |written'| == write'.committed
    requires read.committed <= read'.committed && read.reserved <= read'.reserved
    requires write.committed <= write'.committed && written <= written'
    requires Local(cap, read, write, written, th)
    ensures Local(cap, read', write', written', th)
  {
  }

  /** All other threads keep their local facts over a step of `t`. */
  lemma OthersKeepLocals<T>(s: State<T>, t: Tid, s': State<T>)
    requires Ordered(s) && Locals(s) && t in s.threads && Ordered(s')
    requires s'.Cap() == s.Cap() && s.written <= s'.written
    requires s'.threads.Keys == s.threads.Keys
    requires forall u <- s.threads :: u != t ==> s'.threads[u] == s.threads[u]
    requires s.read.committed <= s'.read.committed && s.read.reserved <= s'.read.reserved
    requires s.write.committed <= s'.write.committed
    requires Local(s'.Cap(), s'.read, s'.write, s'.written, s'.threads[t])
    ensures Locals(s')
  {
    forall u <- s'.threads ensures Local(s'.Cap(), s'.read, s'.write, s'.written, s'.threads[u]) {
      if u != t {
        LocalMonotone(s.Cap(), s.read, s.write, s.written, s'.read, s'.write, s'.written, s.threads[u]);
      }
    }
  }

  /** The slot a thread has its turn on, before, between and after its accesses. */
  lemma TurnSlot<T>(s: State<T>, t: Tid)
    requires Shape(s) && t in s.threads
    ensures var pc := s.threads[t].pc;
            && (pc.Construct? ==> s.slots[SlotOf(pc.ticket, s.Cap())] == Raw)
            && (pc.PushCommit? && IsPush(s.threads[t].op) ==>
                  s.slots[SlotOf(pc.ticket, s.Cap())] == Live(s.threads[t].op.v))
            && (pc.Move? ==> pc.ticket < s.write.committed)
            && (pc.Move? ==> s.slots[SlotOf(pc.ticket, s.Cap())] == Live(s.written[pc.ticket]))
            && (pc.Destroy? ==> s.slots[SlotOf(pc.ticket, s.Cap())] == MovedFrom)
            && (pc.PopCommit? ==> s.slots[SlotOf(pc.ticket, s.Cap())] == Raw)
  {
    assert s.slots[SlotOf(s.read.committed, s.Cap())] ==
      Expected(s.read, s.write, s.written, FrontSlot(s.read, s.written, s.popHolder, s.threads),
               BackSlot(s.write, s.pushHolder, s.threads), s.read.committed);
    if PushTicket(s.threads[t].pc).Some? {
      assert t in PushHeld(s.threads);
      assert s.slots[SlotOf(s.write.committed, s.Cap())] ==
        Expected(s.read, s.write, s.written, FrontSlot(s.read, s.written, s.popHolder, s.threads),
                 BackSlot(s.write, s.pushHolder, s.threads), s.write.committed);
    }
    if PopTicket(s.threads[t].pc).Some? {
      assert t in PopHeld(s.threads);
    }
  }

  lemma StepPushKeepsShape<T>(s: State<T>, t: Tid, spurious: bool)
    requires Shape(s) && t in s.threads && !Finished(s.threads[t].pc) && IsPush(s.threads[t].op)
    requires LocalPush(s.Cap(), s.read, s.write, s.written, s.threads[t])
    ensures Shape(StepPush(s, t, spurious))
  {
    var pc := s.threads[t].pc;
    if pc.Construct? {
      ConstructValueKeepsShape(s, t);
    } else if pc.PushCommit? {
      CommitPushKeepsShape(s, t);
    } else if pc.PushCas? && !spurious && s.write.reserved == pc.reserved {
      TakeWriteTicketKeepsShape(s, t);
    } else {
      GotoKeepsShape(s, t, StepPush(s, t, spurious).threads[t].pc);
    }
  }

  /** The three accesses of a consumer that has its turn. */
  lemma StepPopTurnKeepsShape<T>(s: State<T>, t: Tid)
    requires Shape(s) && t in s.threads && PopTurnPc(s.threads[t].pc) && IsPop(s.threads[t].op)
    requires LocalPop(s.Cap(), s.read, s.write, s.written, s.threads[t])
    ensures Shape(StepPop(s, t, false))
  {
    var pc := s.threads[t].pc;
    if pc.Move? {
      TurnSlot(s, t);
      MoveOutKeepsShape(s, t);
    } else if pc.Destroy? {
      DestroySlotKeepsShape(s, t);
    } else {
      CommitPopKeepsShape(s, t);
    }
  }

  /** All other accesses of a consumer only move it on. */
  lemma PopWaitIsGoto<T>(s: State<T>, t: Tid, spurious: bool) returns (pc: Pc<T>)
    requires ValidCapacity(s.Cap()) && t in s.threads && !Finished(s.threads[t].pc) && IsPop(s.threads[t].op)
    requires |s.written| == s.write.committed
    requires LocalPop(s.Cap(), s.read, s.write, s.written, s.threads[t]) && !PopTurnPc(s.threads[t].pc)
    requires s.threads[t].pc.PopCas? ==> spurious || s.read.reserved != s.threads[t].pc.reserved
    ensures StepPop(s, t, spurious) == Goto(s, t, pc)
    ensures PushTicket(pc) == PushTicket(s.threads[t].pc) && PopTicket(pc) == PopTicket(s.threads[t].pc)
    ensures !pc.Construct? && !pc.PushCommit? && !pc.Destroy? && !pc.PopCommit?
    ensures pc.Move? ==> pc.ticket == s.read.committed
  {
    pc := StepPop(s, t, spurious).threads[t].pc;
  }

  lemma StepPopKeepsShape<T>(s: State<T>, t: Tid, spurious: bool)
    requires Shape(s) && t in s.threads && !Finished(s.threads[t].pc) && IsPop(s.threads[t].op)
    requires LocalPop(s.Cap(), s.read, s.write, s.written, s.threads[t])
    ensures Shape(StepPop(s, t, spurious))
  {
    var pc := s.threads[t].pc;
    if PopTurnPc(pc) {
      StepPopTurnKeepsShape(s, t);
    } else if pc.PopCas? && !spurious && s.read.reserved == pc.reserved {
      TakeReadTicketKeepsShape(s, t);
    } else {
      var next := PopWaitIsGoto(s, t, spurious);
      GotoKeepsShape(s, t, next);
    }
  }

  lemma StepKeepsShape<T>(s: State<T>, t: Tid, spurious: bool)
    requires Shape(s) && t in s.threads && !Finished(s.threads[t].pc)
    requires Local(s.Cap(), s.read, s.write, s.written, s.threads[t])
    ensures Shape(Step(s, t, spurious))
  {
    var op := s.threads[t].op;
    if IsPush(op) {
      StepPushKeepsShape(s, t, spurious);
    } else if IsPop(op) {
      StepPopKeepsShape(s, t, spurious);
    } else {
      GotoKeepsShape(s, t, StepObserve(s, t).threads[t].pc);
    }
  }

  /** A waiting thread's ticket is not yet committed. */
  lemma TicketNotCommitted<T>(s: State<T>, t: Tid)
    requires Ticketed(s) && t in s.threads
    ensures s.threads[t].pc.PushTurn? ==> s.write.committed <= s.threads[t].pc.ticket
    ensures s.threads[t].pc.PopTurn? ==> s.read.committed <= s.threads[t].pc.ticket
  {
    if PushTicket(s.threads[t].pc).Some? { assert t in PushHeld(s.threads); }
    if PopTicket(s.threads[t].pc).Some? { assert t in PopHeld(s.threads); }
  }

  /** What a push step leaves alone. */
  lemma StepPushFrame<T>(s: State<T>, t: Tid, spurious: bool)
    requires ValidCapacity(s.Cap()) && t in s.threads && IsPush(s.threads[t].op)
    ensures var s' := StepPush(s, t, spurious);
            && s'.threads.Keys == s.threads.Keys
            && (forall u <- s.threads :: u != t ==> s'.threads[u] == s.threads[u])
            && s'.read == s.read
            && s'.threads[t].op == s.threads[t].op
            && s.written <= s'.written
            && s'.Cap() == s.Cap()
  {
  }

  /** What a pop step leaves alone. */
  lemma StepPopFrame<T>(s: State<T>, t: Tid, spurious: bool)
    requires ValidCapacity(s.Cap()) && t in s.threads && IsPop(s.threads[t].op)
    ensures var s' := StepPop(s, t, spurious);
            && s'.threads.Keys == s.threads.Keys
            && (forall u <- s.threads :: u != t ==> s'.threads[u] == s.threads[u])
            && s'.write == s.write && s'.written == s.written
            && s'.threads[t].op == s.threads[t].op
            && s'.Cap() == s.Cap()
            && s.delivered <= s'.delivered && s.popHolder <= s'.popHolder
  {
  }

  lemma OwnPushLocals<T>(s: State<T>, t: Tid, spurious: bool)
    requires Ordered(s) && t in s.threads && IsPush(s.threads[t].op)
    requires LocalPush(s.Cap(), s.read, s.write, s.written, s.threads[t])
    requires s.threads[t].pc.PushTurn? ==> s.write.committed <= s.threads[t].pc.ticket
    requires Ordered(StepPush(s, t, spurious))
    ensures var s' := StepPush(s, t, spurious);
            && t in s'.threads && IsPush(s'.threads[t].op)
            && LocalPush(s'.Cap(), s'.read, s'.write, s'.written, s'.threads[t])
  {
  }

  lemma OwnPopLocals<T>(s: State<T>, t: Tid, spurious: bool)
    requires Ordered(s) && t in s.threads && IsPop(s.threads[t].op)
    requires LocalPop(s.Cap(), s.read, s.write, s.written, s.threads[t])
    requires s.threads[t].pc.PopTurn? ==> s.read.committed <= s.threads[t].pc.ticket
    requires s.threads[t].pc.Move? ==>
               s.threads[t].pc.ticket < s.write.committed &&
               s.slots[SlotOf(s.threads[t].pc.ticket, s.Cap())] == Live(s.written[s.threads[t].pc.ticket])
    requires Ordered(StepPop(s, t, spurious))
    ensures var s' := StepPop(s, t, spurious);
            && t in s'.threads && IsPop(s'.threads[t].op)
            && LocalPop(s'.Cap(), s'.read, s'.write, s'.written, s'.threads[t])
  {
  }

  lemma StepKeepsLocals<T>(s: State<T>, t: Tid, spurious: bool)
    requires Inv(s) && t in s.threads && Ordered(Step(s, t, spurious))
    ensures Locals(Step(s, t, spurious))
  {
    TurnSlot(s, t);
    var op := s.threads[t].op;
    TicketNotCommitted(s, t);
    assert Local(s.Cap(), s.read, s.write, s.written, s.threads[t]);
    if IsPush(op) {
      StepPushFrame(s, t, spurious);
      OwnPushLocals(s, t, spurious);
    } else if IsPop(op) {
      StepPopFrame(s, t, spurious);
      OwnPopLocals(s, t, spurious);
    }
    OthersKeepLocals(s, t, Step(s, t, spurious));
  }

  lemma CallKeepsShape<T>(s: State<T>, t: Tid, op: Op<T>)
    requires Shape(s) && t !in s.threads
    ensures Shape(s.(threads := s.threads[t := Thread(op, StartPc(op), NoEffect)]))
  {
    HeldWithout(s.threads, t);
    HeldAfter(s.threads, t, Thread(op, StartPc(op), NoEffect));
    WithoutTicketNotOldest(s, t);
  }

  lemma ReturnKeepsShape<T>(s: State<T>, t: Tid)
    requires Shape(s) && t in s.threads && Finished(s.threads[t].pc)
    ensures Shape(s.(threads := s.threads - {t}))
  {
    HeldWithout(s.threads, t);
    WithoutTicketNotOldest(s, t);
  }

  lemma StepKeepsInv<T>(s: State<T>, t: Tid, spurious: bool)
    requires Inv(s) && t in s.threads && !Finished(s.threads[t].pc)
    ensures Inv(Step(s, t, spurious))
  {
    assert Local(s.Cap(), s.read, s.write, s.written, s.threads[t]);
    StepKeepsShape(s, t, spurious);
    StepKeepsLocals(s, t, spurious);
  }

  lemma ApplyKeepsInv<T>(s: State<T>, e: Event<T>)
    requires Inv(s) && Enabled(s, e)
    ensures Inv(Apply(s, e))
  {
    match e
    case Call(t, op) => CallKeepsShape(s, t, op);
    case Advance(t, spurious) => StepKeepsInv(s, t, spurious);
    case Return(t) => ReturnKeepsShape(s, t);
  }

  /** Every reachable state satisfies the invariant. */
  lemma {:induction false} ExecKeepsInv<T>(s: State<T>, es: seq<Event<T>>)
    requires Inv(s) && Feasible(s, es)
    ensures Inv(Exec(s, es))
    decreases |es|
  {
    if es != [] {
      ApplyKeepsInv(s, es[0]);
      ExecKeepsInv(Apply(s, es[0]), es[1..]);
    }
  }
}
