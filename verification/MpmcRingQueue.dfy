/** The queue object itself: cursors updated in place, values constructed and destroyed in a
    fixed array of slots. A method performs one atomic access of a thread that is inside an
    operation and is proved to be the step of the protocol; the whole operations at the end are
    proved against the queue. */
module MpmcQueue {
  import opened BoundedFifo
  import opened MpmcObservers
  import opened MpmcProtocol
  import opened MpmcTheorems
  import opened Options
  import opened RingWindow
  import opened Storage
  import opened TicketBook
  import opened Words

  class MPMCRingQueue<T> {
    const data: array<Slot<T>>
    const mask: nat
    var read: Cursors
    var write: Cursors
    var threads: map<Tid, Thread<T>>
    // history: the values committed by producers and by consumers, and the takers of tickets
    var written: seq<T>
    ghost var delivered: seq<T>
    ghost var pushHolder: seq<Tid>
    ghost var popHolder: seq<Tid>

    /** The protocol state this object is in. */
    ghost function View(): State<T>
      reads this, data
    {
      State(data[..], read, write, threads, written, delivered, pushHolder, popHolder)
    }

    ghost predicate Valid()
      reads this, data
    {
      data.Length == mask + 1 && Inv(View())
    }

    constructor (capacity: nat)
      requires ValidCapacity(capacity)
      ensures Valid() && fresh(data)
      ensures View() == Init(capacity)
    {
      data := new Slot<T>[capacity](_ => Raw);
      mask := capacity - 1;
      read, write := Cursors(0, 0), Cursors(0, 0);
      threads := map[];
      written, delivered, pushHolder, popHolder := [], [], [], [];
      new;
      assert data[..] == seq(capacity, i => Raw);
      InitInv<T>(capacity);
    }

    /** `num & m_mask`. */
    function Idx(num: nat): (i: nat)
      requires IsPow2(mask + 1) && data.Length == mask + 1
      ensures i == SlotOf(num, data.Length) && i < data.Length
    {
      AndMask(num, mask + 1);
      BitAnd(num, mask)
    }

    /** A thread enters an operation. */
    method Begin(t: Tid, op: Op<T>)
      requires Valid() && t !in threads
      modifies this`threads
      ensures Valid() && View() == Apply(old(View()), Call(t, op))
    {
      ApplyKeepsInv(View(), Call(t, op));
      threads := threads[t := Thread(op, StartPc(op), NoEffect)];
    }

    /** A thread leaves a finished operation. */
    method End(t: Tid)
      requires Valid() && t in threads && Finished(threads[t].pc)
      modifies this`threads
      ensures Valid() && View() == Apply(old(View()), Return(t)) && threads == old(threads) - {t}
    {
      ApplyKeepsInv(View(), Return(t));
      threads := threads - {t};
    }

    /** Moves thread `t` on to its next access. */
    method JumpTo(t: Tid, pc: Pc<T>)
      requires t in threads
      modifies this`threads
      ensures View() == Goto(old(View()), t, pc)
    {
      threads := threads[t := threads[t].(pc := pc)];
    }

    /** The object is a ring of a legal capacity and `t` is inside it. */
    ghost predicate Inside(t: Tid)
      reads this, data
    {
      ValidCapacity(data.Length) && data.Length == mask + 1 && t in threads
    }

    /** The loads and capacity tests of `try_emplace` and `wait_emplace` before the
        compare-exchange, and the spin of the latter. */
    method PushLoad(t: Tid)
      requires Inside(t) && IsPush(threads[t].op)
      requires var pc := threads[t].pc;
               pc.PushLoadConsumed? || pc.TryPushLoadCommitted? || pc.TryPushLoadReserved? ||
               pc.WaitPushLoadReserved? || pc.PushSpin?
      modifies this`threads
      ensures forall spurious :: View() == StepPush(old(View()), t, spurious)
    {
      match threads[t].pc {
        case PushLoadConsumed =>
          var consumed := read.committed;
          JumpTo(t, if threads[t].op.TryPush? then TryPushLoadCommitted(consumed)
                    else WaitPushLoadReserved(consumed));
        case TryPushLoadCommitted(consumed) =>
          var committed := write.committed;
          JumpTo(t, TryPushLoadReserved(consumed, committed));
        case TryPushLoadReserved(consumed, committed) =>
          var reserved := write.reserved;
          if reserved - consumed >= data.Length || reserved != committed {
            JumpTo(t, PushDone(false));
          } else {
            JumpTo(t, PushCas(reserved));
          }
        case WaitPushLoadReserved(consumed) =>
          var reserved := write.reserved;
          if reserved - consumed >= data.Length {
            JumpTo(t, PushSpin(consumed, 0));
          } else {
            JumpTo(t, PushCas(reserved));
          }
        case PushSpin(consumed, i) =>
          if read.committed != consumed || i + 1 >= SPIN_LIMIT {
            JumpTo(t, PushLoadConsumed);
          } else {
            JumpTo(t, PushSpin(consumed, i + 1));
          }
      }
    }

    /** The weak compare-exchange on `m_write.reserved`. */
    method PushCompareExchange(t: Tid, spurious: bool)
      requires Inside(t) && IsPush(threads[t].op) && threads[t].pc.PushCas?
      modifies this`write, this`pushHolder, this`threads
      ensures View() == StepPush(old(View()), t, spurious)
    {
      var reserved := threads[t].pc.reserved;
      var trying := threads[t].op.TryPush?;
      if spurious || write.reserved != reserved {
        JumpTo(t, if trying then PushDone(false) else PushLoadConsumed);
      } else {
        write := write.(reserved := reserved + 1);
        pushHolder := pushHolder + [t];
        JumpTo(t, if trying then Construct(reserved) else PushTurn(reserved));
      }
    }

    /** Waiting for the tickets ahead. */
    method PushAwaitTurn(t: Tid)
      requires Inside(t) && IsPush(threads[t].op)
      requires threads[t].pc.PushTurn? || threads[t].pc.PushTurnSpin?
      modifies this`threads
      ensures forall spurious :: View() == StepPush(old(View()), t, spurious)
    {
      match threads[t].pc {
        case PushTurn(ticket) =>
          var cur := write.committed;
          JumpTo(t, if cur == ticket then Construct(ticket) else PushTurnSpin(ticket, cur, 0));
        case PushTurnSpin(ticket, cur, i) =>
          if write.committed != cur || i + 1 >= SPIN_LIMIT {
            JumpTo(t, PushTurn(ticket));
          } else {
            JumpTo(t, PushTurnSpin(ticket, cur, i + 1));
          }
      }
    }

    /** `construct_at` on the ticket's slot. */
    method PushConstruct(t: Tid)
      requires Inside(t) && IsPush(threads[t].op) && threads[t].pc.Construct?
      modifies this`threads, data
      ensures forall spurious :: View() == StepPush(old(View()), t, spurious)
    {
      var ticket := threads[t].pc.ticket;
      data[Idx(ticket)] := Live(threads[t].op.v);
      JumpTo(t, PushCommit(ticket));
    }

    /** `fetch_add(1)` of `try_emplace`, plain store of `wait_emplace`. */
    method PushPublish(t: Tid)
      requires Inside(t) && IsPush(threads[t].op) && threads[t].pc.PushCommit?
      modifies this`write, this`written, this`threads
      ensures forall spurious :: View() == StepPush(old(View()), t, spurious)
    {
      var op, ticket := threads[t].op, threads[t].pc.ticket;
      write := write.(committed := if op.TryPush? then write.committed + 1 else ticket + 1);
      written := written + [op.v];
      threads := threads[t := Thread(op, PushDone(true), Pushed(op.v))];
    }

    /** One atomic access of `try_emplace` or `wait_emplace`. */
    method AdvancePush(t: Tid, spurious: bool)
      requires Valid() && t in threads && IsPush(threads[t].op) && !Finished(threads[t].pc)
      modifies this, data
      ensures Valid() && View() == Step(old(View()), t, spurious)
    {
      StepKeepsInv(View(), t, spurious);
      assert Local(View().Cap(), read, write, written, threads[t]);
      var pc := threads[t].pc;
      if pc.PushCas? {
        PushCompareExchange(t, spurious);
      } else if pc.PushTurn? || pc.PushTurnSpin? {
        PushAwaitTurn(t);
      } else if pc.Construct? {
        PushConstruct(t);
      } else if pc.PushCommit? {
        PushPublish(t);
      } else {
        PushLoad(t);
      }
    }

    /** The loads and emptiness tests of `try_pop` and `wait_pop` before the
        compare-exchange, and the spin of the latter. */
    method PopLoad(t: Tid)
      requires Inside(t) && IsPop(threads[t].op)
      requires var pc := threads[t].pc;
               pc.PopLoadProduced? || pc.TryPopLoadCommitted? || pc.TryPopLoadReserved? ||
               pc.WaitPopLoadReserved? || pc.PopSpin?
      modifies this`threads
      ensures forall spurious :: View() == StepPop(old(View()), t, spurious)
    {
      match threads[t].pc {
        case PopLoadProduced =>
          var produced := write.committed;
          JumpTo(t, if threads[t].op.TryPop? then TryPopLoadCommitted(produced)
                    else WaitPopLoadReserved(produced));
        case TryPopLoadCommitted(produced) =>
          var committed := read.committed;
          JumpTo(t, TryPopLoadReserved(produced, committed));
        case TryPopLoadReserved(produced, committed) =>
          var reserved := read.reserved;
          if produced <= reserved || reserved != committed {
            JumpTo(t, PopDone(None));
          } else {
            JumpTo(t, PopCas(reserved));
          }
        case WaitPopLoadReserved(produced) =>
          var reserved := read.reserved;
          if produced <= reserved {
            JumpTo(t, PopSpin(produced, 0));
          } else {
            JumpTo(t, PopCas(reserved));
          }
        case PopSpin(produced, i) =>
          if write.committed != produced || i + 1 >= SPIN_LIMIT {
            JumpTo(t, PopLoadProduced);
          } else {
            JumpTo(t, PopSpin(produced, i + 1));
          }
      }
    }

    /** The weak compare-exchange on `m_read.reserved`. */
    method PopCompareExchange(t: Tid, spurious: bool)
      requires Inside(t) && IsPop(threads[t].op) && threads[t].pc.PopCas?
      requires threads[t].pc.reserved < |written|
      modifies this`read, this`popHolder, this`threads
      ensures View() == StepPop(old(View()), t, spurious)
    {
      var op, reserved := threads[t].op, threads[t].pc.reserved;
      if spurious || read.reserved != reserved {
        JumpTo(t, if op.TryPop? then PopDone(None) else PopLoadProduced);
      } else {
        read := read.(reserved := reserved + 1);
        popHolder := popHolder + [t];
        threads := threads[t := Thread(op, if op.TryPop? then Move(reserved) else PopTurn(reserved),
                                       Popped(written[reserved]))];
      }
    }

    /** Waiting for the tickets ahead. */
    method PopAwaitTurn(t: Tid)
      requires Inside(t) && IsPop(threads[t].op)
      requires threads[t].pc.PopTurn? || threads[t].pc.PopTurnSpin?
      modifies this`threads
      ensures forall spurious :: View() == StepPop(old(View()), t, spurious)
    {
      match threads[t].pc {
        case PopTurn(ticket) =>
          var cur := read.committed;
          JumpTo(t, if cur == ticket then Move(ticket) else PopTurnSpin(ticket, cur, 0));
        case PopTurnSpin(ticket, cur, i) =>
          if read.committed != cur || i + 1 >= SPIN_LIMIT {
            JumpTo(t, PopTurn(ticket));
          } else {
            JumpTo(t, PopTurnSpin(ticket, cur, i + 1));
          }
      }
    }

    /** The value is moved out of the ticket's slot. */
    method PopMove(t: Tid)
      requires Inside(t) && IsPop(threads[t].op) && threads[t].pc.Move?
      requires data[SlotOf(threads[t].pc.ticket, data.Length)].Live?
      modifies this`threads, data
      ensures forall spurious :: View() == StepPop(old(View()), t, spurious)
    {
      var ticket := threads[t].pc.ticket;
      var popped := data[Idx(ticket)].val;
      data[Idx(ticket)] := MovedFrom;
      JumpTo(t, Destroy(popped, ticket));
    }

    /** `destroy_at` on the ticket's slot. */
    method PopDestroy(t: Tid)
      requires Inside(t) && IsPop(threads[t].op) && threads[t].pc.Destroy?
      modifies this`threads, data
      ensures forall spurious :: View() == StepPop(old(View()), t, spurious)
    {
      var popped, ticket := threads[t].pc.popped, threads[t].pc.ticket;
      data[Idx(ticket)] := Raw;
      JumpTo(t, PopCommit(popped, ticket));
    }

    /** `fetch_add(1)` of `try_pop`, plain store of `wait_pop`. */
    method PopPublish(t: Tid)
      requires Inside(t) && IsPop(threads[t].op) && threads[t].pc.PopCommit?
      modifies this`read, this`delivered, this`threads
      ensures forall spurious :: View() == StepPop(old(View()), t, spurious)
    {
      var popped, ticket := threads[t].pc.popped, threads[t].pc.ticket;
      read := read.(committed := if threads[t].op.TryPop? then read.committed + 1 else ticket + 1);
      delivered := delivered + [popped];
      JumpTo(t, PopDone(Some(popped)));
    }

    /** One atomic access of `try_pop` or `wait_pop`. */
    method AdvancePop(t: Tid, spurious: bool)
      requires Valid() && t in threads && IsPop(threads[t].op) && !Finished(threads[t].pc)
      modifies this, data
      ensures Valid() && View() == Step(old(View()), t, spurious)
    {
      StepKeepsInv(View(), t, spurious);
      LifetimesRespected(View(), t);
      assert Local(View().Cap(), read, write, written, threads[t]);
      var pc := threads[t].pc;
      if pc.PopCas? {
        PopCompareExchange(t, spurious);
      } else if pc.PopTurn? || pc.PopTurnSpin? {
        PopAwaitTurn(t);
      } else if pc.Move? {
        PopMove(t);
      } else if pc.Destroy? {
        PopDestroy(t);
      } else if pc.PopCommit? {
        PopPublish(t);
      } else {
        PopLoad(t);
      }
    }

    /** One load of `size` or `full`. */
    method ObserveLoad(t: Tid)
      requires Inside(t)
      requires match threads[t].pc {
                 case SizeLoadConsumed => true
                 case SizeLoadProduced(consumed) => consumed <= write.committed
                 case FullLoadConsumed => true
                 case FullLoadReserved(consumed) => consumed <= write.reserved
                 case _ => false
               }
      modifies this`threads
      ensures View() == StepObserve(old(View()), t)
    {
      match threads[t].pc {
        case SizeLoadConsumed => JumpTo(t, SizeLoadProduced(read.reserved));
        case SizeLoadProduced(consumed) => JumpTo(t, SizeDone(write.committed - consumed));
        case FullLoadConsumed => JumpTo(t, FullLoadReserved(read.committed));
        case FullLoadReserved(consumed) => JumpTo(t, FullDone(write.reserved - consumed >= data.Length));
      }
    }

    /** One access of `size` or `full`. */
    method AdvanceObserve(t: Tid)
      requires Valid() && t in threads && !Finished(threads[t].pc)
      requires !IsPush(threads[t].op) && !IsPop(threads[t].op)
      modifies this`threads
      ensures Valid() && View() == Step(old(View()), t, false)
    {
      StepKeepsInv(View(), t, false);
      assert Local(View().Cap(), read, write, written, threads[t]);
      ObserveLoad(t);
    }

    // ----- whole operations that nobody interrupts ---------------------------------------

    /** `try_emplace`, while other threads stand still wherever they are, and without spurious
        failure: it succeeds exactly when a slot is free and nobody is midway through a push, and
        the value is then the last one. */
    method TryEmplace(t: Tid, v: T) returns (ok: bool)
      requires Valid() && t !in threads
      modifies this, data
      ensures Valid() && threads == old(threads)
      ensures ok <==> HasRoom(old(View()))
      ensures old(threads) == map[] ==> (ok <==> |old(Contents(View()))| < data.Length)
      ensures Contents(View()) == if ok then old(Contents(View())) + [v] else old(Contents(View()))
    {
      ghost var s0 := View();
      PushingFromCall(s0, t, v);
      Begin(t, TryPush(v));
      RunTryPush(s0, t, v);
      ok := threads[t].pc.ok;
      End(t);
    }

    /** Its accesses. */
    method RunTryPush(ghost s0: State<T>, t: Tid, ghost v: T)
      requires Ordered(s0) && Valid() && PushingSince(s0, View(), t, v)
      modifies this, data
      ensures Valid() && t in threads && threads - {t} == s0.threads && threads[t].pc == PushDone(HasRoom(s0))
      ensures Contents(View()) == if HasRoom(s0) then Contents(s0) + [v] else Contents(s0)
    {
      while !Finished(threads[t].pc)
        invariant Valid() && PushingSince(s0, View(), t, v)
        decreases PushSteps(threads[t].pc)
      {
        PushingSinceStep(s0, View(), t, v);
        AdvancePush(t, false);
      }
      PushedSince(s0, View(), t, v);
    }

    /** `try_pop`, in the same way: it succeeds exactly when there is a value and nobody is midway
        through a pop, and takes the first. */
    method TryPop(t: Tid) returns (r: Option<T>)
      requires Valid() && t !in threads
      modifies this, data
      ensures Valid() && threads == old(threads)
      ensures r.Some? <==> HasValue(old(View()))
      ensures old(threads) == map[] ==> (r.Some? <==> old(Contents(View())) != [])
      ensures Took(old(View()), View(), r)
    {
      ghost var s0 := View();
      PoppingFromCall(s0, t);
      Begin(t, Op.TryPop);
      RunTryPop(s0, t);
      r := threads[t].pc.result;
      End(t);
    }

    /** Its accesses. */
    method RunTryPop(ghost s0: State<T>, t: Tid)
      requires Ordered(s0) && Valid() && PoppingSince(s0, View(), t)
      modifies this, data
      ensures Valid() && t in threads && threads - {t} == s0.threads && threads[t].pc.PopDone?
      ensures Took(s0, View(), threads[t].pc.result)
    {
      while !Finished(threads[t].pc)
        invariant Valid() && PoppingSince(s0, View(), t)
        decreases PopSteps(threads[t].pc)
      {
        if threads[t].pc.Move? { MovesTheFirst(s0, View(), t); }
        PoppingSinceStep(s0, View(), t);
        AdvancePop(t, false);
      }
      PoppedSince(s0, View(), t);
    }

    /** `size`, while other threads stand still: the number of values. */
    method Size(t: Tid) returns (n: int)
      requires Valid() && t !in threads
      modifies this`threads
      ensures Valid() && threads == old(threads) && n == |old(Contents(View()))|
    {
      SizeAlone(View(), t);
      Begin(t, Op.Size);
      AdvanceObserve(t);
      AdvanceObserve(t);
      n := threads[t].pc.size;
      End(t);
    }

    /** `full`, in the same way: whether every slot is taken. */
    method Full(t: Tid) returns (r: bool)
      requires Valid() && t !in threads
      modifies this`threads
      ensures Valid() && threads == old(threads) && (r <==> old(Taken(View())) == data.Length)
    {
      FullAlone(View(), t);
      Begin(t, Op.Full);
      AdvanceObserve(t);
      AdvanceObserve(t);
      r := threads[t].pc.full;
      End(t);
    }
  }
}
