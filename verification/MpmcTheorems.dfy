/** What every run of the ticket protocol keeps: it refines a bounded FIFO, its slot
    accesses are exclusive and lifetime-correct, its tickets drain, and its split loads
    never underflow. */
module MpmcTheorems {
  import opened BoundedFifo
  import opened MpmcProtocol
  import opened Options
  import opened RingWindow
  import opened Storage
  import opened TicketBook
  import opened Words

  /** Every reachable state satisfies the invariant. */
  lemma ReachableInv<T>(cap: nat, es: seq<Event<T>>)
    requires ValidCapacity(cap) && Feasible(Init<T>(cap), es)
    ensures Inv(Exec(Init<T>(cap), es))
  {
    InitInv<T>(cap);
    ExecKeepsInv(Init<T>(cap), es);
  }

  // ----- cursors, tickets and slots -------------------------------------------------

  /** The cursor order of every reachable state, which bounds the contents. */
  lemma CursorsInOrder<T>(cap: nat, es: seq<Event<T>>)
    requires ValidCapacity(cap) && Feasible(Init<T>(cap), es)
    ensures var s := Exec(Init<T>(cap), es);
            s.read.committed <= s.read.reserved <= s.write.committed <= s.write.reserved
            <= s.read.committed + cap
  {
    ReachableInv(cap, es);
    ExecKeepsCapacity(Init<T>(cap), es);
  }

  lemma {:induction false} ExecKeepsCapacity<T>(s: State<T>, es: seq<Event<T>>)
    requires ValidCapacity(s.Cap()) && Feasible(s, es)
    ensures Exec(s, es).Cap() == s.Cap()
    decreases |es|
  {
    if es != [] {
      ApplyKeepsCapacity(s, es[0]);
      ExecKeepsCapacity(Apply(s, es[0]), es[1..]);
    }
  }

  /** The outstanding tickets of each side are exactly [committed, reserved), and each has
      exactly one holder. */
  lemma TicketsExact<T>(s: State<T>, n: nat)
    requires Inv(s)
    ensures s.write.committed <= n < s.write.reserved <==>
            exists t :: t in s.threads && PushTicket(s.threads[t].pc) == Some(n)
    ensures s.read.committed <= n < s.read.reserved <==>
            exists t :: t in s.threads && PopTicket(s.threads[t].pc) == Some(n)
    ensures forall t, u | t in s.threads && u in s.threads && t != u ::
              PushTicket(s.threads[t].pc) == Some(n) ==> PushTicket(s.threads[u].pc) != Some(n)
    ensures forall t, u | t in s.threads && u in s.threads && t != u ::
              PopTicket(s.threads[t].pc) == Some(n) ==> PopTicket(s.threads[u].pc) != Some(n)
  {
    if s.write.committed <= n < s.write.reserved {
      assert s.pushHolder[n] in PushHeld(s.threads);
    }
    if s.read.committed <= n < s.read.reserved {
      assert s.popHolder[n] in PopHeld(s.threads);
    }
    forall t | t in s.threads && PushTicket(s.threads[t].pc) == Some(n)
      ensures s.write.committed <= n < s.write.reserved && s.pushHolder[n] == t
    {
      assert t in PushHeld(s.threads);
    }
    forall t | t in s.threads && PopTicket(s.threads[t].pc) == Some(n)
      ensures s.read.committed <= n < s.read.reserved && s.popHolder[n] == t
    {
      assert t in PopHeld(s.threads);
    }
  }

  /** `fetch_add` after a `try_` operation and the plain store after a `wait_` operation
      both advance their committed cursor by exactly one, past the committer's own ticket. */
  lemma CommitAdvancesByOne<T>(s: State<T>, t: Tid, spurious: bool)
    requires Inv(s) && t in s.threads
    ensures s.threads[t].pc.PushCommit? ==>
              s.threads[t].pc.ticket == s.write.committed &&
              Step(s, t, spurious).write.committed == s.write.committed + 1
    ensures s.threads[t].pc.PopCommit? ==>
              s.threads[t].pc.ticket == s.read.committed &&
              Step(s, t, spurious).read.committed == s.read.committed + 1
    ensures !s.threads[t].pc.PushCommit? ==> Step(s, t, spurious).write.committed == s.write.committed
    ensures !s.threads[t].pc.PopCommit? ==> Step(s, t, spurious).read.committed == s.read.committed
  {
    assert Local(s.Cap(), s.read, s.write, s.written, s.threads[t]);
    if s.threads[t].pc.PushCommit? { assert PushTurnPc(s.threads[t].pc); }
    if s.threads[t].pc.PopCommit? { assert PopTurnPc(s.threads[t].pc); }
  }

  /** A `try_` producer or consumer that won its ticket holds the oldest one of its side,
      whoever queues behind it. */
  lemma TryHoldsOldestTicket<T>(s: State<T>, t: Tid)
    requires Inv(s) && t in s.threads
    ensures s.threads[t].op.TryPush? && PushTicket(s.threads[t].pc).Some? ==>
              PushTicket(s.threads[t].pc) == Some(s.write.committed)
    ensures s.threads[t].op.TryPop? && PopTicket(s.threads[t].pc).Some? ==>
              PopTicket(s.threads[t].pc) == Some(s.read.committed)
  {
    assert Local(s.Cap(), s.read, s.write, s.written, s.threads[t]);
  }

  /** The counter value whose slot a thread may be working on or has reserved. */
  ghost function SlotTicket<T>(pc: Pc<T>): Option<nat> {
    if PushTicket(pc).Some? then PushTicket(pc) else PopTicket(pc)
  }

  /** No two threads ever hold tickets for the same physical slot, producers and consumers
      alike; in particular no two threads work on one slot. */
  lemma SlotExclusion<T>(s: State<T>, t: Tid, u: Tid)
    requires Inv(s) && t in s.threads && u in s.threads && t != u
    requires SlotTicket(s.threads[t].pc).Some? && SlotTicket(s.threads[u].pc).Some?
    ensures SlotOf(SlotTicket(s.threads[t].pc).value, s.Cap()) !=
            SlotOf(SlotTicket(s.threads[u].pc).value, s.Cap())
  {
    var m, n := SlotTicket(s.threads[t].pc).value, SlotTicket(s.threads[u].pc).value;
    TicketInLap(s, t);
    TicketInLap(s, u);
    assert m != n;
    if m < n { SlotsDistinct(m, n, s.Cap()); } else { SlotsDistinct(n, m, s.Cap()); }
  }

  lemma TicketInLap<T>(s: State<T>, t: Tid)
    requires Inv(s) && t in s.threads && SlotTicket(s.threads[t].pc).Some?
    ensures var n := SlotTicket(s.threads[t].pc).value;
            if PushTicket(s.threads[t].pc).Some?
            then s.write.committed <= n < s.read.committed + s.Cap() && n < |s.pushHolder| && s.pushHolder[n] == t
            else s.read.committed <= n < s.write.committed && n < |s.popHolder| && s.popHolder[n] == t
  {
    if PushTicket(s.threads[t].pc).Some? {
      assert t in PushHeld(s.threads);
    } else {
      assert t in PopHeld(s.threads);
    }
  }

  /** A value is constructed only in a raw slot, moved out only of a live one, which then
      holds the value its producer committed under that ticket, and destroyed only after
      it was moved out. */
  lemma LifetimesRespected<T>(s: State<T>, t: Tid)
    requires Inv(s) && t in s.threads
    ensures s.threads[t].pc.Construct? ==> s.slots[SlotOf(s.threads[t].pc.ticket, s.Cap())] == Raw
    ensures s.threads[t].pc.Move? ==>
              s.threads[t].pc.ticket < |s.written| &&
              s.slots[SlotOf(s.threads[t].pc.ticket, s.Cap())] == Live(s.written[s.threads[t].pc.ticket])
    ensures s.threads[t].pc.Destroy? ==> s.slots[SlotOf(s.threads[t].pc.ticket, s.Cap())] == MovedFrom
  {
    TurnSlot(s, t);
  }

  /** A drained queue owns no object: with nobody inside an operation and no contents,
      every slot is raw again. */
  lemma DrainedIsRaw<T>(s: State<T>, i: nat)
    requires Inv(s) && s.threads == map[] && s.read.reserved == s.write.committed && i < s.Cap()
    ensures s.slots[i] == Raw
  {
    var n := SlotCovered(s.read.committed, i, s.Cap());
  }

  // ----- refinement of a bounded FIFO -----------------------------------------------

  /** The abstract queue: the values of the committed tickets no consumer has reserved. */
  ghost function Contents<T>(s: State<T>): seq<T>
    requires Ordered(s)
  {
    s.written[s.read.reserved..]
  }

  /** The effect an event has on the abstract queue, read off the acting thread. */
  ghost function EffectOf<T>(s: State<T>, e: Event<T>): Effect<T>
    requires ValidCapacity(s.Cap()) && Enabled(s, e)
  {
    if e.Advance? && e.t in Apply(s, e).threads && s.threads[e.t].effect.NoEffect?
    then Apply(s, e).threads[e.t].effect
    else NoEffect
  }

  ghost function Effects<T>(s: State<T>, es: seq<Event<T>>): seq<Effect<T>>
    requires ValidCapacity(s.Cap()) && Feasible(s, es)
    decreases |es|
  {
    if es == [] then []
    else
      ApplyKeepsCapacity(s, es[0]);
      [EffectOf(s, es[0])] + Effects(Apply(s, es[0]), es[1..])
  }

  lemma StepPushRefines<T>(s: State<T>, t: Tid, spurious: bool)
    requires Inv(s) && t in s.threads && IsPush(s.threads[t].op)
    requires Ordered(StepPush(s, t, spurious)) && !Finished(s.threads[t].pc)
    ensures var s' := StepPush(s, t, spurious);
            && t in s'.threads && s.threads[t].effect.NoEffect?
            && (s'.threads[t].effect == NoEffect || s'.threads[t].effect == Pushed(s.threads[t].op.v))
            && FifoStep(s.Cap(), Contents(s), s'.threads[t].effect) == Some(Contents(s'))
  {
    assert Local(s.Cap(), s.read, s.write, s.written, s.threads[t]);
    if s.threads[t].pc.PushCommit? {
      TicketInLap(s, t);
      var s' := StepPush(s, t, spurious);
      assert Contents(s') == Contents(s) + [s.threads[t].op.v];
    }
  }

  lemma StepPopRefines<T>(s: State<T>, t: Tid, spurious: bool)
    requires Inv(s) && t in s.threads && IsPop(s.threads[t].op)
    requires Ordered(StepPop(s, t, spurious)) && !Finished(s.threads[t].pc)
    ensures var s' := StepPop(s, t, spurious);
            && t in s'.threads
            && (!s.threads[t].effect.NoEffect? ==> s'.threads[t].effect == s.threads[t].effect)
            && FifoStep(s.Cap(), Contents(s),
                        if s.threads[t].effect.NoEffect? then s'.threads[t].effect else NoEffect)
               == Some(Contents(s'))
  {
    assert Local(s.Cap(), s.read, s.write, s.written, s.threads[t]);
    StepPopFrame(s, t, spurious);
  }

  /** Every event does to the contents exactly what its effect does to a bounded FIFO. */
  lemma EventRefines<T>(s: State<T>, e: Event<T>)
    requires Inv(s) && Enabled(s, e)
    ensures Inv(Apply(s, e))
    ensures FifoStep(s.Cap(), Contents(s), EffectOf(s, e)) == Some(Contents(Apply(s, e)))
  {
    ApplyKeepsInv(s, e);
    if e.Advance? {
      var op := s.threads[e.t].op;
      if IsPush(op) {
        StepPushRefines(s, e.t, e.spurious);
      } else if IsPop(op) {
        StepPopRefines(s, e.t, e.spurious);
      } else {
        assert Local(s.Cap(), s.read, s.write, s.written, s.threads[e.t]);
      }
    }
  }

  /** Every run of any number of threads mixing `try_` and `wait_` operations refines the
      bounded FIFO. */
  lemma {:induction false} RunRefines<T>(s: State<T>, es: seq<Event<T>>)
    requires Inv(s) && Feasible(s, es)
    ensures Inv(Exec(s, es))
    ensures FifoRun(s.Cap(), Contents(s), Effects(s, es)) == Some(Contents(Exec(s, es)))
    decreases |es|
  {
    if es != [] {
      EventRefines(s, es[0]);
      ApplyKeepsCapacity(s, es[0]);
      RunRefines(Apply(s, es[0]), es[1..]);
    }
  }

  /** An operation has at most one effect, and it never changes once it has happened. */
  lemma EffectIsFinal<T>(s: State<T>, t: Tid, spurious: bool)
    requires Inv(s) && t in s.threads && !Finished(s.threads[t].pc)
    ensures t in Step(s, t, spurious).threads
    ensures Step(s, t, spurious).threads[t].op == s.threads[t].op
    ensures !s.threads[t].effect.NoEffect? ==>
              Step(s, t, spurious).threads[t].effect == s.threads[t].effect
    ensures forall u <- s.threads :: u != t ==>
              u in Step(s, t, spurious).threads && Step(s, t, spurious).threads[u] == s.threads[u]
  {
    StepKeepsInv(s, t, spurious);
    assert Local(s.Cap(), s.read, s.write, s.written, s.threads[t]);
    var op := s.threads[t].op;
    if IsPush(op) {
      StepPushFrame(s, t, spurious);
      StepPushRefines(s, t, spurious);
    } else if IsPop(op) {
      StepPopFrame(s, t, spurious);
      StepPopRefines(s, t, spurious);
    }
  }

  /** What an operation returns is what it did: success reports its one effect with the
      value pushed or popped, failure reports none, and `wait_` operations never fail. */
  lemma ResultMatchesEffect<T>(s: State<T>, t: Tid)
    requires Inv(s) && t in s.threads && Finished(s.threads[t].pc)
    ensures var th := s.threads[t];
            match th.op
            case TryPush(v) => th.pc.PushDone? && th.effect == (if th.pc.ok then Pushed(v) else NoEffect)
            case WaitPush(v) => th.pc == PushDone(true) && th.effect == Pushed(v)
            case TryPop =>
              th.pc.PopDone? &&
              th.effect == (if th.pc.result.Some? then Popped(th.pc.result.value) else NoEffect)
            case WaitPop =>
              th.pc.PopDone? && th.pc.result.Some? && th.effect == Popped(th.pc.result.value)
            case Size => th.pc.SizeDone? && th.pc.size >= 0 && th.effect == NoEffect
            case Full => th.pc.FullDone? && th.effect == NoEffect
  {
    assert Local(s.Cap(), s.read, s.write, s.written, s.threads[t]);
  }

  /** The values pushed, in commit order, are the values popped, in ticket order, followed by
      the contents: each pushed value comes out exactly once, in ticket order. The values
      consumers have actually moved out and committed are a prefix of them. */
  lemma EachValueOnceInOrder<T>(cap: nat, es: seq<Event<T>>)
    requires ValidCapacity(cap) && Feasible(Init<T>(cap), es)
    ensures var s0 := Init<T>(cap);
            var s := Exec(s0, es);
            && Inv(s)
            && PushedValues(Effects(s0, es)) == PoppedValues(Effects(s0, es)) + Contents(s)
            && |Contents(s)| <= cap
            && s.delivered <= s.written
            && |s.delivered| == s.read.committed
  {
    InitInv<T>(cap);
    RunRefines(Init<T>(cap), es);
    assert Contents(Init<T>(cap)) == [];
    FifoConserves(cap, [], Effects(Init<T>(cap), es));
  }

  // ----- progress -------------------------------------------------------------------

  /** Own steps left before a producer with the oldest ticket publishes, at most. */
  function PushRank<T>(pc: Pc<T>): nat {
    match pc
    case PushTurnSpin(_, _, _) => 4
    case PushTurn(_) => 3
    case Construct(_) => 2
    case PushCommit(_) => 1
    case _ => 0
  }

  /** Own steps left before a consumer with the oldest ticket hands its slot back, at most. */
  function PopRank<T>(pc: Pc<T>): nat {
    match pc
    case PopTurnSpin(_, _, _) => 5
    case PopTurn(_) => 4
    case Move(_) => 3
    case Destroy(_, _) => 2
    case PopCommit(_, _) => 1
    case _ => 0
  }

  /** The work outstanding on the write side: every ticket behind the oldest counts five. */
  ghost function PushWork<T>(s: State<T>): nat
    requires Inv(s)
  {
    if s.write.committed == s.write.reserved then 0
    else
      OldestHolders(s);
      5 * (s.write.reserved - s.write.committed - 1) + PushRank(s.threads[s.pushHolder[s.write.committed]].pc)
  }

  /** The work outstanding on the read side: every ticket behind the oldest counts six. */
  ghost function PopWork<T>(s: State<T>): nat
    requires Inv(s)
  {
    if s.read.committed == s.read.reserved then 0
    else
      OldestHolders(s);
      6 * (s.read.reserved - s.read.committed - 1) + PopRank(s.threads[s.popHolder[s.read.committed]].pc)
  }

  /** Whoever took the oldest outstanding ticket of a side is still inside its operation,
      can take a step, and every other holder of that side is waiting. */
  lemma OldestHolders<T>(s: State<T>)
    requires Inv(s)
    ensures s.write.committed < s.write.reserved ==>
              var t := s.pushHolder[s.write.committed];
              && t in s.threads && !Finished(s.threads[t].pc)
              && PushTicket(s.threads[t].pc) == Some(s.write.committed)
              && IsPush(s.threads[t].op)
              && 1 <= PushRank(s.threads[t].pc) <= 4
    ensures s.read.committed < s.read.reserved ==>
              var t := s.popHolder[s.read.committed];
              && t in s.threads && !Finished(s.threads[t].pc)
              && PopTicket(s.threads[t].pc) == Some(s.read.committed)
              && IsPop(s.threads[t].op)
              && 1 <= PopRank(s.threads[t].pc) <= 5
  {
    if s.write.committed < s.write.reserved {
      var t := s.pushHolder[s.write.committed];
      assert t in PushHeld(s.threads);
      assert Local(s.Cap(), s.read, s.write, s.written, s.threads[t]);
    }
    if s.read.committed < s.read.reserved {
      var t := s.popHolder[s.read.committed];
      assert t in PopHeld(s.threads);
      assert Local(s.Cap(), s.read, s.write, s.written, s.threads[t]);
    }
  }

  /** Does the event advance the thread that holds the oldest outstanding write ticket? */
  ghost predicate PushLeads<T>(s: State<T>, e: Event<T>)
    requires Inv(s)
  {
    e.Advance? && s.write.committed < s.write.reserved && e.t == s.pushHolder[s.write.committed]
  }

  /** Does the event advance the thread that holds the oldest outstanding read ticket? */
  ghost predicate PopLeads<T>(s: State<T>, e: Event<T>)
    requires Inv(s)
  {
    e.Advance? && s.read.committed < s.read.reserved && e.t == s.popHolder[s.read.committed]
  }

  /** One step of the producer whose ticket is the oldest: it commits, or moves on. */
  lemma PushLeaderStep<T>(s: State<T>, t: Tid, spurious: bool)
    requires Ordered(s) && t in s.threads && IsPush(s.threads[t].op)
    requires PushTicket(s.threads[t].pc) == Some(s.write.committed)
    requires LocalPush(s.Cap(), s.read, s.write, s.written, s.threads[t])
    ensures var s' := StepPush(s, t, spurious);
            && s'.write.reserved == s.write.reserved && s'.pushHolder == s.pushHolder
            && t in s'.threads
            && (s'.write.committed == s.write.committed + 1 ||
                (s'.write == s.write && PushRank(s'.threads[t].pc) < PushRank(s.threads[t].pc)))
  {
  }

  /** Each step of the oldest write ticket's holder makes progress, spurious failures and
      stale reads included. */
  lemma PushLeaderProgress<T>(s: State<T>, spurious: bool)
    requires Inv(s) && s.write.committed < s.write.reserved
    ensures var t := s.pushHolder[s.write.committed];
            && Enabled(s, Advance(t, spurious))
            && Inv(Step(s, t, spurious))
            && Step(s, t, spurious).write.reserved == s.write.reserved
            && PushWork(Step(s, t, spurious)) < PushWork(s)
  {
    OldestHolders(s);
    var t := s.pushHolder[s.write.committed];
    StepKeepsInv(s, t, spurious);
    assert Local(s.Cap(), s.read, s.write, s.written, s.threads[t]);
    PushLeaderStep(s, t, spurious);
    OldestHolders(Step(s, t, spurious));
  }

  /** One step of the consumer whose ticket is the oldest: it commits, or moves on. */
  lemma PopLeaderStep<T>(s: State<T>, t: Tid, spurious: bool)
    requires Ordered(s) && t in s.threads && IsPop(s.threads[t].op)
    requires PopTicket(s.threads[t].pc) == Some(s.read.committed)
    requires LocalPop(s.Cap(), s.read, s.write, s.written, s.threads[t])
    requires s.threads[t].pc.Move? ==> s.slots[SlotOf(s.read.committed, s.Cap())].Live?
    ensures var s' := StepPop(s, t, spurious);
            && s'.read.reserved == s.read.reserved && s'.popHolder == s.popHolder
            && t in s'.threads
            && (s'.read.committed == s.read.committed + 1 ||
                (s'.read == s.read && PopRank(s'.threads[t].pc) < PopRank(s.threads[t].pc)))
  {
  }

  /** Each step of the oldest read ticket's holder makes progress. */
  lemma PopLeaderProgress<T>(s: State<T>, spurious: bool)
    requires Inv(s) && s.read.committed < s.read.reserved
    ensures var t := s.popHolder[s.read.committed];
            && Enabled(s, Advance(t, spurious))
            && Inv(Step(s, t, spurious))
            && Step(s, t, spurious).read.reserved == s.read.reserved
            && PopWork(Step(s, t, spurious)) < PopWork(s)
  {
    OldestHolders(s);
    var t := s.popHolder[s.read.committed];
    StepKeepsInv(s, t, spurious);
    assert Local(s.Cap(), s.read, s.write, s.written, s.threads[t]);
    TurnSlot(s, t);
    PopLeaderStep(s, t, spurious);
    OldestHolders(Step(s, t, spurious));
  }

  /** Tickets are only ever added. */
  lemma TicketsOnlyGrow<T>(s: State<T>, t: Tid, spurious: bool)
    requires ValidCapacity(s.Cap()) && t in s.threads
    requires |s.pushHolder| == s.write.reserved && |s.popHolder| == s.read.reserved
    ensures var s' := Step(s, t, spurious);
            && s.write.reserved <= s'.write.reserved && s.pushHolder <= s'.pushHolder
            && s.read.reserved <= s'.read.reserved && s.popHolder <= s'.popHolder
  {
  }

  /** An event that does not advance the oldest write ticket's holder leaves that ticket,
      its holder and where the holder is alone. */
  lemma OthersSpareOldestPush<T>(s: State<T>, e: Event<T>)
    requires Inv(s) && Enabled(s, e) && !PushLeads(s, e)
    ensures var s' := Apply(s, e);
            && s'.write.committed == s.write.committed
            && s.write.reserved <= s'.write.reserved && s.pushHolder <= s'.pushHolder
            && (s.write.committed < s.write.reserved ==>
                  var t := s.pushHolder[s.write.committed];
                  t in s.threads && t in s'.threads && s'.threads[t] == s.threads[t])
  {
    OldestHolders(s);
    if e.Advance? {
      TicketsOnlyGrow(s, e.t, e.spurious);
      CommitAdvancesByOne(s, e.t, e.spurious);
      if PushTicket(s.threads[e.t].pc).Some? { TicketInLap(s, e.t); }
      EffectIsFinal(s, e.t, e.spurious);
    }
  }

  /** The same on the read side. */
  lemma OthersSpareOldestPop<T>(s: State<T>, e: Event<T>)
    requires Inv(s) && Enabled(s, e) && !PopLeads(s, e)
    ensures var s' := Apply(s, e);
            && s'.read.committed == s.read.committed
            && s.read.reserved <= s'.read.reserved && s.popHolder <= s'.popHolder
            && (s.read.committed < s.read.reserved ==>
                  var t := s.popHolder[s.read.committed];
                  t in s.threads && t in s'.threads && s'.threads[t] == s.threads[t])
  {
    OldestHolders(s);
    if e.Advance? {
      TicketsOnlyGrow(s, e.t, e.spurious);
      CommitAdvancesByOne(s, e.t, e.spurious);
      if PopTicket(s.threads[e.t].pc).Some? { TicketInLap(s, e.t); }
      EffectIsFinal(s, e.t, e.spurious);
    }
  }

  /** Nobody else's event takes work back, short of taking a new write ticket. */
  lemma OthersKeepPushWork<T>(s: State<T>, e: Event<T>)
    requires Inv(s) && Enabled(s, e) && !PushLeads(s, e)
    ensures Inv(Apply(s, e))
    ensures s.write.reserved <= Apply(s, e).write.reserved
    ensures Apply(s, e).write.reserved == s.write.reserved ==> PushWork(Apply(s, e)) == PushWork(s)
  {
    ApplyKeepsInv(s, e);
    OthersSpareOldestPush(s, e);
  }

  /** Nobody else's event takes work back, short of taking a new read ticket. */
  lemma OthersKeepPopWork<T>(s: State<T>, e: Event<T>)
    requires Inv(s) && Enabled(s, e) && !PopLeads(s, e)
    ensures Inv(Apply(s, e))
    ensures s.read.reserved <= Apply(s, e).read.reserved
    ensures Apply(s, e).read.reserved == s.read.reserved ==> PopWork(Apply(s, e)) == PopWork(s)
  {
    ApplyKeepsInv(s, e);
    OthersSpareOldestPop(s, e);
  }

  /** How many events of the run advance the holder of the then oldest write ticket. */
  ghost function PushLeaderSteps<T>(s: State<T>, es: seq<Event<T>>): nat
    requires Inv(s) && Feasible(s, es)
    decreases |es|
  {
    if es == [] then 0
    else
      ApplyKeepsInv(s, es[0]);
      (if PushLeads(s, es[0]) then 1 else 0) + PushLeaderSteps(Apply(s, es[0]), es[1..])
  }

  /** How many events of the run advance the holder of the then oldest read ticket. */
  ghost function PopLeaderSteps<T>(s: State<T>, es: seq<Event<T>>): nat
    requires Inv(s) && Feasible(s, es)
    decreases |es|
  {
    if es == [] then 0
    else
      ApplyKeepsInv(s, es[0]);
      (if PopLeads(s, es[0]) then 1 else 0) + PopLeaderSteps(Apply(s, es[0]), es[1..])
  }

  /** With no new write tickets, every schedule that keeps giving steps to the oldest
      ticket's holder commits all outstanding tickets after at most `PushWork` of them. */
  lemma {:induction false} PushTicketsDrain<T>(s: State<T>, es: seq<Event<T>>)
    requires Inv(s) && Feasible(s, es)
    ensures Inv(Exec(s, es)) && s.write.reserved <= Exec(s, es).write.reserved
    ensures Exec(s, es).write.reserved == s.write.reserved ==>
              PushWork(Exec(s, es)) + PushLeaderSteps(s, es) <= PushWork(s)
    ensures Exec(s, es).write.reserved == s.write.reserved && PushLeaderSteps(s, es) >= PushWork(s) ==>
              Exec(s, es).write.committed == Exec(s, es).write.reserved
    decreases |es|
  {
    if es != [] {
      var e := es[0];
      ApplyKeepsInv(s, e);
      PushTicketsDrain(Apply(s, e), es[1..]);
      if PushLeads(s, e) {
        PushLeaderProgress(s, e.spurious);
      } else {
        OthersKeepPushWork(s, e);
      }
    }
    OldestHolders(Exec(s, es));
  }

  /** The same for read tickets. */
  lemma {:induction false} PopTicketsDrain<T>(s: State<T>, es: seq<Event<T>>)
    requires Inv(s) && Feasible(s, es)
    ensures Inv(Exec(s, es)) && s.read.reserved <= Exec(s, es).read.reserved
    ensures Exec(s, es).read.reserved == s.read.reserved ==>
              PopWork(Exec(s, es)) + PopLeaderSteps(s, es) <= PopWork(s)
    ensures Exec(s, es).read.reserved == s.read.reserved && PopLeaderSteps(s, es) >= PopWork(s) ==>
              Exec(s, es).read.committed == Exec(s, es).read.reserved
    decreases |es|
  {
    if es != [] {
      var e := es[0];
      ApplyKeepsInv(s, e);
      PopTicketsDrain(Apply(s, e), es[1..]);
      if PopLeads(s, e) {
        PopLeaderProgress(s, e.spurious);
      } else {
        OthersKeepPopWork(s, e);
      }
    }
    OldestHolders(Exec(s, es));
  }

  /** No deadlock: from every reachable state some schedule, taking no new ticket, commits
      every outstanding ticket of both sides. */
  lemma {:induction false} OutstandingTicketsCanDrain<T>(s: State<T>) returns (es: seq<Event<T>>)
    requires Inv(s)
    ensures Feasible(s, es) && Inv(Exec(s, es))
    ensures var s' := Exec(s, es);
            && s'.write == Cursors(s.write.reserved, s.write.reserved)
            && s'.read == Cursors(s.read.reserved, s.read.reserved)
    decreases PushWork(s) + PopWork(s)
  {
    OldestHolders(s);
    if s.write.committed < s.write.reserved {
      var e := Advance(s.pushHolder[s.write.committed], false);
      PushLeaderProgress(s, false);
      PushStepSparesReaders(s, e);
      var rest := OutstandingTicketsCanDrain(Apply(s, e));
      es := [e] + rest;
    } else if s.read.committed < s.read.reserved {
      var e := Advance(s.popHolder[s.read.committed], false);
      PopLeaderProgress(s, false);
      PopStepSparesWriters(s, e);
      var rest := OutstandingTicketsCanDrain(Apply(s, e));
      es := [e] + rest;
    } else {
      es := [];
    }
  }

  lemma PushStepSparesReaders<T>(s: State<T>, e: Event<T>)
    requires Inv(s) && Enabled(s, e) && e.Advance? && IsPush(s.threads[e.t].op)
    ensures Inv(Apply(s, e)) && Apply(s, e).read == s.read && PopWork(Apply(s, e)) == PopWork(s)
  {
    ApplyKeepsInv(s, e);
    StepPushFrame(s, e.t, e.spurious);
    OldestHolders(s);
    OthersKeepPopWork(s, e);
  }

  lemma PopStepSparesWriters<T>(s: State<T>, e: Event<T>)
    requires Inv(s) && Enabled(s, e) && e.Advance? && IsPop(s.threads[e.t].op)
    ensures Inv(Apply(s, e)) && Apply(s, e).write == s.write && PushWork(Apply(s, e)) == PushWork(s)
  {
    ApplyKeepsInv(s, e);
    StepPopFrame(s, e.t, e.spurious);
    OldestHolders(s);
    OthersKeepPushWork(s, e);
  }

  // ----- the split loads of size() and full() ---------------------------------------

  /** Wherever a second cursor is subtracted from, it is at least the one loaded before:
      the unsigned differences of `size`, `full` and the capacity tests never underflow. */
  lemma SplitLoadsNeverUnderflow<T>(s: State<T>, t: Tid)
    requires Inv(s) && t in s.threads
    ensures s.threads[t].pc.SizeLoadProduced? ==> s.threads[t].pc.consumed <= s.write.committed
    ensures s.threads[t].pc.FullLoadReserved? ==> s.threads[t].pc.consumed <= s.write.reserved
    ensures s.threads[t].pc.TryPushLoadReserved? ==> s.threads[t].pc.consumed <= s.write.reserved
    ensures s.threads[t].pc.WaitPushLoadReserved? ==> s.threads[t].pc.consumed <= s.write.reserved
  {
    assert Local(s.Cap(), s.read, s.write, s.written, s.threads[t]);
  }

  // ----- the width of the cursors ---------------------------------------------------

  /** The emptiness test of the pop operations on cursors kept in 64-bit words. `produced` is
      loaded first and may be stale: nothing orders it against `reserved`. */
  predicate ReadsEmpty(produced: nat, reserved: nat) {
    produced % WORD <= reserved % WORD
  }

  /** With fewer than 2^64 values between the two loaded cursors, whichever is ahead, the test
      answers right exactly when they are in the same turn of the word; the machine above
      therefore counts without wrapping. */
  lemma EmptyTestUnderWrap(produced: nat, reserved: nat)
    requires produced < reserved + WORD && reserved < produced + WORD
    ensures (ReadsEmpty(produced, reserved) <==> produced <= reserved) <==> produced / WORD == reserved / WORD
  {
    var qp, qr := produced / WORD, reserved / WORD;
    assert produced == qp * WORD + produced % WORD && reserved == qr * WORD + reserved % WORD;
  }

  /** Both failures: a queue with one value reads as empty, and an empty one, past which a
      consumer has moved since the stale load, as holding something. */
  lemma EmptyTestFails()
    ensures ReadsEmpty(WORD, WORD - 1)
    ensures !ReadsEmpty(WORD - 1, WORD)
  {
    DivModUnique(WORD, WORD, 1, 0);
    DivModUnique(WORD - 1, WORD, 0, WORD - 1);
  }
}
