/** Why an operation refuses or goes round its loop, whoever else is inside: at some moment since
    it began the queue was empty, or full, or another thread of its side held a ticket, or its own
    compare-exchange failed for no reason. An operation that never meets any of these succeeds
    within four accesses. */
module MpmcRefusals {
  import opened MpmcObservers
  import opened MpmcProtocol
  import opened MpmcTheorems
  import opened Options
  import opened TicketBook
  import opened Words

  /** Thread `t` stays in the call it is in. */
  ghost predicate StaysInside<T>(es: seq<Event<T>>, t: Tid) {
    forall i :: 0 <= i < |es| ==> es[i] != Return(t)
  }

  /** How many accesses of `t` there are. */
  function OwnSteps<T>(es: seq<Event<T>>, t: Tid): nat {
    if es == [] then 0 else (if es[0].Advance? && es[0].t == t then 1 else 0) + OwnSteps(es[1..], t)
  }

  // ----- popping ----------------------------------------------------------------------

  /** Nothing to take for `t`: no value, or another thread midway through a pop. */
  ghost predicate PopBlocked<T>(s: State<T>, t: Tid)
    requires Ordered(s)
  {
    Contents(s) == [] || exists u <- s.threads :: u != t && PopTicket(s.threads[u].pc).Some?
  }

  /** The weak compare-exchange of `t` on the read cursor fails for no reason. */
  predicate FailsPopForNoReason<T>(s: State<T>, e: Event<T>, t: Tid) {
    e == Advance(t, true) && t in s.threads && s.threads[t].pc.PopCas?
  }

  /** One of these happens on the run. */
  ghost predicate PopBlockedSometime<T>(s: State<T>, es: seq<Event<T>>, t: Tid)
    requires Inv(s) && Feasible(s, es)
    decreases |es|
  {
    || PopBlocked(s, t)
    || (es != [] &&
        (FailsPopForNoReason(s, es[0], t) ||
         (ApplyKeepsInv(s, es[0]); ApplyKeepsCapacity(s, es[0]); PopBlockedSometime(Apply(s, es[0]), es[1..], t))))
  }

  /** What `t` has loaded is still so, or it has its ticket. */
  ghost predicate PopHopeful<T>(s: State<T>, t: Tid)
    requires t in s.threads
  {
    match s.threads[t].pc
    case TryPopLoadCommitted(produced) => s.read.reserved < produced
    case TryPopLoadReserved(produced, committed) => s.read.reserved < produced && committed == s.read.reserved
    case WaitPopLoadReserved(produced) => s.read.reserved < produced
    case PopCas(reserved) => reserved == s.read.reserved
    case PopDone(result) => result.Some?
    case _ => PopTicket(s.threads[t].pc).Some?
  }

  /** Accesses left before a hopeful pop has its ticket, at most. */
  function PopAttempts<T>(pc: Pc<T>): nat {
    match pc
    case PopLoadProduced => 4
    case TryPopLoadCommitted(_) => 3
    case TryPopLoadReserved(_, _) => 2
    case WaitPopLoadReserved(_) => 2
    case PopCas(_) => 1
    case _ => 0
  }

  /** With nothing in its way a thread without a ticket finds the read side settled. */
  lemma PopUnblocked<T>(s: State<T>, t: Tid)
    requires Inv(s) && t in s.threads && !PopBlocked(s, t) && PopTicket(s.threads[t].pc).None?
    ensures s.read.committed == s.read.reserved < s.write.committed
  {
    OldestHolders(s);
  }

  /** Others leave a hopeful thread hopeful. */
  lemma OthersKeepPopHope<T>(s: State<T>, e: Event<T>, t: Tid)
    requires Inv(s) && Enabled(s, e) && t in s.threads && e.t != t && Inv(Apply(s, e))
    requires !PopBlocked(s, t) && !PopBlocked(Apply(s, e), t)
    ensures t in Apply(s, e).threads && Apply(s, e).threads[t] == s.threads[t]
    ensures PopHopeful(s, t) ==> PopHopeful(Apply(s, e), t)
  {
    var s' := Apply(s, e);
    if e.Advance? {
      EffectIsFinal(s, e.t, e.spurious);
      CommitAdvancesByOne(s, e.t, e.spurious);
    }
    if PopTicket(s.threads[t].pc).None? {
      PopUnblocked(s, t);
      PopUnblocked(s', t);
      assert s'.read.committed == s.read.committed;
    }
  }

  /** What `n` accesses of `t` have done for a pop that nothing was in the way of. */
  ghost predicate PopProgress<T>(s: State<T>, t: Tid, s': State<T>, n: nat)
    requires t in s.threads
  {
    && t in s'.threads && s'.threads[t].op == s.threads[t].op
    && (PopHopeful(s', t) || (s.threads[t].pc.PopLoadProduced? && s'.threads[t] == s.threads[t] && n == 0))
    && (PopAttempts(s'.threads[t].pc) + n <= PopAttempts(s.threads[t].pc) || PopAttempts(s'.threads[t].pc) == 0)
  }

  lemma PopProgressComposes<T>(s: State<T>, t: Tid, s1: State<T>, s2: State<T>, m: nat, n: nat)
    requires t in s.threads && PopProgress(s, t, s1, m) && PopProgress(s1, t, s2, n)
    requires PopAttempts(s1.threads[t].pc) == 0 ==> PopAttempts(s2.threads[t].pc) == 0
    ensures PopProgress(s, t, s2, m + n)
  {
  }

  /** An access of a thread with nothing in its way gets it nearer to its ticket. */
  lemma OwnStepLooks<T>(s: State<T>, t: Tid, spurious: bool)
    requires Ordered(s) && Enabled(s, Advance(t, spurious)) && IsPop(s.threads[t].op)
    requires LocalPop(s.Cap(), s.read, s.write, s.written, s.threads[t])
    requires PopHopeful(s, t) || s.threads[t].pc.PopLoadProduced?
    requires PopTicket(s.threads[t].pc).None? && s.read.committed == s.read.reserved < s.write.committed
    requires !(spurious && s.threads[t].pc.PopCas?)
    ensures PopProgress(s, t, StepPop(s, t, spurious), 1)
  {
  }

  /** With its ticket a pop does not fail any more. */
  lemma OwnStepPops<T>(s: State<T>, t: Tid, spurious: bool)
    requires Ordered(s) && Enabled(s, Advance(t, spurious)) && IsPop(s.threads[t].op)
    requires s.threads[t].pc.Move? ==> s.slots[SlotOf(s.threads[t].pc.ticket, s.Cap())].Live?
    requires PopTicket(s.threads[t].pc).Some?
    ensures PopProgress(s, t, StepPop(s, t, spurious), 1)
  {
  }

  /** One event of a run on which nothing is in the way of `t`. */
  lemma PopHopeStep<T>(s: State<T>, e: Event<T>, t: Tid)
    requires Inv(s) && Enabled(s, e) && t in s.threads && IsPop(s.threads[t].op) && e != Return(t)
    requires Inv(Apply(s, e)) && !PopBlocked(s, t) && !PopBlocked(Apply(s, e), t) && !FailsPopForNoReason(s, e, t)
    requires PopHopeful(s, t) || s.threads[t].pc.PopLoadProduced?
    ensures PopProgress(s, t, Apply(s, e), OwnSteps([e], t))
  {
    if e.t == t {
      assert Local(s.Cap(), s.read, s.write, s.written, s.threads[t]);
      LifetimesRespected(s, t);
      if PopTicket(s.threads[t].pc).None? {
        PopUnblocked(s, t);
        OwnStepLooks(s, t, e.spurious);
      } else {
        OwnStepPops(s, t, e.spurious);
      }
    } else {
      OthersKeepPopHope(s, e, t);
    }
  }

  /** What becomes of a pop that nothing is in the way of. */
  lemma {:induction false} UnblockedPopRun<T>(s: State<T>, es: seq<Event<T>>, t: Tid)
    requires Inv(s) && Feasible(s, es) && StaysInside(es, t) && !PopBlockedSometime(s, es, t)
    requires t in s.threads && IsPop(s.threads[t].op)
    requires PopHopeful(s, t) || s.threads[t].pc.PopLoadProduced?
    ensures PopProgress(s, t, Exec(s, es), OwnSteps(es, t))
    decreases |es|
  {
    if es != [] {
      var e := es[0];
      ApplyKeepsInv(s, e);
      ApplyKeepsCapacity(s, e);
      assert !PopBlockedSometime(Apply(s, e), es[1..], t);
      PopHopeStep(s, e, t);
      assert forall i :: 0 <= i < |es[1..]| ==> es[1..][i] == es[i + 1];
      UnblockedPopRun(Apply(s, e), es[1..], t);
      PopProgressComposes(s, t, Apply(s, e), Exec(s, es), OwnSteps([e], t), OwnSteps(es[1..], t));
    }
  }

  /** A `try_pop` that comes back empty-handed had a reason: at some moment since its call there
      was no value, or another thread was midway through a pop, or its compare-exchange failed
      for no reason. */
  lemma RefusedPopWasBlocked<T>(s: State<T>, es: seq<Event<T>>, t: Tid)
    requires Inv(s) && Feasible(s, es) && StaysInside(es, t)
    requires t in s.threads && IsPop(s.threads[t].op) && s.threads[t].pc.PopLoadProduced?
    requires t in Exec(s, es).threads && Exec(s, es).threads[t].pc == PopDone(None)
    ensures PopBlockedSometime(s, es, t)
  {
    if !PopBlockedSometime(s, es, t) { UnblockedPopRun(s, es, t); }
  }

  /** A round of `wait_pop` that goes back to its start had one of these reasons since. */
  lemma PopRoundWasBlocked<T>(s: State<T>, es: seq<Event<T>>, t: Tid)
    requires Inv(s) && Feasible(s, es) && StaysInside(es, t)
    requires t in s.threads && IsPop(s.threads[t].op) && s.threads[t].pc.PopLoadProduced?
    requires OwnSteps(es, t) > 0
    requires t in Exec(s, es).threads && Exec(s, es).threads[t].pc.PopLoadProduced?
    ensures PopBlockedSometime(s, es, t)
  {
    if !PopBlockedSometime(s, es, t) { UnblockedPopRun(s, es, t); }
  }

  /** And the other way: a pop, of either kind, that meets none of them has taken a value after
      four accesses of its own, whatever others do. */
  lemma UnblockedPopSucceeds<T>(s: State<T>, es: seq<Event<T>>, t: Tid)
    requires Inv(s) && Feasible(s, es) && StaysInside(es, t) && !PopBlockedSometime(s, es, t)
    requires t in s.threads && IsPop(s.threads[t].op) && s.threads[t].pc.PopLoadProduced?
    requires OwnSteps(es, t) >= 4
    ensures t in Exec(s, es).threads && Exec(s, es).threads[t].effect.Popped?
  {
    UnblockedPopRun(s, es, t);
    ExecKeepsInv(s, es);
    var s' := Exec(s, es);
    assert Local(s'.Cap(), s'.read, s'.write, s'.written, s'.threads[t]);
  }

  /** Accesses left in a round of the loop of a pop, at most. */
  function PopRoundRank<T>(pc: Pc<T>): int {
    match pc
    case PopLoadProduced => SPIN_LIMIT + 4
    case TryPopLoadCommitted(_) => SPIN_LIMIT + 3
    case TryPopLoadReserved(_, _) => SPIN_LIMIT + 2
    case WaitPopLoadReserved(_) => SPIN_LIMIT + 2
    case PopSpin(_, i) => SPIN_LIMIT - i
    case PopCas(_) => 1
    case _ => 0
  }

  /** Every round ends: a thread that spins and waits is back at its loads, or has its ticket or
      its answer, after a bounded number of accesses. */
  lemma PopRoundsEnd<T>(s: State<T>, t: Tid, spurious: bool)
    requires Inv(s) && Enabled(s, Advance(t, spurious)) && IsPop(s.threads[t].op)
    requires PopTicket(s.threads[t].pc).None?
    ensures var pc, pc' := s.threads[t].pc, Step(s, t, spurious).threads[t].pc;
            && 0 <= PopRoundRank(pc') && 0 < PopRoundRank(pc)
            && (pc'.PopLoadProduced? || PopRoundRank(pc') < PopRoundRank(pc))
  {
    assert Local(s.Cap(), s.read, s.write, s.written, s.threads[t]);
  }

  // ----- pushing ----------------------------------------------------------------------

  /** No slot for `t`: all are reserved or not handed back yet, or another thread is midway
      through a push. */
  ghost predicate PushBlocked<T>(s: State<T>, t: Tid) {
    Taken(s) >= s.Cap() || exists u <- s.threads :: u != t && PushTicket(s.threads[u].pc).Some?
  }

  /** The weak compare-exchange of `t` on the write cursor fails for no reason. */
  predicate FailsPushForNoReason<T>(s: State<T>, e: Event<T>, t: Tid) {
    e == Advance(t, true) && t in s.threads && s.threads[t].pc.PushCas?
  }

  /** One of these happens on the run. */
  ghost predicate PushBlockedSometime<T>(s: State<T>, es: seq<Event<T>>, t: Tid)
    requires ValidCapacity(s.Cap()) && Feasible(s, es)
    decreases |es|
  {
    || PushBlocked(s, t)
    || (es != [] &&
        (FailsPushForNoReason(s, es[0], t) ||
         (ApplyKeepsCapacity(s, es[0]); PushBlockedSometime(Apply(s, es[0]), es[1..], t))))
  }

  /** What `t` has loaded is still so, or it has its ticket. */
  ghost predicate PushHopeful<T>(s: State<T>, t: Tid)
    requires t in s.threads
  {
    match s.threads[t].pc
    case TryPushLoadCommitted(consumed) => s.write.reserved < consumed + s.Cap()
    case TryPushLoadReserved(consumed, committed) =>
      s.write.reserved < consumed + s.Cap() && committed == s.write.reserved
    case WaitPushLoadReserved(consumed) => s.write.reserved < consumed + s.Cap()
    case PushCas(reserved) => reserved == s.write.reserved
    case PushDone(ok) => ok
    case _ => PushTicket(s.threads[t].pc).Some?
  }

  /** Accesses left before a hopeful push has its ticket, at most. */
  function PushAttempts<T>(pc: Pc<T>): nat {
    match pc
    case PushLoadConsumed => 4
    case TryPushLoadCommitted(_) => 3
    case TryPushLoadReserved(_, _) => 2
    case WaitPushLoadReserved(_) => 2
    case PushCas(_) => 1
    case _ => 0
  }

  /** With nothing in its way a thread without a ticket finds the write side settled. */
  lemma PushUnblocked<T>(s: State<T>, t: Tid)
    requires Inv(s) && t in s.threads && !PushBlocked(s, t) && PushTicket(s.threads[t].pc).None?
    ensures s.write.committed == s.write.reserved < s.read.committed + s.Cap()
  {
    OldestHolders(s);
  }

  /** Others leave a hopeful thread hopeful. */
  lemma OthersKeepPushHope<T>(s: State<T>, e: Event<T>, t: Tid)
    requires Inv(s) && Enabled(s, e) && t in s.threads && e.t != t && Inv(Apply(s, e))
    requires !PushBlocked(s, t) && !PushBlocked(Apply(s, e), t)
    ensures t in Apply(s, e).threads && Apply(s, e).threads[t] == s.threads[t]
    ensures PushHopeful(s, t) ==> PushHopeful(Apply(s, e), t)
  {
    var s' := Apply(s, e);
    ApplyKeepsCapacity(s, e);
    if e.Advance? {
      EffectIsFinal(s, e.t, e.spurious);
      CommitAdvancesByOne(s, e.t, e.spurious);
    }
    if PushTicket(s.threads[t].pc).None? {
      PushUnblocked(s, t);
      PushUnblocked(s', t);
      assert s'.write.committed == s.write.committed;
    }
  }

  /** What `n` accesses of `t` have done for a push that nothing was in the way of. */
  ghost predicate PushProgress<T>(s: State<T>, t: Tid, s': State<T>, n: nat)
    requires t in s.threads
  {
    && t in s'.threads && s'.threads[t].op == s.threads[t].op
    && (PushHopeful(s', t) || (s.threads[t].pc.PushLoadConsumed? && s'.threads[t] == s.threads[t] && n == 0))
    && (PushAttempts(s'.threads[t].pc) + n <= PushAttempts(s.threads[t].pc) || PushAttempts(s'.threads[t].pc) == 0)
  }

  lemma PushProgressComposes<T>(s: State<T>, t: Tid, s1: State<T>, s2: State<T>, m: nat, n: nat)
    requires t in s.threads && PushProgress(s, t, s1, m) && PushProgress(s1, t, s2, n)
    requires PushAttempts(s1.threads[t].pc) == 0 ==> PushAttempts(s2.threads[t].pc) == 0
    ensures PushProgress(s, t, s2, m + n)
  {
  }

  /** An access of a thread with nothing in its way gets it nearer to its ticket. */
  lemma OwnStepAsks<T>(s: State<T>, t: Tid, spurious: bool)
    requires Ordered(s) && Enabled(s, Advance(t, spurious)) && IsPush(s.threads[t].op)
    requires LocalPush(s.Cap(), s.read, s.write, s.written, s.threads[t])
    requires PushHopeful(s, t) || s.threads[t].pc.PushLoadConsumed?
    requires PushTicket(s.threads[t].pc).None? && s.write.committed == s.write.reserved < s.read.committed + s.Cap()
    requires !(spurious && s.threads[t].pc.PushCas?)
    ensures PushProgress(s, t, StepPush(s, t, spurious), 1)
  {
  }

  /** With its ticket a push does not fail any more. */
  lemma OwnStepPushes<T>(s: State<T>, t: Tid, spurious: bool)
    requires Ordered(s) && Enabled(s, Advance(t, spurious)) && IsPush(s.threads[t].op)
    requires PushTicket(s.threads[t].pc).Some?
    ensures PushProgress(s, t, StepPush(s, t, spurious), 1)
  {
  }

  /** One event of a run on which nothing is in the way of `t`. */
  lemma PushHopeStep<T>(s: State<T>, e: Event<T>, t: Tid)
    requires Inv(s) && Enabled(s, e) && t in s.threads && IsPush(s.threads[t].op) && e != Return(t)
    requires Inv(Apply(s, e)) && !PushBlocked(s, t) && !PushBlocked(Apply(s, e), t) && !FailsPushForNoReason(s, e, t)
    requires PushHopeful(s, t) || s.threads[t].pc.PushLoadConsumed?
    ensures PushProgress(s, t, Apply(s, e), OwnSteps([e], t))
  {
    if e.t == t {
      assert Local(s.Cap(), s.read, s.write, s.written, s.threads[t]);
      if PushTicket(s.threads[t].pc).None? {
        PushUnblocked(s, t);
        OwnStepAsks(s, t, e.spurious);
      } else {
        OwnStepPushes(s, t, e.spurious);
      }
    } else {
      OthersKeepPushHope(s, e, t);
    }
  }

  /** What becomes of a push that nothing is in the way of. */
  lemma {:induction false} UnblockedPushRun<T>(s: State<T>, es: seq<Event<T>>, t: Tid)
    requires Inv(s) && Feasible(s, es) && StaysInside(es, t) && !PushBlockedSometime(s, es, t)
    requires t in s.threads && IsPush(s.threads[t].op)
    requires PushHopeful(s, t) || s.threads[t].pc.PushLoadConsumed?
    ensures PushProgress(s, t, Exec(s, es), OwnSteps(es, t))
    decreases |es|
  {
    if es != [] {
      var e := es[0];
      ApplyKeepsInv(s, e);
      ApplyKeepsCapacity(s, e);
      assert !PushBlockedSometime(Apply(s, e), es[1..], t);
      PushHopeStep(s, e, t);
      assert forall i :: 0 <= i < |es[1..]| ==> es[1..][i] == es[i + 1];
      UnblockedPushRun(Apply(s, e), es[1..], t);
      PushProgressComposes(s, t, Apply(s, e), Exec(s, es), OwnSteps([e], t), OwnSteps(es[1..], t));
    }
  }

  /** A `try_push` that reports failure had a reason: at some moment since its call no slot was
      free, or another thread was midway through a push, or its compare-exchange failed for no
      reason. */
  lemma RefusedPushWasBlocked<T>(s: State<T>, es: seq<Event<T>>, t: Tid)
    requires Inv(s) && Feasible(s, es) && StaysInside(es, t)
    requires t in s.threads && IsPush(s.threads[t].op) && s.threads[t].pc.PushLoadConsumed?
    requires t in Exec(s, es).threads && Exec(s, es).threads[t].pc == PushDone(false)
    ensures PushBlockedSometime(s, es, t)
  {
    if !PushBlockedSometime(s, es, t) { UnblockedPushRun(s, es, t); }
  }

  /** A round of `wait_push` that goes back to its start had one of these reasons since. */
  lemma PushRoundWasBlocked<T>(s: State<T>, es: seq<Event<T>>, t: Tid)
    requires Inv(s) && Feasible(s, es) && StaysInside(es, t)
    requires t in s.threads && IsPush(s.threads[t].op) && s.threads[t].pc.PushLoadConsumed?
    requires OwnSteps(es, t) > 0
    requires t in Exec(s, es).threads && Exec(s, es).threads[t].pc.PushLoadConsumed?
    ensures PushBlockedSometime(s, es, t)
  {
    if !PushBlockedSometime(s, es, t) { UnblockedPushRun(s, es, t); }
  }

  /** And the other way: a push, of either kind, that meets none of them has its ticket, or is
      done, after four accesses of its own, whatever others do. */
  lemma UnblockedPushSucceeds<T>(s: State<T>, es: seq<Event<T>>, t: Tid)
    requires Inv(s) && Feasible(s, es) && StaysInside(es, t) && !PushBlockedSometime(s, es, t)
    requires t in s.threads && IsPush(s.threads[t].op) && s.threads[t].pc.PushLoadConsumed?
    requires OwnSteps(es, t) >= 4
    ensures t in Exec(s, es).threads
    ensures PushTicket(Exec(s, es).threads[t].pc).Some? || Exec(s, es).threads[t].pc == PushDone(true)
  {
    UnblockedPushRun(s, es, t);
  }

  /** Accesses left in a round of the loop of a push, at most. */
  function PushRoundRank<T>(pc: Pc<T>): int {
    match pc
    case PushLoadConsumed => SPIN_LIMIT + 4
    case TryPushLoadCommitted(_) => SPIN_LIMIT + 3
    case TryPushLoadReserved(_, _) => SPIN_LIMIT + 2
    case WaitPushLoadReserved(_) => SPIN_LIMIT + 2
    case PushSpin(_, i) => SPIN_LIMIT - i
    case PushCas(_) => 1
    case _ => 0
  }

  /** Every round ends. */
  lemma PushRoundsEnd<T>(s: State<T>, t: Tid, spurious: bool)
    requires Inv(s) && Enabled(s, Advance(t, spurious)) && IsPush(s.threads[t].op)
    requires PushTicket(s.threads[t].pc).None?
    ensures var pc, pc' := s.threads[t].pc, Step(s, t, spurious).threads[t].pc;
            && 0 <= PushRoundRank(pc') && 0 < PushRoundRank(pc)
            && (pc'.PushLoadConsumed? || PushRoundRank(pc') < PushRoundRank(pc))
  {
    assert Local(s.Cap(), s.read, s.write, s.written, s.threads[t]);
  }
}
