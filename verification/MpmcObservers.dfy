/** What the answers of `size`, `remaining` and `full` mean, whatever happens between their two
    loads, and what a `try_` operation that runs alone does. */
module MpmcObservers {
  import opened BoundedFifo
  import opened MpmcProtocol
  import opened MpmcTheorems
  import opened Options
  import opened RingWindow
  import opened Storage
  import opened TicketBook
  import opened Words

  // ----- between the two loads -------------------------------------------------------

  /** Thread `t` takes no part in the schedule. */
  ghost predicate ByOthers<T>(es: seq<Event<T>>, t: Tid) {
    forall i :: 0 <= i < |es| ==> es[i].t != t
  }

  /** One event moves the cursors that bound the contents exactly as its effect says. */
  lemma CursorsOfEvent<T>(s: State<T>, e: Event<T>)
    requires Inv(s) && Enabled(s, e)
    ensures var effect, s' := EffectOf(s, e), Apply(s, e);
            && s'.write.committed == s.write.committed + (if effect.Pushed? then 1 else 0)
            && s'.read.reserved == s.read.reserved + (if effect.Popped? then 1 else 0)
  {
    EventRefines(s, e);
    if e.Advance? {
      CommitAdvancesByOne(s, e.t, e.spurious);
      CommitsArePushes(s, e.t, e.spurious);
      StepLength(s.Cap(), Contents(s), EffectOf(s, e));
    }
  }

  lemma StepLength<T>(cap: nat, q: seq<T>, e: Effect<T>)
    requires FifoStep(cap, q, e).Some?
    ensures |FifoStep(cap, q, e).value| == |q| + (if e.Pushed? then 1 else 0) - (if e.Popped? then 1 else 0)
  {
  }

  /** A push takes effect with its commit and with nothing else. */
  lemma CommitsArePushes<T>(s: State<T>, t: Tid, spurious: bool)
    requires Inv(s) && Enabled(s, Advance(t, spurious))
    ensures EffectOf(s, Advance(t, spurious)).Pushed? <==> s.threads[t].pc.PushCommit?
  {
    assert Local(s.Cap(), s.read, s.write, s.written, s.threads[t]);
  }

  lemma {:induction false} CursorsOfRun<T>(s: State<T>, es: seq<Event<T>>)
    requires Inv(s) && Feasible(s, es)
    ensures var s' := Exec(s, es);
            && Inv(s') && s'.Cap() == s.Cap()
            && s'.write.committed == s.write.committed + |PushedValues(Effects(s, es))|
            && s'.read.reserved == s.read.reserved + |PoppedValues(Effects(s, es))|
    decreases |es|
  {
    if es != [] {
      CursorsOfEvent(s, es[0]);
      ApplyKeepsInv(s, es[0]);
      ApplyKeepsCapacity(s, es[0]);
      CursorsOfRun(Apply(s, es[0]), es[1..]);
      var effects := Effects(s, es);
      assert effects[0] == EffectOf(s, es[0]);
      assert effects[1..] == Effects(Apply(s, es[0]), es[1..]);
    }
  }

  /** Where a thread is, others do not change. */
  lemma {:induction false} OthersLeaveThread<T>(s: State<T>, es: seq<Event<T>>, t: Tid)
    requires Inv(s) && Feasible(s, es) && ByOthers(es, t) && t in s.threads
    ensures t in Exec(s, es).threads && Exec(s, es).threads[t] == s.threads[t]
    decreases |es|
  {
    if es != [] {
      var e := es[0];
      if e.Advance? { EffectIsFinal(s, e.t, e.spurious); }
      ApplyKeepsInv(s, e);
      ApplyKeepsCapacity(s, e);
      assert ByOthers(es[1..], t) by {
        assert forall i :: 0 <= i < |es[1..]| ==> es[1..][i] == es[i + 1];
      }
      OthersLeaveThread(Apply(s, e), es[1..], t);
    }
  }

  lemma {:induction false} HandedBackGrows<T>(s: State<T>, es: seq<Event<T>>)
    requires Inv(s) && Feasible(s, es)
    ensures s.read.committed <= Exec(s, es).read.committed
    decreases |es|
  {
    if es != [] {
      var e := es[0];
      if e.Advance? { CommitAdvancesByOne(s, e.t, e.spurious); }
      ApplyKeepsInv(s, e);
      ApplyKeepsCapacity(s, e);
      HandedBackGrows(Apply(s, e), es[1..]);
    }
  }

  /** The state after the first load of an observer, and a run of the others from there to
      the second load. */
  ghost predicate Between<T>(s: State<T>, t: Tid, es: seq<Event<T>>) {
    && Inv(s) && t in s.threads && (s.threads[t].pc.SizeLoadConsumed? || s.threads[t].pc.FullLoadConsumed?)
    && Feasible(StepObserve(s, t), es) && ByOthers(es, t)
  }

  /** The first load changes nothing but what its thread knows. */
  lemma FirstLoad<T>(s: State<T>, t: Tid)
    requires Inv(s) && t in s.threads && (s.threads[t].pc.SizeLoadConsumed? || s.threads[t].pc.FullLoadConsumed?)
    ensures var s1 := StepObserve(s, t);
            && Inv(s1) && s1.read == s.read && s1.write == s.write && s1.written == s.written && s1.Cap() == s.Cap()
            && t in s1.threads
            && s1.threads[t].pc == if s.threads[t].pc.SizeLoadConsumed? then SizeLoadProduced(s.read.reserved)
                                   else FullLoadReserved(s.read.committed)
  {
    assert Local(s.Cap(), s.read, s.write, s.written, s.threads[t]);
    StepKeepsInv(s, t, false);
  }

  /** From one load to the other, for a state with the first load done. */
  lemma SecondLoad<T>(s1: State<T>, t: Tid, es: seq<Event<T>>)
    requires Inv(s1) && t in s1.threads && Feasible(s1, es) && ByOthers(es, t)
    ensures var s2 := Exec(s1, es);
            && Inv(s2) && s2.Cap() == s1.Cap() && t in s2.threads && s2.threads[t] == s1.threads[t]
            && s2.write.committed - s1.read.reserved == |Contents(s1)| + |PushedValues(Effects(s1, es))|
            && s2.write.committed - s1.read.reserved == |Contents(s2)| + |PoppedValues(Effects(s1, es))|
            && s1.read.committed <= s2.read.committed
  {
    OthersLeaveThread(s1, es, t);
    CursorsOfRun(s1, es);
    HandedBackGrows(s1, es);
  }

  /** The answer to `size` when its first load is in `s` and the run `es` of others happens
      before the second. */
  ghost function SizeAnswer<T>(s: State<T>, t: Tid, es: seq<Event<T>>): int
    requires Between(s, t, es) && s.threads[t].pc.SizeLoadConsumed?
  {
    Exec(StepObserve(s, t), es).write.committed - s.read.reserved
  }

  /** It is what `size` returns. It counts the values there at the first load and those pushed
      before the second, and also the values there at the second load and those popped since
      the first: never less than the queue held at either moment. */
  lemma SizeMeans<T>(s: State<T>, t: Tid, es: seq<Event<T>>)
    requires Between(s, t, es) && s.threads[t].pc.SizeLoadConsumed?
    ensures var s1 := StepObserve(s, t);
            var s2 := Exec(s1, es);
            var n := SizeAnswer(s, t, es);
            && Inv(s2) && t in s2.threads && s2.threads[t].pc.SizeLoadProduced?
            && StepObserve(s2, t).threads[t].pc == SizeDone(n)
            && n == |Contents(s)| + |PushedValues(Effects(s1, es))|
            && n == |Contents(s2)| + |PoppedValues(Effects(s1, es))|
  {
    FirstLoad(s, t);
    var s1 := StepObserve(s, t);
    SecondLoad(s1, t, es);
    assert Contents(s1) == Contents(s);
    SecondSizeLoad(Exec(s1, es), t, s.read.reserved);
  }

  /** The second load of `size` subtracts what the first one saw. */
  lemma SecondSizeLoad<T>(s: State<T>, t: Tid, seen: nat)
    requires t in s.threads && s.threads[t].pc == SizeLoadProduced(seen)
    ensures t in StepObserve(s, t).threads
    ensures StepObserve(s, t).threads[t].pc == SizeDone(s.write.committed - seen)
  {
  }

  /** `remaining()` subtracts the answer from the capacity. The subtraction underflows exactly
      when more values were pushed between the two loads than there was room for at the
      first. */
  lemma RemainingUnderflowsIff<T>(s: State<T>, t: Tid, es: seq<Event<T>>)
    requires Between(s, t, es) && s.threads[t].pc.SizeLoadConsumed?
    ensures s.Cap() - SizeAnswer(s, t, es) < 0 <==>
            |PushedValues(Effects(StepObserve(s, t), es))| > s.Cap() - |Contents(s)|
  {
    SizeMeans(s, t, es);
  }

  /** Nobody is pushing. */
  ghost predicate NoPushers<T>(s: State<T>) {
    forall u <- s.threads :: !IsPush(s.threads[u].op)
  }

  /** Nobody starts to. */
  ghost predicate NoPushCalls<T>(es: seq<Event<T>>) {
    forall i :: 0 <= i < |es| ==> es[i].Call? ==> !IsPush(es[i].op)
  }

  lemma NoPusherEvent<T>(s: State<T>, e: Event<T>)
    requires Inv(s) && Enabled(s, e) && NoPushers(s) && (e.Call? ==> !IsPush(e.op))
    ensures !EffectOf(s, e).Pushed? && NoPushers(Apply(s, e))
  {
    if e.Advance? {
      EffectIsFinal(s, e.t, e.spurious);
      CommitsArePushes(s, e.t, e.spurious);
      assert Local(s.Cap(), s.read, s.write, s.written, s.threads[e.t]);
      OnlyOneMoves(s, e.t, e.spurious);
    }
  }

  /** A step adds no thread. */
  lemma OnlyOneMoves<T>(s: State<T>, t: Tid, spurious: bool)
    requires ValidCapacity(s.Cap()) && t in s.threads
    ensures Step(s, t, spurious).threads.Keys == s.threads.Keys
  {
  }

  lemma {:induction false} NoPushersNoPushes<T>(s: State<T>, es: seq<Event<T>>)
    requires Inv(s) && Feasible(s, es) && NoPushers(s) && NoPushCalls(es)
    ensures PushedValues(Effects(s, es)) == []
    decreases |es|
  {
    if es != [] {
      var e := es[0];
      NoPusherEvent(s, e);
      ApplyKeepsInv(s, e);
      ApplyKeepsCapacity(s, e);
      assert forall i :: 0 <= i < |es[1..]| ==> es[1..][i] == es[i + 1];
      NoPushersNoPushes(Apply(s, e), es[1..]);
      var effects := Effects(s, es);
      assert effects[0] == EffectOf(s, e) && effects[1..] == Effects(Apply(s, e), es[1..]);
    }
  }

  /** What a caller can rely on: with no push in progress at the first load and none started
      before the second, `size` is the number of values at the first load, and `remaining` is
      right. */
  lemma QuietSizeIsExact<T>(s: State<T>, t: Tid, es: seq<Event<T>>)
    requires Between(s, t, es) && s.threads[t].pc.SizeLoadConsumed?
    requires NoPushers(s) && NoPushCalls(es)
    ensures SizeAnswer(s, t, es) == |Contents(s)| <= s.Cap()
  {
    SizeMeans(s, t, es);
    FirstLoad(s, t);
    NoPushersNoPushes(StepObserve(s, t), es);
  }

  /** `empty()` answers yes exactly when nothing was there at the first load and nothing was
      pushed before the second; then the queue was empty at both. */
  lemma EmptyMeans<T>(s: State<T>, t: Tid, es: seq<Event<T>>)
    requires Between(s, t, es) && s.threads[t].pc.SizeLoadConsumed?
    ensures Inv(Exec(StepObserve(s, t), es))
    ensures SizeAnswer(s, t, es) == 0 <==>
            Contents(s) == [] && PushedValues(Effects(StepObserve(s, t), es)) == []
    ensures SizeAnswer(s, t, es) == 0 ==> Contents(Exec(StepObserve(s, t), es)) == []
  {
    SizeMeans(s, t, es);
  }

  /** How many slots are not free: reserved by a producer and not handed back by a consumer. */
  ghost function Taken<T>(s: State<T>): int {
    s.write.reserved - s.read.committed
  }

  /** `full()` answers no only when a slot is free at the second load; it answers yes exactly
      when the slots taken then and those handed back since the first load make a lap, so with
      none handed back it is right both ways. */
  lemma FullMeans<T>(s: State<T>, t: Tid, es: seq<Event<T>>)
    requires Between(s, t, es) && s.threads[t].pc.FullLoadConsumed?
    ensures var s2 := Exec(StepObserve(s, t), es);
            && Inv(s2) && t in s2.threads && s2.threads[t].pc.FullLoadReserved?
            && var answer := StepObserve(s2, t).threads[t].pc;
            && answer.FullDone?
            && s.read.committed <= s2.read.committed
            && (answer.full <==> Taken(s2) + (s2.read.committed - s.read.committed) >= s.Cap())
            && (!answer.full ==> Taken(s2) < s.Cap())
  {
    FirstLoad(s, t);
    SecondLoad(StepObserve(s, t), t, es);
  }

  // ----- operations that run alone -----------------------------------------------------

  /** With nobody inside, every ticket taken has been committed. */
  lemma NobodyInside<T>(s: State<T>)
    requires Inv(s) && s.threads == map[]
    ensures s.read.reserved == s.read.committed && s.write.reserved == s.write.committed
    ensures HasRoom(s) <==> |Contents(s)| < s.Cap()
    ensures HasValue(s) <==> Contents(s) != []
  {
  }

  /** A lone `try_push` after `i` of its six steps, on a queue with room. */
  ghost predicate PushingAt<T>(s: State<T>, rest: map<Tid, Thread<T>>, t: Tid, v: T, r: nat, w: nat, i: nat)
    requires i <= 6
  {
    && ValidCapacity(s.Cap()) && t in s.threads && s.threads - {t} == rest
    && w - r < s.Cap()
    && s.threads[t].op == TryPush(v)
    && s.threads[t].pc == [PushLoadConsumed, TryPushLoadCommitted(r), TryPushLoadReserved(r, w),
                           PushCas(w), Construct(w), PushCommit(w), PushDone(true)][i]
    && s.read == Cursors(r, r)
    && s.write == Cursors(if i < 4 then w else w + 1, if i < 6 then w else w + 1)
  }

  /** A lone `try_pop` after `i` of its seven steps, on a queue holding something. */
  ghost predicate PoppingAt<T>(s: State<T>, rest: map<Tid, Thread<T>>, t: Tid, r: nat, w: nat, i: nat)
    requires i <= 7
  {
    && ValidCapacity(s.Cap()) && t in s.threads && s.threads - {t} == rest
    && r < w
    && s.threads[t].op.TryPop?
    && s.write == Cursors(w, w)
    && s.read == Cursors(if i < 4 then r else r + 1, if i < 7 then r else r + 1)
    && var pc := s.threads[t].pc;
       match i
       case 0 => pc == PopLoadProduced
       case 1 => pc == TryPopLoadCommitted(w)
       case 2 => pc == TryPopLoadReserved(w, r)
       case 3 => pc == PopCas(r)
       case 4 => pc == Move(r)
       case 5 => pc.Destroy?
       case 6 => pc.PopCommit?
       case _ => pc.PopDone? && pc.result.Some?
  }

  lemma PushingStep<T>(s: State<T>, rest: map<Tid, Thread<T>>, t: Tid, v: T, r: nat, w: nat, i: nat)
    requires i < 6 && PushingAt(s, rest, t, v, r, w, i)
    ensures PushingAt(Step(s, t, false), rest, t, v, r, w, i + 1)
  {
    assert Step(s, t, false).threads - {t} == s.threads - {t};
  }

  lemma PoppingStep<T>(s: State<T>, rest: map<Tid, Thread<T>>, t: Tid, r: nat, w: nat, i: nat)
    requires i < 7 && PoppingAt(s, rest, t, r, w, i) && Inv(s)
    ensures PoppingAt(Step(s, t, false), rest, t, r, w, i + 1)
  {
    TurnSlot(s, t);
    assert Step(s, t, false).threads - {t} == s.threads - {t};
  }

  /** A free slot and nobody midway through a push. */
  ghost predicate HasRoom<T>(s: State<T>) {
    s.write.committed == s.write.reserved && Taken(s) < s.Cap()
  }

  /** A value and nobody midway through a pop. */
  ghost predicate HasValue<T>(s: State<T>) {
    s.read.committed == s.read.reserved < s.write.committed
  }

  /** Thread `t` is somewhere inside `try_push`, begun in `s0`; nobody else has moved. */
  ghost predicate PushingSince<T>(s0: State<T>, s: State<T>, t: Tid, v: T) {
    && t in s.threads && s.threads - {t} == s0.threads && s.threads[t].op == TryPush(v)
    && s.Cap() == s0.Cap() && s.read == s0.read
    && match s.threads[t].pc
       case PushLoadConsumed => SameWrites(s0, s)
       case TryPushLoadCommitted(consumed) => SameWrites(s0, s) && consumed == s.read.committed
       case TryPushLoadReserved(consumed, committed) =>
         SameWrites(s0, s) && consumed == s.read.committed && committed == s.write.committed
       case PushCas(reserved) => SameWrites(s0, s) && reserved == s.write.reserved && HasRoom(s0)
       case Construct(_) => s.written == s0.written && HasRoom(s0)
       case PushCommit(_) => s.written == s0.written && HasRoom(s0)
       case PushDone(ok) => ok == HasRoom(s0) && s.written == if ok then s0.written + [v] else s0.written
       case _ => false
  }

  ghost predicate SameWrites<T>(s0: State<T>, s: State<T>) {
    s.write == s0.write && s.written == s0.written
  }

  function PushSteps<T>(pc: Pc<T>): nat {
    match pc
    case PushLoadConsumed => 6
    case TryPushLoadCommitted(_) => 5
    case TryPushLoadReserved(_, _) => 4
    case PushCas(_) => 3
    case Construct(_) => 2
    case PushCommit(_) => 1
    case _ => 0
  }

  lemma PushingFromCall<T>(s0: State<T>, t: Tid, v: T)
    requires Inv(s0) && t !in s0.threads
    ensures PushingSince(s0, Apply(s0, Call(t, TryPush(v))), t, v)
    ensures s0.threads == map[] ==> (HasRoom(s0) <==> |Contents(s0)| < s0.Cap())
  {
    assert Apply(s0, Call(t, TryPush(v))).threads - {t} == s0.threads;
    if s0.threads == map[] { NobodyInside(s0); }
  }

  /** What it has done when it is done. */
  lemma PushedSince<T>(s0: State<T>, s: State<T>, t: Tid, v: T)
    requires Ordered(s0) && Ordered(s) && PushingSince(s0, s, t, v) && Finished(s.threads[t].pc)
    ensures s.threads[t].pc == PushDone(HasRoom(s0))
    ensures Contents(s) == if HasRoom(s0) then Contents(s0) + [v] else Contents(s0)
  {
  }

  lemma PushingSinceStep<T>(s0: State<T>, s: State<T>, t: Tid, v: T)
    requires ValidCapacity(s.Cap()) && PushingSince(s0, s, t, v) && !Finished(s.threads[t].pc)
    ensures var s' := Step(s, t, false);
            PushingSince(s0, s', t, v) && PushSteps(s'.threads[t].pc) < PushSteps(s.threads[t].pc)
  {
    assert Step(s, t, false).threads - {t} == s.threads - {t};
  }

  /** Thread `t` is somewhere inside `try_pop`, begun in `s0`; nobody else has moved. */
  ghost predicate PoppingSince<T>(s0: State<T>, s: State<T>, t: Tid)
    requires Ordered(s0)
  {
    && t in s.threads && s.threads - {t} == s0.threads && s.threads[t].op.TryPop?
    && SameWrites(s0, s)
    && match s.threads[t].pc
       case PopLoadProduced => s.read == s0.read
       case TryPopLoadCommitted(produced) => s.read == s0.read && produced == s.write.committed
       case TryPopLoadReserved(produced, committed) =>
         s.read == s0.read && produced == s.write.committed && committed == s.read.committed
       case PopCas(reserved) => s.read == s0.read && reserved == s.read.reserved && HasValue(s0)
       case Move(ticket) => TookTicket(s0, s)
       case Destroy(popped, _) => TookTicket(s0, s) && popped == s0.written[s0.read.reserved]
       case PopCommit(popped, _) => TookTicket(s0, s) && popped == s0.written[s0.read.reserved]
       case PopDone(result) =>
         if HasValue(s0) then
           s.read.reserved == s0.read.reserved + 1 && result == Some(s0.written[s0.read.reserved])
         else s.read == s0.read && result == None
       case _ => false
  }

  ghost predicate TookTicket<T>(s0: State<T>, s: State<T>) {
    HasValue(s0) && s.read.reserved == s0.read.reserved + 1 && s.read.committed == s0.read.committed
  }

  function PopSteps<T>(pc: Pc<T>): nat {
    match pc
    case PopLoadProduced => 7
    case TryPopLoadCommitted(_) => 6
    case TryPopLoadReserved(_, _) => 5
    case PopCas(_) => 4
    case Move(_) => 3
    case Destroy(_, _) => 2
    case PopCommit(_, _) => 1
    case _ => 0
  }

  lemma PoppingFromCall<T>(s0: State<T>, t: Tid)
    requires Inv(s0) && t !in s0.threads
    ensures PoppingSince(s0, Apply(s0, Call(t, TryPop)), t)
    ensures s0.threads == map[] ==> (HasValue(s0) <==> Contents(s0) != [])
  {
    assert Apply(s0, Call(t, TryPop)).threads - {t} == s0.threads;
    if s0.threads == map[] { NobodyInside(s0); }
  }

  /** The first value, if there was one to take, and the rest. */
  ghost predicate Took<T>(s0: State<T>, s: State<T>, r: Option<T>)
    requires Ordered(s0) && Ordered(s)
  {
    if HasValue(s0) then
      Contents(s0) != [] && r == Some(Contents(s0)[0]) && Contents(s) == Contents(s0)[1..]
    else r == None && Contents(s) == Contents(s0)
  }

  /** What it has done when it is done. */
  lemma PoppedSince<T>(s0: State<T>, s: State<T>, t: Tid)
    requires Ordered(s0) && Ordered(s) && PoppingSince(s0, s, t) && Finished(s.threads[t].pc)
    ensures s.threads[t].pc.PopDone? && Took(s0, s, s.threads[t].pc.result)
  {
  }

  lemma PoppingSinceStep<T>(s0: State<T>, s: State<T>, t: Tid)
    requires Ordered(s0) && ValidCapacity(s.Cap()) && PoppingSince(s0, s, t) && !Finished(s.threads[t].pc)
    requires s.threads[t].pc.Move? ==>
               s.slots[SlotOf(s.threads[t].pc.ticket, s.Cap())] == Live(s0.written[s0.read.reserved])
    ensures var s' := Step(s, t, false);
            PoppingSince(s0, s', t) && PopSteps(s'.threads[t].pc) < PopSteps(s.threads[t].pc)
  {
    assert Step(s, t, false).threads - {t} == s.threads - {t};
  }

  /** What the slot of its ticket holds when the value is moved out. */
  lemma MovesTheFirst<T>(s0: State<T>, s: State<T>, t: Tid)
    requires Ordered(s0) && Inv(s) && PoppingSince(s0, s, t) && s.threads[t].pc.Move?
    ensures s.slots[SlotOf(s.threads[t].pc.ticket, s.Cap())] == Live(s0.written[s0.read.reserved])
  {
    LifetimesRespected(s, t);
    TryHoldsOldestTicket(s, t);
  }

  /** Two loads with nothing in between. */
  lemma SizeAlone<T>(s: State<T>, t: Tid)
    requires Inv(s) && t !in s.threads
    ensures var s1 := Step(Apply(s, Call(t, Size)), t, false);
            && t in s1.threads && s1.threads[t].pc.SizeLoadProduced?
            && var s2 := Step(s1, t, false);
               s2 == s.(threads := s.threads[t := Thread(Size, SizeDone(|Contents(s)|), NoEffect)])
  {
  }

  lemma FullAlone<T>(s: State<T>, t: Tid)
    requires Inv(s) && t !in s.threads
    ensures var s1 := Step(Apply(s, Call(t, Full)), t, false);
            && t in s1.threads && s1.threads[t].pc.FullLoadReserved?
            && var s2 := Step(s1, t, false);
               s2 == s.(threads := s.threads[t := Thread(Full, FullDone(Taken(s) == s.Cap()), NoEffect)])
  {
  }

  // ----- a size beyond the capacity ------------------------------------------------------

  /** Some schedule leads from one state to the other. */
  ghost predicate Reaches<T(!new)>(s: State<T>, s': State<T>)
    requires ValidCapacity(s.Cap())
  {
    exists es :: Feasible(s, es) && Exec(s, es) == s'
  }

  lemma ReachesItself<T(!new)>(s: State<T>)
    requires ValidCapacity(s.Cap())
    ensures Reaches(s, s)
  {
    var es: seq<Event<T>> := [];
    assert Feasible(s, es) && Exec(s, es) == s;
  }

  lemma {:induction false} ExecOneMore<T>(s: State<T>, es: seq<Event<T>>, e: Event<T>)
    requires ValidCapacity(s.Cap()) && Feasible(s, es)
    requires Exec(s, es).Cap() == s.Cap() && Enabled(Exec(s, es), e)
    ensures Feasible(s, es + [e]) && Exec(s, es + [e]) == Apply(Exec(s, es), e)
    decreases |es|
  {
    if es == [] {
      assert es + [e] == [e];
      assert [e][1..] == [];
      ApplyKeepsCapacity(s, e);
    } else {
      ApplyKeepsCapacity(s, es[0]);
      assert (es + [e])[1..] == es[1..] + [e];
      ExecOneMore(Apply(s, es[0]), es[1..], e);
    }
  }

  lemma ReachesNext<T(!new)>(s: State<T>, s1: State<T>, e: Event<T>) returns (s2: State<T>)
    requires ValidCapacity(s.Cap()) && Reaches(s, s1) && s1.Cap() == s.Cap() && Enabled(s1, e)
    ensures s2 == Apply(s1, e) && s2.Cap() == s.Cap() && Reaches(s, s2)
  {
    var es :| Feasible(s, es) && Exec(s, es) == s1;
    ExecOneMore(s, es, e);
    ApplyKeepsCapacity(s1, e);
    s2 := Apply(s1, e);
    assert Feasible(s, es + [e]) && Exec(s, es + [e]) == s2;
  }

  lemma ReachesKeepsInv<T(!new)>(s: State<T>, s': State<T>)
    requires Inv(s) && Reaches(s, s')
    ensures Inv(s')
  {
    var es :| Feasible(s, es) && Exec(s, es) == s';
    ExecKeepsInv(s, es);
  }

  lemma LonePush<T(!new)>(s0: State<T>, s: State<T>, t: Tid, v: T, k: nat) returns (s': State<T>)
    requires Inv(s0) && Reaches(s0, s) && s.Cap() == s0.Cap() && t !in s.threads
    requires s.read == Cursors(k, k) && s.write == Cursors(k, k)
    ensures s'.Cap() == s0.Cap() && Reaches(s0, s') && s'.threads == s.threads
    ensures s'.read == Cursors(k, k) && s'.write == Cursors(k + 1, k + 1)
  {
    s' := ReachesNext(s0, s, Call(t, TryPush(v)));
    assert s'.threads - {t} == s.threads;
    for i := 0 to 6
      invariant s'.Cap() == s0.Cap() && Reaches(s0, s') && PushingAt(s', s.threads, t, v, k, k, i)
    {
      PushingStep(s', s.threads, t, v, k, k, i);
      s' := ReachesNext(s0, s', Advance(t, false));
    }
    s' := ReachesNext(s0, s', Return(t));
  }

  lemma PoppingNext<T(!new)>(s0: State<T>, s: State<T>, rest: map<Tid, Thread<T>>, t: Tid, k: nat, i: nat)
    returns (s': State<T>)
    requires Inv(s0) && Reaches(s0, s) && s.Cap() == s0.Cap()
    requires i < 7 && PoppingAt(s, rest, t, k, k + 1, i)
    ensures s'.Cap() == s0.Cap() && Reaches(s0, s') && PoppingAt(s', rest, t, k, k + 1, i + 1)
  {
    ReachesKeepsInv(s0, s);
    PoppingStep(s, rest, t, k, k + 1, i);
    s' := ReachesNext(s0, s, Advance(t, false));
  }

  lemma LonePop<T(!new)>(s0: State<T>, s: State<T>, t: Tid, k: nat) returns (s': State<T>)
    requires Inv(s0) && Reaches(s0, s) && s.Cap() == s0.Cap() && t !in s.threads
    requires s.read == Cursors(k, k) && s.write == Cursors(k + 1, k + 1)
    ensures s'.Cap() == s0.Cap() && Reaches(s0, s') && s'.threads == s.threads
    ensures s'.read == Cursors(k + 1, k + 1) && s'.write == Cursors(k + 1, k + 1)
  {
    s' := ReachesNext(s0, s, Call(t, TryPop));
    assert s'.threads - {t} == s.threads;
    for i := 0 to 7
      invariant s'.Cap() == s0.Cap() && Reaches(s0, s') && PoppingAt(s', s.threads, t, k, k + 1, i)
    {
      s' := PoppingNext(s0, s', s.threads, t, k, i);
    }
    s' := ReachesNext(s0, s', Return(t));
  }

  /** Thread 0 is between the two loads of `size`, and `k` values have passed through since. */
  ghost predicate AfterRounds<T>(s: State<T>, cap: nat, k: nat) {
    && s.Cap() == cap && s.read == Cursors(k, k) && s.write == Cursors(k, k)
    && s.threads == map[0 := Thread(Size, SizeLoadProduced(0), NoEffect)]
  }

  lemma LoneRound<T(!new)>(s0: State<T>, s: State<T>, v: T, k: nat) returns (s': State<T>)
    requires Inv(s0) && Reaches(s0, s) && AfterRounds(s, s0.Cap(), k)
    ensures Reaches(s0, s') && AfterRounds(s', s0.Cap(), k + 1)
  {
    s' := LonePush(s0, s, 1, v, k);
    s' := LonePop(s0, s', 1, k);
  }

  lemma FirstSizeLoad<T(!new)>(s0: State<T>, cap: nat) returns (s: State<T>)
    requires ValidCapacity(cap) && s0 == Init(cap)
    ensures Inv(s0) && Reaches(s0, s) && AfterRounds(s, cap, 0)
  {
    InitInv<T>(cap);
    ReachesItself(s0);
    s := ReachesNext(s0, s0, Call(0, Size));
    s := ReachesNext(s0, s, Advance(0, false));
  }

  /** `size` may return any number at all, however small the capacity: between its two
      loads any number of values can pass through. `remaining`, which subtracts it from
      the capacity, therefore underflows on some runs, although `size` itself never does. */
  lemma SizeCanExceedCapacity<T(!new)>(cap: nat, v: T, n: nat) returns (s: State<T>)
    requires ValidCapacity(cap)
    ensures Reaches(Init<T>(cap), s)
    ensures s.threads.Keys == {0} && s.threads[0].op == Size && s.threads[0].pc == SizeDone(n)
    ensures Inv(s) && |Contents(s)| == 0
  {
    var s0 := Init<T>(cap);
    s := FirstSizeLoad(s0, cap);
    for k := 0 to n
      invariant Reaches(s0, s) && AfterRounds(s, cap, k)
    {
      s := LoneRound(s0, s, v, k);
    }
    s := ReachesNext(s0, s, Advance(0, false));
    ReachesKeepsInv(s0, s);
  }
}
