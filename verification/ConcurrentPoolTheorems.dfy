/** What the lock-free pool guarantees on runs whose winning allocations never saw the
    head become null, why that hypothesis is needed, and exactly what replaces it. */
module ConcurrentPoolTheorems {
  import opened BlockPool
  import opened ConcurrentPool
  import opened Options
  import opened PoolTags
  import opened Words

  /** Every state of a safe run: the chain from the head through the links is finite, free
      of duplicates, and together with the held blocks it partitions [0, n). */
  lemma ReachableInv(n: nat, es: seq<Event>)
    requires ValidCount(n) && Feasible(Init(n), es) && SafeRun(Init(n), es)
    ensures var s := Exec(Init(n), es);
            && Inv(s)
            && Linked(s.head, s.words, s.chain)
            && Partition(Pool(s.chain, s.held + s.returning.Keys), n)
  {
    InitInv(n);
    ExecKeepsInv(Init(n), es);
    ExecKeepsCount(Init(n), es);
  }

  lemma {:induction false} ExecKeepsCount(s: State, es: seq<Event>)
    requires ValidCount(s.Count()) && Feasible(s, es)
    ensures Exec(s, es).Count() == s.Count()
    decreases |es|
  {
    if es != [] {
      ApplyKeepsCount(s, es[0]);
      ExecKeepsCount(Apply(s, es[0]), es[1..]);
    }
  }

  lemma {:induction false} ChainPrefixIsUnique(head: nat, words: seq<nat>, a: seq<nat>, b: seq<nat>, i: nat)
    requires ValidCount(|words|) && Linked(head, words, a) && Linked(head, words, b)
    requires i <= |a| && i <= |b|
    ensures a[..i] == b[..i]
    ensures i == |a| ==> |a| == |b|
    decreases i
  {
    if i > 0 {
      ChainPrefixIsUnique(head, words, a, b, i - 1);
      if i > 1 {
        assert words[a[i - 2]] == LinkAt(a, i - 2) && words[b[i - 2]] == LinkAt(b, i - 2);
        assert a[..i - 1][i - 2] == b[..i - 1][i - 2];
      }
      assert a[i - 1] == b[i - 1];
      assert words[a[i - 1]] == LinkAt(a, i - 1) && words[b[i - 1]] == LinkAt(b, i - 1);
      assert i < |b| ==> b[i] < |words|;
    }
  }

  /** The chain is determined by the head and the links alone. */
  lemma ChainIsUnique(head: nat, words: seq<nat>, a: seq<nat>, b: seq<nat>)
    requires ValidCount(|words|) && Linked(head, words, a) && Linked(head, words, b)
    ensures a == b
  {
    if |a| <= |b| {
      ChainPrefixIsUnique(head, words, a, b, |a|);
    } else {
      ChainPrefixIsUnique(head, words, b, a, |b|);
    }
  }

  // ----- refinement of the block stack ----------------------------------------------

  /** The effect of an event on the specification: the won compare-exchanges. */
  ghost function OpOf(s: State, e: Event): PoolOp
    requires ValidCount(s.Count())
  {
    if WinsAllocation(s, e) then Take(IndexOf(s.head, s.Count()))
    else if WinsDeallocation(s, e) then Give(s.threads[e.t].pc.block)
    else Nothing
  }

  ghost function OpsOf(s: State, es: seq<Event>): seq<PoolOp>
    requires ValidCount(s.Count()) && Feasible(s, es)
    decreases |es|
  {
    if es == [] then []
    else ApplyKeepsCount(s, es[0]); [OpOf(s, es[0])] + OpsOf(Apply(s, es[0]), es[1..])
  }

  lemma WonAllocationRefines(s: State, t: Tid)
    requires Inv(s) && WinsAllocation(s, Advance(t, false)) && Safe(s, Advance(t, false))
    ensures PoolStep(Abs(s), Take(IndexOf(s.head, s.Count()))) == Some(Abs(Step(s, t, false)))
  {
    assert Local(s.head, s.words, s.chain, s.nulls, s.threads[t]);
    assert s.held + {s.chain[0]} + s.returning.Keys == s.held + s.returning.Keys + {s.chain[0]};
  }

  lemma WonDeallocationRefines(s: State, t: Tid)
    requires Inv(s) && WinsDeallocation(s, Advance(t, false)) && Safe(s, Advance(t, false))
    ensures PoolStep(Abs(s), Give(s.threads[t].pc.block)) == Some(Abs(Step(s, t, false)))
  {
    var b := s.threads[t].pc.block;
    PushBlockKeepsInv(s, t);
    assert s.held + (s.returning - {b}).Keys == s.held + s.returning.Keys - {b};
  }

  lemma OtherEventsKeepPool(s: State, e: Event)
    requires ValidCount(s.Count()) && Enabled(s, e)
    requires !WinsAllocation(s, e) && !WinsDeallocation(s, e)
    ensures Apply(s, e).head == s.head && Apply(s, e).nulls == s.nulls
    ensures Abs(Apply(s, e)) == Abs(s)
  {
    if e.CallDeallocate? {
      assert s.held - {e.block} + s.returning[e.block := e.t].Keys == s.held + s.returning.Keys;
    }
  }

  lemma EventRefines(s: State, e: Event)
    requires Inv(s) && Enabled(s, e) && Safe(s, e)
    ensures PoolStep(Abs(s), OpOf(s, e)) == Some(Abs(Apply(s, e)))
  {
    if WinsAllocation(s, e) {
      WonAllocationRefines(s, e.t);
    } else if WinsDeallocation(s, e) {
      WonDeallocationRefines(s, e.t);
    } else {
      OtherEventsKeepPool(s, e);
    }
  }

  /** Every safe run refines the stack of free blocks. */
  lemma {:induction false} RunRefines(s: State, es: seq<Event>)
    requires Inv(s) && Feasible(s, es) && SafeRun(s, es)
    ensures Inv(Exec(s, es))
    ensures PoolRun(Abs(s), OpsOf(s, es)) == Some(Abs(Exec(s, es)))
    decreases |es|
  {
    if es != [] {
      ApplyKeepsInv(s, es[0]);
      EventRefines(s, es[0]);
      RunRefines(Apply(s, es[0]), es[1..]);
    }
  }

  /** An allocation that wins returns the first free block: one that nobody holds and
      nobody is returning, whatever holders have written into their blocks. */
  lemma AllocationNeverHandsOutHeldBlock(s: State, t: Tid)
    requires Inv(s) && WinsAllocation(s, Advance(t, false)) && Safe(s, Advance(t, false))
    ensures var s' := Step(s, t, false);
            s.chain != [] &&
            var b := s.chain[0];
            && s'.threads[t].pc == AllocDone(Some(b))
            && b < s.Count() && b !in s.held && b !in s.returning
            && s'.held == s.held + {b} && s'.chain == s.chain[1..]
  {
    assert Local(s.head, s.words, s.chain, s.nulls, s.threads[t]);
    assert s.chain[0] in s.chain;
  }

  /** The head is null exactly when every block is in a caller's hands or on its way back. */
  lemma FullIffExhausted(s: State)
    requires Inv(s)
    ensures s.head == NULL <==> |s.held| + |s.returning| == s.Count()
    ensures s.head == NULL <==> s.chain == []
  {
    FullIffAllHeld(Abs(s), s.Count());
    assert |s.held + s.returning.Keys| == |s.held| + |s.returning.Keys|;
  }

  /** An allocation gives up only on a head loaded while the pool was exhausted. */
  lemma AllocationFailsOnlyWhenExhausted(s: State, t: Tid, spurious: bool)
    requires Inv(s) && t in s.threads
    requires var pc := Step(s, t, spurious).threads[t].pc; pc.AllocRead? && pc.head == NULL
    requires s.threads[t].pc.AllocLoad? || s.threads[t].pc.AllocCas?
    ensures s.chain == [] && |s.held| + |s.returning| == s.Count()
  {
    FullIffExhausted(s);
  }

  // ----- the generation tag ---------------------------------------------------------

  /** What is known of a later head and chain when the head has not been null since:
      generations never decrease and grow with every deallocation, and within one generation
      the chain only loses blocks from the front, and only by allocations. */
  ghost predicate Later(n: nat, head: nat, chain: seq<nat>, head': nat, chain': seq<nat>, ops: seq<PoolOp>)
    requires ValidCount(n)
  {
    && head' != NULL
    && GenerationOf(head, n) <= GenerationOf(head', n)
    && (forall i :: 0 <= i < |ops| && ops[i].Give? ==> GenerationOf(head, n) < GenerationOf(head', n))
    && (GenerationOf(head, n) == GenerationOf(head', n) ==>
          && |chain'| <= |chain|
          && chain' == chain[|chain| - |chain'|..]
          && (|chain'| == |chain| ==> forall i :: 0 <= i < |ops| ==> ops[i] == Nothing))
  }

  lemma LaterCompose(n: nat, h0: nat, c0: seq<nat>, h1: nat, c1: seq<nat>, h2: nat, c2: seq<nat>,
                     ops: seq<PoolOp>, ops': seq<PoolOp>)
    requires ValidCount(n)
    requires Later(n, h0, c0, h1, c1, ops) && Later(n, h1, c1, h2, c2, ops')
    ensures Later(n, h0, c0, h2, c2, ops + ops')
  {
    var all := ops + ops';
    assert forall i :: 0 <= i < |all| ==> all[i] == if i < |ops| then ops[i] else ops'[i - |ops|];
  }

  lemma EventIsLater(s: State, e: Event)
    requires Inv(s) && Enabled(s, e) && Safe(s, e)
    requires s.head != NULL && Apply(s, e).nulls == s.nulls
    ensures Later(s.Count(), s.head, s.chain, Apply(s, e).head, Apply(s, e).chain, [OpOf(s, e)])
  {
    if WinsAllocation(s, e) {
      assert Local(s.head, s.words, s.chain, s.nulls, s.threads[e.t]);
      PopKeepsLinked(s.head, s.words, s.chain);
    } else if WinsDeallocation(s, e) {
      PushBlockKeepsInv(s, e.t);
      PushTag(s.head, s.Count(), s.threads[e.t].pc.block);
    } else {
      OtherEventsKeepPool(s, e);
      assert Abs(Apply(s, e)).free == s.chain;
    }
  }

  /** A run over which the head never becomes null starts with such an event. */
  lemma NoNullOnTheWay(s: State, es: seq<Event>)
    requires ValidCount(s.Count()) && Feasible(s, es) && es != [] && Exec(s, es).nulls == s.nulls
    ensures Apply(s, es[0]).nulls == s.nulls
  {
    ApplyKeepsCount(s, es[0]);
    NullsGrow(Apply(s, es[0]), es[1..]);
  }

  /** While the list is never null the generation never decreases, and strictly grows with
      every deallocation. */
  lemma {:induction false} GenerationGrows(s: State, es: seq<Event>)
    requires Inv(s) && Feasible(s, es) && SafeRun(s, es) && s.head != NULL
    requires Exec(s, es).nulls == s.nulls
    ensures Later(s.Count(), s.head, s.chain, Exec(s, es).head, Exec(s, es).chain, OpsOf(s, es))
    decreases |es|
  {
    if es == [] {
      assert s.chain == s.chain[0..];
    } else {
      var e, s1 := es[0], Apply(s, es[0]);
      ApplyKeepsCount(s, e);
      ApplyKeepsInv(s, e);
      NoNullOnTheWay(s, es);
      EventIsLater(s, e);
      GenerationGrows(s1, es[1..]);
      LaterCompose(s.Count(), s.head, s.chain, s1.head, s1.chain, Exec(s, es).head, Exec(s, es).chain,
                   [OpOf(s, e)], OpsOf(s1, es[1..]));
    }
  }

  lemma {:induction false} NullsGrow(s: State, es: seq<Event>)
    requires ValidCount(s.Count()) && Feasible(s, es)
    ensures s.nulls <= Exec(s, es).nulls
    decreases |es|
  {
    if es != [] {
      ApplyKeepsCount(s, es[0]);
      NullsGrow(Apply(s, es[0]), es[1..]);
    }
  }

  /** The tag rules out ABA: if the head never became null and is the same tagged word
      again, no allocation and no deallocation won in between, so its block was never
      popped and its link is still the one that was read. */
  lemma SameTagMeansUntouched(s: State, es: seq<Event>)
    requires Inv(s) && Feasible(s, es) && SafeRun(s, es) && s.head != NULL
    requires Exec(s, es).nulls == s.nulls && Exec(s, es).head == s.head
    ensures forall i :: 0 <= i < |OpsOf(s, es)| ==> OpsOf(s, es)[i] == Nothing
    ensures Exec(s, es).chain == s.chain
    ensures s.chain != [] && s.chain[0] < s.Count() == Exec(s, es).Count()
    ensures Exec(s, es).words[s.chain[0]] == s.words[s.chain[0]]
  {
    GenerationGrows(s, es);
    ExecKeepsInv(s, es);
    ExecKeepsCount(s, es);
    var s' := Exec(s, es);
    assert Linked(s.head, s.words, s.chain) && Linked(s'.head, s'.words, s'.chain);
    var d := |s.chain| - |s'.chain|;
    assert s'.chain[0] == s.chain[d];
    assert d == 0;
    assert s.words[s.chain[0]] == LinkAt(s.chain, 0);
    assert s'.words[s'.chain[0]] == LinkAt(s'.chain, 0);
  }

  // ----- what a caller can see to ----------------------------------------------------

  /** At every moment of the run some block is neither held nor on its way back. */
  ghost predicate NeverExhausted(s: State, es: seq<Event>)
    requires ValidCount(s.Count()) && Feasible(s, es)
    decreases |es|
  {
    && |s.held| + |s.returning| < s.Count()
    && (es == [] || (ApplyKeepsCount(s, es[0]); NeverExhausted(Apply(s, es[0]), es[1..])))
  }

  /** How many deallocations get done. */
  function Gives(ops: seq<PoolOp>): nat {
    if ops == [] then 0 else (if ops[0].Give? then 1 else 0) + Gives(ops[1..])
  }

  /** The generations they use up, and two to spare. */
  function Demand(n: nat, ops: seq<PoolOp>): nat {
    if ops == [] then 2 * n else (if ops[0].Give? then n else 0) + Demand(n, ops[1..])
  }

  lemma {:induction false} DemandIs(n: nat, ops: seq<PoolOp>)
    ensures Demand(n, ops) == n * (Gives(ops) + 2)
    decreases |ops|
  {
    if ops != [] {
      DemandIs(n, ops[1..]);
      var rest := Gives(ops[1..]) + 2;
      assert n * (rest + 1) == n * rest + n;
    }
  }

  lemma {:induction false} DemandLeaves(n: nat, ops: seq<PoolOp>)
    ensures Demand(n, ops) >= 2 * n
    decreases |ops|
  {
    if ops != [] { DemandLeaves(n, ops[1..]); }
  }

  /** The list has never been empty. */
  ghost predicate Tame(s: State) {
    Inv(s) && s.head != NULL && s.nulls == 0 && NoEpochs(s.threads)
  }

  ghost predicate NoEpochs(threads: map<Tid, Thread>) {
    forall t <- threads :: threads[t].epoch == 0
  }

  lemma InitIsTame(n: nat)
    requires ValidCount(n)
    ensures Tame(Init(n)) && Init(n).Count() == n && GenerationOf(Init(n).head, n) == 0
    ensures Abs(Init(n)) == FreshPool(n)
  {
    InitInv(n);
  }

  /** A pop that leaves a free block keeps the generation. */
  lemma PopGeneration(s: State, t: Tid)
    requires Inv(s) && WinsAllocation(s, Advance(t, false)) && Safe(s, Advance(t, false))
    requires Step(s, t, false).head != NULL
    ensures GenerationOf(Step(s, t, false).head, s.Count()) == GenerationOf(s.head, s.Count())
    ensures Step(s, t, false).nulls == s.nulls
  {
    assert Local(s.head, s.words, s.chain, s.nulls, s.threads[t]);
    NextHeadGeneration(s.head, s.threads[t].pc.link, s.Count());
  }

  /** A push onto a list that is not empty adds one. */
  lemma PushGeneration(s: State, t: Tid)
    requires Inv(s) && WinsDeallocation(s, Advance(t, false)) && Safe(s, Advance(t, false)) && s.head != NULL
    ensures GenerationOf(Step(s, t, false).head, s.Count()) == GenerationOf(s.head, s.Count()) + s.Count()
    ensures Step(s, t, false).nulls == s.nulls
  {
    PushBlockKeepsInv(s, t);
    PushTag(s.head, s.Count(), s.threads[t].pc.block);
  }

  lemma EpochsStay(s: State, e: Event)
    requires ValidCount(s.Count()) && Enabled(s, e) && s.nulls == 0 && NoEpochs(s.threads)
    ensures NoEpochs(Apply(s, e).threads)
  {
  }

  /** One event of a run that never exhausts the pool: the generation grows with a
      deallocation and stays otherwise. */
  lemma TameStep(s: State, e: Event, n: nat)
    requires Tame(s) && Enabled(s, e) && s.Count() == n
    requires OpOf(s, e).Give? ==> GenerationOf(s.head, n) + 3 * n <= WORD
    requires |Apply(s, e).held| + |Apply(s, e).returning| < n
    ensures Safe(s, e)
    ensures Apply(s, e).Count() == n && Tame(Apply(s, e))
    ensures GenerationOf(Apply(s, e).head, n) ==
            GenerationOf(s.head, n) + (if OpOf(s, e).Give? then n else 0)
  {
    ApplyKeepsInv(s, e);
    ApplyKeepsCount(s, e);
    FullIffExhausted(Apply(s, e));
    EpochsStay(s, e);
    if WinsAllocation(s, e) {
      PopGeneration(s, e.t);
    } else if WinsDeallocation(s, e) {
      PushGeneration(s, e.t);
    } else {
      OtherEventsKeepPool(s, e);
    }
  }

  lemma {:induction false} TameRunIsSafe(s: State, es: seq<Event>, n: nat)
    requires Tame(s) && Feasible(s, es) && NeverExhausted(s, es) && s.Count() == n
    requires GenerationOf(s.head, n) + Demand(n, OpsOf(s, es)) <= WORD
    ensures SafeRun(s, es)
    decreases |es|
  {
    if es != [] {
      var ops := OpsOf(s, es);
      ApplyKeepsCount(s, es[0]);
      assert ops[0] == OpOf(s, es[0]) && ops[1..] == OpsOf(Apply(s, es[0]), es[1..]);
      DemandLeaves(n, ops[1..]);
      TameStep(s, es[0], n);
      TameRunIsSafe(Apply(s, es[0]), es[1..], n);
    }
  }

  /** What a caller can see to: if some block is always free and not more than about WORD / n
      deallocations get done, then the run meets the hypotheses and is one of the stack of
      free blocks. */
  lemma NeverExhaustedIsSafe(n: nat, es: seq<Event>)
    requires ValidCount(n) && Feasible(Init(n), es) && NeverExhausted(Init(n), es)
    requires n * (Gives(OpsOf(Init(n), es)) + 2) <= WORD
    ensures SafeRun(Init(n), es)
    ensures PoolRun(FreshPool(n), OpsOf(Init(n), es)) == Some(Abs(Exec(Init(n), es)))
  {
    InitIsTame(n);
    DemandIs(n, OpsOf(Init(n), es));
    TameRunIsSafe(Init(n), es, n);
    RunRefines(Init(n), es);
  }

  // ----- giving up and going round ---------------------------------------------------

  /** At some moment of the run every block was held or on its way back. */
  ghost predicate ExhaustedSometime(s: State, es: seq<Event>)
    requires ValidCount(s.Count()) && Feasible(s, es)
    decreases |es|
  {
    || (s.chain == [] && |s.held| + |s.returning| == s.Count())
    || (es != [] && (ApplyKeepsCount(s, es[0]); ExhaustedSometime(Apply(s, es[0]), es[1..])))
  }

  /** Thread `t` is inside `allocate` and has not seen the head null. */
  predicate StillTrying(pc: Pc) {
    match pc
    case AllocLoad => true
    case AllocRead(head) => head != NULL
    case AllocCas(_, _) => true
    case AllocDone(block) => block.Some?
    case _ => false
  }

  /** While some block is free an allocation goes on, or has won. */
  lemma TryingStep(s: State, e: Event, t: Tid)
    requires Inv(s) && Enabled(s, e) && t in s.threads && StillTrying(s.threads[t].pc) && e != Return(t)
    requires s.head != NULL
    ensures t in Apply(s, e).threads && StillTrying(Apply(s, e).threads[t].pc)
  {
    assert Local(s.head, s.words, s.chain, s.nulls, s.threads[t]);
  }

  lemma {:induction false} TryingRun(s: State, es: seq<Event>, t: Tid)
    requires Inv(s) && Feasible(s, es) && SafeRun(s, es)
    requires forall i :: 0 <= i < |es| ==> es[i] != Return(t)
    requires t in s.threads && StillTrying(s.threads[t].pc) && !ExhaustedSometime(s, es)
    ensures t in Exec(s, es).threads && StillTrying(Exec(s, es).threads[t].pc)
    decreases |es|
  {
    if es != [] {
      FullIffExhausted(s);
      TryingStep(s, es[0], t);
      ApplyKeepsInv(s, es[0]);
      ApplyKeepsCount(s, es[0]);
      assert forall i :: 0 <= i < |es[1..]| ==> es[1..][i] == es[i + 1];
      TryingRun(Apply(s, es[0]), es[1..], t);
    }
  }

  /** An allocation that returns null is right: at some moment since its call every block was
      held or on its way back, however many compare-exchanges it has lost. */
  lemma RefusedAllocationSawExhaustion(s: State, es: seq<Event>, t: Tid)
    requires Inv(s) && Feasible(s, es) && SafeRun(s, es)
    requires forall i :: 0 <= i < |es| ==> es[i] != Return(t)
    requires t in s.threads && s.threads[t].pc.AllocLoad?
    requires t in Exec(s, es).threads && Exec(s, es).threads[t].pc == AllocDone(None)
    ensures ExhaustedSometime(s, es)
  {
    if !ExhaustedSometime(s, es) { TryingRun(s, es, t); }
  }

  /** Nobody waits for nothing: when the head is no longer the one a thread loaded, another
      operation has won in between. */
  lemma {:induction false} ChangedHeadMeansWinner(s: State, es: seq<Event>)
    requires ValidCount(s.Count()) && Feasible(s, es) && Exec(s, es).head != s.head
    ensures exists i :: 0 <= i < |OpsOf(s, es)| && OpsOf(s, es)[i] != Nothing
    decreases |es|
  {
    var e, ops := es[0], OpsOf(s, es);
    ApplyKeepsCount(s, e);
    assert ops[0] == OpOf(s, e) && ops[1..] == OpsOf(Apply(s, e), es[1..]);
    if OpOf(s, e) == Nothing {
      OtherEventsKeepPool(s, e);
      ChangedHeadMeansWinner(Apply(s, e), es[1..]);
      var i :| 0 <= i < |ops[1..]| && ops[1..][i] != Nothing;
      assert ops[i + 1] != Nothing;
    }
  }

  // ----- without the hypothesis -----------------------------------------------------

  /** Replacing the link a thread has read by the current one. */
  lemma CurrentLinkKeepsInv(s: State, t: Tid)
    requires Inv(s) && t in s.threads && s.threads[t].pc.AllocCas? && s.threads[t].pc.head == s.head
    requires s.chain != []
    ensures Inv(s.(threads := s.threads[t := Thread(AllocCas(s.head, s.words[s.chain[0]]), s.threads[t].epoch)]))
  {
    assert Local(s.head, s.words, s.chain, s.nulls, s.threads[t]);
    GotoKeepsInv(s, t, AllocCas(s.head, s.words[s.chain[0]]), s.threads[t].epoch);
  }

  /** The head after a pop is forced by the remaining chain. */
  lemma SameChainSameHead(s: State, s': State)
    requires Inv(s) && Inv(s') && s.chain != [] && s'.chain == s.chain[1..] && s'.words == s.words
    requires GenerationOf(s'.head, s.Count()) == GenerationOf(s.head, s.Count()) || s'.head == NULL
    ensures s'.head == NextHead(s.head, s.words[s.chain[0]], s.Count())
  {
    PopKeepsLinked(s.head, s.words, s.chain);
    var head := NextHead(s.head, s.words[s.chain[0]], s.Count());
    if s'.chain != [] {
      TagInjective(s'.head, head, s.Count());
    }
  }

  lemma RightLinkKeepsInv(s: State, t: Tid)
    requires Inv(s) && WinsAllocation(s, Advance(t, false)) && s.chain != []
    requires NextHead(s.head, s.threads[t].pc.link, s.Count()) ==
             NextHead(s.head, s.words[s.chain[0]], s.Count())
    ensures Inv(Step(s, t, false))
  {
    // the thread is where it would be had it read the current link
    var current := s.(threads := s.threads[t := Thread(AllocCas(s.head, s.words[s.chain[0]]), s.threads[t].epoch)]);
    CurrentLinkKeepsInv(s, t);
    PopBlockKeepsInv(current, t);
    assert Step(s, t, false) == PopBlock(current, t, s.head, s.words[s.chain[0]]);
  }

  /** Exactly when a winning allocation is right, however stale its load: the link it read
      must lead to the same head as the link its block holds now. */
  lemma AllocationRightIff(s: State, t: Tid)
    requires Inv(s) && WinsAllocation(s, Advance(t, false))
    ensures s.chain != []
    ensures Inv(Step(s, t, false)) <==>
            NextHead(s.head, s.threads[t].pc.link, s.Count()) ==
            NextHead(s.head, s.words[s.chain[0]], s.Count())
  {
    assert Local(s.head, s.words, s.chain, s.nulls, s.threads[t]);
    if NextHead(s.head, s.threads[t].pc.link, s.Count()) == NextHead(s.head, s.words[s.chain[0]], s.Count()) {
      RightLinkKeepsInv(s, t);
    } else if Inv(Step(s, t, false)) {
      NextHeadGeneration(s.head, s.threads[t].pc.link, s.Count());
      SameChainSameHead(s, Step(s, t, false));
    }
  }

  lemma NextHeadGeneration(head: nat, link: nat, n: nat)
    requires ValidCount(n) && head < WORD
    ensures NextHead(head, link, n) == NULL || GenerationOf(NextHead(head, link, n), n) == GenerationOf(head, n)
  {
    TagParts(head, n);
    WordIsPow2();
    Pow2Divides(n, WORD);
    FloorRoom(GenerationOf(head, n), WORD, n);
    TagRoundTrip(GenerationOf(head, n), link, n);
  }

  // ----- a run that hands out a held block ------------------------------------------

  /** Some schedule leads from one state to the other. */
  ghost predicate Reaches(s: State, s': State)
    requires ValidCount(s.Count())
  {
    exists es :: Feasible(s, es) && Exec(s, es) == s'
  }

  lemma ReachesItself(s: State)
    requires ValidCount(s.Count())
    ensures Reaches(s, s)
  {
    var es: seq<Event> := [];
    assert Feasible(s, es) && Exec(s, es) == s;
  }

  lemma {:induction false} ExecOneMore(s: State, es: seq<Event>, e: Event)
    requires ValidCount(s.Count()) && Feasible(s, es)
    requires Exec(s, es).Count() == s.Count() && Enabled(Exec(s, es), e)
    ensures Feasible(s, es + [e]) && Exec(s, es + [e]) == Apply(Exec(s, es), e)
    decreases |es|
  {
    if es == [] {
      assert es + [e] == [e];
      assert [e][1..] == [];
      ApplyKeepsCount(s, e);
    } else {
      ApplyKeepsCount(s, es[0]);
      assert (es + [e])[1..] == es[1..] + [e];
      ExecOneMore(Apply(s, es[0]), es[1..], e);
    }
  }

  lemma ReachesNext(s: State, s1: State, e: Event) returns (s2: State)
    requires ValidCount(s.Count()) && Reaches(s, s1) && s1.Count() == s.Count() && Enabled(s1, e)
    ensures s2 == Apply(s1, e) && s2.Count() == s.Count() && Reaches(s, s2)
  {
    var es :| Feasible(s, es) && Exec(s, es) == s1;
    ExecOneMore(s, es, e);
    ApplyKeepsCount(s1, e);
    s2 := Apply(s1, e);
    assert Feasible(s, es + [e]) && Exec(s, es + [e]) == s2;
  }

  /** An allocation that runs alone. */
  lemma LoneAllocate(s0: State, s: State, t: Tid) returns (s': State)
    requires ValidCount(s0.Count()) && Reaches(s0, s) && s.Count() == s0.Count() && t !in s.threads
    requires s.head != NULL && IndexOf(s.head, s.Count()) < s.Count()
    ensures s'.Count() == s0.Count() && Reaches(s0, s')
    ensures var b := IndexOf(s.head, s.Count());
            && s'.head == NextHead(s.head, s.words[b], s.Count())
            && s'.held == s.held + {b} && s'.words == s.words
    ensures s'.threads == s.threads && s'.returning == s.returning
  {
    s' := ReachesNext(s0, s, CallAllocate(t));
    s' := ReachesNext(s0, s', Advance(t, false));
    s' := ReachesNext(s0, s', Advance(t, false));
    s' := ReachesNext(s0, s', Advance(t, false));
    s' := ReachesNext(s0, s', Return(t));
    assert s'.threads == s.threads;
  }

  /** A deallocation that runs alone, up to its compare-exchange. */
  lemma LoneFreeWrite(s0: State, s: State, t: Tid, b: nat) returns (s': State)
    requires ValidCount(s0.Count()) && Reaches(s0, s) && s.Count() == s0.Count() && t !in s.threads
    requires b in s.held && b < s.Count()
    ensures s'.Count() == s0.Count() && Reaches(s0, s')
    ensures s'.head == s.head && s'.held == s.held - {b} && s'.returning == s.returning[b := t]
    ensures s'.words == s.words[b := LinkTo(s.head, s.Count())]
    ensures s'.threads.Keys == s.threads.Keys + {t} && s'.threads - {t} == s.threads
    ensures s'.threads[t].pc == FreeCas(b, s.head)
  {
    s' := ReachesNext(s0, s, CallDeallocate(t, b));
    s' := ReachesNext(s0, s', Advance(t, false));
    s' := ReachesNext(s0, s', Advance(t, false));
    assert s'.threads - {t} == s.threads;
  }

  /** A deallocation that runs alone. */
  lemma LoneDeallocate(s0: State, s: State, t: Tid, b: nat) returns (s': State)
    requires ValidCount(s0.Count()) && Reaches(s0, s) && s.Count() == s0.Count() && t !in s.threads
    requires b in s.held && b < s.Count() && b !in s.returning
    ensures s'.Count() == s0.Count() && Reaches(s0, s')
    ensures var n := s.Count();
            && s'.head == TagIdx(BumpGeneration(BaseGeneration(s.head, n), n), b, n)
            && s'.words == s.words[b := LinkTo(s.head, n)]
            && s'.held == s.held - {b}
    ensures s'.threads == s.threads && s'.returning == s.returning
  {
    s' := LoneFreeWrite(s0, s, t, b);
    assert s'.returning - {b} == s.returning;
    s' := ReachesNext(s0, s', Advance(t, false));
    s' := ReachesNext(s0, s', Return(t));
    assert s'.threads == s.threads;
  }

  /** The tags of a pool of two blocks. */
  lemma TagsOfTwo()
    ensures ValidCount(2)
    ensures IndexOf(0, 2) == 0 && IndexOf(1, 2) == 1 && IndexOf(2, 2) == 0 && IndexOf(3, 2) == 1
    ensures NextHead(0, 1, 2) == 1 && NextHead(2, 1, 2) == 3
    ensures TagIdx(BumpGeneration(0, 2), 0, 2) == 2
  {
    TagParts(0, 2);
    TagParts(1, 2);
    TagParts(2, 2);
    TagParts(3, 2);
    TagRoundTrip(0, 1, 2);
    TagRoundTrip(2, 1, 2);
    BumpGrows(0, 2);
    TagRoundTrip(2, 0, 2);
  }

  /** A reachable state of the pool of two blocks, spelled out; block 1 is held throughout. */
  ghost predicate TwoBlocks(s: State, head: nat, words: seq<nat>, held: set<nat>, threads: map<Tid, Thread>)
    requires ValidCount(2)
  {
    && s.Count() == 2 && Reaches(Init(2), s)
    && s.head == head && s.words == words && s.held == held && s.threads == threads && s.returning == map[]
  }

  /** Both blocks are taken and block 0 comes back: the head is block 0 in generation 2. */
  lemma OneBlockBack() returns (s: State)
    ensures ValidCount(2) && TwoBlocks(s, 2, [NULL, NULL], {1}, map[])
  {
    TagsOfTwo();
    var s0 := Init(2);
    assert s0.words == [1, NULL];
    ReachesItself(s0);
    s := LoneAllocate(s0, s0, 1);
    s := LoneAllocate(s0, s, 1);
    s := LoneDeallocate(s0, s, 1, 0);
  }

  /** Thread 2 loads that head; then the list empties, the holder of block 0 writes into it,
      and thread 2 reads what was written as a link. */
  lemma StaleLinkRead(s0: State) returns (s: State, epoch: nat)
    requires ValidCount(2) && TwoBlocks(s0, 2, [NULL, NULL], {1}, map[])
    ensures TwoBlocks(s, NULL, [1, NULL], {0, 1}, map[2 := Thread(AllocCas(2, 1), epoch)])
  {
    TagsOfTwo();
    var init := Init(2);
    s := ReachesNext(init, s0, CallAllocate(2));
    s := ReachesNext(init, s, Advance(2, false));
    epoch := s.threads[2].epoch;
    s := LoneAllocate(init, s, 1);
    s := ReachesNext(init, s, UserWrite(0, 1));
    s := ReachesNext(init, s, Advance(2, false));
  }

  /** Block 0 comes back under the same tag, and thread 2 wins with the word it read. */
  lemma StaleTagWins(s0: State, epoch: nat) returns (s: State)
    requires ValidCount(2)
    requires TwoBlocks(s0, NULL, [1, NULL], {0, 1}, map[2 := Thread(AllocCas(2, 1), epoch)])
    ensures TwoBlocks(s, 3, [NULL, NULL], {0, 1}, map[2 := Thread(AllocDone(Some(0)), epoch)])
  {
    TagsOfTwo();
    s := LoneDeallocate(Init(2), s0, 1, 0);
    s := ReachesNext(Init(2), s, Advance(2, false));
  }

  /** The hypothesis is needed: null carries no generation, so after the list has been empty
      an old tag can come back. On this run the free list ends up headed by a block that a
      caller holds, and the next allocation hands it out a second time. */
  lemma HeldBlockHandedOutAgain() returns (s: State)
    ensures ValidCount(2) && Reaches(Init(2), s) && s.Count() == 2
    ensures 1 in s.held && 3 in s.threads && WinsAllocation(s, Advance(3, false))
    ensures Step(s, 3, false).threads[3].pc == AllocDone(Some(1))
  {
    TagsOfTwo();
    s := OneBlockBack();
    var epoch;
    s, epoch := StaleLinkRead(s);
    s := StaleTagWins(s, epoch);
    s := ReachesNext(Init(2), s, CallAllocate(3));
    s := ReachesNext(Init(2), s, Advance(3, false));
    s := ReachesNext(Init(2), s, Advance(3, false));
  }

  // ----- operations that are not interrupted -----------------------------------------

  /** Thread `t` is somewhere inside `allocate`, begun in `s0`; nobody else has moved. */
  ghost predicate AllocatingSince(s0: State, s: State, t: Tid)
    requires ValidCount(s0.Count())
  {
    && t in s.threads && s.threads - {t} == s0.threads && s.words == s0.words && s.returning == s0.returning
    && match s.threads[t].pc
       case AllocDone(None) => s0.chain == [] && Abs(s) == Abs(s0)
       case AllocDone(Some(b)) =>
         s0.chain != [] && b == s0.chain[0] && PoolStep(Abs(s0), Take(b)) == Some(Abs(s))
       case AllocLoad => SameList(s0, s)
       case AllocRead(head) => SameList(s0, s) && head == s.head && s.threads[t].epoch == s.nulls
       case AllocCas(head, link) => SameList(s0, s) && head == s.head && s.threads[t].epoch == s.nulls
       case _ => false
  }

  ghost predicate SameList(s0: State, s: State) {
    s.head == s0.head && s.chain == s0.chain && s.held == s0.held && s.nulls == s0.nulls
  }

  function AllocationRemaining(pc: Pc): nat {
    match pc
    case AllocLoad => 3
    case AllocRead(_) => 2
    case AllocCas(_, _) => 1
    case _ => 0
  }

  lemma AllocatingStep(s0: State, s: State, t: Tid)
    requires ValidCount(s0.Count()) && Inv(s) && AllocatingSince(s0, s, t) && !s.threads[t].pc.AllocDone?
    ensures Enabled(s, Advance(t, false)) && Safe(s, Advance(t, false))
    ensures var s' := Step(s, t, false);
            && AllocatingSince(s0, s', t)
            && AllocationRemaining(s'.threads[t].pc) < AllocationRemaining(s.threads[t].pc)
  {
    var s' := Step(s, t, false);
    assert s'.threads - {t} == s.threads - {t};
    if WinsAllocation(s, Advance(t, false)) {
      EventRefines(s, Advance(t, false));
      assert Abs(s) == Abs(s0);
      AllocationNeverHandsOutHeldBlock(s, t);
    }
  }

  /** Thread `t` is somewhere inside `deallocate` of block `b`, begun in `s0`. */
  ghost predicate FreeingSince(s0: State, s: State, t: Tid, b: nat)
    requires ValidCount(s0.Count())
  {
    && t in s.threads && s.threads - {t} == s0.threads
    && s.Count() == s0.Count() && (forall i :: 0 <= i < s.Count() && i != b ==> s.words[i] == s0.words[i])
    && if s.threads[t].pc.FreeDone? then PoolStep(Abs(s0), Give(b)) == Some(Abs(s))
       else
         && s.head == s0.head && Abs(s) == Abs(s0)
         && match s.threads[t].pc
            case FreeLoad(c) => c == b
            case FreeWrite(c, head) => c == b && head == s.head
            case FreeCas(c, head) => c == b && head == s.head
            case _ => false
  }

  lemma FreeingFromCall(s0: State, t: Tid, b: nat)
    requires Inv(s0) && Enabled(s0, CallDeallocate(t, b))
    ensures FreeingSince(s0, Apply(s0, CallDeallocate(t, b)), t, b)
  {
    OtherEventsKeepPool(s0, CallDeallocate(t, b));
    assert Apply(s0, CallDeallocate(t, b)).threads - {t} == s0.threads;
  }

  function FreeRemaining(pc: Pc): nat {
    match pc
    case FreeLoad(_) => 3
    case FreeWrite(_, _) => 2
    case FreeCas(_, _) => 1
    case _ => 0
  }

  lemma FreeingStep(s0: State, s: State, t: Tid, b: nat)
    requires ValidCount(s0.Count()) && BaseGeneration(s0.head, s0.Count()) + 3 * s0.Count() <= WORD
    requires Inv(s) && FreeingSince(s0, s, t, b) && !s.threads[t].pc.FreeDone?
    ensures Enabled(s, Advance(t, false)) && Safe(s, Advance(t, false))
    ensures var s' := Step(s, t, false);
            && FreeingSince(s0, s', t, b)
            && FreeRemaining(s'.threads[t].pc) < FreeRemaining(s.threads[t].pc)
  {
    assert Step(s, t, false).threads - {t} == s.threads - {t};
    assert Returns(s.threads[t].pc) == Some(b);
    assert b in Abs(s).held;
    EventRefines(s, Advance(t, false));
  }

  /** Every access of either operation brings it nearer to its end, unless it loses its
      compare-exchange: for no reason, or because the head is not the one it loaded. */
  lemma OnlyLostRacesRepeat(s: State, t: Tid, spurious: bool)
    requires Inv(s) && Enabled(s, Advance(t, spurious))
    ensures var pc, pc' := s.threads[t].pc, Step(s, t, spurious).threads[t].pc;
            || AllocationRemaining(pc') + FreeRemaining(pc') < AllocationRemaining(pc) + FreeRemaining(pc)
            || ((pc.AllocCas? || pc.FreeCas?) && (spurious || s.head != pc.head))
  {
    assert Local(s.head, s.words, s.chain, s.nulls, s.threads[t]);
    var pc := s.threads[t].pc;
    if pc.AllocRead? && pc.head != NULL { TagParts(pc.head, s.Count()); }
    if pc.FreeWrite? {
      assert Returns(pc) == Some(pc.block);
      assert pc.block in Abs(s).held;
    }
  }
}
