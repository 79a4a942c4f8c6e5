/** The lock-free pool as a machine: the free list is threaded through the first word of
    the free blocks and its head is a tagged word. Threads run the allocate and deallocate
    loops one atomic access at a time; whoever holds a block may overwrite its first word. */
module ConcurrentPool {
  import opened BlockPool
  import opened Options
  import opened PoolTags
  import opened Sequences
  import opened Words

  type Tid = nat

  /** The next access of a thread with its loaded locals. */
  datatype Pc =
    | AllocLoad
    | AllocRead(head: nat)
    | AllocCas(head: nat, link: nat)
    | AllocDone(result: Option<nat>)
    | FreeLoad(block: nat)
    | FreeWrite(block: nat, head: nat)
    | FreeCas(block: nat, head: nat)
    | FreeDone

  /** `epoch` is the number of times the head had become null when it was last loaded. */
  datatype Thread = Thread(pc: Pc, epoch: nat)

  /** `words[b]` is the first word of block `b`. The rest is history: the free blocks in
      list order, the blocks in callers' hands, the blocks on their way back with the thread
      returning each, and how often the head has become null. */
  datatype State = State(
    head: nat,
    words: seq<nat>,
    threads: map<Tid, Thread>,
    chain: seq<nat>,
    held: set<nat>,
    returning: map<nat, Tid>,
    nulls: nat)
  {
    function Count(): nat { |words| }
  }

  /** `initialise_free_list`: block `i` links to `i + 1`, the last one to null. */
  function Init(n: nat): State
    requires ValidCount(n)
  {
    State(0, seq(n, i => if i + 1 == n then NULL else i + 1), map[], seq(n, i => i), {}, map[], 0)
  }

  // ----- the steps ------------------------------------------------------------------

  /** The head that a successful allocation stores. */
  function NextHead(head: nat, link: nat, n: nat): nat
    requires ValidCount(n)
  {
    if link == NULL then NULL else TagIdx(GenerationOf(head, n), link, n)
  }

  /** The link that a returning block is given, for the head that was loaded. */
  function LinkTo(head: nat, n: nat): nat
    requires ValidCount(n)
  {
    if head == NULL then NULL else IndexOf(head, n)
  }

  /** The generation that a returning block's head is bumped from: null carries none. */
  function BaseGeneration(head: nat, n: nat): nat
    requires ValidCount(n)
  {
    if head == NULL then 0 else GenerationOf(head, n)
  }

  function SetHead(s: State, head: nat): State {
    s.(head := head, nulls := if head == NULL then s.nulls + 1 else s.nulls)
  }

  function Goto(s: State, t: Tid, pc: Pc, epoch: nat): State {
    s.(threads := s.threads[t := Thread(pc, epoch)])
  }

  /** A won compare-exchange of `allocate`. */
  function PopBlock(s: State, t: Tid, head: nat, link: nat): State
    requires ValidCount(s.Count()) && t in s.threads
  {
    var b := IndexOf(head, s.Count());
    SetHead(Goto(s, t, AllocDone(Some(b)), s.threads[t].epoch), NextHead(head, link, s.Count()))
    .(chain := if s.chain == [] then [] else s.chain[1..], held := s.held + {b})
  }

  /** A won compare-exchange of `deallocate`. */
  function PushBlock(s: State, t: Tid, b: nat, head: nat): State
    requires ValidCount(s.Count()) && t in s.threads
  {
    var n := s.Count();
    SetHead(Goto(s, t, FreeDone, s.threads[t].epoch),
            TagIdx(BumpGeneration(BaseGeneration(head, n), n), b, n))
    .(chain := [b] + s.chain, returning := s.returning - {b})
  }

  /** One atomic access of thread `t`; `spurious` makes a weak compare-exchange fail. */
  function Step(s: State, t: Tid, spurious: bool): State
    requires ValidCount(s.Count()) && t in s.threads
  {
    var th := s.threads[t];
    match th.pc
    case AllocLoad => Goto(s, t, AllocRead(s.head), s.nulls)
    case AllocRead(head) =>
      if head == NULL then Goto(s, t, AllocDone(None), th.epoch)
      else
        var b := IndexOf(head, s.Count());
        if b < s.Count() then Goto(s, t, AllocCas(head, s.words[b]), th.epoch) else s
    case AllocCas(head, link) =>
      if spurious || s.head != head then Goto(s, t, AllocRead(s.head), s.nulls)
      else PopBlock(s, t, head, link)
    case FreeLoad(b) => Goto(s, t, FreeWrite(b, s.head), th.epoch)
    case FreeWrite(b, head) =>
      if b < s.Count() then
        Goto(s, t, FreeCas(b, head), th.epoch).(words := s.words[b := LinkTo(head, s.Count())])
      else s
    case FreeCas(b, head) =>
      if spurious || s.head != head then Goto(s, t, FreeWrite(b, s.head), th.epoch)
      else PushBlock(s, t, b, head)
    case _ => s
  }

  datatype Event =
    | CallAllocate(t: Tid)
    | CallDeallocate(t: Tid, block: nat)
    | Advance(t: Tid, spurious: bool)
    | Return(t: Tid)
    | UserWrite(block: nat, word: nat)

  /** Callers free and write only blocks they hold. */
  predicate Enabled(s: State, e: Event) {
    match e
    case CallAllocate(t) => t !in s.threads
    case CallDeallocate(t, b) => t !in s.threads && b in s.held
    case Advance(t, _) =>
      t in s.threads && !s.threads[t].pc.AllocDone? && !s.threads[t].pc.FreeDone?
    case Return(t) => t in s.threads && (s.threads[t].pc.AllocDone? || s.threads[t].pc.FreeDone?)
    case UserWrite(b, word) => b in s.held && b < s.Count() && word < WORD
  }

  function Apply(s: State, e: Event): State
    requires ValidCount(s.Count()) && Enabled(s, e)
  {
    match e
    case CallAllocate(t) => Goto(s, t, AllocLoad, 0)
    case CallDeallocate(t, b) =>
      Goto(s, t, FreeLoad(b), 0).(held := s.held - {b}, returning := s.returning[b := t])
    case Advance(t, spurious) => Step(s, t, spurious)
    case Return(t) => s.(threads := s.threads - {t})
    case UserWrite(b, word) => s.(words := s.words[b := word])
  }

  /** Does the event win the compare-exchange of an allocation? */
  predicate WinsAllocation(s: State, e: Event) {
    e.Advance? && e.t in s.threads && s.threads[e.t].pc.AllocCas? &&
    !e.spurious && s.head == s.threads[e.t].pc.head
  }

  /** Does the event win the compare-exchange of a deallocation? */
  predicate WinsDeallocation(s: State, e: Event) {
    e.Advance? && e.t in s.threads && s.threads[e.t].pc.FreeCas? &&
    !e.spurious && s.head == s.threads[e.t].pc.head
  }

  /** The hypotheses on a run: an allocation that wins has not seen the head become null
      since it loaded it, and generations stay below the wrap bound. */
  predicate Safe(s: State, e: Event)
    requires ValidCount(s.Count())
  {
    && (WinsAllocation(s, e) ==> s.threads[e.t].epoch == s.nulls)
    && (WinsDeallocation(s, e) ==> BaseGeneration(s.head, s.Count()) + 3 * s.Count() <= WORD)
  }

  lemma ApplyKeepsCount(s: State, e: Event)
    requires ValidCount(s.Count()) && Enabled(s, e)
    ensures Apply(s, e).Count() == s.Count()
  {
  }

  predicate Feasible(s: State, es: seq<Event>)
    requires ValidCount(s.Count())
    decreases |es|
  {
    es == [] ||
    (Enabled(s, es[0]) && (ApplyKeepsCount(s, es[0]); Feasible(Apply(s, es[0]), es[1..])))
  }

  function Exec(s: State, es: seq<Event>): State
    requires ValidCount(s.Count()) && Feasible(s, es)
    decreases |es|
  {
    if es == [] then s
    else ApplyKeepsCount(s, es[0]); Exec(Apply(s, es[0]), es[1..])
  }

  /** Every event of the run meets the hypotheses. */
  predicate SafeRun(s: State, es: seq<Event>)
    requires ValidCount(s.Count()) && Feasible(s, es)
    decreases |es|
  {
    es == [] ||
    (Safe(s, es[0]) && (ApplyKeepsCount(s, es[0]); SafeRun(Apply(s, es[0]), es[1..])))
  }

  // ----- the invariant --------------------------------------------------------------

  /** The chain from the head through the links of the free blocks is exactly `chain`. */
  ghost predicate Linked(head: nat, words: seq<nat>, chain: seq<nat>)
    requires ValidCount(|words|)
  {
    var n := |words|;
    && (head == NULL <==> chain == [])
    && (chain != [] ==> head < WORD && IndexOf(head, n) == chain[0] && GenerationOf(head, n) + 2 * n <= WORD)
    && (forall i :: 0 <= i < |chain| ==> chain[i] < n)
    && (forall i :: 0 <= i < |chain| ==> words[chain[i]] == LinkAt(chain, i))
  }

  /** The link of the `i`th free block: the next one's index, null at the end. */
  ghost function LinkAt(chain: seq<nat>, i: nat): nat
    requires i < |chain|
  {
    if i + 1 < |chain| then chain[i + 1] else NULL
  }

  /** The block a deallocating thread has not yet put back. */
  function Returns(pc: Pc): Option<nat> {
    match pc
    case FreeLoad(b) => Some(b)
    case FreeWrite(b, _) => Some(b)
    case FreeCas(b, _) => Some(b)
    case _ => None
  }

  /** The specification state: blocks on their way back still count as held. */
  ghost function Abs(s: State): Pool {
    Pool(s.chain, s.held + s.returning.Keys)
  }

  ghost predicate Owned(s: State) {
    && Partition(Abs(s), s.Count())
    && s.held !! s.returning.Keys
    && (forall b <- s.returning :: s.returning[b] in s.threads &&
          Returns(s.threads[s.returning[b]].pc) == Some(b))
    && (forall t <- s.threads :: Returns(s.threads[t].pc).Some? ==>
          var b := Returns(s.threads[t].pc).value;
          b in s.returning && s.returning[b] == t)
  }

  /** What a loaded head still says while the list has not been empty since: its generation
      is not ahead, and if it is the current one, its block is still the first or is no
      longer free. */
  ghost predicate Attempt(head: nat, chain: seq<nat>, n: nat, loaded: nat)
    requires ValidCount(n)
  {
    && chain != []
    && GenerationOf(loaded, n) <= GenerationOf(head, n)
    && (GenerationOf(loaded, n) == GenerationOf(head, n) ==>
          chain[0] == IndexOf(loaded, n) || IndexOf(loaded, n) !in chain)
  }

  ghost predicate Local(head: nat, words: seq<nat>, chain: seq<nat>, nulls: nat, th: Thread)
    requires ValidCount(|words|)
  {
    var n := |words|;
    && (th.pc.AllocRead? ==> th.epoch <= nulls && th.pc.head < WORD)
    && (th.pc.AllocRead? && th.pc.head != NULL && th.epoch == nulls ==>
          Attempt(head, chain, n, th.pc.head))
    && (th.pc.AllocCas? ==> th.epoch <= nulls && th.pc.head < WORD && th.pc.head != NULL)
    && (th.pc.AllocCas? && th.epoch == nulls ==>
          && Attempt(head, chain, n, th.pc.head)
          && (th.pc.head == head && chain[0] < n ==> th.pc.link == words[chain[0]]))
    && (th.pc.FreeWrite? ==> th.pc.head < WORD)
    && (th.pc.FreeCas? ==> th.pc.block < n ==> words[th.pc.block] == LinkTo(th.pc.head, n))
  }

  ghost predicate Locals(s: State)
    requires ValidCount(s.Count())
  {
    forall t <- s.threads :: Local(s.head, s.words, s.chain, s.nulls, s.threads[t])
  }

  ghost predicate Inv(s: State) {
    && ValidCount(s.Count())
    && s.head < WORD
    && Linked(s.head, s.words, s.chain)
    && Owned(s)
    && Locals(s)
  }

  // ----- preservation ---------------------------------------------------------------

  lemma InitInv(n: nat)
    requires ValidCount(n)
    ensures Inv(Init(n))
  {
    var s := Init(n);
    FreshPartition(n);
    TagParts(0, n);
    WordIsPow2();
    Pow2Divides(n, WORD);
    FloorRoom(n, WORD, n) by { ModPeriod(0, n); }
    assert n + n <= WORD;
    assert Abs(s) == FreshPool(n);
  }

  /** Writing a word of a block that is not free touches no link of the chain. */
  lemma WriteKeepsLinked(head: nat, words: seq<nat>, chain: seq<nat>, b: nat, word: nat)
    requires ValidCount(|words|) && Linked(head, words, chain)
    requires b < |words| && b !in chain
    ensures Linked(head, words[b := word], chain)
  {
  }

  lemma PopKeepsLinked(head: nat, words: seq<nat>, chain: seq<nat>)
    requires ValidCount(|words|) && Linked(head, words, chain) && chain != []
    ensures Linked(NextHead(head, words[chain[0]], |words|), words, chain[1..])
    ensures |chain| > 1 ==>
              GenerationOf(NextHead(head, words[chain[0]], |words|), |words|) == GenerationOf(head, |words|)
  {
    var n := |words|;
    TagParts(head, n);
    assert words[chain[0]] == LinkAt(chain, 0);
    if |chain| > 1 {
      assert chain[1] < n;
      TagRoundTrip(GenerationOf(head, n), chain[1], n);
      DivModUnique(chain[1], n, 0, chain[1]);
    }
    forall i | 0 <= i < |chain[1..]| ensures words[chain[1..][i]] == LinkAt(chain[1..], i) {
      assert words[chain[i + 1]] == LinkAt(chain, i + 1);
    }
  }

  /** The tag a returning block's compare-exchange stores. */
  lemma PushTag(head: nat, n: nat, b: nat)
    requires ValidCount(n) && b < n && head < WORD
    requires BaseGeneration(head, n) + 3 * n <= WORD
    ensures var head' := TagIdx(BumpGeneration(BaseGeneration(head, n), n), b, n);
            && head' < WORD && head' != NULL
            && IndexOf(head', n) == b
            && GenerationOf(head', n) == BaseGeneration(head, n) + n
  {
    if head != NULL {
      TagParts(head, n);
    } else {
      assert 0 % n == 0;
    }
    BumpGrows(BaseGeneration(head, n), n);
    TagRoundTrip(BaseGeneration(head, n) + n, b, n);
    DivModUnique(b, n, 0, b);
  }

  lemma PushKeepsLinked(head: nat, words: seq<nat>, chain: seq<nat>, b: nat)
    requires ValidCount(|words|) && Linked(head, words, chain) && head < WORD
    requires b < |words| && words[b] == LinkTo(head, |words|)
    requires BaseGeneration(head, |words|) + 3 * |words| <= WORD
    ensures var n := |words|;
            Linked(TagIdx(BumpGeneration(BaseGeneration(head, n), n), b, n), words, [b] + chain)
  {
    PushTag(head, |words|, b);
    var chain' := [b] + chain;
    forall i | 0 <= i < |chain'| ensures words[chain'[i]] == LinkAt(chain', i) && chain'[i] < |words| {
      if i > 0 {
        assert chain'[i] == chain[i - 1];
        assert words[chain[i - 1]] == LinkAt(chain, i - 1);
      }
    }
  }

  /** The chain after the head moved on is no longer one the old head's block is on. */
  lemma AttemptAfterPop(head: nat, chain: seq<nat>, n: nat, loaded: nat, head': nat)
    requires ValidCount(n) && Attempt(head, chain, n, loaded) && Distinct(chain) && |chain| > 1
    requires GenerationOf(head', n) == GenerationOf(head, n)
    ensures Attempt(head', chain[1..], n, loaded)
    ensures GenerationOf(loaded, n) == GenerationOf(head', n) ==> IndexOf(loaded, n) !in chain[1..]
  {
    assert chain[0] !in chain[1..] by {
      forall i | 0 <= i < |chain[1..]| ensures chain[1..][i] != chain[0] {
        assert chain[1..][i] == chain[i + 1];
      }
    }
    assert forall b :: b in chain[1..] ==> b in chain;
  }

  lemma PopBlockKeepsLocals(s: State, t: Tid)
    requires Inv(s) && t in s.threads && s.threads[t].pc.AllocCas? && s.threads[t].pc.head == s.head
    requires s.chain != [] && s.threads[t].pc.link == s.words[s.chain[0]]
    requires Linked(NextHead(s.head, s.words[s.chain[0]], s.Count()), s.words, s.chain[1..])
    ensures Locals(PopBlock(s, t, s.head, s.threads[t].pc.link))
  {
    var n := s.Count();
    var s' := PopBlock(s, t, s.head, s.threads[t].pc.link);
    PopKeepsLinked(s.head, s.words, s.chain);
    forall u <- s'.threads ensures Local(s'.head, s'.words, s'.chain, s'.nulls, s'.threads[u]) {
      if u != t {
        var th := s.threads[u];
        assert Local(s.head, s.words, s.chain, s.nulls, th);
        if s'.head != NULL && (th.pc.AllocRead? || th.pc.AllocCas?) && th.pc.head != NULL && th.epoch == s.nulls {
          AttemptAfterPop(s.head, s.chain, n, th.pc.head, s'.head);
          TagInjective(th.pc.head, s'.head, n);
        }
      }
    }
  }

  lemma PushBlockKeepsLocals(s: State, t: Tid, b: nat)
    requires Inv(s) && t in s.threads && b in s.returning && b < s.Count()
    requires BaseGeneration(s.head, s.Count()) + 3 * s.Count() <= WORD
    ensures Locals(PushBlock(s, t, b, s.head))
  {
    var n := s.Count();
    var s' := PushBlock(s, t, b, s.head);
    PushTag(s.head, n, b);
    forall u <- s'.threads ensures Local(s'.head, s'.words, s'.chain, s'.nulls, s'.threads[u]) {
      if u != t {
        assert Local(s.head, s.words, s.chain, s.nulls, s.threads[u]);
      }
    }
  }

  /** Writing a block that is neither free nor being returned by another thread disturbs
      nobody's loaded link. */
  lemma WriteKeepsLocals(s: State, threads: map<Tid, Thread>, b: nat, word: nat, t: Tid)
    requires ValidCount(s.Count()) && Linked(s.head, s.words, s.chain)
    requires b < s.Count() && b !in s.chain
    requires forall u <- threads :: u != t ==> Returns(threads[u].pc) != Some(b)
    requires forall u <- threads :: u != t ==> Local(s.head, s.words, s.chain, s.nulls, threads[u])
    ensures forall u <- threads :: u != t ==>
              Local(s.head, s.words[b := word], s.chain, s.nulls, threads[u])
  {
    assert s.chain != [] ==> s.chain[0] in s.chain;
  }

  lemma PopBlockKeepsInv(s: State, t: Tid)
    requires Inv(s) && t in s.threads && s.threads[t].pc.AllocCas? && s.threads[t].pc.head == s.head
    requires s.chain != [] && s.threads[t].pc.link == s.words[s.chain[0]]
    ensures Inv(PopBlock(s, t, s.head, s.threads[t].pc.link))
  {
    var s' := PopBlock(s, t, s.head, s.threads[t].pc.link);
    PopKeepsLinked(s.head, s.words, s.chain);
    PopBlockKeepsLocals(s, t);
    StepKeepsPartition(Abs(s), Take(s.chain[0]), s.Count());
    assert s.chain[0] in s.chain;
    assert Abs(s') == PoolStep(Abs(s), Take(s.chain[0])).value by {
      assert s.held + {s.chain[0]} + s.returning.Keys == s.held + s.returning.Keys + {s.chain[0]};
    }
  }

  lemma PushBlockKeepsInv(s: State, t: Tid)
    requires Inv(s) && t in s.threads && s.threads[t].pc.FreeCas? && s.threads[t].pc.head == s.head
    requires BaseGeneration(s.head, s.Count()) + 3 * s.Count() <= WORD
    ensures Inv(PushBlock(s, t, s.threads[t].pc.block, s.head))
    ensures s.threads[t].pc.block in s.returning && s.threads[t].pc.block < s.Count()
  {
    var b := s.threads[t].pc.block;
    var s' := PushBlock(s, t, b, s.head);
    assert Returns(s.threads[t].pc) == Some(b);
    assert b in Abs(s).held;
    assert Local(s.head, s.words, s.chain, s.nulls, s.threads[t]);
    PushKeepsLinked(s.head, s.words, s.chain, b);
    PushTag(s.head, s.Count(), b);
    PushBlockKeepsLocals(s, t, b);
    StepKeepsPartition(Abs(s), Give(b), s.Count());
    assert Abs(s') == PoolStep(Abs(s), Give(b)).value by {
      assert s.held + (s.returning - {b}).Keys == s.held + s.returning.Keys - {b};
    }
  }

  /** Steps that change only the thread itself. */
  lemma GotoKeepsInv(s: State, t: Tid, pc: Pc, epoch: nat)
    requires Inv(s) && t in s.threads && Returns(pc) == Returns(s.threads[t].pc)
    requires Local(s.head, s.words, s.chain, s.nulls, Thread(pc, epoch))
    ensures Inv(Goto(s, t, pc, epoch))
  {
    var s' := Goto(s, t, pc, epoch);
    assert Abs(s') == Abs(s);
    assert Owned(s');
  }

  lemma FreeWriteKeepsInv(s: State, t: Tid)
    requires Inv(s) && t in s.threads && s.threads[t].pc.FreeWrite?
    ensures Inv(Step(s, t, false))
  {
    var b, head := s.threads[t].pc.block, s.threads[t].pc.head;
    var s' := Step(s, t, false);
    assert Returns(s.threads[t].pc) == Some(b);
    assert b in Abs(s).held;
    WriteKeepsLinked(s.head, s.words, s.chain, b, LinkTo(head, s.Count()));
    WriteKeepsLocals(s, s.threads, b, LinkTo(head, s.Count()), t);
    assert Abs(s') == Abs(s);
    assert Owned(s');
  }

  lemma StepKeepsInv(s: State, t: Tid, spurious: bool)
    requires Inv(s) && Enabled(s, Advance(t, spurious)) && Safe(s, Advance(t, spurious))
    ensures Inv(Step(s, t, spurious))
  {
    var th := s.threads[t];
    var n := s.Count();
    assert Local(s.head, s.words, s.chain, s.nulls, th);
    if s.chain != [] { TagParts(s.head, n); }
    if th.pc.AllocRead? {
      if th.pc.head == NULL {
        GotoKeepsInv(s, t, AllocDone(None), th.epoch);
      } else {
        TagParts(th.pc.head, n);
        var b := IndexOf(th.pc.head, n);
        assert b < n;
        TagInjective(th.pc.head, s.head, n);
        GotoKeepsInv(s, t, AllocCas(th.pc.head, s.words[b]), th.epoch);
      }
    } else if th.pc.AllocCas? {
      if spurious || s.head != th.pc.head {
        GotoKeepsInv(s, t, AllocRead(s.head), s.nulls);
      } else {
        PopBlockKeepsInv(s, t);
      }
    } else if th.pc.FreeCas? {
      if spurious || s.head != th.pc.head {
        GotoKeepsInv(s, t, FreeWrite(th.pc.block, s.head), th.epoch);
      } else {
        PushBlockKeepsInv(s, t);
      }
    } else if th.pc.FreeWrite? {
      FreeWriteKeepsInv(s, t);
    } else if th.pc.AllocLoad? {
      GotoKeepsInv(s, t, AllocRead(s.head), s.nulls);
    } else {
      GotoKeepsInv(s, t, FreeWrite(th.pc.block, s.head), th.epoch);
    }
  }

  lemma ApplyKeepsInv(s: State, e: Event)
    requires Inv(s) && Enabled(s, e) && Safe(s, e)
    ensures Inv(Apply(s, e))
  {
    var s' := Apply(s, e);
    match e
    case CallAllocate(t) => assert Abs(s') == Abs(s); assert Owned(s');
    case CallDeallocate(t, b) =>
      assert s'.held + s'.returning.Keys == s.held + s.returning.Keys;
      assert Abs(s') == Abs(s);
      assert Owned(s');
    case Advance(t, spurious) => StepKeepsInv(s, t, spurious);
    case Return(t) => assert Abs(s') == Abs(s); assert Owned(s');
    case UserWrite(b, word) =>
      assert b in Abs(s).held;
      WriteKeepsLinked(s.head, s.words, s.chain, b, word);
      forall u <- s.threads ensures Returns(s.threads[u].pc) != Some(b) {
        assert Returns(s.threads[u].pc) == Some(b) ==> b in s.returning;
      }
      forall u <- s.threads ensures Local(s'.head, s'.words, s'.chain, s'.nulls, s'.threads[u]) {
        assert Local(s.head, s.words, s.chain, s.nulls, s.threads[u]);
      }
      assert s.chain != [] ==> s.chain[0] in s.chain;
      assert Abs(s') == Abs(s);
      assert Owned(s');
  }

  lemma {:induction false} ExecKeepsInv(s: State, es: seq<Event>)
    requires Inv(s) && Feasible(s, es) && SafeRun(s, es)
    ensures Inv(Exec(s, es))
    decreases |es|
  {
    if es != [] {
      ApplyKeepsInv(s, es[0]);
      ExecKeepsInv(Apply(s, es[0]), es[1..]);
    }
  }
}
