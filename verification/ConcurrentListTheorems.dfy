/** What the linked queues guarantee on every run: order, conservation, clean nodes, and
    exactly when a pop comes back empty-handed. */
module ConcurrentListTheorems {
  import opened BoundedFifo
  import opened ConcurrentList
  import opened Options
  import opened Sequences
  import opened Storage

  lemma ReachableInv<T>(kind: Kind, spare: Ref, others: set<Ref>, es: seq<Event<T>>)
    requires spare !in others && Feasible(Init<T>(kind, spare, others), es)
    ensures Inv(Exec(Init<T>(kind, spare, others), es))
  {
    InitInv<T>(kind, spare, others);
    ExecKeepsInv(Init<T>(kind, spare, others), es);
  }

  /** Nothing is lost or duplicated: outside a pop the linked nodes behind the head hold
      exactly the values pushed and not yet popped, in order, and the head holds none. */
  lemma LinkedValuesAreTheUnpopped<T>(s: State<T>)
    requires Valued(s.nodes, s.chain, s.consumer, s.pushed, s.popped)
    requires !s.consumer.PopDestroy? && !s.consumer.PopAdvance?
    ensures |s.pushed| - |s.popped| == if s.chain == [] then 0 else |s.chain| - 1
    ensures forall i :: 0 < i < |s.chain| ==>
              s.nodes[s.chain[i]].val == Live(s.pushed[|s.popped| + i - 1])
    ensures s.chain != [] ==> s.nodes[s.chain[0]].val == Raw
  {
    if |s.chain| > 1 {
      assert s.nodes[s.chain[1]].val == SecondSlot(s.consumer, s.pushed, s.popped);
    }
  }

  /** `path` is what walking the next pointers from `from` visits until null. */
  ghost predicate Walk<T>(nodes: map<Ref, Node<T>>, from: Option<Ref>, path: seq<Ref>)
    decreases |path|
  {
    if path == [] then from.None?
    else
      && from == Some(path[0])
      && path[0] in nodes
      && Walk(nodes, nodes[path[0]].next, path[1..])
  }

  /** `path` is linked node to node; what its last node points to is left open. */
  ghost predicate Steps<T>(nodes: map<Ref, Node<T>>, path: seq<Ref>) {
    && (forall i :: 0 <= i < |path| ==> path[i] in nodes)
    && (forall i :: 0 <= i < |path| - 1 ==> nodes[path[i]].next == Some(path[i + 1]))
  }

  lemma {:induction false} StepsWalk<T>(nodes: map<Ref, Node<T>>, path: seq<Ref>)
    requires path != [] && Steps(nodes, path) && nodes[path[|path| - 1]].next.None?
    ensures Walk(nodes, Some(path[0]), path)
    decreases |path|
  {
    var rest := path[1..];
    if rest != [] {
      assert nodes[path[0]].next == Some(rest[0]);
      forall i | 0 <= i < |rest| - 1 ensures nodes[rest[i]].next == Some(rest[i + 1]) {
        assert nodes[path[i + 1]].next == Some(path[i + 2]);
      }
      StepsWalk(nodes, rest);
    }
  }

  /** How many nodes come before the first link a producer still has to store. */
  function Reach(chain: seq<Ref>, linker: map<Ref, Tid>): (k: nat)
    ensures k <= |chain| && (chain != [] ==> k >= 1)
    ensures forall i :: 0 <= i < k - 1 ==> chain[i] !in linker
    ensures 0 < k < |chain| ==> chain[k - 1] in linker
  {
    if chain == [] then 0 else if chain[0] in linker then 1 else 1 + Reach(chain[1..], linker)
  }

  /** Up to the first broken place the links are in place, and there the walk ends. */
  lemma LinkedPrefix<T>(nodes: map<Ref, Node<T>>, chain: seq<Ref>, linker: map<Ref, Tid>, producers: map<Tid, Producer<T>>)
    requires Chained(nodes, chain, linker, producers) && chain != []
    ensures Walk(nodes, Some(chain[0]), chain[..Reach(chain, linker)])
  {
    var path := chain[..Reach(chain, linker)];
    forall i | 0 <= i < |path| ensures nodes[path[i]].next == if i + 1 < |path| then Some(path[i + 1]) else None {
      assert nodes[chain[i]].next == NextOf(chain, linker, i);
    }
    StepsWalk(nodes, path);
  }

  /** Outside a pop, walking from the front visits the linked nodes in tail order up to the
      first place a producer still has to link, and ends there; behind the head it finds the
      oldest values pushed and not popped, in order, and all of them if nothing is broken. */
  lemma LinksWalk<T>(s: State<T>)
    requires Inv(s) && s.front.Some? && !s.consumer.PopDestroy? && !s.consumer.PopAdvance?
    ensures var k := Reach(s.chain, s.linker);
            && Walk(s.nodes, s.front, s.chain[..k])
            && 1 <= k <= |s.chain| == |Contents(s)| + 1
            && (forall i :: 1 <= i < k ==> s.nodes[s.chain[i]].val == Live(Contents(s)[i - 1]))
            && (k <= |Contents(s)| ==> s.chain[k - 1] in s.linker)
  {
    LinkedPrefix(s.nodes, s.chain, s.linker, s.producers);
    LinkedValuesAreTheUnpopped(s);
  }

  lemma UnbrokenReach<T>(chain: seq<Ref>, linker: map<Ref, Tid>, producers: map<Tid, Producer<T>>)
    requires forall i :: 0 <= i < |chain| ==> PendingOk(chain, linker, producers, i)
    requires forall t <- producers :: !producers[t].Store?
    ensures Reach(chain, linker) == |chain|
  {
    var k := Reach(chain, linker);
    assert 0 < k ==> PendingOk(chain, linker, producers, k - 1);
  }

  /** Whenever no producer sits between taking the tail and storing its link, and no pop is
      moving a value, the walk from the front ends at the tail and the nodes behind the head
      hold exactly the values pushed and not popped. */
  lemma SettledChainIsWhole<T>(s: State<T>)
    requires Inv(s) && s.front.Some? && !s.consumer.PopDestroy? && !s.consumer.PopAdvance?
    requires forall t <- s.producers :: !s.producers[t].Store? && !s.producers[t].SetBack?
    ensures Walk(s.nodes, s.front, s.chain)
    ensures s.chain != [] && s.back == Some(s.chain[|s.chain| - 1])
    ensures |s.chain| == |Contents(s)| + 1
    ensures forall i :: 1 <= i < |s.chain| ==> s.nodes[s.chain[i]].val == Live(Contents(s)[i - 1])
  {
    LinksWalk(s);
    UnbrokenReach(s.chain, s.linker, s.producers);
    assert s.chain[..|s.chain|] == s.chain;
  }

  /** A node that pop returns is off the chain, nobody is about to write its next pointer or
      links to it, and it holds the value popped last; the new head is the only linked node
      without a live value. */
  lemma PoppedNodeIsClean<T>(s: State<T>)
    requires Inv(s) && s.consumer.PopDone? && s.consumer.result.Some?
    ensures var r := s.consumer.result.value;
            && r in s.nodes && r !in s.chain && r !in s.client
            && s.popped != [] && s.nodes[r].val == Live(s.popped[|s.popped| - 1])
            && (forall t <- s.producers :: s.producers[t].Store? ==>
                  s.producers[t].prev != r && s.producers[t].node != r)
            && (forall i :: 0 <= i < |s.chain| ==> s.nodes[s.chain[i]].next != Some(r))
    ensures s.chain != [] && s.nodes[s.chain[0]].val == Raw
    ensures forall i :: 0 < i < |s.chain| ==> s.nodes[s.chain[i]].val.Live?
  {
    var r := s.consumer.result.value;
    assert r in Returns(s.consumer);
    forall t <- s.producers | s.producers[t].Store? ensures s.producers[t].prev != r && s.producers[t].node != r {
      var k :| 0 <= k < |s.chain| && s.chain[k] == s.producers[t].prev;
      assert PendingOk(s.chain, s.linker, s.producers, k);
    }
    forall i | 0 <= i < |s.chain| ensures s.nodes[s.chain[i]].next != Some(r) {
      assert s.nodes[s.chain[i]].next == NextOf(s.chain, s.linker, i);
    }
    LinkedValuesAreTheUnpopped(s);
  }

  /** A pop comes back empty-handed exactly when nothing is linked behind the head, or the
      producer that took the tail right behind the head has not stored its link yet. */
  lemma PopReturnsNullIff<T>(s: State<T>)
    requires Inv(s) && s.consumer.PopLoadNext?
    ensures StepConsumer(s).consumer == PopDone(None) <==>
            |s.pushed| == |s.popped| ||
            exists t :: t in s.producers && s.producers[t].Store? && s.producers[t].prev == s.chain[0]
  {
    HeadLink(s);
    assert PendingOk(s.chain, s.linker, s.producers, 0);
    forall t | t in s.producers && s.producers[t].Store? && s.producers[t].prev == s.chain[0]
      ensures s.chain[0] in s.linker
    {
    }
  }

  /** Popping the spare of a drained queue gives every node back to the callers. */
  lemma SpareReturnsAllNodes<T>(s: State<T>)
    requires Inv(s) && Enabled(s, PopSpare)
    ensures Inv(Apply(s, PopSpare))
    ensures Apply(s, PopSpare).client == s.nodes.Keys
    ensures s.popped == s.pushed
  {
    PopSpareKeepsInv(s);
    forall r <- s.nodes ensures r in Apply(s, PopSpare).client {
      assert r !in s.writer;
    }
  }

  /** The nodes of a chain as a set. */
  ghost function NodeSet(chain: seq<Ref>): (r: set<Ref>)
    ensures forall n :: n in r <==> n in chain
    ensures Distinct(chain) ==> |r| == |chain|
  {
    if chain == [] then {}
    else
      assert chain == chain[..|chain| - 1] + [chain[|chain| - 1]];
      NodeSet(chain[..|chain| - 1]) + {chain[|chain| - 1]}
  }

  lemma OwnersCover<T>(s: State<T>)
    requires Owned(s) && NodeSet(s.chain) <= s.nodes.Keys
    ensures s.nodes.Keys == NodeSet(s.chain) + s.client + s.writer.Keys + Returns(s.consumer)
  {
  }

  lemma OwnersDisjoint<T>(s: State<T>)
    requires Owned(s)
    ensures NodeSet(s.chain) !! s.client && NodeSet(s.chain) !! s.writer.Keys
    ensures NodeSet(s.chain) !! Returns(s.consumer)
  {
  }

  lemma FourParts(a: set<Ref>, b: set<Ref>, c: set<Ref>, d: set<Ref>)
    requires a !! b && a !! c && a !! d && b !! c && b !! d && c !! d
    ensures |a + b + c + d| == |a| + |b| + |c| + |d|
  {
    assert (a + b) !! c && (a + b + c) !! d;
  }

  /** No node is ever lost: linked, in a caller's hands, being prepared or being returned. */
  lemma NodesConserved<T>(s: State<T>)
    requires Inv(s)
    ensures s.nodes.Keys == NodeSet(s.chain) + s.client + s.writer.Keys + Returns(s.consumer)
    ensures |s.nodes| == |s.chain| + |s.client| + |s.writer| + |Returns(s.consumer)|
  {
    OwnersCover(s);
    OwnersDisjoint(s);
    FourParts(NodeSet(s.chain), s.client, s.writer.Keys, Returns(s.consumer));
  }

  // ----- refinement of a queue --------------------------------------------------------

  /** The values in the queue: pushed and not popped. */
  ghost function Contents<T>(s: State<T>): seq<Entry<T>>
    requires |s.popped| <= |s.pushed|
  {
    s.pushed[|s.popped|..]
  }

  /** A push takes effect when its producer takes the tail (or, alone, links behind it), a pop
      when the front moves on; the value popped is the one in the node handed out. */
  function EffectOf<T>(s: State<T>, e: Event<T>): Effect<Entry<T>>
    requires Enabled(s, e)
  {
    if e.AdvanceProducer? then
      match s.producers[e.t]
      case Exchange(_, v) => if s.back.Some? then Pushed(Entry(e.t, v)) else NoEffect
      case StoreNext(_, v) =>
        if s.back.Some? && s.back.value in s.nodes then Pushed(Entry(e.t, v)) else NoEffect
      case _ => NoEffect
    else if e.AdvanceConsumer? && s.consumer.PopAdvance? && s.consumer.head in s.nodes &&
            s.nodes[s.consumer.head].val.Live? then
      Popped(s.nodes[s.consumer.head].val.val)
    else NoEffect
  }

  function Effects<T>(s: State<T>, es: seq<Event<T>>): seq<Effect<Entry<T>>>
    requires Feasible(s, es)
    decreases |es|
  {
    if es == [] then [] else [EffectOf(s, es[0])] + Effects(Apply(s, es[0]), es[1..])
  }

  /** What an event appends to the two histories. */
  lemma EffectOnHistory<T>(s: State<T>, e: Event<T>)
    requires Enabled(s, e)
    ensures var effect, s' := EffectOf(s, e), Apply(s, e);
            && s'.pushed == s.pushed + (if effect.Pushed? then [effect.v] else [])
            && s'.popped == s.popped + (if effect.Popped? then [effect.v] else [])
  {
  }

  /** No event brings in a node or takes one away. */
  lemma NodesStay<T>(s: State<T>, e: Event<T>)
    requires Owned(s) && Enabled(s, e)
    ensures Apply(s, e).nodes.Keys == s.nodes.Keys
  {
    if e.AdvanceProducer? && s.producers[e.t].Construct? {
      assert Prepares(s.producers[e.t]).value in s.writer;
    }
  }

  /** There are always fewer values in the queue than nodes. */
  lemma ContentsFit<T>(s: State<T>)
    requires Inv(s) && s.front.Some?
    ensures |Contents(s)| < |s.nodes.Keys|
  {
    NodesConserved(s);
    assert |s.nodes| == |s.nodes.Keys|;
  }

  /** Appending to the two histories is pushing and popping. */
  lemma HistoryIsFifo<T>(cap: nat, pushed: seq<T>, popped: seq<T>, pushed': seq<T>, popped': seq<T>, effect: Effect<T>)
    requires popped <= pushed && popped' <= pushed'
    requires pushed' == pushed + (if effect.Pushed? then [effect.v] else [])
    requires popped' == popped + (if effect.Popped? then [effect.v] else [])
    requires effect.Pushed? ==> |pushed| - |popped| < cap
    ensures FifoStep(cap, pushed[|popped|..], effect) == Some(pushed'[|popped'|..])
  {
    if effect.Pushed? {
      assert pushed'[|popped|..] == pushed[|popped|..] + [effect.v];
    } else if effect.Popped? {
      assert pushed' == pushed;
      assert popped'[|popped|] == pushed[|popped|];
      assert pushed[|popped|..][1..] == pushed[|popped'|..];
    } else {
      assert pushed' == pushed && popped' == popped;
    }
  }

  /** Only an open queue is pushed to. */
  lemma PushNeedsFront<T>(s: State<T>, e: Event<T>)
    requires Ends(s) && Enabled(s, e) && EffectOf(s, e).Pushed?
    ensures s.front.Some?
  {
  }

  /** Every access of every producer and of the consumer does to the contents what a FIFO
      queue, bounded by the number of nodes, allows. */
  lemma EventRefines<T>(s: State<T>, e: Event<T>)
    requires Inv(s) && Enabled(s, e)
    ensures Inv(Apply(s, e)) && |Apply(s, e).nodes.Keys| == |s.nodes.Keys|
    ensures FifoStep(|s.nodes.Keys|, Contents(s), EffectOf(s, e)) == Some(Contents(Apply(s, e)))
  {
    ApplyKeepsInv(s, e);
    NodesStay(s, e);
    EffectOnHistory(s, e);
    if EffectOf(s, e).Pushed? {
      PushNeedsFront(s, e);
      ContentsFit(s);
    }
    var s' := Apply(s, e);
    HistoryIsFifo(|s.nodes.Keys|, s.pushed, s.popped, s'.pushed, s'.popped, EffectOf(s, e));
  }

  lemma {:induction false} ExecRefines<T>(s: State<T>, es: seq<Event<T>>)
    requires Inv(s) && Feasible(s, es)
    ensures Inv(Exec(s, es))
    ensures FifoRun(|s.nodes.Keys|, Contents(s), Effects(s, es)) == Some(Contents(Exec(s, es)))
    decreases |es|
  {
    if es != [] {
      EventRefines(s, es[0]);
      ExecRefines(Apply(s, es[0]), es[1..]);
      FifoRunStep(|s.nodes.Keys|, Contents(s), EffectOf(s, es[0]), Effects(Apply(s, es[0]), es[1..]));
    }
  }

  lemma FifoRunStep<T>(cap: nat, q: seq<T>, e: Effect<T>, rest: seq<Effect<T>>)
    requires FifoStep(cap, q, e).Some?
    ensures FifoRun(cap, q, [e] + rest) == FifoRun(cap, FifoStep(cap, q, e).value, rest)
  {
    assert ([e] + rest)[1..] == rest;
  }

  /** The histories grow by exactly what the effects say. */
  lemma {:induction false} HistoryOfRun<T>(s: State<T>, es: seq<Event<T>>)
    requires Feasible(s, es)
    ensures Exec(s, es).pushed == s.pushed + PushedValues(Effects(s, es))
    ensures Exec(s, es).popped == s.popped + PoppedValues(Effects(s, es))
    decreases |es|
  {
    if es != [] {
      EffectOnHistory(s, es[0]);
      HistoryOfRun(Apply(s, es[0]), es[1..]);
      var effects := Effects(s, es);
      assert effects[0] == EffectOf(s, es[0]);
      assert effects[1..] == Effects(Apply(s, es[0]), es[1..]);
    }
  }

  lemma NodesAtStart<T>(kind: Kind, spare: Ref, others: set<Ref>)
    requires spare !in others
    ensures |Init<T>(kind, spare, others).nodes.Keys| == |others| + 1
  {
    assert Init<T>(kind, spare, others).nodes.Keys == others + {spare};
  }

  /** Every interleaving of any number of producers and the consumer, popped nodes emplaced
      again, is a run of a FIFO queue. */
  lemma RunRefines<T>(kind: Kind, spare: Ref, others: set<Ref>, es: seq<Event<T>>)
    requires spare !in others && Feasible(Init<T>(kind, spare, others), es)
    ensures var s0 := Init<T>(kind, spare, others);
            && Inv(Exec(s0, es))
            && FifoRun(|others| + 1, [], Effects(s0, es)) == Some(Contents(Exec(s0, es)))
  {
    InitInv<T>(kind, spare, others);
    NodesAtStart<T>(kind, spare, others);
    ExecRefines(Init<T>(kind, spare, others), es);
  }

  /** On every run the values taken out of the nodes handed out, in order, followed by those
      still in the queue, are the values pushed, in the order in which their producers took
      the tail: popped values are a prefix, none is lost and none comes twice. */
  lemma PoppedArePrefixOfPushed<T>(kind: Kind, spare: Ref, others: set<Ref>, es: seq<Event<T>>)
    requires spare !in others && Feasible(Init<T>(kind, spare, others), es)
    ensures var s0 := Init<T>(kind, spare, others);
            var s, effects := Exec(s0, es), Effects(s0, es);
            && |s.popped| <= |s.pushed|
            && s.popped == PoppedValues(effects) && s.pushed == PushedValues(effects)
            && PushedValues(effects) == PoppedValues(effects) + Contents(s)
  {
    var s0 := Init<T>(kind, spare, others);
    RunRefines(kind, spare, others, es);
    HistoryOfRun(s0, es);
    FifoConserves(|others| + 1, [], Effects(s0, es));
  }

  /** The entries of one producer, in order. */
  ghost function PushedBy<T>(log: seq<Entry<T>>, who: Tid): seq<T> {
    if log == [] then []
    else (if log[0].who == who then [log[0].v] else []) + PushedBy(log[1..], who)
  }

  lemma {:induction false} PrefixPerProducer<T>(a: seq<Entry<T>>, b: seq<Entry<T>>, who: Tid)
    requires a <= b
    ensures PushedBy(a, who) <= PushedBy(b, who)
    decreases |a|
  {
    if a != [] {
      PrefixPerProducer(a[1..], b[1..], who);
    }
  }

  /** On every run the values of each producer come out in the order in which it pushed
      them. */
  lemma FifoPerProducer<T>(kind: Kind, spare: Ref, others: set<Ref>, es: seq<Event<T>>, who: Tid)
    requires spare !in others && Feasible(Init<T>(kind, spare, others), es)
    ensures var effects := Effects(Init<T>(kind, spare, others), es);
            PushedBy(PoppedValues(effects), who) <= PushedBy(PushedValues(effects), who)
  {
    PoppedArePrefixOfPushed(kind, spare, others, es);
    var effects := Effects(Init<T>(kind, spare, others), es);
    PrefixPerProducer(PoppedValues(effects), PushedValues(effects), who);
  }

  // ----- a pop that misses a completed push -----------------------------------------

  ghost predicate Reaches<T(!new)>(s: State<T>, s': State<T>) {
    exists es :: Feasible(s, es) && Exec(s, es) == s'
  }

  lemma {:induction false} ExecOneMore<T>(s: State<T>, es: seq<Event<T>>, e: Event<T>)
    requires Feasible(s, es) && Enabled(Exec(s, es), e)
    ensures Feasible(s, es + [e]) && Exec(s, es + [e]) == Apply(Exec(s, es), e)
    decreases |es|
  {
    if es == [] {
      assert es + [e] == [e];
      assert [e][1..] == [];
    } else {
      assert (es + [e])[1..] == es[1..] + [e];
      ExecOneMore(Apply(s, es[0]), es[1..], e);
    }
  }

  lemma ReachesNext<T(!new)>(s: State<T>, s1: State<T>, e: Event<T>) returns (s2: State<T>)
    requires Reaches(s, s1) && Enabled(s1, e)
    ensures s2 == Apply(s1, e) && Reaches(s, s2)
  {
    var es :| Feasible(s, es) && Exec(s, es) == s1;
    ExecOneMore(s, es, e);
    s2 := Apply(s1, e);
    assert Feasible(s, es + [e]) && Exec(s, es + [e]) == s2;
  }

  lemma NodeConstructed<T(!new)>(s0: State<T>, a: T) returns (s: State<T>)
    requires s0 == Init<T>(MultiProducer, 0, {1, 2})
    ensures Reaches(s0, s)
    ensures s == s0.(nodes := map[0 := Node(None, Raw), 1 := Node(None, Live(Entry(1, a))), 2 := Node(None, Raw)],
                     producers := map[1 := Exchange(1, a)], client := {2}, writer := map[1 := 1])
  {
    var none: seq<Event<T>> := [];
    assert Feasible(s0, none) && Exec(s0, none) == s0;
    s := ReachesNext(s0, s0, CallEmplace(1, 1, a));
    assert s.client == {2} && s.writer == map[1 := 1] && s.producers == map[1 := Construct(1, a)];
    s := ReachesNext(s0, s, AdvanceProducer(1));
  }

  lemma TailTaken<T(!new)>(a: T) returns (s: State<T>)
    ensures Reaches(Init<T>(MultiProducer, 0, {1, 2}), s)
    ensures s == Init<T>(MultiProducer, 0, {1, 2}).(
                   nodes := map[0 := Node(None, Raw), 1 := Node(None, Live(Entry(1, a))), 2 := Node(None, Raw)],
                   producers := map[1 := Store(0, 1)], back := Some(1), chain := [0, 1],
                   linker := map[0 := 1], client := {2}, pushed := [Entry(1, a)])
  {
    var s0 := Init<T>(MultiProducer, 0, {1, 2});
    s := NodeConstructed(s0, a);
    s := ReachesNext(s0, s, AdvanceProducer(1));
    assert s.writer == map[];
  }

  lemma SecondPushCompletes<T(!new)>(s0: State<T>, s1: State<T>, b: T) returns (s: State<T>)
    requires Reaches(s0, s1) && s1.kind.MultiProducer? && s1.back == Some(1) && s1.front == Some(0)
    requires 2 in s1.client && 2 !in s1.producers && 1 in s1.nodes && 0 in s1.nodes && s1.consumer.Idle?
    ensures Reaches(s0, s)
    ensures 2 !in s.producers && s.pushed == s1.pushed + [Entry(2, b)] && s.popped == s1.popped
    ensures s.front == s1.front && s.consumer.Idle? && 0 in s.nodes && s.nodes[0] == s1.nodes[0]
  {
    s := ReachesNext(s0, s1, CallEmplace(2, 2, b));
    s := ReachesNext(s0, s, AdvanceProducer(2));
    s := ReachesNext(s0, s, AdvanceProducer(2));
    s := ReachesNext(s0, s, AdvanceProducer(2));
    s := ReachesNext(s0, s, ReturnEmplace(2));
  }

  /** With several producers an empty-handed pop does not mean an empty queue: producer 1 has
      taken the tail and not stored its link, producer 2 has pushed and returned, and the
      consumer still gets nothing. */
  lemma PopMissesCompletedPush<T(!new)>(a: T, b: T) returns (s: State<T>)
    ensures Reaches(Init<T>(MultiProducer, 0, {1, 2}), s)
    ensures s.pushed == [Entry(1, a), Entry(2, b)] && s.popped == []
    ensures 2 !in s.producers && s.consumer == PopDone(None)
  {
    var s0 := Init<T>(MultiProducer, 0, {1, 2});
    s := TailTaken(a);
    s := SecondPushCompletes(s0, s, b);
    s := ReachesNext(s0, s, CallPop);
    s := ReachesNext(s0, s, AdvanceConsumer);
  }

  // ----- operations that are not interrupted -----------------------------------------

  /** The tail is there to be linked to. */
  lemma TailIsThere<T>(s: State<T>, t: Tid)
    requires Inv(s) && t in s.producers
    ensures s.producers[t].Exchange? ==> s.back.Some?
    ensures s.producers[t].Store? ==> s.producers[t].prev in s.nodes
    ensures s.producers[t].StoreNext? ==> s.back.Some? && s.back.value in s.nodes
  {
    assert ProducerOk(s.kind, s.nodes, s.chain, t, s.producers[t]);
    assert s.chain != [];
    if s.producers[t].Exchange? || s.producers[t].StoreNext? {
      forall u | u in s.producers ensures !s.producers[u].SetBack? {
        assert ProducerOk(s.kind, s.nodes, s.chain, u, s.producers[u]);
      }
    }
  }

  /** The nodes the consumer works on are there, and the second holds a value. */
  lemma ConsumerNodesThere<T>(s: State<T>)
    requires Inv(s)
    ensures s.consumer.PopLoadNext? || s.consumer.PopTake? || s.consumer.PopDestroy? ==> s.consumer.head in s.nodes
    ensures s.consumer.PopTake? || s.consumer.PopDestroy? ==> s.consumer.next in s.nodes
    ensures s.consumer.PopTake? ==> s.nodes[s.consumer.next].val.Live?
  {
    assert ConsumerOk(s);
    assert s.consumer.PopTake? ==> s.nodes[s.chain[1]].val == SecondSlot(s.consumer, s.pushed, s.popped);
  }

  /** Producer `t` is somewhere inside `emplace` of `v` into `node`, begun in `s0`; nobody else
      has moved. */
  ghost predicate EmplacingSince<T>(s0: State<T>, s: State<T>, t: Tid, node: Ref, v: T) {
    && t in s.producers && s.producers - {t} == s0.producers
    && s.consumer == s0.consumer && s.front == s0.front && s.popped == s0.popped && s.kind == s0.kind
    && match s.producers[t]
       case Construct(n, w) => n == node && w == v && s.pushed == s0.pushed
       case Exchange(n, w) => n == node && w == v && s.pushed == s0.pushed
       case StoreNext(n, w) => n == node && w == v && s.pushed == s0.pushed
       case Store(_, n) => n == node && s.pushed == s0.pushed + [Entry(t, v)]
       case SetBack(n) => n == node && s.pushed == s0.pushed + [Entry(t, v)]
       case EmplaceDone(n) => n == node && s.pushed == s0.pushed + [Entry(t, v)]
  }

  function EmplaceRemaining<T>(p: Producer<T>): nat {
    match p
    case Construct(_, _) => 3
    case Exchange(_, _) => 2
    case StoreNext(_, _) => 2
    case Store(_, _) => 1
    case SetBack(_) => 1
    case EmplaceDone(_) => 0
  }

  lemma EmplacingStep<T>(s0: State<T>, s: State<T>, t: Tid, node: Ref, v: T)
    requires EmplacingSince(s0, s, t, node, v) && !s.producers[t].EmplaceDone?
    requires s.producers[t].Exchange? ==> s.back.Some?
    requires s.producers[t].Store? ==> s.producers[t].prev in s.nodes
    requires s.producers[t].StoreNext? ==> s.back.Some? && s.back.value in s.nodes
    ensures var s' := StepProducer(s, t);
            && EmplacingSince(s0, s', t, node, v)
            && EmplaceRemaining(s'.producers[t]) < EmplaceRemaining(s.producers[t])
  {
    assert StepProducer(s, t).producers - {t} == s.producers - {t};
  }

  /** The consumer is somewhere inside `pop`, begun in `s0`; no producer has moved. */
  ghost predicate PoppingSince<T>(s0: State<T>, s: State<T>)
    requires s0.front.Some? && s0.front.value in s0.nodes
  {
    && s.producers == s0.producers && s.pushed == s0.pushed
    && match s.consumer
       case Idle => false
       case PopLoadNext(head) => head == s0.front.value && s.nodes == s0.nodes && s.popped == s0.popped
       case PopTake(head, next) => TakingSince(s0, s, head)
       case PopDestroy(head, next) => TakingSince(s0, s, head)
       case PopAdvance(head, next) => TakingSince(s0, s, head)
       case PopDone(None) => s0.nodes[s0.front.value].next.None? && s.popped == s0.popped
       case PopDone(Some(n)) =>
         && s0.nodes[s0.front.value].next.Some? && n == s0.front.value
         && |s0.popped| < |s0.pushed| && s.popped == s0.popped + [s0.pushed[|s0.popped|]]
  }

  ghost predicate TakingSince<T>(s0: State<T>, s: State<T>, head: Ref)
    requires s0.front.Some? && s0.front.value in s0.nodes
  {
    head == s0.front.value && s.popped == s0.popped && s0.nodes[s0.front.value].next.Some?
  }

  function PopRemaining(c: Consumer): nat {
    match c
    case PopLoadNext(_) => 4
    case PopTake(_, _) => 3
    case PopDestroy(_, _) => 2
    case PopAdvance(_, _) => 1
    case _ => 0
  }

  lemma PoppingStep<T>(s0: State<T>, s: State<T>)
    requires s0.front.Some? && s0.front.value in s0.nodes
    requires Inv(s) && PoppingSince(s0, s) && !s.consumer.PopDone?
    ensures var s' := StepConsumer(s);
            PoppingSince(s0, s') && PopRemaining(s'.consumer) < PopRemaining(s.consumer)
  {
    ConsumerNodesThere(s);
    if s.consumer.PopAdvance? {
      assert s.nodes[s.chain[0]].val == HeadSlot(s.consumer, s.pushed, s.popped);
    }
  }

  /** What a pop has done: nothing, or the head of before is handed out with the oldest value. */
  ghost predicate PopGave<T>(s0: State<T>, s: State<T>, r: Option<Ref>) {
    if r.None? then s.popped == s0.popped
    else
      && r == s0.front && |s0.popped| < |s0.pushed|
      && s.popped == s0.popped + [s0.pushed[|s0.popped|]]
      && r.value in s.nodes && s.nodes[r.value].val == Live(s0.pushed[|s0.popped|])
  }

  lemma PoppedValue<T>(s0: State<T>, s: State<T>)
    requires s0.front.Some? && s0.front.value in s0.nodes
    requires ConsumerOk(s) && PoppingSince(s0, s) && s.consumer.PopDone?
    ensures s.consumer.result.None? <==> s0.nodes[s0.front.value].next.None?
    ensures PopGave(s0, s, s.consumer.result)
  {
  }

  /** With no producer inside, the head has no next exactly when nothing is left. */
  lemma QuietHead<T>(s: State<T>)
    requires Inv(s) && s.front.Some?
    ensures s.front.value in s.nodes
    ensures s.producers == map[] ==> (s.nodes[s.front.value].next.None? <==> Contents(s) == [])
  {
    assert s.nodes[s.chain[0]].next == NextOf(s.chain, s.linker, 0);
    assert PendingOk(s.chain, s.linker, s.producers, 0);
  }
}
