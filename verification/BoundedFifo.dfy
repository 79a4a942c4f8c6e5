/** The sequential specification of a bounded queue, as a machine over effects. */
module BoundedFifo {
  import opened Options

  /** What one step does to the abstract queue. */
  datatype Effect<T> = NoEffect | Pushed(v: T) | Popped(v: T)

  /** A push needs room, a pop takes the oldest value. */
  function FifoStep<T(==)>(cap: nat, q: seq<T>, e: Effect<T>): Option<seq<T>> {
    match e
    case NoEffect => Some(q)
    case Pushed(v) => if |q| < cap then Some(q + [v]) else None
    case Popped(v) => if q != [] && q[0] == v then Some(q[1..]) else None
  }

  function FifoRun<T(==)>(cap: nat, q: seq<T>, es: seq<Effect<T>>): Option<seq<T>>
    decreases |es|
  {
    if es == [] then Some(q)
    else match FifoStep(cap, q, es[0])
         case None => None
         case Some(q') => FifoRun(cap, q', es[1..])
  }

  function PushedValues<T>(es: seq<Effect<T>>): seq<T> {
    if es == [] then []
    else (if es[0].Pushed? then [es[0].v] else []) + PushedValues(es[1..])
  }

  function PoppedValues<T>(es: seq<Effect<T>>): seq<T> {
    if es == [] then []
    else (if es[0].Popped? then [es[0].v] else []) + PoppedValues(es[1..])
  }

  lemma StepConserves<T>(cap: nat, q: seq<T>, e: Effect<T>, q': seq<T>, ins: seq<T>, outs: seq<T>, rest: seq<T>)
    requires FifoStep(cap, q, e) == Some(q') && q' + ins == outs + rest
    ensures q + ((if e.Pushed? then [e.v] else []) + ins) == ((if e.Popped? then [e.v] else []) + outs) + rest
  {
    if e.Pushed? {
      assert q + ([e.v] + ins) == q' + ins;
      assert [] + outs == outs;
    } else if e.Popped? {
      assert q + ([] + ins) == [e.v] + (q' + ins);
      assert ([e.v] + outs) + rest == [e.v] + (outs + rest);
    } else {
      assert [] + ins == ins && [] + outs == outs;
    }
  }

  /** In a legal run nothing is lost, duplicated or reordered. */
  lemma {:induction false} FifoConserves<T>(cap: nat, q: seq<T>, es: seq<Effect<T>>)
    requires FifoRun(cap, q, es).Some?
    ensures q + PushedValues(es) == PoppedValues(es) + FifoRun(cap, q, es).value
    ensures |q| <= cap ==> |FifoRun(cap, q, es).value| <= cap
    decreases |es|
  {
    if es == [] {
      assert q + [] == q && [] + q == q;
    } else {
      var q' := FifoStep(cap, q, es[0]).value;
      FifoConserves(cap, q', es[1..]);
      StepConserves(cap, q, es[0], q', PushedValues(es[1..]), PoppedValues(es[1..]),
                    FifoRun(cap, q', es[1..]).value);
    }
  }
}
