/** The specification both pools refine: a stack of free blocks and a set of held ones. */
module BlockPool {
  import opened Options
  import opened Sequences

  /** Free blocks, the next one to hand out first, and blocks in the hands of callers. */
  datatype Pool = Pool(free: seq<nat>, held: set<nat>)

  datatype PoolOp = Nothing | Take(block: nat) | Give(block: nat)

  /** Free and held blocks partition [0, n). */
  ghost predicate Partition(p: Pool, n: nat) {
    && Distinct(p.free)
    && (forall b :: b in p.free ==> b !in p.held)
    && (forall b :: 0 <= b < n <==> b in p.free || b in p.held)
  }

  /** All blocks free, in index order. */
  function FreshPool(n: nat): Pool {
    Pool(seq(n, i => i), {})
  }

  /** Handing out takes the top of the stack; only a held block can come back, onto the top. */
  function PoolStep(p: Pool, op: PoolOp): Option<Pool> {
    match op
    case Nothing => Some(p)
    case Take(b) => if p.free != [] && p.free[0] == b then Some(Pool(p.free[1..], p.held + {b})) else None
    case Give(b) => if b in p.held then Some(Pool([b] + p.free, p.held - {b})) else None
  }

  function PoolRun(p: Pool, ops: seq<PoolOp>): Option<Pool>
    decreases |ops|
  {
    if ops == [] then Some(p)
    else match PoolStep(p, ops[0])
         case None => None
         case Some(p') => PoolRun(p', ops[1..])
  }

  lemma FreshPartition(n: nat)
    ensures Partition(FreshPool(n), n)
  {
    var free := FreshPool(n).free;
    forall b ensures 0 <= b < n <==> b in free {
      if 0 <= b < n { assert free[b] == b; }
    }
  }

  /** Every operation keeps the partition, and never hands out a block twice. */
  lemma StepKeepsPartition(p: Pool, op: PoolOp, n: nat)
    requires Partition(p, n) && PoolStep(p, op).Some?
    ensures Partition(PoolStep(p, op).value, n)
    ensures op.Take? ==> op.block !in p.held && op.block < n
  {
    var p' := PoolStep(p, op).value;
    match op
    case Nothing =>
    case Take(b) =>
      assert p.free == [b] + p.free[1..];
      forall c ensures c in p.free <==> c == b || c in p'.free {}
      assert forall i :: 0 <= i < |p'.free| ==> p'.free[i] == p.free[i + 1];
    case Give(b) =>
      forall c ensures c in p'.free <==> c == b || c in p.free {}
      assert forall i :: 0 < i < |p'.free| ==> p'.free[i] == p.free[i - 1];
  }

  /** The partition survives every run. */
  lemma {:induction false} RunKeepsPartition(p: Pool, ops: seq<PoolOp>, n: nat)
    requires Partition(p, n) && PoolRun(p, ops).Some?
    ensures Partition(PoolRun(p, ops).value, n)
    decreases |ops|
  {
    if ops != [] {
      StepKeepsPartition(p, ops[0], n);
      RunKeepsPartition(PoolStep(p, ops[0]).value, ops[1..], n);
    }
  }

  /** The blocks of a list as a set. */
  ghost function Blocks(s: seq<nat>): (r: set<nat>)
    ensures forall b :: b in r <==> b in s
    ensures Distinct(s) ==> |r| == |s|
  {
    if s == [] then {}
    else
      assert s == s[..|s| - 1] + [s[|s| - 1]];
      Blocks(s[..|s| - 1]) + {s[|s| - 1]}
  }

  /** The indices below `n`. */
  ghost function Indices(n: nat): (r: set<nat>)
    ensures forall b: nat :: b in r <==> b < n
    ensures |r| == n
  {
    if n == 0 then {} else Indices(n - 1) + {n - 1}
  }

  /** The free list is empty exactly when all blocks are held. */
  lemma FullIffAllHeld(p: Pool, n: nat)
    requires Partition(p, n)
    ensures |p.free| + |p.held| == n
    ensures p.free == [] <==> |p.held| == n
  {
    var frees := Blocks(p.free);
    assert frees + p.held == Indices(n);
    assert frees * p.held == {};
  }

  /** Taking every free block in turn. */
  function TakeAll(free: seq<nat>): seq<PoolOp> {
    if free == [] then [] else [Take(free[0])] + TakeAll(free[1..])
  }

  lemma TakenIsHeld(held: set<nat>, free: seq<nat>)
    requires free != []
    ensures held + {free[0]} + Blocks(free[1..]) == held + Blocks(free)
  {
    assert free == [free[0]] + free[1..];
  }

  /** Taking until the list is empty hands out every free block exactly once, in order. */
  lemma {:induction false} Draining(p: Pool)
    ensures PoolRun(p, TakeAll(p.free)) == Some(Pool([], p.held + Blocks(p.free)))
    decreases |p.free|
  {
    if p.free == [] {
      assert p.held + Blocks(p.free) == p.held;
    } else {
      var p' := Pool(p.free[1..], p.held + {p.free[0]});
      Draining(p');
      var ops := TakeAll(p.free);
      assert ops[1..] == TakeAll(p'.free);
      assert PoolStep(p, ops[0]) == Some(p');
      assert PoolRun(p, ops) == PoolRun(p', ops[1..]);
      TakenIsHeld(p.held, p.free);
    }
  }
}
