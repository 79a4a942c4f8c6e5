/** The sequential ring queue as a function on sequences, with the lifetime of every value:
    what was constructed in the ring, and what left it, either handed out or destroyed in
    place. */
module RingSpec {
  import opened Options

  datatype Removal<T> = Handed(v: T) | Destroyed(v: T)

  /** `built` and `removed` are history: the values constructed in the ring and the ends they
      met, each in order. */
  datatype Ring<T> = Ring(contents: seq<T>, built: seq<T>, removed: seq<Removal<T>>)

  datatype Op<T> =
    | Emplace(v: T)
    | ForcePush(v: T)
    | Pop
    | PushRange(vs: seq<T>)
    | Clear

  function Kill<T>(vs: seq<T>): (r: seq<Removal<T>>)
    ensures |r| == |vs| && forall i :: 0 <= i < |vs| ==> r[i] == Destroyed(vs[i])
  {
    seq(|vs|, i requires 0 <= i < |vs| => Destroyed(vs[i]))
  }

  function Append<T>(r: Ring<T>, vs: seq<T>): Ring<T> {
    r.(contents := r.contents + vs, built := r.built + vs)
  }

  lemma AppendOne<T>(r: Ring<T>, vs: seq<T>, k: nat)
    requires k < |vs|
    ensures Append(Append(r, vs[..k]), [vs[k]]) == Append(r, vs[..k + 1])
  {
    assert vs[..k + 1] == vs[..k] + [vs[k]];
    assert r.contents + vs[..k] + [vs[k]] == r.contents + vs[..k + 1];
    assert r.built + vs[..k] + [vs[k]] == r.built + vs[..k + 1];
  }

  function DropFront<T>(r: Ring<T>, n: nat): Ring<T>
    requires n <= |r.contents|
  {
    r.(contents := r.contents[n..], removed := r.removed + Kill(r.contents[..n]))
  }

  lemma DropOneMore<T>(r: Ring<T>, i: nat)
    requires i < |r.contents|
    ensures DropFront(DropFront(r, i), 1) == DropFront(r, i + 1)
  {
    var c := r.contents;
    assert Kill(c[..i + 1]) == Kill(c[..i]) + Kill(c[i..][..1]);
    assert r.removed + Kill(c[..i]) + Kill(c[i..][..1]) == r.removed + Kill(c[..i + 1]);
  }

  /** One operation on a ring of capacity `cap`. */
  function RingStep<T>(cap: nat, r: Ring<T>, op: Op<T>): Ring<T> {
    match op
    case Emplace(v) => if |r.contents| < cap then Append(r, [v]) else r
    case ForcePush(v) =>
      Append(if |r.contents| >= cap && r.contents != [] then DropFront(r, 1) else r, [v])
    case Pop =>
      if r.contents == [] then r
      else r.(contents := r.contents[1..], removed := r.removed + [Handed(r.contents[0])])
    case PushRange(vs) => if |r.contents| + |vs| <= cap then Append(r, vs) else r
    case Clear => DropFront(r, |r.contents|)
  }

  function RingRun<T>(cap: nat, r: Ring<T>, ops: seq<Op<T>>): Ring<T>
    decreases |ops|
  {
    if ops == [] then r else RingRun(cap, RingStep(cap, r, ops[0]), ops[1..])
  }

  function Values<T>(rs: seq<Removal<T>>): (vs: seq<T>)
    ensures |vs| == |rs| && forall i :: 0 <= i < |rs| ==> vs[i] == rs[i].v
  {
    seq(|rs|, i requires 0 <= i < |rs| => rs[i].v)
  }

  /** Every value ever built is in the ring or has met exactly one end, in order. */
  ghost predicate Accounted<T>(cap: nat, r: Ring<T>) {
    r.built == Values(r.removed) + r.contents && |r.contents| <= cap
  }

  lemma ValuesAppend<T>(a: seq<Removal<T>>, b: seq<Removal<T>>)
    ensures Values(a + b) == Values(a) + Values(b)
  {
  }

  lemma DropAccounts<T>(cap: nat, r: Ring<T>, n: nat)
    requires Accounted(cap, r) && n <= |r.contents|
    ensures Accounted(cap, DropFront(r, n))
  {
    ValuesAppend(r.removed, Kill(r.contents[..n]));
    assert Values(Kill(r.contents[..n])) == r.contents[..n];
    assert r.contents == r.contents[..n] + r.contents[n..];
  }

  lemma StepAccounts<T>(cap: nat, r: Ring<T>, op: Op<T>)
    requires cap > 0 && Accounted(cap, r)
    ensures Accounted(cap, RingStep(cap, r, op))
  {
    if op.ForcePush? && |r.contents| >= cap {
      DropAccounts(cap, r, 1);
    } else if op.Pop? && r.contents != [] {
      ValuesAppend(r.removed, [Handed(r.contents[0])]);
      assert Values([Handed(r.contents[0])]) == [r.contents[0]];
      assert r.contents == [r.contents[0]] + r.contents[1..];
    } else if op.Clear? {
      DropAccounts(cap, r, |r.contents|);
    }
  }

  /** Over any mix of operations the ring stays within its capacity, and the values that
      left it followed by those still in it are exactly the values built, in order. */
  lemma {:induction false} RunAccounts<T>(cap: nat, r: Ring<T>, ops: seq<Op<T>>)
    requires cap > 0 && Accounted(cap, r)
    ensures Accounted(cap, RingRun(cap, r, ops))
    decreases |ops|
  {
    if ops != [] {
      StepAccounts(cap, r, ops[0]);
      RunAccounts(cap, RingStep(cap, r, ops[0]), ops[1..]);
    }
  }

  /** The values an operation puts into a ring holding `n`, told from its arguments. */
  function Accepts<T>(cap: nat, n: nat, op: Op<T>): seq<T> {
    match op
    case Emplace(v) => if n < cap then [v] else []
    case ForcePush(v) => [v]
    case Pop => []
    case PushRange(vs) => if n + |vs| <= cap then vs else []
    case Clear => []
  }

  /** How many there are then. */
  function LengthAfter<T>(cap: nat, n: nat, op: Op<T>): nat {
    match op
    case Emplace(_) => if n < cap then n + 1 else n
    case ForcePush(_) => if n < cap then n + 1 else n
    case Pop => if n == 0 then 0 else n - 1
    case PushRange(vs) => if n + |vs| <= cap then n + |vs| else n
    case Clear => 0
  }

  function Accepted<T>(cap: nat, n: nat, ops: seq<Op<T>>): seq<T>
    decreases |ops|
  {
    if ops == [] then [] else Accepts(cap, n, ops[0]) + Accepted(cap, LengthAfter(cap, n, ops[0]), ops[1..])
  }

  lemma StepBuilds<T>(cap: nat, r: Ring<T>, op: Op<T>)
    requires 0 < cap && |r.contents| <= cap
    ensures RingStep(cap, r, op).built == r.built + Accepts(cap, |r.contents|, op)
    ensures |RingStep(cap, r, op).contents| == LengthAfter(cap, |r.contents|, op) <= cap
  {
  }

  /** Over any run the values built are the ones accepted from the arguments, in order. */
  lemma {:induction false} RunBuilds<T>(cap: nat, r: Ring<T>, ops: seq<Op<T>>)
    requires 0 < cap && |r.contents| <= cap
    ensures RingRun(cap, r, ops).built == r.built + Accepted(cap, |r.contents|, ops)
    decreases |ops|
  {
    if ops != [] {
      StepBuilds(cap, r, ops[0]);
      RunBuilds(cap, RingStep(cap, r, ops[0]), ops[1..]);
    }
  }

  function ForcePushes<T>(vs: seq<T>): seq<Op<T>> {
    seq(|vs|, i requires 0 <= i < |vs| => ForcePush(vs[i]))
  }

  /** A force push into a ring that holds the last `cap` values of `all`. */
  lemma ForceKeepsLast<T>(cap: nat, r: Ring<T>, all: seq<T>, k: nat, base: seq<Removal<T>>, v: T)
    requires 0 < cap && k <= |all| && k == (if |all| > cap then |all| - cap else 0)
    requires r.contents == all[k..] && r.removed == base + Kill(all[..k])
    ensures var all' := all + [v];
            var k' := if |all'| > cap then |all'| - cap else 0;
            var r' := RingStep(cap, r, ForcePush(v));
            && r'.contents == all'[k'..] && r'.removed == base + Kill(all'[..k'])
  {
    var all' := all + [v];
    if |all| >= cap {
      assert all'[..k + 1] == all[..k] + [all[k]];
      assert Kill(all'[..k + 1]) == Kill(all[..k]) + Kill([all[k]]);
      assert r.contents[..1] == [all[k]];
      assert all'[k + 1..] == all[k..][1..] + [v];
    } else {
      assert all' == all'[0..] && all == all[0..];
    }
  }

  /** Force pushes keep the last `cap` values in order; every value pushed out is destroyed
      once, oldest first, and none is handed to anybody. */
  lemma {:induction false} ForcePushesKeepLast<T>(cap: nat, r: Ring<T>, vs: seq<T>, all: seq<T>,
                                                  k: nat, base: seq<Removal<T>>)
    requires 0 < cap && k <= |all| && k == (if |all| > cap then |all| - cap else 0)
    requires r.contents == all[k..] && r.removed == base + Kill(all[..k])
    ensures var r' := RingRun(cap, r, ForcePushes(vs));
            var all' := all + vs;
            var k' := if |all'| > cap then |all'| - cap else 0;
            r'.contents == all'[k'..] && r'.removed == base + Kill(all'[..k'])
    decreases |vs|
  {
    if vs == [] {
      assert all + vs == all;
    } else {
      ForceKeepsLast(cap, r, all, k, base, vs[0]);
      var all1 := all + [vs[0]];
      assert ForcePushes(vs)[1..] == ForcePushes(vs[1..]);
      ForcePushesKeepLast(cap, RingStep(cap, r, ForcePush(vs[0])), vs[1..], all1,
                          if |all1| > cap then |all1| - cap else 0, base);
      assert all1 + vs[1..] == all + vs;
    }
  }

  /** From any ring within its capacity, pushing `vs` by force leaves exactly the last
      `min(n, cap)` of the old contents followed by `vs`, where n is their number, and
      destroys the others once each, oldest first. */
  lemma ForcedRunKeepsLast<T>(cap: nat, r: Ring<T>, vs: seq<T>)
    requires 0 < cap && |r.contents| <= cap
    ensures var r' := RingRun(cap, r, ForcePushes(vs));
            var all := r.contents + vs;
            var k := if |all| > cap then |all| - cap else 0;
            r'.contents == all[k..] && r'.removed == r.removed + Kill(all[..k])
  {
    assert r.contents == r.contents[0..];
    assert r.removed == r.removed + Kill(r.contents[..0]);
    ForcePushesKeepLast(cap, r, vs, r.contents, 0, r.removed);
  }
}
