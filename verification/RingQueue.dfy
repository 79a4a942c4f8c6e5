/** The ring queue object: two 64-bit cursors that wrap, masked into an array of slots in which
    values are constructed and destroyed in place. Every method is proved to perform the
    operation of the same name on the sequence of contents, and to construct only in raw slots
    and destroy only live values. */
module RingQueues {
  import opened Options
  import opened RingSpec
  import opened Storage
  import opened Words

  /** The slot of counter value `n` of a full lap that starts at `front`. */
  function LapSlot(front: nat, i: nat, cap: nat): (k: nat)
    requires IsPow2(cap)
    ensures k < cap
  {
    SlotOf(front + i, cap)
  }

  /** From `front` on, the slots hold `contents` and then nothing, for one lap. */
  ghost predicate Holds<T>(slots: seq<Slot<T>>, front: nat, contents: seq<T>)
    requires IsPow2(|slots|)
  {
    forall i :: 0 <= i < |slots| ==>
      slots[LapSlot(front, i, |slots|)] == if i < |contents| then Live(contents[i]) else Raw
  }

  lemma LapDistinct(front: nat, i: nat, j: nat, cap: nat)
    requires IsPow2(cap) && i < cap && j < cap && i != j
    ensures LapSlot(front, i, cap) != LapSlot(front, j, cap)
  {
    if i < j { SlotsDistinct(front + i, front + j, cap); } else { SlotsDistinct(front + j, front + i, cap); }
  }

  lemma HoldsAt<T>(slots: seq<Slot<T>>, front: nat, contents: seq<T>, i: nat)
    requires IsPow2(|slots|) && Holds(slots, front, contents) && i < |slots|
    ensures slots[LapSlot(front, i, |slots|)] == if i < |contents| then Live(contents[i]) else Raw
  {
  }

  /** Constructing a value in the first free slot appends it. */
  lemma HoldsAppend<T>(slots: seq<Slot<T>>, front: nat, contents: seq<T>, v: T)
    requires IsPow2(|slots|) && Holds(slots, front, contents) && |contents| < |slots|
    ensures Holds(slots[LapSlot(front, |contents|, |slots|) := Live(v)], front, contents + [v])
  {
    forall i | 0 <= i < |slots| && i != |contents|
      ensures LapSlot(front, i, |slots|) != LapSlot(front, |contents|, |slots|)
    {
      LapDistinct(front, i, |contents|, |slots|);
    }
  }

  /** Destroying the value in the front slot and stepping over it removes it. */
  lemma HoldsDrop<T>(slots: seq<Slot<T>>, front: nat, contents: seq<T>)
    requires IsPow2(|slots|) && Holds(slots, front, contents) && 0 < |contents| <= |slots|
    ensures Holds(slots[LapSlot(front, 0, |slots|) := Raw], front + 1, contents[1..])
  {
    var cap, slots', next, rest :=
      |slots|, slots[LapSlot(front, 0, |slots|) := Raw], front + 1, contents[1..];
    forall i | 0 <= i < cap
      ensures slots'[LapSlot(next, i, cap)] == if i < |rest| then Live(rest[i]) else Raw
    {
      assert next + i == front + (i + 1);
      if i + 1 < cap {
        LapDistinct(front, i + 1, 0, cap);
        HoldsAt(slots, front, contents, i + 1);
      } else {
        SlotPeriod(front, cap);
      }
    }
  }

  /** The cursor may be kept modulo 2^64: the capacity divides it. */
  lemma HoldsWraps<T>(slots: seq<Slot<T>>, front: nat, contents: seq<T>)
    requires ValidCapacity(|slots|) && Holds(slots, front, contents)
    ensures Holds(slots, front % WORD, contents)
  {
    forall i | 0 <= i < |slots|
      ensures LapSlot(front % WORD, i, |slots|) == LapSlot(front, i, |slots|)
    {
      LapWraps(front, i, |slots|);
    }
  }

  lemma LapWraps(front: nat, i: nat, cap: nat)
    requires ValidCapacity(cap)
    ensures LapSlot(front % WORD, i, cap) == LapSlot(front, i, cap)
    ensures SlotOf((front + i) % WORD, cap) == LapSlot(front, i, cap)
  {
    SlotOfWrapped(front + i, cap);
    SlotOfWrapped(front % WORD + i, cap);
    var q := front / WORD;
    assert front + i == q * WORD + (front % WORD + i);
    var r := front % WORD + i;
    DivModUnique(front + i, WORD, q + r / WORD, r % WORD);
  }

  class RingQueue<T> {
    var data: array?<Slot<T>>
    var mask: nat
    var front: nat
    var back: nat
    // the sequence the ring stands for, and the history of the storage it uses
    ghost var ring: Ring<T>

    ghost predicate Valid()
      reads this, data
    {
      && front < WORD && back < WORD
      && (data == null ==> mask == 0 && front == back && ring.contents == [])
      && (data != null ==>
            && data.Length == mask + 1 && ValidCapacity(data.Length)
            && back == (front + |ring.contents|) % WORD
            && Holds(data[..], front, ring.contents))
      && Accounted(mask + 1, ring)
    }

    /** An empty queue over raw storage, its cursors starting at `startIdx`. */
    constructor (capacity: nat, startIdx: nat)
      requires ValidCapacity(capacity) && startIdx < WORD
      ensures Valid() && fresh(data) && data.Length == capacity
      ensures ring == Ring([], [], []) && front == back == startIdx
    {
      data := new Slot<T>[capacity](_ => Raw);
      mask := capacity - 1;
      front, back := startIdx, startIdx;
      ring := Ring([], [], []);
      new;
      assert forall i :: 0 <= i < capacity ==> data[..][i] == Raw;
      assert (front + 0) % WORD == front;
    }

    /** Takes everything `other` has and leaves it without storage. */
    constructor Move(other: RingQueue<T>)
      requires other.Valid()
      modifies other
      ensures Valid() && data == old(other.data) && ring == old(other.ring)
      ensures other.Valid() && other.data == null && other.ring == Ring([], [], [])
    {
      data, mask, front, back, ring := other.data, other.mask, other.front, other.back, other.ring;
      new;
      other.data := null;
      other.mask, other.front, other.back := 0, 0, 0;
      other.ring := Ring([], [], []);
    }

    /** `m_back - m_front` in 64-bit arithmetic is the number of values held. */
    method Size() returns (n: nat)
      requires Valid()
      ensures n == |ring.contents|
    {
      if data != null {
        WrappedDifference(front + |ring.contents|, front, WORD);
        assert front % WORD == front;
      }
      n := (back - front) % WORD;
    }

    method Full() returns (r: bool)
      requires Valid()
      ensures r <==> |ring.contents| == mask + 1
    {
      var n := Size();
      r := n >= mask + 1;
    }

    /** `num & m_cap_mask`. */
    function Idx(num: nat): (i: nat)
      requires data != null && data.Length == mask + 1 && IsPow2(data.Length)
      reads this
      ensures i == SlotOf(num, data.Length) && i < data.Length
    {
      AndMask(num, mask + 1);
      BitAnd(num, mask)
    }

    /** The oldest value. */
    method Front() returns (v: T)
      requires Valid() && data != null && ring.contents != []
      ensures v == ring.contents[0]
    {
      HoldsAt(data[..], front, ring.contents, 0);
      assert Idx(front) == LapSlot(front, 0, data.Length);
      v := data[Idx(front)].val;
    }

    /** The youngest value. */
    method Back() returns (v: T)
      requires Valid() && data != null && ring.contents != [] && back != 0
      ensures v == ring.contents[|ring.contents| - 1]
    {
      var k := |ring.contents| - 1;
      SlotBefore(front, |ring.contents|, back, data.Length);
      HoldsAt(data[..], front, ring.contents, k);
      assert Idx(back - 1) == LapSlot(front, k, data.Length);
      v := data[Idx(back - 1)].val;
    }

    /** `emplace_unchecked`: constructs in the slot after the last value, which is raw. */
    method EmplaceUnchecked(v: T) returns (idx: nat)
      requires Valid() && data != null && |ring.contents| <= mask
      modifies this`back, this`ring, data
      ensures Valid() && ring == Append(old(ring), [v])
      ensures ring.contents == old(ring.contents) + [v] && ring.removed == old(ring.removed)
      ensures idx < data.Length && old(data[idx]) == Raw && data[idx] == Live(v)
    {
      ghost var n := |ring.contents|;
      LapWraps(front, n, data.Length);
      HoldsAppend(data[..], front, ring.contents, v);
      idx := Idx(back);
      assert idx == LapSlot(front, n, data.Length);
      data[idx] := Live(v);
      back := (back + 1) % WORD;
      assert back == (front + n + 1) % WORD by { NextWord(front + n); }
      ring := Append(ring, [v]);
    }

    /** `try_emplace`: nothing happens when the ring is full. */
    method TryEmplace(v: T) returns (r: Option<nat>)
      requires Valid() && data != null
      modifies this`back, this`ring, data
      ensures Valid() && ring == RingStep(mask + 1, old(ring), Emplace(v))
      ensures r.Some? <==> |old(ring.contents)| < mask + 1
      ensures ring.contents == if r.Some? then old(ring.contents) + [v] else old(ring.contents)
      ensures ring.removed == old(ring.removed)
      ensures r.Some? ==> r.value < data.Length && data[r.value] == Live(v)
      ensures r.None? ==> data[..] == old(data[..]) && back == old(back)
    {
      var full := Full();
      if full { return None; }
      var idx := EmplaceUnchecked(v);
      r := Some(idx);
    }

    /** Destroys the front value, which is live, and steps over its slot. */
    method DestroyFront()
      requires Valid() && data != null && ring.contents != []
      modifies this`front, this`ring, data
      ensures Valid() && ring == DropFront(old(ring), 1)
      ensures ring.contents == old(ring.contents)[1..]
      ensures ring.removed == old(ring.removed) + [Destroyed(old(ring.contents)[0])]
    {
      HoldsDrop(data[..], front, ring.contents);
      DropAccounts(mask + 1, ring, 1);
      assert Idx(front) == LapSlot(front, 0, data.Length);
      assert data[Idx(front)].Live?;
      data[Idx(front)] := Raw;
      StepFront();
      ring := DropFront(ring, 1);
    }

    /** `m_front++` after the front slot was emptied. */
    method StepFront()
      requires data != null && data.Length == mask + 1 && ValidCapacity(data.Length)
      requires front < WORD && ring.contents != [] && back == (front + |ring.contents|) % WORD
      requires Holds(data[..], front + 1, ring.contents[1..])
      modifies this`front
      ensures front < WORD && back == (front + |ring.contents[1..]|) % WORD
      ensures Holds(data[..], front, ring.contents[1..])
    {
      HoldsWraps(data[..], front + 1, ring.contents[1..]);
      front := (front + 1) % WORD;
      ghost var n := |ring.contents| - 1;
      ghost var f := old(front) + 1;
      assert f + n == (f / WORD) * WORD + (front + n);
      DivModUnique(f + n, WORD, f / WORD + (front + n) / WORD, (front + n) % WORD);
    }

    /** `force_emplace`, `force_push`: a full ring gives up its oldest value first. */
    method ForcePush(v: T)
      requires Valid() && data != null
      modifies this`front, this`back, this`ring, data
      ensures Valid() && ring == RingStep(mask + 1, old(ring), Op.ForcePush(v))
      ensures |old(ring.contents)| < mask + 1 ==>
                ring.contents == old(ring.contents) + [v] && ring.removed == old(ring.removed)
      ensures |old(ring.contents)| == mask + 1 ==>
                && ring.contents == old(ring.contents)[1..] + [v]
                && ring.removed == old(ring.removed) + [Destroyed(old(ring.contents)[0])]
    {
      var full := Full();
      if full { DestroyFront(); }
      var _ := EmplaceUnchecked(v);
    }

    /** `try_pop`: the oldest value, moved out of its slot, which is then destroyed. */
    method TryPop() returns (r: Option<T>)
      requires Valid() && data != null
      modifies this`front, this`ring, data
      ensures Valid() && ring == RingStep(mask + 1, old(ring), Pop)
      ensures r == if old(ring.contents) == [] then None else Some(old(ring.contents[0]))
      ensures r.Some? ==>
                && ring.contents == old(ring.contents)[1..]
                && ring.removed == old(ring.removed) + [Handed(r.value)]
      ensures r.None? ==> ring == old(ring)
    {
      var n := Size();
      if n == 0 { return None; }
      ghost var v := ring.contents[0];
      HoldsDrop(data[..], front, ring.contents);
      StepAccounts(mask + 1, ring, Pop);
      assert Idx(front) == LapSlot(front, 0, data.Length);
      var temp := data[Idx(front)].val;
      data[Idx(front)] := MovedFrom;
      data[Idx(front)] := Raw;
      StepFront();
      ring := RingStep(mask + 1, ring, Pop);
      r := Some(temp);
    }

    /** `try_push_range`: all the values or none of them. */
    method TryPushRange(vs: seq<T>) returns (ok: bool)
      requires Valid() && data != null
      modifies this`back, this`ring, data
      ensures Valid() && ring == RingStep(mask + 1, old(ring), PushRange(vs))
      ensures ok <==> |old(ring.contents)| + |vs| <= mask + 1
      ensures ring.contents == if ok then old(ring.contents) + vs else old(ring.contents)
      ensures ring.removed == old(ring.removed)
    {
      var n := Size();
      if |vs| > mask + 1 - n { return false; }
      var first := 0;
      while first < |vs|
        invariant first <= |vs| && Valid()
        invariant ring == Append(old(ring), vs[..first])
      {
        AppendOne(old(ring), vs, first);
        var _ := EmplaceUnchecked(vs[first]);
        first := first + 1;
      }
      assert vs[..first] == vs;
      ok := true;
    }

    /** `clear`: destroys every value, oldest first. */
    method Clear()
      requires Valid()
      modifies this`front, this`ring, data
      ensures Valid() && ring == RingStep(mask + 1, old(ring), Op.Clear) && ring.contents == []
      ensures |ring.removed| == |old(ring.removed)| + |old(ring.contents)|
      ensures forall i :: 0 <= i < |ring.removed| ==>
                ring.removed[i] == if i < |old(ring.removed)| then old(ring.removed)[i]
                                   else Destroyed(old(ring.contents)[i - |old(ring.removed)|])
    {
      var toDestroy := Size();
      var i := 0;
      assert old(ring) == DropFront(old(ring), 0);
      while i < toDestroy
        invariant i <= toDestroy == |old(ring.contents)| && Valid()
        invariant ring == DropFront(old(ring), i)
      {
        DropOneMore(old(ring), i);
        DestroyFront();
        i := i + 1;
      }
    }

    /** Copy assignment. The loop compares the raw cursors, so it copies everything when the
        source's cursors have not wrapped past each other and nothing when they have. */
    method CopyAssign(other: RingQueue<T>)
      requires this != other && Valid() && other.Valid()
      requires data != null ==> data != other.data
      requires |other.ring.contents| <= mask + 1
      requires data == null ==> other.ring.contents == []
      modifies this`front, this`back, this`ring, data
      ensures Valid() && other.Valid()
      ensures ring == Append(RingStep(mask + 1, old(ring), Op.Clear),
                             if other.front <= other.back then other.ring.contents else [])
      ensures ring.contents == if other.front <= other.back then other.ring.contents else []
      ensures ring.contents == other.ring.contents <==> other.front <= other.back
    {
      Clear();
      UnwrappedBack(other);
      CopyFrom(other);
    }

    /** The loop of copy assignment, into an empty queue. */
    method CopyFrom(other: RingQueue<T>)
      requires this != other && Valid() && other.Valid() && ring.contents == []
      requires data != null ==> data != other.data
      requires |other.ring.contents| <= mask + 1
      requires data == null ==> other.ring.contents == []
      modifies this`back, this`ring, data
      ensures Valid() && other.Valid()
      ensures ring == Append(old(ring), if other.front <= other.back then other.ring.contents else [])
    {
      UnwrappedBack(other);
      ghost var src, was := other.ring.contents, ring;
      assert Append(was, src[..0]) == was;
      assert src[..|src|] == src;
      var i := other.front;
      ghost var k := 0;
      if i < other.back {
        while i < other.back
          invariant Valid() && other.Valid()
          invariant k <= |src| && i == other.front + k && other.back == other.front + |src|
          invariant ring == Append(was, src[..k])
        {
          AppendOne(was, src, k);
          var v := other.At(i);
          var _ := EmplaceUnchecked(v);
          i, k := i + 1, k + 1;
        }
      }
    }

    /** `m_data[to_idx(i)]` for a raw cursor value between front and back. */
    method At(i: nat) returns (v: T)
      requires Valid() && data != null && front <= i < front + |ring.contents|
      ensures v == ring.contents[i - front]
    {
      HoldsAt(data[..], front, ring.contents, i - front);
      assert Idx(i) == LapSlot(front, i - front, data.Length);
      v := data[Idx(i)].val;
    }

    /** Move assignment: the two queues trade everything, then `other` destroys what it got. */
    method MoveAssign(other: RingQueue<T>)
      requires this != other && Valid() && other.Valid()
      requires data != null ==> data != other.data
      modifies this, other, data
      ensures Valid() && data == old(other.data) && ring == old(other.ring)
      ensures other.Valid() && other.data == old(data)
      ensures other.ring == RingStep(old(mask) + 1, old(ring), Op.Clear) && other.ring.contents == []
      ensures |other.ring.removed| == |old(ring.removed)| + |old(ring.contents)|
    {
      data, other.data := other.data, data;
      mask, other.mask := other.mask, mask;
      front, other.front := other.front, front;
      back, other.back := other.back, back;
      ring, other.ring := other.ring, ring;
      other.Clear();
    }
  }

  /** The slot before the back cursor, when that is not zero, is the one of the last value. */
  lemma SlotBefore(front: nat, n: nat, back: nat, cap: nat)
    requires ValidCapacity(cap) && n > 0 && back == (front + n) % WORD && back != 0
    ensures SlotOf(back - 1, cap) == LapSlot(front, n - 1, cap)
  {
    var q := (front + n) / WORD;
    assert front + n == q * WORD + back;
    DivModUnique(front + (n - 1), WORD, q, back - 1);
    LapWraps(front, n - 1, cap);
  }

  /** The raw back cursor is the unbounded one exactly when it is not below the front, and
      it is below the front only in a ring that holds something. */
  lemma UnwrappedBack<T>(q: RingQueue<T>)
    requires q.Valid()
    ensures q.front <= q.back ==> q.back == q.front + |q.ring.contents|
    ensures q.front > q.back ==> q.ring.contents != []
  {
    if q.data != null {
      var n := q.front + |q.ring.contents|;
      assert n == (n / WORD) * WORD + n % WORD;
      if n < WORD {
        DivModUnique(n, WORD, 0, n);
      } else {
        DivModUnique(n, WORD, 1, n - WORD);
      }
    }
  }

  /** A ring of two slots whose one value lies where the back cursor wraps. */
  method WrappedOne<T>(v: T) returns (q: RingQueue<T>)
    ensures fresh(q) && q.Valid() && q.data != null && fresh(q.data)
    ensures q.ring.contents == [v] && q.back < q.front
  {
    assert ValidCapacity(2);
    q := new RingQueue<T>(2, WORD - 1);
    var _ := q.EmplaceUnchecked(v);
    DivModUnique(WORD, WORD, 1, 0);
  }

  /** A copy can lose everything. */
  method CopyOfWrappedIsEmpty<T>(v: T) returns (source: RingQueue<T>, copy: RingQueue<T>)
    ensures source.ring.contents == [v] && copy.ring.contents == []
  {
    source := WrappedOne(v);
    copy := new RingQueue<T>(2, 0);
    copy.CopyAssign(source);
  }
}
