/** The slots of a ring seen through its cursors: for every counter value of the lap that
    starts at the oldest slot not yet handed back, what its slot holds. */
module RingWindow {
  import opened Storage
  import opened Words

  datatype Cursors = Cursors(reserved: nat, committed: nat)

  ghost predicate CursorOrder(cap: nat, read: Cursors, write: Cursors) {
    && IsPow2(cap)
    && read.committed <= read.reserved <= write.committed
    && write.committed <= write.reserved <= read.committed + cap
  }

  /** What the slot of `n` should hold. `front` is the slot of the oldest read ticket and
      `back` the slot of the oldest write ticket, when those tickets are outstanding. */
  ghost function Expected<T>(read: Cursors, write: Cursors, written: seq<T>,
                             front: Slot<T>, back: Slot<T>, n: nat): Slot<T>
    requires |written| == write.committed
  {
    if n < write.committed then
      if n == read.committed < read.reserved then front else Live(written[n])
    else if n == write.committed < write.reserved then back
    else Raw
  }

  ghost predicate Window<T>(slots: seq<Slot<T>>, read: Cursors, write: Cursors, written: seq<T>,
                            front: Slot<T>, back: Slot<T>)
    requires CursorOrder(|slots|, read, write) && |written| == write.committed
  {
    forall n :: read.committed <= n < read.committed + |slots| ==>
      slots[SlotOf(n, |slots|)] == Expected(read, write, written, front, back, n)
  }

  /** Rewriting the slot of the oldest write ticket. */
  lemma SetBack<T>(slots: seq<Slot<T>>, read: Cursors, write: Cursors, written: seq<T>,
                   front: Slot<T>, back: Slot<T>, back': Slot<T>)
    requires CursorOrder(|slots|, read, write) && |written| == write.committed < write.reserved
    requires Window(slots, read, write, written, front, back)
    ensures Window(slots[SlotOf(write.committed, |slots|) := back'], read, write, written, front, back')
  {
    var k := write.committed;
    forall n | read.committed <= n < read.committed + |slots| && n != k
      ensures SlotOf(n, |slots|) != SlotOf(k, |slots|)
    {
      if n < k { SlotsDistinct(n, k, |slots|); } else { SlotsDistinct(k, n, |slots|); }
    }
  }

  /** Rewriting the slot of the oldest read ticket. */
  lemma SetFront<T>(slots: seq<Slot<T>>, read: Cursors, write: Cursors, written: seq<T>,
                    front: Slot<T>, back: Slot<T>, front': Slot<T>)
    requires CursorOrder(|slots|, read, write) && |written| == write.committed
    requires read.committed < read.reserved
    requires Window(slots, read, write, written, front, back)
    ensures Window(slots[SlotOf(read.committed, |slots|) := front'], read, write, written, front', back)
  {
    var k := read.committed;
    forall n | k < n < k + |slots| ensures SlotOf(n, |slots|) != SlotOf(k, |slots|) {
      SlotsDistinct(k, n, |slots|);
    }
  }

  /** Publishing the value in the oldest reserved slot. */
  lemma AdvanceWrite<T>(slots: seq<Slot<T>>, read: Cursors, write: Cursors, written: seq<T>,
                        front: Slot<T>, v: T)
    requires CursorOrder(|slots|, read, write) && |written| == write.committed < write.reserved
    requires Window(slots, read, write, written, front, Live(v))
    ensures Window(slots, read, write.(committed := write.committed + 1), written + [v], front, Raw)
  {
  }

  /** Handing the oldest slot back: it becomes the last slot of the next lap. */
  lemma AdvanceRead<T>(slots: seq<Slot<T>>, read: Cursors, write: Cursors, written: seq<T>,
                       back: Slot<T>)
    requires CursorOrder(|slots|, read, write) && |written| == write.committed
    requires read.committed < read.reserved
    requires Window(slots, read, write, written, Raw, back)
    ensures var front' := if read.committed + 1 < write.committed
                          then Live(written[read.committed + 1]) else Raw;
            Window(slots, read.(committed := read.committed + 1), write, written, front', back)
  {
    SlotPeriod(read.committed, |slots|);
    assert slots[SlotOf(read.committed, |slots|)] == Raw;
  }
}
