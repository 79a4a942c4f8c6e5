/** The lock-free pool object: the tagged head and the first words of the blocks, updated in
    place one atomic access at a time, and the whole operations made of them. */
module ConcurrentPoolArenas {
  import opened BlockPool
  import opened ConcurrentPool
  import opened ConcurrentPoolTheorems
  import opened Options
  import opened PoolGeometry
  import opened PoolTags
  import opened Words

  lemma LinksOfInit(words: seq<nat>, n: nat)
    requires ValidCount(n) && |words| == n
    requires forall i :: 0 <= i < n ==> words[i] == if i + 1 == n then NULL else i + 1
    ensures words == Init(n).words
  {
  }

  /** The slot that `allocate` returns: the buffer and the index of the block. */
  datatype Slot = Slot(ptr: nat, size: nat, blockIdx: nat)

  class ConcurrentPoolArena {
    /** `m_free_head`. */
    var freeHead: nat
    /** `m_data`, `m_cap_mask`, `m_alignment`, `m_stride`, `m_user_block_size`. */
    const data: nat
    const capMask: nat
    const alignment: nat
    const stride: nat
    const userBlockSize: nat
    /** The first word of every block. */
    const words: array<nat>
    /** The threads inside `allocate` or `deallocate`. */
    var threads: map<Tid, Thread>
    // history
    ghost var chain: seq<nat>
    ghost var held: set<nat>
    ghost var returning: map<nat, Tid>
    var nulls: nat

    ghost function View(): State
      reads this, words
    {
      State(freeHead, words[..], threads, chain, held, returning, nulls)
    }

    /** What the geometry needs, whatever state the list is in. */
    predicate Shaped()
    {
      && ValidCount(words.Length) && words.Length == capMask + 1
      && stride >= LINK_SIZE && stride >= userBlockSize
      && IsPow2(alignment) && Aligned(data, alignment) && Aligned(stride, alignment)
    }

    ghost predicate Valid()
      reads this, words
    {
      Shaped() && Inv(View())
    }

    /** `ConcurrentPoolArena(const CreateParams&)`. */
    constructor (buffer: nat, bufferSize: nat, blockSize: nat, count: nat, align: nat)
      requires IsPow2(blockSize) && ValidCount(count) && IsPow2(PoolAlignment(align))
      requires Aligned(buffer, PoolAlignment(align))
      requires bufferSize == count * Stride(blockSize, align)
      ensures Valid() && fresh(words)
      ensures View() == Init(count) && data == buffer
      ensures stride == Stride(blockSize, align) && userBlockSize == blockSize
      ensures alignment >= align && alignment >= LINK_SIZE
    {
      freeHead, data, capMask := 0, buffer, count - 1;
      alignment := PoolAlignment(align);
      stride, userBlockSize := Stride(blockSize, align), blockSize;
      words := new nat[count];
      threads, nulls := map[], 0;
      chain, held, returning := seq(count, i => i), {}, map[];
      new;
      StrideFits(blockSize, align);
      PoolAlignmentSuffices(align);
      InitialiseFreeList();
      InitInv(count);
      LinksOfInit(words[..], count);
    }

    /** Links every block to the next one and the last one to null. */
    method InitialiseFreeList()
      requires Shaped()
      modifies words
      ensures forall i :: 0 <= i < words.Length ==> words[i] == if i + 1 == words.Length then NULL else i + 1
    {
      for i := 0 to words.Length
        invariant forall k :: 0 <= k < i ==> words[k] == if k + 1 == words.Length then NULL else k + 1
      {
        words[i] := if i + 1 == words.Length then NULL else i + 1;
      }
    }

    /** `resolve`: the address of a block. */
    function Resolve(block: nat): (ptr: nat)
      requires Shaped() && block <= capMask
      ensures data <= ptr && (ptr - data) % stride == 0 && BlockIndex(data, stride, ptr) == block
      ensures Aligned(ptr, alignment) && ptr + stride <= data + (capMask + 1) * stride
    {
      AddressIndexRoundTrip(data, stride, capMask + 1, block);
      BlockIsAligned(data, stride, block, alignment);
      Ahead(stride, block, capMask + 1);
      data + block * stride
    }

    /** `full`. */
    method Full() returns (r: bool)
      requires Valid()
      ensures r <==> |held| + |returning| == words.Length
    {
      FullIffAllHeld(Abs(View()), words.Length);
      assert |held + returning.Keys| == |held| + |returning.Keys|;
      r := freeHead == NULL;
    }

    /** A thread calls `allocate`. */
    method BeginAllocate(t: Tid)
      requires Valid() && t !in threads
      modifies this`threads
      ensures Valid() && View() == Apply(old(View()), CallAllocate(t))
    {
      ApplyKeepsInv(View(), CallAllocate(t));
      threads := threads[t := Thread(AllocLoad, 0)];
    }

    /** A thread calls `deallocate` with the address of a block a caller holds. */
    method BeginDeallocate(t: Tid, ptr: nat)
      requires Valid() && t !in threads && ptr >= data && (ptr - data) % stride == 0
      requires BlockIndex(data, stride, ptr) in held
      modifies this
      ensures Valid() && View() == Apply(old(View()), CallDeallocate(t, BlockIndex(data, stride, ptr)))
    {
      var b := BlockIndex(data, stride, ptr);
      ApplyKeepsInv(View(), CallDeallocate(t, b));
      threads := threads[t := Thread(FreeLoad(b), 0)];
      held := held - {b};
      returning := returning[b := t];
    }

    /** A thread leaves a finished call. */
    method End(t: Tid)
      requires Valid() && t in threads && (threads[t].pc.AllocDone? || threads[t].pc.FreeDone?)
      modifies this`threads
      ensures Valid() && View() == Apply(old(View()), Return(t)) && threads == old(threads) - {t}
    {
      ApplyKeepsInv(View(), Return(t));
      threads := threads - {t};
    }

    /** Whoever holds a block may write anything into it. */
    method WriteHeld(b: nat, word: nat)
      requires Valid() && b in held && b < words.Length && word < WORD
      modifies words
      ensures Valid() && View() == Apply(old(View()), UserWrite(b, word))
    {
      ApplyKeepsInv(View(), UserWrite(b, word));
      words[b] := word;
      assert words[..] == old(words[..])[b := word];
    }

    /** Stores the head and notes when it becomes null. */
    method StoreHead(head: nat)
      modifies this`freeHead, this`nulls
      ensures View() == SetHead(old(View()), head)
    {
      freeHead := head;
      if head == NULL {
        nulls := nulls + 1;
      }
    }

    /** One atomic access of `allocate`; a weak compare-exchange may fail spuriously. */
    method AdvanceAllocate(t: Tid, spurious: bool)
      requires Shaped() && t in threads
      requires threads[t].pc.AllocLoad? || threads[t].pc.AllocRead? || threads[t].pc.AllocCas?
      requires threads[t].pc.AllocRead? ==> IndexOf(threads[t].pc.head, words.Length) < words.Length
      modifies this
      ensures View() == Step(old(View()), t, spurious)
    {
      var th := threads[t];
      match th.pc {
        case AllocLoad =>
          threads := threads[t := Thread(AllocRead(freeHead), nulls)];
        case AllocRead(head) =>
          if head == NULL {
            threads := threads[t := th.(pc := AllocDone(None))];
          } else {
            threads := threads[t := th.(pc := AllocCas(head, words[IndexOf(head, words.Length)]))];
          }
        case AllocCas(head, link) =>
          if spurious || freeHead != head {
            threads := threads[t := Thread(AllocRead(freeHead), nulls)];
          } else {
            var n := words.Length;
            var next := if link == NULL then NULL else TagIdx(GenerationOf(head, n), link, n);
            threads := threads[t := th.(pc := AllocDone(Some(IndexOf(head, n))))];
            StoreHead(next);
            chain, held := if chain == [] then [] else chain[1..], held + {IndexOf(head, n)};
          }
      }
    }

    /** One atomic access of `deallocate`. */
    method AdvanceDeallocate(t: Tid, spurious: bool)
      requires Shaped() && t in threads
      requires threads[t].pc.FreeLoad? || threads[t].pc.FreeWrite? || threads[t].pc.FreeCas?
      requires threads[t].pc.FreeWrite? ==> threads[t].pc.block < words.Length
      modifies this, words
      ensures View() == Step(old(View()), t, spurious)
    {
      var th := threads[t];
      match th.pc {
        case FreeLoad(b) =>
          threads := threads[t := th.(pc := FreeWrite(b, freeHead))];
        case FreeWrite(b, head) =>
          words[b] := if head == NULL then NULL else IndexOf(head, words.Length);
          threads := threads[t := th.(pc := FreeCas(b, head))];
        case FreeCas(b, head) =>
          if spurious || freeHead != head {
            threads := threads[t := th.(pc := FreeWrite(b, freeHead))];
          } else {
            var n := words.Length;
            var generation := if head == NULL then 0 else GenerationOf(head, n);
            threads := threads[t := th.(pc := FreeDone)];
            StoreHead(TagIdx(BumpGeneration(generation, n), b, n));
            chain, returning := [b] + chain, returning - {b};
          }
      }
    }

    /** One atomic access of any thread, under the hypotheses of a safe run. */
    method AdvanceSafely(t: Tid, spurious: bool)
      requires Valid() && Enabled(View(), Advance(t, spurious)) && Safe(View(), Advance(t, spurious))
      modifies this, words
      ensures Valid() && View() == Step(old(View()), t, spurious)
    {
      StepKeepsInv(View(), t, spurious);
      var pc := threads[t].pc;
      ghost var s := View();
      assert Local(s.head, s.words, s.chain, s.nulls, s.threads[t]);
      if pc.AllocLoad? || pc.AllocRead? || pc.AllocCas? {
        if pc.AllocRead? { TagParts(pc.head, words.Length); }
        AdvanceAllocate(t, spurious);
      } else {
        if pc.FreeWrite? {
          assert Returns(pc) == Some(pc.block);
          assert pc.block in Abs(s).held;
        }
        AdvanceDeallocate(t, spurious);
      }
    }

    // ----- whole operations that nobody interrupts ---------------------------------------

    /** `allocate`, while other threads stand still wherever they are: the first free block, or
        nothing exactly when there is none. */
    method Allocate(t: Tid) returns (slot: Option<Slot>)
      requires Valid() && t !in threads
      modifies this, words
      ensures Valid() && threads == old(threads) && words[..] == old(words[..])
      ensures old(chain) == [] ==> slot == None && Abs(View()) == old(Abs(View()))
      ensures old(chain) != [] ==>
                && old(chain)[0] <= capMask
                && slot == Some(Slot(Resolve(old(chain)[0]), userBlockSize, old(chain)[0]))
                && PoolStep(old(Abs(View())), Take(old(chain)[0])) == Some(Abs(View()))
    {
      ghost var s0 := View();
      BeginAllocate(t);
      assert View().threads - {t} == s0.threads;
      RunAllocate(s0, t);
      var block := threads[t].pc.result;
      End(t);
      if block.None? { return None; }
      return Some(Slot(Resolve(block.value), userBlockSize, block.value));
    }

    /** Its accesses. */
    method RunAllocate(ghost s0: State, t: Tid)
      requires ValidCount(s0.Count()) && Valid() && AllocatingSince(s0, View(), t)
      modifies this, words
      ensures Valid() && AllocatingSince(s0, View(), t) && threads[t].pc.AllocDone?
    {
      while !threads[t].pc.AllocDone?
        invariant Valid() && AllocatingSince(s0, View(), t)
        decreases AllocationRemaining(threads[t].pc)
      {
        AllocatingStep(s0, View(), t);
        AdvanceSafely(t, false);
      }
    }

    /** `allocate(size, alignment)`: room for as many bytes, aligned as asked for. */
    method AllocateFor(t: Tid, bytes: nat, wanted: nat) returns (slot: Option<Slot>)
      requires Valid() && t !in threads && bytes <= userBlockSize && wanted <= alignment
      modifies this, words
      ensures Valid() && threads == old(threads)
      ensures slot.None? <==> old(chain) == []
      ensures slot.Some? ==>
                && slot.value.blockIdx == old(chain)[0] && slot.value.size >= bytes
                && (IsPow2(wanted) ==> Aligned(slot.value.ptr, wanted))
                && PoolStep(old(Abs(View())), Take(slot.value.blockIdx)) == Some(Abs(View()))
    {
      slot := Allocate(t);
      if slot.Some? && IsPow2(wanted) { AlignedForLess(slot.value.ptr, alignment, wanted); }
    }

    /** `deallocate` of a held block, while other threads stand still: the block is the next to be
        handed out, and no other block's word changes. The generation must not wrap. */
    method Deallocate(t: Tid, ptr: nat)
      requires Valid() && t !in threads && ptr >= data && (ptr - data) % stride == 0
      requires BlockIndex(data, stride, ptr) in held
      requires BaseGeneration(freeHead, words.Length) + 3 * words.Length <= WORD
      modifies this, words
      ensures Valid() && threads == old(threads)
      ensures PoolStep(old(Abs(View())), Give(BlockIndex(data, stride, ptr))) == Some(Abs(View()))
      ensures forall i :: 0 <= i < words.Length && i != BlockIndex(data, stride, ptr) ==> words[i] == old(words[i])
    {
      ghost var s0, b := View(), BlockIndex(data, stride, ptr);
      FreeingFromCall(s0, t, b);
      BeginDeallocate(t, ptr);
      RunDeallocate(s0, t, b);
      End(t);
    }

    /** Its accesses. */
    method RunDeallocate(ghost s0: State, t: Tid, ghost b: nat)
      requires ValidCount(s0.Count()) && BaseGeneration(s0.head, s0.Count()) + 3 * s0.Count() <= WORD
      requires Valid() && FreeingSince(s0, View(), t, b)
      modifies this, words
      ensures Valid() && FreeingSince(s0, View(), t, b) && threads[t].pc.FreeDone?
    {
      while !threads[t].pc.FreeDone?
        invariant Valid() && FreeingSince(s0, View(), t, b)
        decreases FreeRemaining(threads[t].pc)
      {
        FreeingStep(s0, View(), t, b);
        AdvanceSafely(t, false);
      }
    }
  }
}
