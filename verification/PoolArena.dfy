/** The sequential pool: a pointer-linked free list threaded through the first word of the
    free blocks. A pointer is an address, zero is null. */
module PoolArenas {
  import opened BlockPool
  import opened Options
  import opened PoolGeometry
  import opened Words

  /** The pointer to the `i`th free block, null past the last one. */
  ghost function PointerTo(data: nat, stride: nat, free: seq<nat>, i: nat): nat {
    if i < |free| then BlockAddress(data, stride, free[i]) else 0
  }

  /** Each free block's word points to the next free block. */
  ghost predicate Threaded(words: seq<nat>, data: nat, stride: nat, free: seq<nat>) {
    && (forall i :: 0 <= i < |free| ==> free[i] < |words|)
    && (forall i :: 0 <= i < |free| ==> words[free[i]] == PointerTo(data, stride, free, i + 1))
  }

  lemma ThreadedPush(words: seq<nat>, data: nat, stride: nat, free: seq<nat>, b: nat)
    requires Threaded(words, data, stride, free) && b < |words| && b !in free
    ensures Threaded(words[b := PointerTo(data, stride, free, 0)], data, stride, [b] + free)
  {
    var free' := [b] + free;
    var words' := words[b := PointerTo(data, stride, free, 0)];
    forall i | 0 <= i < |free'|
      ensures free'[i] < |words| && words'[free'[i]] == PointerTo(data, stride, free', i + 1)
    {
      if i > 0 {
        assert free'[i] == free[i - 1];
        assert words[free[i - 1]] == PointerTo(data, stride, free, i);
      }
    }
  }

  lemma ThreadedPop(words: seq<nat>, data: nat, stride: nat, free: seq<nat>)
    requires Threaded(words, data, stride, free) && free != []
    ensures words[free[0]] == PointerTo(data, stride, free[1..], 0)
    ensures Threaded(words, data, stride, free[1..])
  {
    forall i | 0 <= i < |free[1..]|
      ensures words[free[1..][i]] == PointerTo(data, stride, free[1..], i + 1)
    {
      assert words[free[i + 1]] == PointerTo(data, stride, free, i + 2);
    }
    assert words[free[0]] == PointerTo(data, stride, free, 1);
  }

  class PoolArena {
    /** `m_free_head`. */
    var freeHead: nat
    /** `m_data`. */
    var data: nat
    /** `m_block_capacity`. */
    var blockCapacity: nat
    /** `m_alignment`. */
    var alignment: nat
    /** `m_stride`. */
    var stride: nat
    /** `m_user_block_size`. */
    var userBlockSize: nat
    /** The first word of every block. */
    var words: array<nat>
    /** The free blocks in list order and the blocks in callers' hands. */
    ghost var pool: Pool

    /** A block fits in its stride and every block is aligned. */
    predicate Shaped()
      reads this
    {
      && data > 0 && stride >= LINK_SIZE && stride >= userBlockSize
      && IsPow2(alignment) && Aligned(data, alignment) && Aligned(stride, alignment)
    }

    /** The geometry is sound unless there is no block, the list from the head visits exactly the free blocks in the
        order of the specification, and free and held blocks partition the pool. */
    ghost predicate Valid()
      reads this, words
    {
      && (blockCapacity > 0 ==> Shaped())
      && words.Length == blockCapacity
      && Partition(pool, blockCapacity)
      && freeHead == PointerTo(data, stride, pool.free, 0)
      && Threaded(words[..], data, stride, pool.free)
    }

    /** The default constructor: a null arena, without buffer, blocks or stride. */
    constructor Null()
      ensures Valid() && fresh(words) && pool == FreshPool(0)
      ensures data == 0 && freeHead == 0 && blockCapacity == 0 && stride == 0
    {
      freeHead, data, blockCapacity, alignment, stride, userBlockSize := 0, 0, 0, 0, 0, 0;
      words := new nat[0];
      pool := FreshPool(0);
    }

    /** `PoolArena(const CreateParams&)`: a buffer of `count` strides, checked by the
        constructor's own requirements; the free list threads all blocks in index order. */
    constructor (buffer: nat, bufferSize: nat, blockSize: nat, count: nat, align: nat)
      requires IsPow2(blockSize) && IsPow2(count) && IsPow2(PoolAlignment(align))
      requires buffer > 0 && Aligned(buffer, PoolAlignment(align))
      requires bufferSize == count * Stride(blockSize, align)
      ensures Valid() && fresh(words)
      ensures pool == FreshPool(count) && blockCapacity == count && data == buffer
      ensures stride == Stride(blockSize, align) && userBlockSize == blockSize
      ensures alignment >= align && alignment >= LINK_SIZE
    {
      data, blockCapacity, userBlockSize := buffer, count, blockSize;
      alignment := PoolAlignment(align);
      stride := Stride(blockSize, align);
      words := new nat[count];
      freeHead := 0;
      pool := FreshPool(count);
      new;
      StrideFits(blockSize, align);
      PoolAlignmentSuffices(align);
      FreshPartition(count);
      InitialiseFreeList();
    }

    /** Builds the list from the last block to the first. */
    method InitialiseFreeList()
      requires stride > 0 && data > 0 && words.Length == blockCapacity && pool == FreshPool(blockCapacity)
      modifies this`freeHead, words
      ensures freeHead == PointerTo(data, stride, pool.free, 0)
      ensures Threaded(words[..], data, stride, pool.free)
    {
      var head := 0;
      var i := blockCapacity;
      while i > 0
        invariant 0 <= i <= blockCapacity
        invariant head == if i == blockCapacity then 0 else BlockAddress(data, stride, i)
        invariant forall k :: i <= k < blockCapacity ==>
                    words[k] == if k + 1 == blockCapacity then 0 else BlockAddress(data, stride, k + 1)
      {
        words[i - 1] := head;
        head := BlockAddress(data, stride, i - 1);
        i := i - 1;
      }
      freeHead := head;
    }

    /** The head is null exactly when no block is free, and otherwise points to the first one. */
    lemma HeadPointer()
      requires Valid()
      ensures freeHead == 0 <==> pool.free == []
      ensures pool.free != [] ==>
                freeHead >= data && freeHead > 0 && pool.free[0] < blockCapacity &&
                BlockIndex(data, stride, freeHead) == pool.free[0]
    {
      if pool.free != [] {
        AddressIndexRoundTrip(data, stride, blockCapacity, pool.free[0]);
      }
    }

    /** `full`. */
    method Full() returns (r: bool)
      requires Valid()
      ensures r <==> |pool.held| == blockCapacity
    {
      FullIffAllHeld(pool, blockCapacity);
      HeadPointer();
      r := freeHead == 0;
    }

    /** `allocate`: hands out the first free block, null with size zero when all are held. */
    method Allocate() returns (ptr: nat, size: nat)
      requires Valid()
      modifies this`freeHead, this`pool
      ensures Valid()
      ensures old(pool.free) == [] ==> ptr == 0 && size == 0 && pool == old(pool)
      ensures old(pool.free) != [] ==>
                && Some(pool) == PoolStep(old(pool), Take(old(pool.free[0])))
                && ptr == BlockAddress(data, stride, old(pool.free[0])) && ptr > 0 && size == userBlockSize
                && old(pool.free[0]) !in old(pool.held)
                && IsPow2(alignment) && Aligned(ptr, alignment) && ptr + size <= data + blockCapacity * stride
    {
      HeadPointer();
      if freeHead == 0 {
        return 0, 0;
      }
      ghost var b := pool.free[0];
      StepKeepsPartition(pool, Take(b), blockCapacity);
      ptr, size := freeHead, userBlockSize;
      BlockIsAligned(data, stride, b, alignment);
      Ahead(stride, b, blockCapacity);
      ThreadedPop(words[..], data, stride, pool.free);
      freeHead := words[BlockIndex(data, stride, ptr)];
      pool := Pool(pool.free[1..], pool.held + {b});
    }

    /** `allocate(bytes, alignment)`: room for as many bytes, aligned as asked for, or null when
        all blocks are held. */
    method AllocateFor(bytes: nat, wanted: nat) returns (ptr: nat, size: nat)
      requires Valid() && bytes <= userBlockSize && wanted <= alignment
      modifies this`freeHead, this`pool
      ensures Valid()
      ensures old(pool.free) == [] ==> ptr == 0 && size == 0 && pool == old(pool)
      ensures old(pool.free) != [] ==>
                && Some(pool) == PoolStep(old(pool), Take(old(pool.free[0])))
                && ptr == BlockAddress(data, stride, old(pool.free[0])) && ptr > 0 && size >= bytes
                && (IsPow2(wanted) ==> Aligned(ptr, wanted))
    {
      ptr, size := Allocate();
      if ptr > 0 && IsPow2(wanted) { AlignedForLess(ptr, alignment, wanted); }
    }

    /** `deallocate`: the pointer must be a block of this pool that the caller holds. */
    method Deallocate(ptr: nat)
      requires Valid() && ptr >= data && stride > 0
      requires (ptr - data) % stride == 0 && ptr - data < blockCapacity * stride
      requires BlockIndex(data, stride, ptr) in pool.held
      modifies this`freeHead, this`pool, words
      ensures Valid()
      ensures Some(pool) == PoolStep(old(pool), Give(BlockIndex(data, stride, ptr)))
    {
      var b := BlockIndex(data, stride, ptr);
      IndexAddressRoundTrip(data, stride, blockCapacity, ptr);
      StepKeepsPartition(pool, Give(b), blockCapacity);
      ThreadedPush(words[..], data, stride, pool.free, b);
      words[b] := freeHead;
      freeHead := ptr;
      pool := Pool([b] + pool.free, pool.held - {b});
    }

    /** Whoever holds a block may write anything into it. */
    method WriteHeld(b: nat, word: nat)
      requires Valid() && b in pool.held && b < blockCapacity
      modifies words
      ensures Valid() && words[b] == word
    {
      assert forall i :: 0 <= i < |pool.free| ==> pool.free[i] in pool.free;
      words[b] := word;
    }

    /** `PoolArena(PoolArena&&)`: takes everything over and leaves the source null. */
    constructor Move(other: PoolArena)
      requires other.Valid()
      modifies other
      ensures Valid() && other.Valid()
      ensures pool == old(other.pool) && data == old(other.data) && blockCapacity == old(other.blockCapacity)
      ensures stride == old(other.stride) && userBlockSize == old(other.userBlockSize)
      ensures freeHead == old(other.freeHead) && words == old(other.words)
      ensures other.data == 0 && other.freeHead == 0 && other.blockCapacity == 0
      ensures other.pool == FreshPool(0)
    {
      freeHead, data, blockCapacity := other.freeHead, other.data, other.blockCapacity;
      alignment, stride, userBlockSize := other.alignment, other.stride, other.userBlockSize;
      words := other.words;
      pool := other.pool;
      new;
      other.freeHead, other.data, other.blockCapacity := 0, 0, 0;
      other.words := new nat[0];
      other.pool := FreshPool(0);
    }

    /** `operator=(PoolArena&&)` into a null arena, or into itself, which does nothing. It
        takes everything over but leaves the source's free head in place: the source reports
        `full` only if it was full before. */
    method MoveAssign(other: PoolArena)
      requires Valid() && other.Valid() && (this != other ==> data == 0)
      modifies this, other
      ensures Valid() && pool == old(other.pool) && data == old(other.data)
      ensures blockCapacity == old(other.blockCapacity) && stride == old(other.stride)
      ensures freeHead == old(other.freeHead) && words == old(other.words)
      ensures this != other ==> other.data == 0 && other.blockCapacity == 0
      ensures other.freeHead == old(other.freeHead)
      ensures other.freeHead == 0 <==> old(other.pool.free) == []
    {
      other.HeadPointer();
      if this != other {
        data, blockCapacity := other.data, other.blockCapacity;
        other.data, other.blockCapacity := 0, 0;
        stride, alignment, userBlockSize := other.stride, other.alignment, other.userBlockSize;
        freeHead := other.freeHead;
        words := other.words;
        pool := other.pool;
      }
    }
  }

  /** Any pool with a free block, moved into a null arena, keeps no buffer, but its head still
      points to the block that is now the other's to hand out. */
  method MovedFromPoolKeepsHead(source: PoolArena) returns (target: PoolArena)
    requires source.Valid() && source.pool.free != []
    modifies source
    ensures target.Valid() && target.pool == old(source.pool)
    ensures source.data == 0 && source.blockCapacity == 0
    ensures source.freeHead == target.freeHead && target.freeHead >= target.data > 0
  {
    target := new PoolArena.Null();
    source.HeadPointer();
    target.MoveAssign(source);
  }

  // ----- whole runs -----------------------------------------------------------------

  /** On every run of the specification that starts with all blocks free, free and held
      blocks partition the pool and the list is empty exactly when all blocks are held. */
  lemma EveryRunPartitions(n: nat, ops: seq<PoolOp>)
    requires PoolRun(FreshPool(n), ops).Some?
    ensures var p := PoolRun(FreshPool(n), ops).value;
            Partition(p, n) && (p.free == [] <==> |p.held| == n)
  {
    FreshPartition(n);
    RunKeepsPartition(FreshPool(n), ops, n);
    FullIffAllHeld(PoolRun(FreshPool(n), ops).value, n);
  }

  /** Draining a fresh pool yields the blocks 0, 1, ... n - 1, each exactly once. */
  lemma DrainingFreshPool(n: nat)
    ensures PoolRun(FreshPool(n), TakeAll(FreshPool(n).free)) == Some(Pool([], Indices(n)))
  {
    Draining(FreshPool(n));
    var free := FreshPool(n).free;
    forall b: nat ensures b in Blocks(free) <==> b in Indices(n) {
      if b < n { assert free[b] == b; }
    }
    assert {} + Blocks(free) == Indices(n);
  }
}
