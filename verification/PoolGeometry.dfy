/** Alignment arithmetic and the layout of a pool's blocks in its buffer. */
module PoolGeometry {
  import opened Words

  /** `(alignment - (ptr & (alignment - 1))) & (alignment - 1)`. */
  function AlignmentPadding(ptr: nat, alignment: nat): nat
    requires IsPow2(alignment)
  {
    AndMask(ptr, alignment);
    BitAnd(alignment - BitAnd(ptr, alignment - 1), alignment - 1)
  }

  /** `align`, where the aligned address still fits the address space. */
  function Align(ptr: nat, alignment: nat): nat
    requires IsPow2(alignment)
  {
    ptr + AlignmentPadding(ptr, alignment)
  }

  predicate Aligned(address: nat, alignment: nat)
    requires alignment > 0
  {
    address % alignment == 0
  }

  /** Off by `r` from the last multiple, the padding is what is missing to the next one. */
  lemma PaddingValue(ptr: nat, alignment: nat)
    requires IsPow2(alignment)
    ensures AlignmentPadding(ptr, alignment) ==
            if ptr % alignment == 0 then 0 else alignment - ptr % alignment
  {
    var a, r := alignment, ptr % alignment;
    AndMask(ptr, a);
    AndMask(a - r, a);
    if r == 0 {
      DivModUnique(a, a, 1, 0);
    } else {
      DivModUnique(a - r, a, 0, a - r);
    }
  }

  /** The padding is the least number that brings the address to a multiple of the
      alignment, and smaller than the alignment. */
  lemma PaddingIsLeast(ptr: nat, alignment: nat)
    requires IsPow2(alignment)
    ensures var p := AlignmentPadding(ptr, alignment);
            && p < alignment
            && Aligned(ptr + p, alignment)
            && forall q: nat :: ptr <= q < ptr + p ==> !Aligned(q, alignment)
  {
    PaddingValue(ptr, alignment);
    NextMultiple(ptr, alignment);
  }

  /** From any address on, the next multiple is the remainder's complement away. */
  lemma NextMultiple(ptr: nat, a: nat)
    requires a > 0
    ensures var p := if ptr % a == 0 then 0 else a - ptr % a;
            && 0 <= p < a
            && Aligned(ptr + p, a)
            && forall q: nat :: ptr <= q < ptr + p ==> !Aligned(q, a)
  {
    var k, r := ptr / a, ptr % a;
    assert ptr == k * a + r;
    assert (k + 1) * a == k * a + a;
    DivModUnique((k + 1) * a, a, k + 1, 0);
    forall q: nat | ptr <= q < ptr + (if r == 0 then 0 else a - r) ensures !Aligned(q, a) {
      DivModUnique(q, a, k, q - k * a);
    }
  }

  /** The word size a free block must have room for. */
  const LINK_SIZE: nat := 8

  function Max(a: nat, b: nat): nat {
    if a < b then b else a
  }

  /** The alignment a pool works with. */
  function PoolAlignment(alignment: nat): nat {
    Max(alignment, LINK_SIZE)
  }

  /** It is the alignment asked for, unless that is too small for a link. */
  lemma PoolAlignmentSuffices(alignment: nat)
    ensures PoolAlignment(alignment) >= alignment && PoolAlignment(alignment) >= LINK_SIZE
    ensures PoolAlignment(alignment) == alignment || PoolAlignment(alignment) == LINK_SIZE
    ensures IsPow2(LINK_SIZE) && (IsPow2(alignment) ==> IsPow2(PoolAlignment(alignment)))
  {
    assert IsPow2(LINK_SIZE / 2) && IsPow2(LINK_SIZE / 4);
  }

  /** What is aligned for a power of two is aligned for every smaller one. */
  lemma AlignedForLess(address: nat, big: nat, small: nat)
    requires IsPow2(big) && IsPow2(small) && small <= big && Aligned(address, big)
    ensures Aligned(address, small)
  {
    Pow2Divides(small, big);
    assert address == (address / big) * big;
    MultipleOfMultiple(address / big, big, small);
  }

  /** So what is aligned for the pool is aligned as was asked for, and for a link. */
  lemma AlignedAsAsked(address: nat, alignment: nat)
    requires IsPow2(PoolAlignment(alignment)) && Aligned(address, PoolAlignment(alignment))
    ensures Aligned(address, LINK_SIZE)
    ensures IsPow2(alignment) ==> Aligned(address, alignment)
  {
    PoolAlignmentSuffices(alignment);
    AlignedForLess(address, PoolAlignment(alignment), LINK_SIZE);
    if IsPow2(alignment) { AlignedForLess(address, PoolAlignment(alignment), alignment); }
  }

  /** The distance between neighbouring blocks. */
  function Stride(blockSize: nat, alignment: nat): nat
    requires IsPow2(PoolAlignment(alignment))
  {
    Max(Align(blockSize, PoolAlignment(alignment)), LINK_SIZE)
  }

  /** The stride holds a block and a link and keeps every block aligned, and is as small as
      that allows. */
  lemma StrideFits(blockSize: nat, alignment: nat)
    requires IsPow2(PoolAlignment(alignment)) && blockSize > 0
    ensures var s := Stride(blockSize, alignment);
            && s >= blockSize && s >= LINK_SIZE
            && Aligned(s, PoolAlignment(alignment)) && Aligned(s, LINK_SIZE)
            && (IsPow2(alignment) ==> Aligned(s, alignment))
            && forall s': nat :: blockSize <= s' < s ==> !Aligned(s', PoolAlignment(alignment))
  {
    var a := PoolAlignment(alignment);
    PaddingIsLeast(blockSize, a);
    var aligned := Align(blockSize, a);
    if aligned < a {
      DivModUnique(aligned, a, 0, aligned);
    }
    AlignedAsAsked(Stride(blockSize, alignment), alignment);
  }

  /** `&m_data[i * stride()]`. */
  function BlockAddress(data: nat, stride: nat, i: nat): nat {
    data + i * stride
  }

  /** `(ptr - m_data) / m_stride`. */
  function BlockIndex(data: nat, stride: nat, ptr: nat): nat
    requires stride > 0 && data <= ptr
  {
    (ptr - data) / stride
  }

  /** Address and index of a block undo each other, and block addresses are exactly the
      stride multiples inside the buffer. */
  lemma AddressIndexRoundTrip(data: nat, stride: nat, count: nat, i: nat)
    requires stride > 0 && i < count
    ensures var p := BlockAddress(data, stride, i);
            && data <= p && (p - data) % stride == 0 && p - data < count * stride
            && BlockIndex(data, stride, p) == i
  {
    MulMod(i, stride);
    Ahead(stride, i, count);
  }

  lemma IndexAddressRoundTrip(data: nat, stride: nat, count: nat, ptr: nat)
    requires stride > 0 && data <= ptr && (ptr - data) % stride == 0 && ptr - data < count * stride
    ensures var i := BlockIndex(data, stride, ptr);
            i < count && BlockAddress(data, stride, i) == ptr
  {
    var i := (ptr - data) / stride;
    assert ptr - data == i * stride;
    NotAhead(stride, i, count);
  }

  lemma NotAhead(stride: nat, i: nat, count: nat)
    requires i * stride < count * stride
    ensures i < count
  {
    if count < i { Ahead(stride, count, i); }
  }

  lemma BlockIsAligned(data: nat, stride: nat, i: nat, alignment: nat)
    requires alignment > 0 && Aligned(data, alignment) && Aligned(stride, alignment)
    ensures Aligned(BlockAddress(data, stride, i), alignment)
  {
    MultipleOfMultiple(i, stride, alignment);
    SumOfMultiples(data, i * stride, alignment);
  }

  /** Blocks lie in the buffer, aligned as asked for, and no two of them share a byte. */
  lemma BlocksDisjoint(data: nat, blockSize: nat, alignment: nat, count: nat, i: nat, j: nat)
    requires IsPow2(PoolAlignment(alignment)) && blockSize > 0
    requires Aligned(data, PoolAlignment(alignment)) && i < count && j < count
    ensures var stride := Stride(blockSize, alignment);
            var p, q := BlockAddress(data, stride, i), BlockAddress(data, stride, j);
            && Aligned(p, PoolAlignment(alignment)) && Aligned(p, LINK_SIZE)
            && (IsPow2(alignment) ==> Aligned(p, alignment))
            && data <= p && p + blockSize <= p + stride <= data + count * stride
            && (i != j ==> p + stride <= q || q + stride <= p)
  {
    var stride := Stride(blockSize, alignment);
    StrideFits(blockSize, alignment);
    BlockIsAligned(data, stride, i, PoolAlignment(alignment));
    AlignedAsAsked(BlockAddress(data, stride, i), alignment);
    Ahead(stride, i, count);
    if i < j { Ahead(stride, i, j); }
    if j < i { Ahead(stride, j, i); }
  }

  lemma Ahead(stride: nat, i: nat, j: nat)
    requires i < j
    ensures i * stride + stride <= j * stride
  {
    assert (j - i - 1) * stride >= 0;
    assert j * stride == (j - i - 1) * stride + i * stride + stride;
  }
}
