/** The tagged head of the concurrent pool: a block index in the low bits and a generation,
    a multiple of the block count, in the high bits of one 64-bit word. */
module PoolTags {
  import opened Words

  /** The word that marks an empty free list and the last link. */
  const NULL: nat := WORD - 1

  /** `std::has_single_bit(block_count)` for a 64-bit count. */
  predicate ValidCount(n: nat) {
    IsPow2(n) && n < WORD
  }

  /** `tagged & m_cap_mask`. */
  function IndexOf(tagged: nat, n: nat): nat
    requires ValidCount(n)
  {
    BitAnd(tagged, n - 1)
  }

  /** `tagged & ~m_cap_mask`. */
  function GenerationOf(tagged: nat, n: nat): nat
    requires ValidCount(n)
  {
    BitAnd(tagged, WORD - n)
  }

  /** `generation | (index & m_cap_mask)`. */
  function TagIdx(generation: nat, index: nat, n: nat): nat
    requires ValidCount(n)
  {
    BitOr(generation, BitAnd(index, n - 1))
  }

  /** `generation + block_capacity()`, in a 64-bit word. */
  function BumpGeneration(generation: nat, n: nat): nat {
    (generation + n) % WORD
  }

  /** Tags split into index and generation as quotient and remainder. */
  lemma TagParts(tagged: nat, n: nat)
    requires ValidCount(n) && tagged < WORD
    ensures IndexOf(tagged, n) == tagged % n
    ensures GenerationOf(tagged, n) == tagged - tagged % n
    ensures GenerationOf(tagged, n) % n == 0
    ensures tagged == GenerationOf(tagged, n) + IndexOf(tagged, n)
  {
    AndMask(tagged, n);
    WordIsPow2();
    AndHighMask(tagged, n, WORD);
    ModOfFloor(tagged, n);
  }

  /** `index_of` and `generation_of` undo `tag_idx`, the tag fits the word, and it is the
      null sentinel only for the last block in the last generation. */
  lemma TagRoundTrip(generation: nat, index: nat, n: nat)
    requires ValidCount(n) && generation % n == 0 && generation + n <= WORD
    ensures var tagged := TagIdx(generation, index, n);
            && tagged == generation + index % n
            && tagged < WORD
            && IndexOf(tagged, n) == index % n
            && GenerationOf(tagged, n) == generation
            && (tagged == NULL <==> generation == WORD - n && index % n == n - 1)
  {
    AndMask(index, n);
    OrIsAdd(generation, index % n, n);
    FloorPlus(generation, index % n, n);
    TagParts(generation + index % n, n);
  }

  /** Equal tags have equal generation and index, and conversely. */
  lemma TagInjective(a: nat, b: nat, n: nat)
    requires ValidCount(n) && a < WORD && b < WORD
    ensures a == b <==> GenerationOf(a, n) == GenerationOf(b, n) && IndexOf(a, n) == IndexOf(b, n)
  {
    TagParts(a, n);
    TagParts(b, n);
  }

  /** Below the wrap bound the generation grows by exactly the block count. */
  lemma BumpGrows(generation: nat, n: nat)
    requires ValidCount(n) && generation % n == 0 && generation + n < WORD
    ensures BumpGeneration(generation, n) == generation + n
    ensures BumpGeneration(generation, n) % n == 0
  {
    DivModUnique(generation + n, WORD, 0, generation + n);
    ModPeriod(generation, n);
  }
}
