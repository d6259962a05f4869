/**
 * Compile-time constants of the memory manager (Source/MemoryManager.h).
 * A word is one `size_t`; the model fixes the 64-bit layout, where that is
 * eight bytes.
 */
module Config {

  const MEGABYTE: nat := 1048576

  /** Bytes per pool word (`sizeof(size_t)`). */
  const WORD_SIZE: nat := 8

  /** Pool capacity in words: ten megabytes of `size_t` words, `(10 * MEGABYTE) / WORD_SIZE`. */
  const POOL_SIZE: nat := 1310720

  /** The literal above is `(10 * MEGABYTE) / sizeof(size_t)` with eight-byte words. */
  lemma PoolSizeIsTenMegabytes()
    ensures POOL_SIZE == 10 * MEGABYTE / WORD_SIZE
    ensures POOL_SIZE * WORD_SIZE == 10 * MEGABYTE
  {
  }

  /** Number of node slots reserved for the free-range table. */
  const RECORD_SIZE: nat := 10000

}
