/**
 * The state of the allocator of Source/MemoryManager.cpp and the predicates
 * its operations' contracts are stated in: the pool of POOL_SIZE words, the
 * free-range table over it, and the two counters the manager keeps.
 *
 * A block is a header word holding its length in words (header included)
 * followed by its payload; callers see the payload's word offset.
 */
module Heap {
  import opened Config
  import FreeTable

  /** The manager's state; `table` is `m_deallocTable`, the counters are `m_objectCount` and `m_blocksAllocated`. */
  datatype Manager = Manager(pool: seq<int>, table: seq<FreeTable.Record>, objectCount: int, blocksAllocated: int)

  /** A caller's pointer: null, or a word offset from the start of the pool. */
  datatype Ptr = Null | Addr(offset: int)

  /** A successful allocation: the manager after it and the payload offset handed out. */
  datatype Allocated = Allocated(manager: Manager, payload: nat)

  /** A successful `managedRealloc`: the manager after it and the pointer returned. */
  datatype Resized = Resized(manager: Manager, ptr: Ptr)

  /** The pool has its full size and the table is a valid free-range table. */
  ghost predicate Wellformed(m: Manager) {
    |m.pool| == POOL_SIZE && FreeTable.Valid(m.table)
  }

  /**
   * The header at `h` gives a positive length whose range lies in the pool
   * and shares no word with the free table: what `deallocate` needs of the
   * block it is handed.
   */
  ghost predicate LiveHeader(m: Manager, h: nat) {
    && Wellformed(m) && h < POOL_SIZE && 0 < m.pool[h] && h + m.pool[h] <= POOL_SIZE
    && FreeTable.Releasable(m.table, h, m.pool[h])
  }

  /** Words `dst .. dst + n` of `b` hold what words `src .. src + n` of `a` hold. */
  ghost predicate SameWords(b: seq<int>, dst: nat, a: seq<int>, src: nat, n: nat)
    requires dst + n <= |b| && src + n <= |a|
  {
    forall w :: dst <= w < dst + n ==> b[w] == a[w - dst + src]
  }

  function Min(a: int, b: int): int {
    if a <= b then a else b
  }

  /**
   * `r` hands out a block of `needed` words: the manager is well formed and
   * the returned pointer names a payload, inside the pool, whose header
   * records `needed`.
   */
  ghost predicate Delivers(r: Resized, needed: nat)
    requires 0 < needed
  {
    var n, p := r.manager, r.ptr;
    && Wellformed(n)
    && p.Addr? && 1 <= p.offset && p.offset - 1 + needed <= POOL_SIZE
    && n.pool[p.offset - 1] == needed
  }

  /**
   * Pool `b` differs from pool `a` at most inside the two ranges
   * `[h, h + lh)` and `[d, d + ld)`.
   */
  ghost predicate Untouched(b: seq<int>, a: seq<int>, h: int, lh: int, d: int, ld: int)
    requires |a| == POOL_SIZE && |b| == POOL_SIZE
  {
    forall w :: 0 <= w < POOL_SIZE && !(h <= w < h + lh) && !(d <= w < d + ld) ==> b[w] == a[w]
  }

  /**
   * `r` resizes the live block at `h` of `m` to `needed` words: it delivers a
   * block of `needed` words whose first `min(pool[h], needed) - 1` payload
   * words are the ones the block held, and no pool word outside the old
   * block and the delivered one changes.
   */
  ghost predicate Resizes(m: Manager, h: nat, needed: nat, r: Resized)
    requires LiveHeader(m, h) && 0 < needed
  {
    && Delivers(r, needed)
    && SameWords(r.manager.pool, r.ptr.offset, m.pool, h + 1, Min(m.pool[h], needed) - 1)
    && Untouched(r.manager.pool, m.pool, h, m.pool[h], r.ptr.offset - 1, needed)
  }
}
