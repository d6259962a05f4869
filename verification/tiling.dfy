/**
 * The allocator's global invariant, stated over a set of live block headers
 * that the lemmas carry as a parameter (the source keeps no such list; the
 * headers are implied by what `allocate` has handed out and not yet taken
 * back): the live blocks and the free table's words tile the pool, and the
 * two counters agree with them.
 */
module Tiling {
  import opened Config
  import FreeTable
  import opened Heap

  /** Word `w` lies in one of the live blocks. */
  ghost predicate Owned(pool: seq<int>, live: set<nat>, w: int)
    requires |pool| == POOL_SIZE
  {
    exists h :: h in live && h < POOL_SIZE && h <= w < h + pool[h]
  }

  /**
   * The live blocks and the free words tile the pool: each live header
   * gives a positive length whose range lies in the pool and holds no free
   * word, no two live blocks overlap, and every word that is not free lies
   * in a live block.
   */
  ghost predicate Tiled(pool: seq<int>, free: set<int>, live: set<nat>)
    requires |pool| == POOL_SIZE
  {
    && (forall h :: h in live ==> h < POOL_SIZE && 0 < pool[h] && h + pool[h] <= POOL_SIZE)
    && (forall h :: h in live ==> FreeTable.Span(h, h + pool[h]) !! free)
    && (forall h, g :: h in live && g in live && h < g ==> h + pool[h] <= g)
    && (forall w {:trigger Owned(pool, live, w)} :: 0 <= w < POOL_SIZE && w !in free ==> Owned(pool, live, w))
  }

  /**
   * `live` is exactly the set of blocks in use: they and the table's free
   * words tile the pool, the object count is their number, and the
   * allocated and free word totals add up to the pool size.
   */
  ghost predicate Consistent(m: Manager, live: set<nat>) {
    && Wellformed(m)
    && Tiled(m.pool, FreeTable.FreeSet(m.table), live)
    && m.objectCount == |live|
    && m.blocksAllocated + FreeTable.Sum(m.table) == POOL_SIZE
  }

  /** The block `r.ptr` names replaces the live block at `h`. */
  ghost predicate Replaces(live: set<nat>, h: nat, r: Resized) {
    r.ptr.Addr? && 1 <= r.ptr.offset && Consistent(r.manager, (live - {h}) + {(r.ptr.offset - 1) as nat})
  }
}
