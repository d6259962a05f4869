/**
 * The fixed-capacity slot pool: `NodeAllocatorPool` in Source/NodeAllocator.h
 * and its twin `MemoryPool` in Source/MemoryPool.h, which differ only in how
 * the backing bytes are obtained. A pool is a stack of free slot addresses
 * and the index of its topmost entry; allocation pops, release pushes, and
 * neither checks the bounds of the stack.
 */
module SlotPool {

  /** `stack` holds one address per slot; `stack[..top + 1]` are the free ones. */
  datatype Pool = Pool(stack: seq<nat>, top: int)

  /** What `allocate` hands back: the pool after the pop and the popped address. */
  datatype Taken = Taken(pool: Pool, addr: nat)

  /** The top index never leaves the stack (it is -1 when every slot is taken). */
  ghost predicate Valid(p: Pool) {
    -1 <= p.top < |p.stack|
  }

  /** The free addresses, bottom first; the next allocation returns the last one. */
  function Free(p: Pool): seq<nat>
    requires Valid(p)
  {
    p.stack[..p.top + 1]
  }

  /**
   * The constructor's fill loop from iteration `i` on: iteration `i` stores
   * `addr` at index `capacity - 1 - i` and advances `addr` by one slot.
   */
  function Fill(stack: seq<nat>, i: nat, addr: nat, objectSize: nat): (r: seq<nat>)
    requires i <= |stack|
    ensures |r| == |stack|
    ensures forall k :: 0 <= k < |stack| - i ==> r[k] == addr + (|stack| - 1 - i - k) * objectSize
    ensures forall k :: |stack| - i <= k < |stack| ==> r[k] == stack[k]
    decreases |stack| - i
  {
    if i == |stack| then stack
    else Fill(stack[|stack| - 1 - i := addr], i + 1, addr + objectSize, objectSize)
  }

  /**
   * Construction over `capacity` slots of `objectSize` bytes starting at
   * address `base`: slot `i` sits at `stack[capacity - 1 - i]`, so the top of
   * the stack is slot 0 and every slot is free.
   */
  function Init(capacity: nat, base: nat, objectSize: nat): (p: Pool)
    ensures Valid(p) && |p.stack| == capacity && p.top == capacity - 1
    ensures Free(p) == p.stack
    ensures forall k :: 0 <= k < capacity ==> p.stack[k] == base + (capacity - 1 - k) * objectSize
  {
    Pool(Fill(seq(capacity, _ => 0), 0, base, objectSize), capacity - 1)
  }

  /** Pops the topmost free address; the caller must leave at least one free slot. */
  function Allocate(p: Pool): (r: Taken)
    requires Valid(p) && 0 <= p.top
    ensures Valid(r.pool) && r.pool.stack == p.stack
    ensures r.addr == Free(p)[|Free(p)| - 1]
    ensures Free(r.pool) == Free(p)[..|Free(p)| - 1]
  {
    Taken(Pool(p.stack, p.top - 1), p.stack[p.top])
  }

  /** Pushes `addr` back; the caller must not release more slots than were taken. */
  function Deallocate(p: Pool, addr: nat): (r: Pool)
    requires Valid(p) && p.top < |p.stack| - 1
    ensures Valid(r) && |r.stack| == |p.stack|
    ensures Free(r) == Free(p) + [addr]
  {
    Pool(p.stack[p.top + 1 := addr], p.top + 1)
  }

  /** An allocation right after releasing `addr` returns `addr` and the same free slots. */
  lemma DeallocateThenAllocate(p: Pool, addr: nat)
    requires Valid(p) && p.top < |p.stack| - 1
    ensures Allocate(Deallocate(p, addr)).addr == addr
    ensures Free(Allocate(Deallocate(p, addr)).pool) == Free(p)
  {
  }

  /** Releasing the address just allocated restores the pool exactly. */
  lemma AllocateThenDeallocate(p: Pool)
    requires Valid(p) && 0 <= p.top
    ensures Deallocate(Allocate(p).pool, Allocate(p).addr) == p
  {
  }

  /** The addresses returned by `k` successive allocations, in order. */
  datatype Run = Run(pool: Pool, addrs: seq<nat>)

  function AllocateMany(p: Pool, k: nat): (r: Run)
    requires Valid(p) && k <= p.top + 1
    ensures Valid(r.pool) && r.pool.top == p.top - k && |r.addrs| == k
    ensures forall j :: 0 <= j < k ==> r.addrs[j] == Free(p)[p.top - j]
    decreases k
  {
    if k == 0 then Run(p, [])
    else
      var t := Allocate(p);
      var rest := AllocateMany(t.pool, k - 1);
      Run(rest.pool, [t.addr] + rest.addrs)
  }

  /**
   * From a fresh pool the `j`-th allocation returns slot `j`: addresses
   * ascend one slot at a time and, for a non-empty slot size, never repeat.
   */
  lemma FreshPoolAscending(capacity: nat, base: nat, objectSize: nat, k: nat)
    requires k <= capacity
    ensures var addrs := AllocateMany(Init(capacity, base, objectSize), k).addrs;
      && (forall j :: 0 <= j < k ==> addrs[j] == base + j * objectSize)
      && (0 < objectSize ==> forall i, j :: 0 <= i < j < k ==> addrs[i] < addrs[j])
  {
    var p := Init(capacity, base, objectSize);
    var addrs := AllocateMany(p, k).addrs;
    forall j | 0 <= j < k
      ensures addrs[j] == base + j * objectSize
    {
      assert addrs[j] == p.stack[capacity - 1 - j];
    }
    if 0 < objectSize {
      forall i, j | 0 <= i < j < k
        ensures addrs[i] < addrs[j]
      {
        assert addrs[i] == base + i * objectSize;
        assert addrs[j] == base + j * objectSize;
        SlotsAscend(i, j, objectSize);
      }
    }
  }

  /** A later slot of a non-empty size starts further from the base. */
  lemma SlotsAscend(i: nat, j: nat, objectSize: nat)
    requires i < j && 0 < objectSize
    ensures i * objectSize < j * objectSize
  {
    assert j * objectSize == i * objectSize + (j - i) * objectSize;
  }

}
