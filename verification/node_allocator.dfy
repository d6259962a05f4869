/**
 * `NodeAllocator<T, reserve>` (Source/NodeAllocator.h): the standard-library
 * allocator handed to the free-range table's `std::map`. It owns one slot
 * pool of `reserve` slots and forwards to it, ignoring the element count the
 * container asks for.
 */
module NodeAllocator {
  import opened Config
  import SlotPool

  /**
   * The allocator behind the free-range table: RECORD_SIZE node slots of
   * `objectSize` bytes from `base`, every one of them free.
   */
  function Init(base: nat, objectSize: nat): (p: SlotPool.Pool)
    ensures SlotPool.Valid(p) && |SlotPool.Free(p)| == RECORD_SIZE
    ensures SlotPool.Free(p)[RECORD_SIZE - 1] == base
  {
    SlotPool.Init(RECORD_SIZE, base, objectSize)
  }

  /** `allocate(num)`: one slot from the pool whatever `num` is. */
  function Allocate(p: SlotPool.Pool, num: nat): (r: SlotPool.Taken)
    requires SlotPool.Valid(p) && 0 <= p.top
    ensures SlotPool.Valid(r.pool)
    ensures r.addr == SlotPool.Free(p)[p.top]
    ensures SlotPool.Free(r.pool) == SlotPool.Free(p)[..p.top]
  {
    SlotPool.Allocate(p)
  }

  /** `deallocate(p, num)`: the slot goes back to the pool whatever `num` is. */
  function Deallocate(p: SlotPool.Pool, addr: nat, num: nat): (r: SlotPool.Pool)
    requires SlotPool.Valid(p) && p.top < |p.stack| - 1
    ensures SlotPool.Valid(r)
    ensures SlotPool.Free(r) == SlotPool.Free(p) + [addr]
  {
    SlotPool.Deallocate(p, addr)
  }

  /** The element count changes nothing: two requests of any sizes pop the same slot. */
  lemma CountIgnored(p: SlotPool.Pool, num1: nat, num2: nat)
    requires SlotPool.Valid(p) && 0 <= p.top
    ensures Allocate(p, num1) == Allocate(p, num2)
  {
  }

}
