# CppMemoryManager in Dafny

A model of the general-purpose memory manager of CppMemoryManager, with proofs
about it. The manager owns one pool of `POOL_SIZE` machine words and serves
every `new`, `delete`, `malloc`-style and `realloc`-style request from it.
A block is a header word that holds the block's length in words, followed by
its payload. A pointer handed to a caller is the payload's word offset.
The free words are recorded in `m_deallocTable`, a `std::map` from the start
of each free range to its length. Its nodes come from a fixed-capacity slot
pool (`NodeAllocator` over `NodeAllocatorPool`). `MemoryPool` is a twin of
that pool.

The model has these modules:

- `Config`: the constants of `MemoryManager.h`. The word size is fixed at
  eight bytes, the 64-bit layout.
- `Optional`: the `Option` wrapper, used where the source can run out of
  room.
- `FreeTable`: the free-range table as a start-ordered sequence of
  `Record(start, len)`. Its invariant `Valid` says that the entries are
  positive, lie in the pool, and are pairwise apart: no two overlap and no
  two touch. It also holds first-fit `GetBlock` and the coalescing
  `Release`.
- `FreeTableAsWritten`: `deallocUpdate` exactly as the code writes it,
  with the inputs on which it departs from `FreeTable.Release`.
- `Heap`: the manager's state (pool, table, object and word counters) and
  the predicates the contracts use: `Wellformed`, `LiveHeader`, `Resizes`.
- `Allocator`: the constructor, `allocate`, `deallocate` and
  `managedRealloc`, with `managedRealloc` corrected as listed under
  Findings.
- `AllocatorAsWritten`: the parts of `managedRealloc` as written, with the
  input that shows each departure.
- `Tiling` and `AllocatorInvariant`: the global invariant and the proof that
  every operation keeps it. The invariant is stated over the set of live
  block headers, which the lemmas carry as a parameter. It says that the
  live blocks and the free words tile the pool, and that the counters agree
  with both.
- `SlotPool` and `NodeAllocator`: the slot pool and the allocator that
  forwards to it.

The comments in `deallocUpdate` and `managedRealloc` describe behaviour that
the code does not have. The model follows the code in the `*AsWritten`
modules and the described behaviour in the corrected ones. Each departure is
a row under Findings, except two that the corrected model keeps and that are
listed under "## Left out": the marker `Allocator.Deallocate` writes, and
the stricter guard of `Allocator.GrowInPlace`.

## Model

| member | source | states |
|---|---|---|
| Config.PoolSizeIsTenMegabytes | Source/MemoryManager.h:24-25 | the pool holds ten megabytes of eight-byte words: `POOL_SIZE` is `10 * MEGABYTE / WORD_SIZE`, and that many words are exactly ten megabytes |
| FreeTable.NoAdjacent | Source/MemoryManager.cpp:95-126 | in a valid table no free range ends where the next one begins, so neighbouring free ranges are always coalesced |
| FreeTable.Position | Source/MemoryManager.cpp:93 | the ordered position of a key in the map: every entry before it starts below the key, every entry from it on starts at or above it |
| FreeTable.Find | Source/MemoryManager.cpp:216 | `find` yields an index whose entry starts at the key, or None exactly when no entry starts there |
| FreeTable.FirstFitFrom | Source/MemoryManager.cpp:31-33 | the scan from index i stops at the first entry long enough; None exactly when none is |
| FreeTable.FirstFit | Source/MemoryManager.cpp:30-33 | the first entry whose length is at least the request, with every earlier entry too short; None exactly when every entry is too short |
| FreeTable.GetBlock | Source/MemoryManager.cpp:28-62 | the block handed out starts where the first long-enough range starts and fits in the pool; None exactly when no range fits |
| FreeTable.GetBlockValid | Source/MemoryManager.cpp:35-59 | erasing an exact fit or splitting off a range's front keeps the table valid |
| FreeTable.TakeFront | Source/MemoryManager.cpp:35-58 | taking the first `n` words of entry i keeps the table's length exactly when `n` is less than the entry's length (the entry survives, shortened) and removes one entry otherwise (the entry is erased) |
| FreeTable.TakeFrontValid | Source/MemoryManager.cpp:43-58 | taking a prefix of a range keeps the table valid |
| FreeTable.TakeFrontConserves | Source/MemoryManager.cpp:43-58 | the prefix taken was free and is exactly what leaves the free set; the free-word total drops by its length |
| FreeTable.TakeFrontCarves | Source/MemoryManager.cpp:43-58 | the same conservation, stated for the carved interval [s, e) |
| FreeTable.GetBlockConserves | Source/MemoryManager.cpp:28-62 | the block handed out was entirely free, the free set loses exactly its words, and the free total drops by its length |
| FreeTable.Release | Source/MemoryManager.cpp:64-131 | the range written back covers the freed range, and the table grows or shrinks by at most one entry |
| FreeTable.LeftAdjacent | Source/MemoryManager.cpp:95 | the left-adjacency test: the entry just below the freed start ends exactly at it |
| FreeTable.RightAdjacent | Source/MemoryManager.cpp:100 | the right-adjacency test: the entry just above the freed start begins exactly at the freed end |
| FreeTable.ReleaseValid | Source/MemoryManager.cpp:106-130 | releasing a range disjoint from the table yields a valid table again: nothing overlaps and nothing touches |
| FreeTable.ReleaseMiddle | Source/MemoryManager.cpp:106-126 | the merged range consists of exactly the freed words plus the neighbours it absorbed, and its length is their total |
| FreeTable.ReleaseMiddleAt | Source/MemoryManager.cpp:106-126 | the same, stated for the freed interval [s, e) |
| FreeTable.ReleaseConserves | Source/MemoryManager.cpp:64-131 | after release the free set is the old one plus exactly the freed words, and the free total grows by the freed length |
| FreeTable.ReleaseTailConserves | Source/MemoryManager.cpp:202-205 | a tail of a releasable range is releasable, and releasing it adds exactly that tail to the free set |
| FreeTable.OnlyNeighboursTouch | Source/MemoryManager.cpp:95-100 | an entry ending at the freed start can only be the entry just before it, and one starting at the freed end can only be the entry just after it |
| FreeTable.ReleaseKeeps | Source/MemoryManager.cpp:106-130 | release keeps every entry outside the merged neighbours, adds the merged range, and adds nothing else |
| FreeTable.ReleaseCoalesces | Source/MemoryManager.cpp:106-126 | the merged range starts at the left neighbour when one ends at the freed start and at the freed start otherwise; it ends at the right neighbour's end when one begins at the freed end and at the freed end otherwise; no other entry changes |
| FreeTable.ReleaseReaches | Source/MemoryManager.cpp:106-126 | both ends of the merged range, for both the adjacent and the non-adjacent case on each side |
| FreeTable.ReleaseKeepsApart | Source/MemoryManager.cpp:128-130 | entries that touch neither end of the freed range survive unchanged; every other entry is the merged one |
| FreeTable.TakeFrontAround | Source/MemoryManager.cpp:43-58 | after taking a prefix, the earlier entries end before the carved range, the later ones start after it, and its remainder follows it directly exactly when the split was partial |
| FreeTable.TakeFrontPosition | Source/MemoryManager.cpp:43-58 | the carved range's start sits at the same index; it has no left neighbour; it has a right neighbour exactly when the split was partial |
| FreeTable.ReleaseAfterTakeFront | Source/MemoryManager.cpp:28-131 | releasing the prefix just taken restores the table exactly |
| FreeTable.ReinsertExact | Source/MemoryManager.cpp:35-40 | releasing an exactly fitting range that was erased puts the same entry back at the same index |
| FreeTable.RejoinSplit | Source/MemoryManager.cpp:43-58 | releasing the front split off a range joins it back to the remainder |
| FreeTable.GetBlockReleaseRoundTrip | Source/MemoryManager.cpp:28-131 | getBlock followed by release of the same block returns the table to what it was |
| FreeTableAsWritten.LowerBound | Source/MemoryManager.cpp:87 | the insertion position of a key in the map: entries before it start below the key, entries from it on do not |
| FreeTableAsWritten.UpperBound | Source/MemoryManager.cpp:93 | `upper_bound`: entries before it start at or below the key, entries from it on start above it |
| FreeTableAsWritten.Insert | Source/MemoryManager.cpp:75 | `map::insert`: the table stays keyed; an existing key leaves the table unchanged; a new key adds exactly one entry |
| FreeTableAsWritten.InsertContents | Source/MemoryManager.cpp:87 | inserting a new key adds exactly that record to the entries, as a multiset |
| FreeTableAsWritten.InsertPlaces | Source/MemoryManager.cpp:128 | the inserted record lands at its ordered position, with the entries before and after it shifted but unchanged |
| FreeTableAsWritten.Release | Source/MemoryManager.cpp:64-131 | deallocUpdate as written: undefined (None) exactly on an empty table or when `upper_bound` runs to or next to the end; otherwise the table stays keyed |
| FreeTableAsWritten.ValidIsKeyed | Source/MemoryManager.h:31 | a table the allocator can hold has strictly increasing keys, as a `std::map` does |
| FreeTableAsWritten.GeneralBranchNeverMerges | Source/MemoryManager.cpp:93-130 | on a valid table the `upper_bound` branch always inserts the freed range unmerged and returns it |
| FreeTableAsWritten.ReturnsFreedRange | Source/MemoryManager.cpp:64-131 | whichever branch runs, the record handed back to deallocate is the freed range itself |
| FreeTableAsWritten.LeftNeighbourNeverJoined | Source/MemoryManager.cpp:93-118 | when a free range ends where the freed one starts, the table as written is no longer valid |
| FreeTableAsWritten.LowestBranchDropsEntry | Source/MemoryManager.cpp:81-85 | freeing a range that touches the lowest entry from below loses that entry's words from the free total |
| FreeTableAsWritten.UpperBoundMissesLeftNeighbour | Source/MemoryManager.cpp:93-104 | counterexample: freeing [2, 5) next to [0, 2) leaves two touching entries |
| FreeTableAsWritten.CorrectedJoinsLeftNeighbour | Source/MemoryManager.cpp:106-118 | on the same input the corrected release records [0, 5) |
| FreeTableAsWritten.LowestBranchLosesEntry | Source/MemoryManager.cpp:81-85 | counterexample: freeing [2, 5) before [5, 10) records 8 free words where 13 are free |
| FreeTableAsWritten.CorrectedKeepsLowestEntry | Source/MemoryManager.cpp:82-84 | on the same input the corrected release records [2, 10) |
| FreeTableAsWritten.SingleEntryIgnoresLeft | Source/MemoryManager.cpp:68-78 | counterexample: with the single entry [0, 5), freeing [5, 8) leaves two touching entries |
| FreeTableAsWritten.CorrectedJoinsSingleEntry | Source/MemoryManager.cpp:69-73 | on the same input the corrected release records the single range [0, 8) |
| FreeTableAsWritten.TopmostReadsPastEnd | Source/MemoryManager.cpp:93-100 | counterexample: freeing above every entry of a two-entry table reads through `end()` |
| FreeTableAsWritten.CorrectedAppendsTopmost | Source/MemoryManager.cpp:128-130 | on the same input the corrected release appends the range |
| Allocator.WordsFor | Source/MemoryManager.cpp:168 | a request of `size` bytes takes the fewest whole words that hold it, plus one header word |
| Allocator.Init | Source/MemoryManager.cpp:11-26 | a fresh manager: the whole pool is one free range, word 0 holds the marker `-POOL_SIZE`, every other word is zero, and both counters are zero |
| Allocator.AllocateWords | Source/MemoryManager.cpp:166-174 | None exactly when no free range is long enough; otherwise the block starts at the front of the first free range of at least `n` words (every earlier range is shorter), the header gets the length, the block lies in the pool, and each counter goes up by its share |
| Allocator.Allocate | Source/MemoryManager.cpp:166-174 | None exactly when no free range has `WordsFor(size)` words; otherwise the block starts at the front of the first free range that long, lies in the pool, its payload holds at least `size` bytes, its header records its length, no other pool word changes, the object count goes up by one and the allocated-word count by the block's length |
| Allocator.AllocateTable | Source/MemoryManager.cpp:169 | the table after allocate is getBlock's: the block's header is the start of the first-fit entry, which loses its first `n` words |
| Allocator.Deallocate | Source/MemoryManager.cpp:240-248 | the header becomes the negated length of the free range that now holds the block, no other pool word changes, the object count drops by one and the word count by the block's length |
| Allocator.AllocateWordsConserves | Source/MemoryManager.cpp:169-172 | allocation moves exactly the block's words out of the free set and its length out of the free total |
| Allocator.DeallocateConserves | Source/MemoryManager.cpp:242-247 | release moves exactly the block's words into the free set and its length into the free total |
| Allocator.DeallocateKeeps | Source/MemoryManager.cpp:245-247 | release leaves every pool word except the header unchanged and adjusts both counters by the block |
| Allocator.DeallocateTable | Source/MemoryManager.cpp:243-244 | deallocate updates the table by releasing the block's header and length |
| Allocator.Shrink | Source/MemoryManager.cpp:202-206 | the header records the new length, the cut-off tail is releasable and its first word holds the negated length of the free range that now holds it, no other word changes, the object count is kept, and the word count drops by the cut-off length |
| Allocator.Managed | Source/MemoryManager.cpp:191 | the corrected range test: a payload offset from 0 through `POOL_SIZE`, the last being a header-only block in the pool's last word |
| Allocator.ShrinkConserves | Source/MemoryManager.cpp:202-205 | shrinking puts exactly the cut-off tail into the free set and its length into the free total |
| Allocator.ShrinkTable | Source/MemoryManager.cpp:203-204 | the table after shrinking is the table with the cut-off tail released |
| Allocator.CanGrowInPlace | Source/MemoryManager.cpp:210-216 | the grow-in-place test: the word after the block is the marker of a free range with room for the growth plus one word, and the table has an entry there with the same room |
| Allocator.GrowInPlace | Source/MemoryManager.cpp:208-222 | the header records the new length, no other word changes, and the word count rises by the growth |
| Allocator.GrowConserves | Source/MemoryManager.cpp:213-219 | the words gained were free and are exactly what leaves the free set |
| Allocator.GrowTable | Source/MemoryManager.cpp:216-219 | the next free range gives up its first `needed - meta` words in the table |
| Allocator.Copy | Source/MemoryManager.cpp:226 | `std::copy`: the destination words hold the source words, and all other words are unchanged |
| Allocator.CopyLoop | Source/MemoryManager.cpp:226 | a word-by-word loop over non-overlapping ranges computes the same copy |
| Allocator.MovedApart | Source/MemoryManager.cpp:224-226 | the fresh block and the old block do not overlap, and the old header survives the allocation and the copy |
| Allocator.MoveTo | Source/MemoryManager.cpp:226-227 | releasing the old block after the copy changes no word but its header and adjusts both counters |
| Allocator.PayloadMoved | Source/MemoryManager.cpp:226 | after the copy and the release, the fresh header is intact, its payload holds the old payload words, and no word outside the old block and the fresh one changes |
| Allocator.MoveToFacts | Source/MemoryManager.cpp:223-229 | a relocation resizes the block, keeps the object count, and changes the word count by the growth |
| Allocator.MoveCounts | Source/MemoryManager.cpp:225-227 | allocate-then-release leaves the object count as it was and changes the word count by `needed - meta` |
| Allocator.MoveResizes | Source/MemoryManager.cpp:223-229 | the moved block has `needed` words, its payload starts with the old payload's words, and no pool word outside the old block and the fresh one changes |
| Allocator.Relocate | Source/MemoryManager.cpp:223-229 | None exactly when no free range fits; otherwise the new block is apart from the old one, carries its payload, no pool word outside the two blocks changes, and the counters balance |
| Allocator.RelocateMoves | Source/MemoryManager.cpp:224-228 | relocation is exactly allocate, copy, then release of the old block |
| Allocator.Resize | Source/MemoryManager.cpp:195-230 | the resize of a live block fails exactly when it must grow, cannot grow in place and no range fits; otherwise it resizes, keeping the common prefix of the payload and every pool word outside the old and the new block |
| Allocator.KeepResizes | Source/MemoryManager.cpp:198-200 | a block that already has the needed length is returned as it is |
| Allocator.ShrinkResizes | Source/MemoryManager.cpp:202-206 | shrinking returns the same pointer with the first `needed - 1` payload words intact |
| Allocator.GrowResizes | Source/MemoryManager.cpp:208-222 | growing in place returns the same pointer with the whole old payload intact |
| Allocator.Realloc | Source/MemoryManager.cpp:181-232 | managedRealloc: a null pointer allocates, writing only the new header; a foreign pointer is returned with the manager unchanged; a live pointer is resized with its contents kept and no pool word outside the old and the new block changed; None only when no free range fits |
| AllocatorInvariant.LiveIsLiveHeader | Source/MemoryManager.cpp:240-244 | under the invariant every live block can be handed to deallocate |
| AllocatorInvariant.AllocateAddsBlock | Source/MemoryManager.cpp:166-174 | allocate takes exactly the new block's words from the free table and counts them |
| AllocatorInvariant.DeallocateRemovesBlock | Source/MemoryManager.cpp:240-248 | deallocate returns exactly the block's words to the free table and uncounts them |
| AllocatorInvariant.ShrinkShrinksBlock | Source/MemoryManager.cpp:202-206 | shrink cuts the block and returns exactly the tail |
| AllocatorInvariant.GrowInPlaceGrowsBlock | Source/MemoryManager.cpp:208-222 | growth in place extends the block by exactly the free words after it |
| AllocatorInvariant.InitConsistent | Source/MemoryManager.cpp:11-26 | the fresh manager satisfies the invariant with no live block |
| AllocatorInvariant.AddBlockConsistent | Source/MemoryManager.h:51-58 | adding a block carved from free words keeps the invariant, with the block added to the live set |
| AllocatorInvariant.RemoveBlockConsistent | Source/MemoryManager.h:51-58 | returning a live block to the free words keeps the invariant, with the block removed |
| AllocatorInvariant.ShrinkBlockConsistent | Source/MemoryManager.h:51-58 | cutting a live block's tail into the free words keeps the invariant |
| AllocatorInvariant.GrowBlockConsistent | Source/MemoryManager.h:51-58 | extending a live block over free words keeps the invariant |
| AllocatorInvariant.AllocateConsistent | Source/MemoryManager.cpp:166-174 | allocate keeps the invariant, and the new header was not live before |
| AllocatorInvariant.DeallocateConsistent | Source/MemoryManager.cpp:240-248 | deallocating a live block keeps the invariant, with that block no longer live |
| AllocatorInvariant.ShrinkConsistent | Source/MemoryManager.cpp:202-206 | shrinking a live block keeps the invariant |
| AllocatorInvariant.GrowConsistent | Source/MemoryManager.cpp:208-222 | growing a live block in place keeps the invariant |
| AllocatorInvariant.RelocateConsistent | Source/MemoryManager.cpp:223-229 | relocating a live block keeps the invariant, with the old block replaced by the new one |
| AllocatorInvariant.AllocatedMoveConsistent | Source/MemoryManager.cpp:224-227 | once the fresh block is allocated, copying into it and releasing the old block keeps the invariant |
| AllocatorInvariant.GrownMoveConsistent | Source/MemoryManager.cpp:226-227 | the copy-and-release step, starting from a live set that already holds the fresh block |
| AllocatorInvariant.MoveConsistent | Source/MemoryManager.cpp:226-227 | copying a payload into another live block and releasing the source block keeps the invariant |
| AllocatorInvariant.CopyConsistent | Source/MemoryManager.cpp:226 | writing a live block's payload keeps the invariant |
| AllocatorInvariant.ResizeConsistent | Source/MemoryManager.cpp:195-230 | every resize of a live block keeps the invariant, with the returned block replacing it |
| AllocatorInvariant.InPlaceConsistent | Source/MemoryManager.cpp:198-222 | keeping, shrinking or growing in place succeeds, returns the same pointer and keeps the invariant |
| AllocatorInvariant.ReallocNullConsistent | Source/MemoryManager.cpp:183-185 | managedRealloc of null adds a fresh block to the live set and keeps the invariant |
| AllocatorInvariant.ReallocConsistent | Source/MemoryManager.cpp:181-232 | managedRealloc of a live pointer keeps the invariant, with the returned block replacing the old one |
| AllocatorInvariant.AllocateThenDeallocate | Source/MemoryManager.cpp:166-248 | allocate followed by deallocate of the same block restores the table and both counters; only the header word keeps a marker |
| AllocatorAsWritten.ManagedAsWritten | Source/MemoryManager.cpp:191 | the range test as written: offsets 0 through `POOL_SIZE - 2` only |
| AllocatorAsWritten.LastPayloadUnmanaged | Source/MemoryManager.cpp:191 | counterexample: a reachable live block whose payload is the pool's last word fails the range test as written, and the corrected test accepts it |
| AllocatorAsWritten.HeaderOnlyLastBlockManaged | Source/MemoryManager.cpp:191 | counterexample: a reachable header-only block in the pool's last word has its payload at `POOL_SIZE`; the test as written rejects it and the corrected test accepts it |
| AllocatorAsWritten.NeededAsWritten | Source/MemoryManager.cpp:196 | `needed` as written: the byte count plus one |
| AllocatorAsWritten.GrowGuardAsWritten | Source/MemoryManager.cpp:210 | the grow-in-place test as written, on the marker word after the block |
| AllocatorAsWritten.RelocationOverflows | Source/MemoryManager.cpp:196-226 | for any block between `size/8 + 3` and `size` words on which the grow test as written fails, `needed` exceeds the header, so the block moves, and the fresh block `allocate(needed)` returns is shorter than the words copied into it |
| AllocatorAsWritten.ElevenThenOne | Source/MemoryManager.cpp:166-174 | from the initial state, allocating 11 words and then 1 word leaves a live 11-word block at word 0, a live 1-word block at word 11, and one free range from word 12 |
| AllocatorAsWritten.RelocationOverflowExample | Source/MemoryManager.cpp:196-226 | counterexample: on that 11-word block resized to 16 bytes the grow test as written fails, `needed` (17) exceeds the header, so the block moves into a 4-word block, and 10 words are copied into it |
| AllocatorAsWritten.FourWordsAtTwelve | Source/MemoryManager.cpp:225 | `allocate(17)` on that state returns a 4-word block at word 12 |
| AllocatorAsWritten.CorrectedShrinksInPlace | Source/MemoryManager.cpp:195-206 | on the same block the corrected `managedRealloc` keeps the pointer and shrinks the block to 3 words |
| AllocatorAsWritten.ShrinkAsWritten | Source/MemoryManager.cpp:202-204 | the state the shrink branch as written reaches inside `deallocate`: the pool with the marker written, the header word `deallocate` reads and its value, and the object count one lower |
| AllocatorAsWritten.ShrinkFreesKeptWord | Source/MemoryManager.cpp:202-205 | the header deallocate reads lies inside the part that stays live, and shrinking to one word frees the whole block |
| AllocatorAsWritten.ShrinkToOneWordFreesBlock | Source/MemoryManager.cpp:202-205 | counterexample: a fresh 4-word block shrunk to its header is handed to deallocate whole |
| AllocatorAsWritten.CorrectedShrinkKeepsBlock | Source/MemoryManager.cpp:202-205 | on the same block the corrected shrink keeps [0, 1) and frees exactly [1, 4) |
| AllocatorAsWritten.ShrinkMiscounts | Source/MemoryManager.cpp:246 | under the invariant, after the shrink as written calls `deallocate`, the object count is one less than the number of live blocks although the shrunk block stays live |
| AllocatorAsWritten.GrowInPlaceAsWritten | Source/MemoryManager.cpp:213-219 | the grow branch as written: only the table changes, the free range after the block giving up its first `needed - meta` words |
| AllocatorAsWritten.GrowLosesWords | Source/MemoryManager.cpp:210-221 | after growth as written the gained words are in no free range and beyond the header's length, and the word count is unchanged |
| SlotPool.Fill | Source/NodeAllocator.h:50-56 | the constructor's loop puts slot i's address at stack index `capacity - 1 - i` and leaves the rest of the stack alone |
| SlotPool.Init | Source/NodeAllocator.h:47-57 | a fresh pool has every slot free, with slot 0 on top |
| SlotPool.Allocate | Source/NodeAllocator.h:59-65 | allocate pops the topmost free address |
| SlotPool.Deallocate | Source/NodeAllocator.h:67-71 | deallocate pushes the address onto the free stack |
| SlotPool.DeallocateThenAllocate | Source/NodeAllocator.h:59-71 | an allocation right after a release returns the released address and the same free slots |
| SlotPool.AllocateThenDeallocate | Source/NodeAllocator.h:59-71 | releasing the address just allocated restores the pool exactly |
| SlotPool.AllocateMany | Source/NodeAllocator.h:59-65 | k successive allocations return the top k free addresses, from the top down |
| SlotPool.FreshPoolAscending | Source/MemoryPool.h:27-45 | from a fresh pool the j-th allocation returns slot j: addresses ascend one object size at a time and never repeat |
| NodeAllocator.Init | Source/NodeAllocator.h:81-84 | the table's node allocator starts with RECORD_SIZE free slots, the first at the base address |
| NodeAllocator.Allocate | Source/NodeAllocator.h:132-136 | allocate forwards to the pool: one slot, popped from the top |
| NodeAllocator.Deallocate | Source/NodeAllocator.h:151-154 | deallocate forwards to the pool: the slot is pushed back |
| NodeAllocator.CountIgnored | Source/NodeAllocator.h:132-136 | the element count asked for has no effect on what allocate returns |

## Left out

- The byte-level pool. Pool words are integers; the payload bytes callers write are not modelled.
- The debug members `getObjectCount`, `whereAmI` and `dumpCore` (file output). `getExact` always returns 0.
- The singleton `get()`: the manager is passed and returned explicitly.
- The eight global `operator new`/`delete` overloads and the `managedMalloc`/`managedFree` wrappers. Each forwards to `allocate` or `deallocate` unchanged.
- The destructors (they free the backing memory).
- `m_loadValue` and `m_loadReached`: they are set in the constructor and never read.
- `m_size`: it only chooses between two branches of `getBlock` that compute the same split.
- `m_ptrSize`: fixed at eight bytes, the 64-bit layout.
- The float division in `allocate`'s `std::ceil((float)size / m_ptrSize)` and the truncation to `int`. They are modelled as exact integer rounding up, so very large requests that lose precision in `float` are not modelled.
- The `RECORD_SIZE` cap on table nodes. The table is an unbounded sequence; running the node pool dry is undefined in the source.
- The C++ allocator boilerplate of `NodeAllocator`: `address`, `construct`, `destroy`, `max_size`, `rebind` and `operator==`.
- The `DECLARE_POOLED_CLASS`/`DEFINE_POOLED_CLASS` macros.
- `MemoryPool` has no members of its own. It is the same stack as `NodeAllocatorPool` (it only obtains its bytes with `new[]` instead of `malloc`), so `SlotPool` models both.
- FreeTable.GetBlock: returns None where the source's scan runs past the end of the map (undefined behaviour).
- FreeTableAsWritten.Release: returns None where the source dereferences `end()` (undefined behaviour).
- SlotPool.Allocate: requires a free slot. The source pops without checking and reads `m_stack[-1]` when none is left.
- SlotPool.Deallocate: requires a taken slot. The source pushes without checking and writes past the stack when every slot is free.
- Allocator.Deallocate: requires a live header. The source accepts any pointer, and a double free or a foreign pointer corrupts the table.
- Allocator.Deallocate: writes the negated length of the merged free range as the marker, where the source writes the length of the record `deallocUpdate` returns. As written that record is always the freed block itself (FreeTableAsWritten.ReturnsFreedRange), so the counter update agrees with the source.
- Allocator.Realloc: requires a live header behind a pointer inside the pool, since the source reads `block[-1]` unchecked. Offset 0 is inside the range test but has no header before it, so callers may not pass it.
- Allocator.Shrink: keeps the object count, where the source's call to `deallocate` lowers it (see Findings).
- Allocator.GrowInPlace: guards growth with the marker test as written plus a table entry at the next word that has the same room. The source's `find` may return `end()`. As in the source, the shrunken free range gets no new marker.
- AllocatorAsWritten.GrowInPlaceAsWritten: uses the corrected guard, under which the table holds the entry the code looks up.
- `managedRealloc` with a non-null pointer and size 0 (marked TODO in the source): handled like any other size, so the block shrinks to its header.

## Findings

| source | as written | input that shows it | evidently intended | confidence | as-written member | corrected member |
|---|---|---|---|---|---|---|
| Source/MemoryManager.cpp:93-104 | the neighbours are found with `upper_bound`, which yields the entry above the freed range as "left", so it never joins a free range ending at the freed start | table [0,2), [10,15), [20,25); free [2,5) | join into [0,5) | not executed | FreeTableAsWritten.UpperBoundMissesLeftNeighbour | FreeTableAsWritten.CorrectedJoinsLeftNeighbour |
| Source/MemoryManager.cpp:93-100 | a freed range above the last two entries walks `upper_bound` to `end()` and dereferences it | table [0,2), [10,15); free [20,23) | append the range | not executed | FreeTableAsWritten.TopmostReadsPastEnd | FreeTableAsWritten.CorrectedAppendsTopmost |
| Source/MemoryManager.cpp:81-85 | below the lowest entry and touching it, the entry is erased and only the freed range is inserted | table [5,10), [20,25); free [2,5) | record [2,10) | not executed | FreeTableAsWritten.LowestBranchLosesEntry | FreeTableAsWritten.CorrectedKeepsLowestEntry |
| Source/MemoryManager.cpp:68-78 | with one entry only right adjacency is tested | table [0,5); free [5,8) | record [0,8) | not executed | FreeTableAsWritten.SingleEntryIgnoresLeft | FreeTableAsWritten.CorrectedJoinsSingleEntry |
| Source/MemoryManager.cpp:202-205 | the shrink branch hands `deallocate` the first cut-off word as a payload pointer, so the word before it, which stays live, is read as the header; the block's own header is never rewritten and keeps the old length | fresh 4-word block at word 0; `managedRealloc(ptr, 0)` | keep [0,1) and free [1,4) | not executed | AllocatorAsWritten.ShrinkToOneWordFreesBlock | AllocatorAsWritten.CorrectedShrinkKeepsBlock |
| Source/MemoryManager.cpp:196 | `needed = size + 1` counts bytes where the header counts words, and `allocate(needed)` (:225) reads it as bytes again | an 11-word block at [0,11) followed by a live block at [11,12), resized to 16 bytes | shrunk in place to 3 words | not executed | AllocatorAsWritten.RelocationOverflowExample | AllocatorAsWritten.CorrectedShrinksInPlace |
| Source/MemoryManager.cpp:210-221 | growth in place updates the table only; the header keeps the old length and `m_blocksAllocated` is not raised | any block followed by a long enough free range | header records `needed`, counter raised | not executed | AllocatorAsWritten.GrowLosesWords | Allocator.GrowConserves |
| Source/MemoryManager.cpp:191 | the range test excludes the pool's last word, which can be a live payload | allocate `POOL_SIZE - 2` words, then 2 words | the block is managed | not executed | AllocatorAsWritten.LastPayloadUnmanaged | Allocator.Realloc |
| Source/MemoryManager.cpp:191 | the range test also excludes the offset one past the pool, the payload of a header-only block in the last word | allocate `POOL_SIZE - 1` words, then 1 word | the block is managed | not executed | AllocatorAsWritten.HeaderOnlyLastBlockManaged | Allocator.Realloc |
| Source/MemoryManager.cpp:202-206 | the shrink branch calls `deallocate`, which counts one object fewer (:246), although the shrunk block stays with its caller | any live block shrunk by `managedRealloc` | the object count is kept | not executed | AllocatorAsWritten.ShrinkMiscounts | AllocatorInvariant.ShrinkConsistent |
