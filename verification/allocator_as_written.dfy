/**
 * The parts of `managedRealloc` (Source/MemoryManager.cpp:181-232) where the
 * code as written departs from what its comments and the rest of the
 * allocator evidently intend, each beside the lemma that exhibits the
 * departure. The corrected behaviour is the one `Allocator` models:
 *  - the range test (:191) leaves the last word of the pool out, so a live
 *    block whose payload is that word is treated as foreign memory;
 *  - `needed = size + 1` (:196) counts the request in bytes where the header
 *    counts words, and the relocation then asks `allocate` (:225), which
 *    counts in bytes, for `needed` bytes: the fresh block can be shorter
 *    than the words copied into it;
 *  - the shrink branch (:202-205) hands `deallocate` the first word of the
 *    cut-off tail as if it were a payload pointer, so the word before it, a
 *    word of the block that stays live, is read as the header; the block's
 *    own header is never rewritten, so it keeps the old length; and since
 *    `deallocate` counts one object fewer (:246), the object count drops
 *    while the block stays with its caller;
 *  - the grow-in-place branch (:210-221) updates the table only: the header
 *    keeps the old length and the counter of allocated words is not raised.
 */
module AllocatorAsWritten {
  import opened Optional
  import opened Config
  import FreeTable
  import opened Heap
  import Allocator
  import Tiling

  // ---------------------------------------------------------------------------
  // The range test

  /** `m_pool <= block < m_pool + (POOL_SIZE - 1)`: the test as written. */
  predicate ManagedAsWritten(offset: int) {
    0 <= offset < POOL_SIZE - 1
  }

  /**
   * The last word of the pool can be a live payload: from the initial state,
   * a block of `POOL_SIZE - 2` words and then one of two words leave the
   * second block's payload at `POOL_SIZE - 1`. The test as written calls that
   * pointer unmanaged, so `managedRealloc` hands it back unresized whatever
   * size is asked for; the corrected test manages it.
   */
  lemma LastPayloadUnmanaged()
    ensures var a := Allocator.AllocateWords(Allocator.Init(), POOL_SIZE - 2);
      && a.Some?
      && var b := Allocator.AllocateWords(a.value.manager, 2);
      && b.Some?
      && b.value.payload == POOL_SIZE - 1
      && LiveHeader(b.value.manager, POOL_SIZE - 2)
      && !ManagedAsWritten(b.value.payload)
      && Allocator.Managed(b.value.payload)
  {
    FirstBlockLeavesTwoWords();
    TakesLastWords(Allocator.AllocateWords(Allocator.Init(), POOL_SIZE - 2).value.manager, 2);
  }

  /**
   * A header-only block (`allocate(0)`) in the last word of the pool has its
   * payload one past the pool: from the initial state, a block of
   * `POOL_SIZE - 1` words and then one of one word. The test as written
   * calls that pointer unmanaged; the corrected test manages it.
   */
  lemma HeaderOnlyLastBlockManaged()
    ensures var a := Allocator.AllocateWords(Allocator.Init(), POOL_SIZE - 1);
      && a.Some?
      && var b := Allocator.AllocateWords(a.value.manager, 1);
      && b.Some?
      && b.value.payload == POOL_SIZE
      && LiveHeader(b.value.manager, POOL_SIZE - 1)
      && !ManagedAsWritten(b.value.payload)
      && Allocator.Managed(b.value.payload)
  {
    FirstBlockLeavesOneWord();
    TakesLastWords(Allocator.AllocateWords(Allocator.Init(), POOL_SIZE - 1).value.manager, 1);
  }

  /** When the last `n` words are the only free range, a block of `n` words takes them all. */
  lemma TakesLastWords(m: Manager, n: nat)
    requires Wellformed(m) && 0 < n <= POOL_SIZE && m.table == [FreeTable.Record(POOL_SIZE - n, n)]
    ensures var b := Allocator.AllocateWords(m, n);
      && b.Some? && b.value.payload == POOL_SIZE - n + 1
      && LiveHeader(b.value.manager, POOL_SIZE - n)
  {
    assert FreeTable.FirstFit(m.table, n) == Some(0);
    var b := Allocator.AllocateWords(m, n).value;
    assert b.manager.table == [];
  }

  /** A first block of `POOL_SIZE - 1` words leaves the last word as the only free range. */
  lemma FirstBlockLeavesOneWord()
    ensures var a := Allocator.AllocateWords(Allocator.Init(), POOL_SIZE - 1);
      && a.Some?
      && Wellformed(a.value.manager)
      && a.value.manager.table == [FreeTable.Record(POOL_SIZE - 1, 1)]
  {
    var m0 := Allocator.Init();
    assert m0.table == [FreeTable.Record(0, POOL_SIZE)];
    assert FreeTable.FirstFit(m0.table, POOL_SIZE - 1) == Some(0);
  }

  /** A first block of `POOL_SIZE - 2` words leaves the last two words as the only free range. */
  lemma FirstBlockLeavesTwoWords()
    ensures var a := Allocator.AllocateWords(Allocator.Init(), POOL_SIZE - 2);
      && a.Some?
      && Wellformed(a.value.manager)
      && a.value.manager.table == [FreeTable.Record(POOL_SIZE - 2, 2)]
  {
    var m0 := Allocator.Init();
    assert m0.table == [FreeTable.Record(0, POOL_SIZE)];
    assert FreeTable.FirstFit(m0.table, POOL_SIZE - 2) == Some(0);
  }

  // ---------------------------------------------------------------------------
  // Bytes and words

  /** `ptrdiff_t needed = size + 1`: the request in bytes plus one, compared with a length in words. */
  function NeededAsWritten(size: nat): (n: nat) {
    size + 1
  }

  /**
   * The grow-in-place test of :210 as written: `block[meta - 1]`, the word
   * after the block, is a marker of a free range with room for `needed`
   * words and one more. (When the block ends the pool that word lies past
   * it; the model reads the test as failing there.)
   */
  predicate GrowGuardAsWritten(m: Manager, h: nat, needed: int)
    requires LiveHeader(m, h)
  {
    var meta := m.pool[h];
    h + meta < POOL_SIZE && m.pool[h + meta] < -1 && -m.pool[h + meta] + meta >= needed + 1
  }

  /**
   * A block of at least `size / 8 + 3` and at most `size` words, resized to
   * `size` bytes where it cannot grow in place: `needed` exceeds the header,
   * so the code moves the block, and `allocate(needed)`, which reads its
   * argument as bytes, returns a block whose payload is shorter than the
   * `meta - 1` words then copied into it.
   */
  lemma RelocationOverflows(m: Manager, h: nat, size: nat)
    requires LiveHeader(m, h) && size / WORD_SIZE + 3 <= m.pool[h] <= size
    requires !GrowGuardAsWritten(m, h, NeededAsWritten(size))
    ensures m.pool[h] < NeededAsWritten(size)
    ensures var b := Allocator.Allocate(m, NeededAsWritten(size));
      b.Some? ==> b.value.manager.pool[b.value.payload - 1] - 1 < m.pool[h] - 1
  {
    var n := NeededAsWritten(size);
    assert (n + WORD_SIZE - 1) / WORD_SIZE <= size / WORD_SIZE + 1;
  }

  /**
   * From the initial state, a block of 11 words at word 0 followed by a
   * live one-word block at word 11, and the one free range after them.
   */
  lemma ElevenThenOne()
    ensures var a := Allocator.AllocateWords(Allocator.Init(), 11);
      && a.Some? && a.value.payload == 1
      && var b := Allocator.AllocateWords(a.value.manager, 1);
      && b.Some? && b.value.payload == 12
      && var m := b.value.manager;
      && Wellformed(m) && m.pool[0] == 11 && m.pool[11] == 1
      && m.table == [FreeTable.Record(12, POOL_SIZE - 12)]
  {
    FirstEleven();
    OneAfterEleven(Allocator.AllocateWords(Allocator.Init(), 11).value.manager);
  }

  /** From the initial state, an 11-word block at word 0 leaves one free range from word 11. */
  lemma FirstEleven()
    ensures var a := Allocator.AllocateWords(Allocator.Init(), 11);
      && a.Some? && a.value.payload == 1
      && Wellformed(a.value.manager) && a.value.manager.pool[0] == 11
      && a.value.manager.table == [FreeTable.Record(11, POOL_SIZE - 11)]
  {
    var m0 := Allocator.Init();
    assert m0.table == [FreeTable.Record(0, POOL_SIZE)];
    assert FreeTable.FirstFit(m0.table, 11) == Some(0);
  }

  /** A one-word block taken from the front of the range at word 11, behind the 11-word block. */
  lemma OneAfterEleven(m: Manager)
    requires Wellformed(m) && m.pool[0] == 11
    requires m.table == [FreeTable.Record(11, POOL_SIZE - 11)]
    ensures var b := Allocator.AllocateWords(m, 1);
      && b.Some? && b.value.payload == 12
      && Wellformed(b.value.manager) && b.value.manager.pool[0] == 11 && b.value.manager.pool[11] == 1
      && b.value.manager.table == [FreeTable.Record(12, POOL_SIZE - 12)]
  {
    assert FreeTable.FirstFit(m.table, 1) == Some(0);
  }

  /** The manager `ElevenThenOne` builds. */
  function ElevenThenOneState(): (m: Manager)
    ensures Wellformed(m) && m.pool[0] == 11 && m.pool[11] == 1
    ensures m.table == [FreeTable.Record(12, POOL_SIZE - 12)]
    ensures LiveHeader(m, 0)
  {
    ElevenThenOne();
    var a := Allocator.AllocateWords(Allocator.Init(), 11).value;
    var m := Allocator.AllocateWords(a.manager, 1).value.manager;
    FirstBlockLive(m);
    m
  }

  /** The 11-word block at word 0 lies before the one free range, so it is live. */
  lemma FirstBlockLive(m: Manager)
    requires Wellformed(m) && m.pool[0] == 11
    requires m.table == [FreeTable.Record(12, POOL_SIZE - 12)]
    ensures LiveHeader(m, 0)
  {
    assert FreeTable.Disjoint(m.table, 0, 11);
  }

  /**
   * The 11-word block resized to 16 bytes: the next word holds the header
   * of a live block, so the grow test fails; `needed` is 17, so the block
   * moves; the fresh block has 4 words (3 of payload) and the copy writes 10.
   */
  lemma RelocationOverflowExample()
    ensures var m := ElevenThenOneState();
      && !GrowGuardAsWritten(m, 0, NeededAsWritten(16))
      && m.pool[0] < NeededAsWritten(16)
      && Allocator.Allocate(m, NeededAsWritten(16)).Some?
      && var a := Allocator.Allocate(m, NeededAsWritten(16)).value;
      && a.manager.pool[a.payload - 1] == 4
      && a.manager.pool[a.payload - 1] - 1 < m.pool[0] - 1
  {
    var m := ElevenThenOneState();
    FourWordsAtTwelve(m);
    RelocationOverflows(m, 0, 16);
  }

  /** A 17-byte request on that manager: a 4-word block at word 12, the front of the one free range. */
  lemma FourWordsAtTwelve(m: Manager)
    requires Wellformed(m) && m.table == [FreeTable.Record(12, POOL_SIZE - 12)]
    ensures var a := Allocator.Allocate(m, 17);
      && a.Some? && a.value.payload == 13 && a.value.manager.pool[12] == 4
  {
    assert Allocator.WordsFor(17) == 4;
    assert FreeTable.FirstFit(m.table, 4) == Some(0);
  }

  /** On the same block the corrected `managedRealloc` keeps it in place and shrinks it to 3 words. */
  lemma CorrectedShrinksInPlace()
    ensures LiveHeader(ElevenThenOneState(), 0) && ShrunkInPlace(ElevenThenOneState(), 0, 16, 3)
  {
    ShrinksToThree(ElevenThenOneState());
  }

  /**
   * `managedRealloc(ptr, size)` on the payload pointer of the live block at
   * `h` returns that pointer, with the block's header recording `len` words.
   */
  ghost predicate ShrunkInPlace(m: Manager, h: nat, size: nat, len: nat)
    requires LiveHeader(m, h)
  {
    var r := Allocator.Realloc(m, Addr(h + 1), size);
    r.Some? && r.value.ptr == Addr(h + 1) && r.value.manager.pool[h] == len
  }

  /** Any live 11-word block at word 0, resized to 16 bytes, is shrunk to 3 words where it stands. */
  lemma ShrinksToThree(m: Manager)
    requires LiveHeader(m, 0) && m.pool[0] == 11
    ensures ShrunkInPlace(m, 0, 16, 3)
  {
    assert Allocator.WordsFor(16) == 3;
    ReallocShrinks(m, 0, 16);
  }

  /** A live block longer than the request is shrunk where it stands. */
  lemma ReallocShrinks(m: Manager, h: nat, size: nat)
    requires LiveHeader(m, h) && Allocator.WordsFor(size) < m.pool[h]
    ensures var r := Allocator.Realloc(m, Addr(h + 1), size);
      && r == Some(Resized(Allocator.Shrink(m, h, Allocator.WordsFor(size)), Addr(h + 1)))
      && r.value.ptr == Addr(h + 1) && r.value.manager.pool[h] == Allocator.WordsFor(size)
  {
  }

  // ---------------------------------------------------------------------------
  // Shrinking

  /**
   * What the shrink branch has done when it calls `deallocate`: the pool
   * with the marker written, the header word and length `deallocate`
   * then reads (the word before the pointer it is handed, and its value),
   * and the object count after `deallocate` has counted one object fewer.
   */
  datatype ShrinkCall = ShrinkCall(pool: seq<int>, header: int, len: int, objectCount: int)

  /**
   * `block[needed - 1] = -(meta - needed); deallocate(&block[needed - 1])`:
   * with the payload at `h + 1`, the marker lands on word `h + needed` and
   * `deallocate` takes word `h + needed - 1` as the header.
   */
  function ShrinkAsWritten(m: Manager, h: nat, needed: nat): (c: ShrinkCall)
    requires LiveHeader(m, h) && 0 < needed < m.pool[h]
    ensures |c.pool| == POOL_SIZE
  {
    var meta := m.pool[h];
    var pool := m.pool[h + needed := -(meta - needed)];
    var header := h + needed - 1;
    ShrinkCall(pool, header, pool[header], m.objectCount - 1)
  }

  /**
   * The range handed to `deallocate` starts inside the part of the block
   * that stays live, not at the cut-off tail, and the block's header still
   * records the old length. Shrinking to one word hands the whole block back
   * while the caller keeps its pointer.
   */
  lemma ShrinkFreesKeptWord(m: Manager, h: nat, needed: nat)
    requires LiveHeader(m, h) && 0 < needed < m.pool[h]
    ensures var c := ShrinkAsWritten(m, h, needed);
      && h <= c.header < h + needed
      && c.pool[h] == m.pool[h]
      && (needed == 1 ==> c.header == h && c.len == m.pool[h])
  {
  }

  /**
   * Under the allocator's invariant the object count is the number of live
   * blocks; after the shrink as written it is one less, although the block
   * is still live and its pointer is handed back to the caller.
   */
  lemma ShrinkMiscounts(m: Manager, live: set<nat>, h: nat, needed: nat)
    requires Tiling.Consistent(m, live) && h in live && LiveHeader(m, h) && 0 < needed < m.pool[h]
    ensures var c := ShrinkAsWritten(m, h, needed);
      && c.objectCount == |live| - 1
      && c.pool[h] == m.pool[h]
  {
  }

  /** The first allocation from a fresh pool: a block of four words at word 0. */
  lemma FreshFourWordBlock()
    ensures var a := Allocator.AllocateWords(Allocator.Init(), 4);
      && a.Some? && a.value.payload == 1
      && LiveHeader(a.value.manager, 0) && a.value.manager.pool[0] == 4
  {
    var m0 := Allocator.Init();
    assert m0.table == [FreeTable.Record(0, POOL_SIZE)];
    assert FreeTable.FirstFit(m0.table, 4) == Some(0);
    var m := Allocator.AllocateWords(m0, 4).value.manager;
    assert m.table == [FreeTable.Record(4, POOL_SIZE - 4)];
  }

  /**
   * That block shrunk to one word (`managedRealloc(ptr, 0)`): the code as
   * written hands `deallocate` the whole block [0, 4) while the caller keeps
   * its pointer.
   */
  lemma ShrinkToOneWordFreesBlock()
    ensures var a := Allocator.AllocateWords(Allocator.Init(), 4);
      && a.Some? && LiveHeader(a.value.manager, 0) && 1 < a.value.manager.pool[0]
      && ShrinkAsWritten(a.value.manager, 0, 1).header == 0
      && ShrinkAsWritten(a.value.manager, 0, 1).len == 4
  {
    FreshFourWordBlock();
  }

  /** On the same block the corrected shrink keeps [0, 1) and frees exactly [1, 4). */
  lemma CorrectedShrinkKeepsBlock()
    ensures var a := Allocator.AllocateWords(Allocator.Init(), 4);
      && a.Some? && LiveHeader(a.value.manager, 0) && 1 < a.value.manager.pool[0]
      && var m := a.value.manager;
      && Allocator.Shrink(m, 0, 1).pool[0] == 1
      && FreeTable.FreeSet(Allocator.Shrink(m, 0, 1).table) == FreeTable.FreeSet(m.table) + FreeTable.Span(1, 4)
  {
    FreshFourWordBlock();
    var m := Allocator.AllocateWords(Allocator.Init(), 4).value.manager;
    Allocator.ShrinkReleases(m, 0, 1, 1, 3, 4);
  }

  // ---------------------------------------------------------------------------
  // Growing in place

  /**
   * The grow-in-place branch as written: the free range after the block
   * gives up its first `needed - meta` words in the table, and nothing else
   * changes. (The guard is the corrected one, under which the table holds
   * the entry the code looks up.)
   */
  function GrowInPlaceAsWritten(m: Manager, h: nat, needed: nat): (r: Manager)
    requires LiveHeader(m, h) && m.pool[h] < needed && Allocator.CanGrowInPlace(m, h, needed)
    ensures Wellformed(r)
  {
    var meta := m.pool[h];
    var k := FreeTable.Find(m.table, h + meta).value;
    var diff := needed - meta;
    FreeTable.TakeFrontValid(m.table, k, diff);
    Manager(m.pool, FreeTable.TakeFront(m.table, k, diff), m.objectCount, m.blocksAllocated)
  }

  /**
   * After the growth as written, the words the block was meant to gain are
   * in no free range and beyond the length its header records: nothing owns
   * them, and releasing the block later gives back only the old length.
   */
  lemma GrowLosesWords(m: Manager, h: nat, needed: nat)
    requires LiveHeader(m, h) && m.pool[h] < needed && Allocator.CanGrowInPlace(m, h, needed)
    ensures var r, meta := GrowInPlaceAsWritten(m, h, needed), m.pool[h];
      && r.pool[h] == meta
      && r.blocksAllocated == m.blocksAllocated
      && (forall w :: h + meta <= w < h + needed ==> w !in FreeTable.FreeSet(r.table) && h + r.pool[h] <= w)
      && h + meta !in FreeTable.FreeSet(r.table)
  {
    var meta := m.pool[h];
    var next: nat := h + meta;
    var k := FreeTable.Find(m.table, next).value;
    var diff: nat := needed - meta;
    var e: nat := next + diff;
    FreeTable.TakeFrontCarves(m.table, k, diff, next, e);
    var r := GrowInPlaceAsWritten(m, h, needed);
    assert r.table == FreeTable.TakeFront(m.table, k, diff);
    forall w | next <= w < e
      ensures w !in FreeTable.FreeSet(r.table)
    {
      assert FreeTable.Within(w, next, e);
    }
  }
}
