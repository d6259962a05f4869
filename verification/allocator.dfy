/**
 * The general-purpose allocator of Source/MemoryManager.cpp: one pool of
 * POOL_SIZE words, the free-range table over it, and the two counters the
 * manager keeps.
 *
 * A block is a header word holding its length in words (header included)
 * followed by its payload; callers see the payload's word offset. When a
 * block is released its header word is overwritten with the negated length
 * of the free range that now holds it (the "marker" that `managedRealloc`
 * inspects to grow a block in place).
 *
 * Pointers are word offsets from the start of the pool; an offset outside
 * the pool stands for memory the manager does not own.
 *
 * The operations here are the corrected ones (see `AllocatorAsWritten` for
 * the code as written): `managedRealloc` counts in words, shrinks by
 * releasing the tail it cuts off, records the new length when it grows in
 * place, and treats every offset inside the pool as managed.
 */
module Allocator {
  import opened Optional
  import opened Config
  import FreeTable
  import opened Heap

  /**
   * The words a request of `size` bytes occupies: the payload rounded up to
   * whole words, plus the header (`ceil(size / m_ptrSize) + 1`).
   */
  function WordsFor(size: nat): (n: nat)
    ensures 1 <= n
    ensures size <= (n - 1) * WORD_SIZE < size + WORD_SIZE
  {
    (size + WORD_SIZE - 1) / WORD_SIZE + 1
  }

  // ---------------------------------------------------------------------------
  // Construction, allocation and release

  /**
   * The constructor: a zeroed pool whose first word marks one free range
   * covering the whole pool, that range as the only table entry, and both
   * counters at zero.
   */
  function Init(): (m: Manager)
    ensures Wellformed(m)
    ensures FreeTable.FreeSet(m.table) == FreeTable.Span(0, POOL_SIZE)
    ensures FreeTable.Sum(m.table) == POOL_SIZE
    ensures m.pool[0] == -(POOL_SIZE as int) && forall w :: 0 < w < POOL_SIZE ==> m.pool[w] == 0
    ensures m.objectCount == 0 && m.blocksAllocated == 0
  {
    var t := [FreeTable.Record(0, POOL_SIZE)];
    FreeTable.SingletonMeasures(t[0]);
    Manager(seq(POOL_SIZE, w => if w == 0 then -(POOL_SIZE as int) else 0), t, 0, 0)
  }

  /**
   * `allocate` once the request is in words: the first free range of at
   * least `n` words gives up its first `n` words, whose first word becomes
   * the header. `None` when no free range is long enough (the source walks
   * past the end of the table there).
   */
  function AllocateWords(m: Manager, n: nat): (r: Option<Allocated>)
    requires Wellformed(m) && 0 < n
    ensures r.None? <==> forall i :: 0 <= i < |m.table| ==> m.table[i].len < n
    ensures r.Some? ==>
      var a, h := r.value, r.value.payload - 1;
      && 1 <= a.payload && h + n <= POOL_SIZE
      && Wellformed(a.manager)
      && a.manager.pool == m.pool[h := n]
      && a.manager.objectCount == m.objectCount + 1
      && a.manager.blocksAllocated == m.blocksAllocated + n
    ensures r.Some? ==> FreeTable.FirstFitStart(m.table, n, r.value.payload - 1)
  {
    FreeTable.GetBlockValid(m.table, n);
    match FreeTable.GetBlock(m.table, n)
    case None => None
    case Some(taken) =>
      var h := taken.start;
      Some(Allocated(Manager(m.pool[h := n], taken.table, m.objectCount + 1, m.blocksAllocated + n), h + 1))
  }

  /** `allocate(size)`: a block whose payload holds at least `size` bytes. */
  function Allocate(m: Manager, size: nat): (r: Option<Allocated>)
    requires Wellformed(m)
    ensures r.None? <==> forall i :: 0 <= i < |m.table| ==> m.table[i].len < WordsFor(size)
    ensures r.Some? ==>
      var a := r.value;
      && 1 <= a.payload && Wellformed(a.manager)
      && a.payload - 1 + WordsFor(size) <= POOL_SIZE
      && a.manager.pool == m.pool[a.payload - 1 := WordsFor(size)]
      && size <= (a.manager.pool[a.payload - 1] - 1) * WORD_SIZE
      && a.manager.objectCount == m.objectCount + 1
      && a.manager.blocksAllocated == m.blocksAllocated + WordsFor(size)
    ensures r.Some? ==> FreeTable.FirstFitStart(m.table, WordsFor(size), r.value.payload - 1)
  {
    AllocateWords(m, WordsFor(size))
  }

  /**
   * `deallocate(payload)`: the block's range goes back to the table and its
   * header becomes the marker of the free range that now holds it.
   */
  function Deallocate(m: Manager, payload: nat): (r: Manager)
    requires 1 <= payload && LiveHeader(m, payload - 1)
    ensures var h := payload - 1;
      && Wellformed(r)
      && r.pool[h] < 0
      && r.pool[h] == -(FreeTable.Release(m.table, h, m.pool[h]).merged.len as int)
      && (forall w :: 0 <= w < |m.pool| && w != h ==> r.pool[w] == m.pool[w])
      && r.objectCount == m.objectCount - 1
      && r.blocksAllocated == m.blocksAllocated - m.pool[h]
  {
    var h: nat, len: nat := payload - 1, m.pool[payload - 1];
    FreeTable.ReleaseValid(m.table, h, len);
    var rel := FreeTable.Release(m.table, h, len);
    Manager(m.pool[h := -(rel.merged.len as int)], rel.table, m.objectCount - 1, m.blocksAllocated - len)
  }

  /** Allocation moves exactly the block's words out of the free table. */
  lemma AllocateWordsConserves(m: Manager, n: nat, a: Allocated)
    requires Wellformed(m) && 0 < n && AllocateWords(m, n) == Some(a)
    ensures var h := a.payload - 1;
      && FreeTable.Span(h, h + n) <= FreeTable.FreeSet(m.table)
      && FreeTable.FreeSet(a.manager.table) == FreeTable.FreeSet(m.table) - FreeTable.Span(h, h + n)
      && FreeTable.Sum(a.manager.table) + n == FreeTable.Sum(m.table)
  {
    var i := FreeTable.FirstFit(m.table, n).value;
    FreeTable.TakeFrontConserves(m.table, i, n);
  }

  /**
   * The table after `allocate` is `getBlock`'s: the first entry of at least
   * `n` words loses its first `n` words, and no other entry changes.
   */
  lemma AllocateTable(m: Manager, n: nat)
    requires Wellformed(m) && 0 < n && AllocateWords(m, n).Some?
    ensures FreeTable.FirstFit(m.table, n).Some?
    ensures var i, a := FreeTable.FirstFit(m.table, n).value, AllocateWords(m, n).value;
      && a.payload - 1 == m.table[i].start
      && a.manager.table == FreeTable.TakeFront(m.table, i, n)
  {
  }

  /** Release moves exactly the block's words into the free table. */
  lemma DeallocateConserves(m: Manager, h: nat)
    requires LiveHeader(m, h)
    ensures var r := Deallocate(m, h + 1);
      && FreeTable.FreeSet(r.table) == FreeTable.FreeSet(m.table) + FreeTable.Span(h, h + m.pool[h])
      && FreeTable.Sum(r.table) == FreeTable.Sum(m.table) + m.pool[h]
  {
    var l: nat := m.pool[h];
    DeallocateTable(m, h + 1);
    FreeTable.ReleaseConserves(m.table, h, l);
  }

  /** `Deallocate`'s effect on the pool and the counters, stated for the block's header `h`. */
  lemma DeallocateKeeps(m: Manager, h: nat)
    requires LiveHeader(m, h)
    ensures var r := Deallocate(m, h + 1);
      && Wellformed(r)
      && (forall w :: 0 <= w < POOL_SIZE && w != h ==> r.pool[w] == m.pool[w])
      && r.objectCount == m.objectCount - 1
      && r.blocksAllocated == m.blocksAllocated - m.pool[h]
  {
    var payload: nat := h + 1;
    assert payload - 1 == h;
  }

  lemma DeallocateTable(m: Manager, payload: nat)
    requires 1 <= payload && LiveHeader(m, payload - 1)
    ensures var h: nat, l: nat := payload - 1, m.pool[payload - 1];
      Deallocate(m, payload).table == FreeTable.Release(m.table, h, l).table
  {
  }

  // ---------------------------------------------------------------------------
  // managedRealloc

  /**
   * The pointer can be the payload of a block in the pool (the test that
   * guards against foreign memory): a block's header lies in the pool, so
   * its payload offset is at most POOL_SIZE, which a header-only block in
   * the last word has.
   */
  predicate Managed(offset: int) {
    0 <= offset <= POOL_SIZE
  }

  lemma TailReleasable(t: seq<FreeTable.Record>, s: nat, l: nat, k: nat)
    requires FreeTable.Releasable(t, s, l) && 0 < k < l
    ensures FreeTable.Releasable(t, s + k, l - k)
  {
  }

  /**
   * Shrinking a block of `pool[h]` words to `needed`: the header records the
   * new length and the cut-off tail is released, its first word becoming the
   * marker of the free range that now holds it. The object stays allocated.
   */
  function Shrink(m: Manager, h: nat, needed: nat): (r: Manager)
    requires LiveHeader(m, h) && 0 < needed < m.pool[h]
    ensures var meta := m.pool[h];
      && Wellformed(r)
      && r.pool[h] == needed
      && r.pool[h + needed] < 0
      && FreeTable.Releasable(m.table, h + needed, meta - needed)
      && r.pool[h + needed] == -(FreeTable.Release(m.table, h + needed, meta - needed).merged.len as int)
      && (forall w :: 0 <= w < |m.pool| && w != h && w != h + needed ==> r.pool[w] == m.pool[w])
      && r.objectCount == m.objectCount
      && r.blocksAllocated == m.blocksAllocated - (meta - needed)
  {
    var meta := m.pool[h];
    var s: nat, l: nat := h + needed, meta - needed;
    TailReleasable(m.table, h, meta, needed);
    FreeTable.ReleaseValid(m.table, s, l);
    var rel := FreeTable.Release(m.table, s, l);
    var pool := m.pool[h := needed][s := -(rel.merged.len as int)];
    Manager(pool, rel.table, m.objectCount, m.blocksAllocated - (meta - needed))
  }

  /** Shrinking moves exactly the cut-off tail into the free table. */
  lemma ShrinkConserves(m: Manager, h: nat, needed: nat)
    requires LiveHeader(m, h) && 0 < needed < m.pool[h]
    ensures var r := Shrink(m, h, needed);
      && FreeTable.FreeSet(r.table) == FreeTable.FreeSet(m.table) + FreeTable.Span(h + needed, h + m.pool[h])
      && FreeTable.Sum(r.table) == FreeTable.Sum(m.table) + (m.pool[h] - needed)
  {
    var s: nat, l: nat, e: nat := h + needed, m.pool[h] - needed, h + m.pool[h];
    ShrinkReleases(m, h, needed, s, l, e);
  }

  lemma ShrinkReleases(m: Manager, h: nat, needed: nat, s: nat, l: nat, e: nat)
    requires LiveHeader(m, h) && 0 < needed < m.pool[h]
    requires s == h + needed && l == m.pool[h] - needed && e == h + m.pool[h]
    ensures FreeTable.FreeSet(Shrink(m, h, needed).table) == FreeTable.FreeSet(m.table) + FreeTable.Span(s, e)
    ensures FreeTable.Sum(Shrink(m, h, needed).table) == FreeTable.Sum(m.table) + l
  {
    FreeTable.ReleaseTailConserves(m.table, h, m.pool[h], s, l, e);
    ShrinkTable(m, h, needed, s, l);
  }

  lemma ShrinkTable(m: Manager, h: nat, needed: nat, s: nat, l: nat)
    requires LiveHeader(m, h) && 0 < needed < m.pool[h]
    requires s == h + needed && l == m.pool[h] - needed && FreeTable.Releasable(m.table, s, l)
    ensures Shrink(m, h, needed).table == FreeTable.Release(m.table, s, l).table
  {
  }

  /**
   * Growing in place is possible: the word after the block carries a marker
   * of a free range long enough to give up `needed - pool[h]` words and keep
   * at least one, and the table has an entry starting there whose own
   * length passes the same test.
   */
  predicate CanGrowInPlace(m: Manager, h: nat, needed: nat)
    requires LiveHeader(m, h)
  {
    var meta := m.pool[h];
    var next := h + meta;
    && next < POOL_SIZE
    && m.pool[next] < -1 && -m.pool[next] + meta >= needed + 1
    && match FreeTable.Find(m.table, next)
       case Some(k) => m.table[k].len + meta >= needed + 1
       case None => false
  }

  /**
   * Growing in place: the free range after the block gives up its first
   * `needed - pool[h]` words and the header records the new length.
   */
  function GrowInPlace(m: Manager, h: nat, needed: nat): (r: Manager)
    requires LiveHeader(m, h) && m.pool[h] < needed && CanGrowInPlace(m, h, needed)
    ensures var meta := m.pool[h];
      && Wellformed(r)
      && h + needed < POOL_SIZE
      && r.pool == m.pool[h := needed]
      && r.objectCount == m.objectCount
      && r.blocksAllocated == m.blocksAllocated + (needed - meta)
  {
    var meta := m.pool[h];
    var k := FreeTable.Find(m.table, h + meta).value;
    var diff := needed - meta;
    FreeTable.TakeFrontValid(m.table, k, diff);
    Manager(m.pool[h := needed], FreeTable.TakeFront(m.table, k, diff),
            m.objectCount, m.blocksAllocated + diff)
  }

  /** Growing in place moves exactly the words the block gains out of the free table. */
  lemma GrowConserves(m: Manager, h: nat, needed: nat)
    requires LiveHeader(m, h) && m.pool[h] < needed && CanGrowInPlace(m, h, needed)
    ensures var r, next := GrowInPlace(m, h, needed), h + m.pool[h];
      && FreeTable.Span(next, h + needed) <= FreeTable.FreeSet(m.table)
      && FreeTable.FreeSet(r.table) == FreeTable.FreeSet(m.table) - FreeTable.Span(next, h + needed)
      && FreeTable.Sum(r.table) + (needed - m.pool[h]) == FreeTable.Sum(m.table)
  {
    var meta := m.pool[h];
    var next: nat := h + meta;
    var k := FreeTable.Find(m.table, next).value;
    var diff: nat := needed - meta;
    assert m.table[k].start == next && next + diff == h + needed;
    GrowTable(m, h, needed, k, diff);
    FreeTable.TakeFrontConserves(m.table, k, diff);
  }

  lemma GrowTable(m: Manager, h: nat, needed: nat, k: nat, diff: nat)
    requires LiveHeader(m, h) && m.pool[h] < needed && CanGrowInPlace(m, h, needed)
    requires FreeTable.Find(m.table, h + m.pool[h]) == Some(k) && diff == needed - m.pool[h]
    ensures diff <= m.table[k].len
    ensures GrowInPlace(m, h, needed).table == FreeTable.TakeFront(m.table, k, diff)
  {
  }

  /** `std::copy(src, src + n, dst)` on the pool: words `dst..dst + n` take the values of `src..src + n`. */
  function Copy(pool: seq<int>, src: nat, dst: nat, n: nat): (r: seq<int>)
    requires src + n <= |pool| && dst + n <= |pool|
    ensures |r| == |pool|
    ensures forall w :: dst <= w < dst + n ==> r[w] == pool[w - dst + src]
    ensures forall w :: 0 <= w < |pool| && !(dst <= w < dst + n) ==> r[w] == pool[w]
  {
    seq(|pool|, w requires 0 <= w < |pool| => if dst <= w < dst + n then pool[src + w - dst] else pool[w])
  }

  lemma CopyAt(pool: seq<int>, src: nat, dst: nat, n: nat, w: nat)
    requires src + n <= |pool| && dst + n <= |pool| && dst <= w < dst + n
    ensures Copy(pool, src, dst, n)[w] == pool[w - dst + src]
  {
  }

  /** The copy loop word by word, for ranges that do not overlap. */
  method CopyLoop(pool: seq<int>, src: nat, dst: nat, n: nat) returns (r: seq<int>)
    requires src + n <= |pool| && dst + n <= |pool|
    requires src + n <= dst || dst + n <= src
    ensures r == Copy(pool, src, dst, n)
  {
    r := pool;
    var k := 0;
    while k < n
      invariant 0 <= k <= n && |r| == |pool|
      invariant forall w :: dst <= w < dst + k ==> r[w] == pool[w - dst + src]
      invariant forall w :: 0 <= w < |pool| && !(dst <= w < dst + k) ==> r[w] == pool[w]
    {
      r := r[dst + k := r[src + k]];
      k := k + 1;
    }
  }

  /**
   * The manager after the payload of the block at `h` (`meta - 1` words) is
   * copied to the fresh block `a` hands out.
   */
  function CopyPayload(a: Allocated, h: nat, meta: nat): (c: Manager)
    requires 1 <= meta && h + meta <= |a.manager.pool| && a.payload + meta - 1 <= |a.manager.pool|
  {
    a.manager.(pool := Copy(a.manager.pool, h + 1, a.payload, meta - 1))
  }

  /**
   * After `AllocateWords(m, needed)` the block at `h` is still intact: the
   * fresh block lies wholly apart from it, so copying the payload and
   * releasing the old block are both well defined.
   */
  lemma MovedApart(m: Manager, h: nat, needed: nat, a: Allocated)
    requires LiveHeader(m, h) && m.pool[h] < needed && AllocateWords(m, needed) == Some(a)
    ensures var d, meta := a.payload - 1, m.pool[h];
      && (d + needed <= h || h + meta <= d)
      && a.manager.pool[h] == meta
      && LiveHeader(CopyPayload(a, h, meta), h)
      && CopyPayload(a, h, meta).pool[h] == meta
  {
    var meta: nat := m.pool[h];
    var d: nat := a.payload - 1;
    AllocateWordsConserves(m, needed, a);
    FreeTable.DisjointIffApart(m.table, h, meta);
    var w := if h <= d then d else h;
    assert FreeTable.Within(w, h, h + meta) ==> w in FreeTable.Span(h, h + meta);
    assert FreeTable.Within(w, d, d + needed) ==> w in FreeTable.Span(d, d + needed);
    var c := CopyPayload(a, h, meta);
    assert c.pool[h] == meta;
    FreeTable.DisjointIffApart(a.manager.table, h, meta);
  }

  /** The payload moved into the fresh block `a` hands out and the old block at `h` released. */
  function MoveTo(a: Allocated, h: nat, meta: nat): (n: Manager)
    requires 1 <= meta && h + meta <= |a.manager.pool| && a.payload + meta - 1 <= |a.manager.pool|
    requires LiveHeader(CopyPayload(a, h, meta), h)
    ensures Wellformed(n)
    ensures forall w :: 0 <= w < POOL_SIZE && w != h ==> n.pool[w] == CopyPayload(a, h, meta).pool[w]
    ensures n.objectCount == a.manager.objectCount - 1
    ensures n.blocksAllocated == a.manager.blocksAllocated - CopyPayload(a, h, meta).pool[h]
  {
    var c := CopyPayload(a, h, meta);
    DeallocateKeeps(c, h);
    Deallocate(c, h + 1)
  }

  /**
   * The words of the moved payload: the header written at `d`, the copy of
   * `meta - 1` words from `h + 1` to `d + 1`, then one more word changed at
   * `h`, leave words `d + 1 .. d + meta` equal to the old `h + 1 .. h + meta`.
   */
  lemma PayloadMoved(p0: seq<int>, p1: seq<int>, c: seq<int>, n: seq<int>, d: nat, needed: nat, h: nat, meta: nat,
                      src: nat, dst: nat, k: nat)
    requires 1 <= meta < needed && h + meta <= |p0| && d + needed <= |p0|
    requires d + needed <= h || h + meta <= d
    requires src == h + 1 && dst == d + 1 && k == meta - 1
    requires p1 == p0[d := needed] && c == Copy(p1, src, dst, k) && |n| == |p0|
    requires forall w :: 0 <= w < |p0| && w != h ==> n[w] == c[w]
    ensures n[d] == needed
    ensures SameWords(n, dst, p0, src, k)
    ensures forall w :: 0 <= w < |p0| && !(h <= w < h + meta) && !(d <= w < d + needed) ==> n[w] == p0[w]
  {
    forall w | dst <= w < dst + k
      ensures n[w] == p0[w - dst + src]
    {
      CopyAt(p1, src, dst, k, w);
    }
  }

  /** What moving the block does to the pool and the counters. */
  lemma MoveToFacts(m: Manager, h: nat, needed: nat, a: Allocated)
    requires LiveHeader(m, h) && m.pool[h] < needed && AllocateWords(m, needed) == Some(a)
    ensures var meta, d := m.pool[h], a.payload - 1;
      && d + needed <= POOL_SIZE
      && (d + needed <= h || h + meta <= d)
      && LiveHeader(CopyPayload(a, h, meta), h)
      && var n := MoveTo(a, h, meta);
      && Resizes(m, h, needed, Resized(n, Addr(a.payload)))
      && n.objectCount == m.objectCount
      && n.blocksAllocated == m.blocksAllocated + needed - meta
  {
    MovedApart(m, h, needed, a);
    MoveCounts(m, h, needed, a);
    MoveResizes(m, h, needed, a);
  }

  /** Moving keeps the object count and trades the old block's words for the fresh block's. */
  lemma MoveCounts(m: Manager, h: nat, needed: nat, a: Allocated)
    requires LiveHeader(m, h) && m.pool[h] < needed && AllocateWords(m, needed) == Some(a)
    requires LiveHeader(CopyPayload(a, h, m.pool[h]), h) && CopyPayload(a, h, m.pool[h]).pool[h] == m.pool[h]
    ensures var n := MoveTo(a, h, m.pool[h]);
      && n.objectCount == m.objectCount
      && n.blocksAllocated == m.blocksAllocated + needed - m.pool[h]
  {
  }

  /** The moved block carries `needed` in its header and the old payload after it. */
  lemma MoveResizes(m: Manager, h: nat, needed: nat, a: Allocated)
    requires LiveHeader(m, h) && m.pool[h] < needed
    requires 1 <= a.payload && a.payload - 1 + needed <= POOL_SIZE && a.manager.pool == m.pool[a.payload - 1 := needed]
    requires LiveHeader(CopyPayload(a, h, m.pool[h]), h)
    requires a.payload - 1 + needed <= h || h + m.pool[h] <= a.payload - 1
    ensures Resizes(m, h, needed, Resized(MoveTo(a, h, m.pool[h]), Addr(a.payload)))
  {
    var meta: nat := m.pool[h];
    var p: nat := a.payload;
    var d: nat := p - 1;
    var c := CopyPayload(a, h, meta).pool;
    var n := MoveTo(a, h, meta);
    var src: nat, k: nat := h + 1, meta - 1;
    assert c == Copy(a.manager.pool, src, p, k);
    PayloadMoved(m.pool, a.manager.pool, c, n.pool, d, needed, h, meta, src, p, k);
    assert Min(meta, needed) - 1 == k;
    assert Untouched(n.pool, m.pool, h, meta, d, needed);
  }

  /**
   * Moving a block that cannot grow in place: a fresh block of `needed`
   * words, the old payload (`pool[h] - 1` words) copied into it, and the
   * old block released. `None` when no free range is long enough.
   */
  function Relocate(m: Manager, h: nat, needed: nat): (r: Option<Resized>)
    requires LiveHeader(m, h) && m.pool[h] < needed
    ensures r.None? <==> forall i :: 0 <= i < |m.table| ==> m.table[i].len < needed
    ensures r.Some? ==> Resizes(m, h, needed, r.value)
    ensures r.Some? ==>
      var n, d, meta := r.value.manager, r.value.ptr.offset - 1, m.pool[h];
      && (d + needed <= h || h + meta <= d)
      && n.objectCount == m.objectCount
      && n.blocksAllocated == m.blocksAllocated + needed - meta
  {
    match AllocateWords(m, needed)
    case None => None
    case Some(a) =>
      MoveToFacts(m, h, needed, a);
      Some(Resized(MoveTo(a, h, m.pool[h]), Addr(a.payload)))
  }

  /** The manager `Relocate` returns: the payload copied into the fresh block, then the old block released. */
  lemma RelocateMoves(m: Manager, h: nat, needed: nat, a: Allocated)
    requires LiveHeader(m, h) && m.pool[h] < needed && AllocateWords(m, needed) == Some(a)
    ensures LiveHeader(CopyPayload(a, h, m.pool[h]), h)
    ensures Relocate(m, h, needed) == Some(Resized(MoveTo(a, h, m.pool[h]), Addr(a.payload)))
  {
    MoveToFacts(m, h, needed, a);
  }

  /**
   * Resizing the live block at `h` to `needed` words: kept when the length
   * already matches, shrunk, grown in place, or moved. The first
   * `min(pool[h], needed) - 1` payload words survive at the returned
   * pointer; `None` only when the block has to move and no free range is
   * long enough.
   */
  function Resize(m: Manager, h: nat, needed: nat): (r: Option<Resized>)
    requires LiveHeader(m, h) && 0 < needed
    ensures r.None? <==>
      && m.pool[h] < needed && !CanGrowInPlace(m, h, needed)
      && forall i :: 0 <= i < |m.table| ==> m.table[i].len < needed
    ensures r.Some? ==> Resizes(m, h, needed, r.value)
  {
    var meta := m.pool[h];
    if meta == needed then
      KeepResizes(m, h, needed);
      Some(Resized(m, Addr(h + 1)))
    else if needed < meta then
      ShrinkResizes(m, h, needed);
      Some(Resized(Shrink(m, h, needed), Addr(h + 1)))
    else if CanGrowInPlace(m, h, needed) then
      GrowResizes(m, h, needed);
      Some(Resized(GrowInPlace(m, h, needed), Addr(h + 1)))
    else Relocate(m, h, needed)
  }

  lemma KeepResizes(m: Manager, h: nat, needed: nat)
    requires LiveHeader(m, h) && m.pool[h] == needed
    ensures Resizes(m, h, needed, Resized(m, Addr(h + 1)))
  {
  }

  /** A shrunk block keeps its first `needed - 1` payload words where they were. */
  lemma ShrinkResizes(m: Manager, h: nat, needed: nat)
    requires LiveHeader(m, h) && 0 < needed < m.pool[h]
    ensures Resizes(m, h, needed, Resized(Shrink(m, h, needed), Addr(h + 1)))
  {
  }

  /** A block grown in place keeps its whole payload where it was. */
  lemma GrowResizes(m: Manager, h: nat, needed: nat)
    requires LiveHeader(m, h) && m.pool[h] < needed && CanGrowInPlace(m, h, needed)
    ensures Resizes(m, h, needed, Resized(GrowInPlace(m, h, needed), Addr(h + 1)))
  {
  }

  /**
   * `managedRealloc(ptr, size)`. A null pointer allocates; a pointer outside
   * the pool comes back untouched; otherwise the block is resized to hold
   * `WordsFor(size)` words, keeping its payload up to the new length.
   */
  function Realloc(m: Manager, ptr: Ptr, size: nat): (r: Option<Resized>)
    requires Wellformed(m)
    requires ptr.Addr? && Managed(ptr.offset) ==> 1 <= ptr.offset && LiveHeader(m, ptr.offset - 1)
    ensures ptr.Addr? && !Managed(ptr.offset) ==> r == Some(Resized(m, ptr))
    ensures r.None? ==> forall i :: 0 <= i < |m.table| ==> m.table[i].len < WordsFor(size)
    ensures r.Some? && ptr.Null? ==>
      && Delivers(r.value, WordsFor(size))
      && r.value.manager.pool == m.pool[r.value.ptr.offset - 1 := WordsFor(size)]
    ensures r.Some? && ptr.Addr? && Managed(ptr.offset) ==> Resizes(m, ptr.offset - 1, WordsFor(size), r.value)
  {
    match ptr
    case Null =>
      (match Allocate(m, size)
       case None => None
       case Some(a) => Some(Resized(a.manager, Addr(a.payload))))
    case Addr(o) =>
      if !Managed(o) then Some(Resized(m, ptr))
      else Resize(m, o - 1, WordsFor(size))
  }
}
