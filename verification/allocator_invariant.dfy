/**
 * The invariant the allocator's operations keep: every word of the pool is
 * either recorded free in the table or lies in exactly one live block, the
 * object count is the number of live blocks, and the allocated and free
 * word totals add up to the pool size.
 *
 * The set of live blocks is not part of the manager (the source keeps no
 * such list); it is a ghost parameter naming the header offsets of the
 * blocks handed out and not yet released. A block's length is its header.
 */
module AllocatorInvariant {
  import opened Optional
  import opened Config
  import FreeTable
  import opened Heap
  import opened Allocator
  import opened Tiling

  // ---------------------------------------------------------------------------
  // Interval facts

  lemma InSpan(w: int, lo: int, hi: int)
    ensures lo <= w < hi ==> w in FreeTable.Span(lo, hi)
  {
    if lo <= w < hi {
      assert FreeTable.Within(w, lo, hi);
    }
  }

  /** Two non-empty ranges with no common word lie one after the other. */
  lemma Apart(a: int, la: int, b: int, lb: int)
    requires 0 < la && 0 < lb
    requires FreeTable.Span(a, a + la) !! FreeTable.Span(b, b + lb)
    ensures a + la <= b || b + lb <= a
  {
    var w := if a <= b then b else a;
    if w < a + la && w < b + lb {
      InSpan(w, a, a + la);
      InSpan(w, b, b + lb);
      assert false;
    }
  }

  /** A block of a consistent manager is one `deallocate` accepts. */
  lemma LiveIsLiveHeader(m: Manager, live: set<nat>, h: nat)
    requires Consistent(m, live) && h in live
    ensures LiveHeader(m, h)
  {
    FreeTable.DisjointIffApart(m.table, h, m.pool[h]);
  }

  // ---------------------------------------------------------------------------
  // Tiling under the four changes the operations make

  /**
   * Rewriting words that are no live block's header (a payload, or a free
   * word) keeps the tiling.
   */
  lemma TiledRewrite(pool: seq<int>, free: set<int>, live: set<nat>, pool2: seq<int>)
    requires |pool| == POOL_SIZE && |pool2| == POOL_SIZE && Tiled(pool, free, live)
    requires forall h :: h in live ==> pool2[h] == pool[h]
    ensures Tiled(pool2, free, live)
  {
    forall w | 0 <= w < POOL_SIZE && w !in free
      ensures Owned(pool2, live, w)
    {
      assert Owned(pool, live, w);
      var h :| h in live && h < POOL_SIZE && h <= w < h + pool[h];
      assert pool2[h] == pool[h];
    }
  }

  /** Free words `h .. h + n` become a new live block headed at `h`. */
  lemma TiledAdd(pool: seq<int>, free: set<int>, live: set<nat>, h: nat, n: nat)
    requires |pool| == POOL_SIZE && Tiled(pool, free, live)
    requires 0 < n && h + n <= POOL_SIZE && FreeTable.Span(h, h + n) <= free
    ensures h !in live && Tiled(pool[h := n], free - FreeTable.Span(h, h + n), live + {h})
  {
    var pool2, free2 := pool[h := n], free - FreeTable.Span(h, h + n);
    InSpan(h, h, h + n);
    InSpan(h, h, h + pool[h]);
    forall g | g in live
      ensures pool2[g] == pool[g] && (g + pool[g] <= h || h + n <= g)
    {
      Apart(g, pool[g], h, n);
    }
    forall w | 0 <= w < POOL_SIZE && w !in free2
      ensures Owned(pool2, live + {h}, w)
    {
      if w in free {
        assert h in live + {h} && h <= w < h + pool2[h];
      } else {
        assert Owned(pool, live, w);
      var g :| g in live && g < POOL_SIZE && g <= w < g + pool[g];
        assert g in live + {h} && pool2[g] == pool[g];
      }
    }
  }

  /** The live block at `h` goes back to the free words. */
  lemma TiledRemove(pool: seq<int>, free: set<int>, live: set<nat>, h: nat, pool2: seq<int>)
    requires |pool| == POOL_SIZE && |pool2| == POOL_SIZE && Tiled(pool, free, live) && h in live
    requires forall g :: g in live && g != h ==> pool2[g] == pool[g]
    ensures Tiled(pool2, free + FreeTable.Span(h, h + pool[h]), live - {h})
  {
    var free2 := free + FreeTable.Span(h, h + pool[h]);
    forall g | g in live - {h}
      ensures FreeTable.Span(g, g + pool2[g]) !! free2
    {
      ApartDisjoint(g, pool[g], h, pool[h]);
    }
    forall w | 0 <= w < POOL_SIZE && w !in free2
      ensures Owned(pool2, live - {h}, w)
    {
      assert Owned(pool, live, w);
      var g :| g in live && g < POOL_SIZE && g <= w < g + pool[g];
      InSpan(w, h, h + pool[h]);
      assert g in live - {h} && pool2[g] == pool[g];
    }
  }

  /** Ranges that lie one after the other share no word. */
  lemma ApartDisjoint(a: int, la: int, b: int, lb: int)
    requires a + la <= b || b + lb <= a
    ensures FreeTable.Span(a, a + la) !! FreeTable.Span(b, b + lb)
  {
  }

  /** The live block at `h` keeps its first `k` words; the rest become free. */
  lemma TiledShrink(pool: seq<int>, free: set<int>, live: set<nat>, h: nat, k: nat, pool2: seq<int>)
    requires |pool| == POOL_SIZE && |pool2| == POOL_SIZE && Tiled(pool, free, live) && h in live
    requires 0 < k < pool[h] && pool2[h] == k
    requires forall g :: g in live && g != h ==> pool2[g] == pool[g]
    ensures Tiled(pool2, free + FreeTable.Span(h + k, h + pool[h]), live)
  {
    var free2 := free + FreeTable.Span(h + k, h + pool[h]);
    FreeTable.SpanJoin(h, h + k, h + pool[h]);
    forall g | g in live && g != h
      ensures FreeTable.Span(g, g + pool2[g]) !! free2
    {
      ApartDisjoint(g, pool[g], h, pool[h]);
    }
    forall w | 0 <= w < POOL_SIZE && w !in free2
      ensures Owned(pool2, live, w)
    {
      assert Owned(pool, live, w);
      var g :| g in live && g < POOL_SIZE && g <= w < g + pool[g];
      InSpan(w, h + k, h + pool[h]);
      assert g in live && g <= w < g + pool2[g];
    }
  }

  /** The live block at `h` takes the free words `h + pool[h] .. h + k`. */
  lemma TiledGrow(pool: seq<int>, free: set<int>, live: set<nat>, h: nat, k: nat, pool2: seq<int>)
    requires |pool| == POOL_SIZE && |pool2| == POOL_SIZE && Tiled(pool, free, live) && h in live
    requires pool[h] < k && h + k <= POOL_SIZE && pool2[h] == k
    requires FreeTable.Span(h + pool[h], h + k) <= free
    requires forall g :: g in live && g != h ==> pool2[g] == pool[g]
    ensures Tiled(pool2, free - FreeTable.Span(h + pool[h], h + k), live)
  {
    var free2 := free - FreeTable.Span(h + pool[h], h + k);
    FreeTable.SpanJoin(h, h + pool[h], h + k);
    forall g | g in live && g != h
      ensures g + pool[g] <= h || h + k <= g
    {
      Apart(g, pool[g], h, k);
    }
    forall w | 0 <= w < POOL_SIZE && w !in free2
      ensures Owned(pool2, live, w)
    {
      if w in free {
        assert h in live && h <= w < h + pool2[h];
      } else {
        assert Owned(pool, live, w);
      var g :| g in live && g < POOL_SIZE && g <= w < g + pool[g];
        assert g in live && g <= w < g + pool2[g];
      }
    }
  }

  // ---------------------------------------------------------------------------
  // The four changes at the level of the manager

  /** `r` is `m` with words `h .. h + n` taken out of the free table as a new block. */
  ghost predicate AddsBlock(m: Manager, r: Manager, h: nat, n: nat) {
    && Wellformed(m) && Wellformed(r) && 0 < n && h + n <= POOL_SIZE
    && r.pool == m.pool[h := n]
    && FreeTable.Span(h, h + n) <= FreeTable.FreeSet(m.table)
    && FreeTable.FreeSet(r.table) == FreeTable.FreeSet(m.table) - FreeTable.Span(h, h + n)
    && FreeTable.Sum(r.table) + n == FreeTable.Sum(m.table)
    && r.objectCount == m.objectCount + 1 && r.blocksAllocated == m.blocksAllocated + n
  }

  /** `r` is `m` with the block headed at `h` returned to the free table. */
  ghost predicate RemovesBlock(m: Manager, r: Manager, h: nat) {
    && Wellformed(m) && Wellformed(r) && h < POOL_SIZE && 0 < m.pool[h]
    && (forall w :: 0 <= w < POOL_SIZE && w != h ==> r.pool[w] == m.pool[w])
    && FreeTable.FreeSet(r.table) == FreeTable.FreeSet(m.table) + FreeTable.Span(h, h + m.pool[h])
    && FreeTable.Sum(r.table) == FreeTable.Sum(m.table) + m.pool[h]
    && r.objectCount == m.objectCount - 1 && r.blocksAllocated == m.blocksAllocated - m.pool[h]
  }

  /** `r` is `m` with the block at `h` cut to `k` words and the rest returned to the free table. */
  ghost predicate ShrinksBlock(m: Manager, r: Manager, h: nat, k: nat) {
    && Wellformed(m) && Wellformed(r) && h < POOL_SIZE && 0 < k < m.pool[h]
    && r.pool[h] == k
    && (forall w :: 0 <= w < POOL_SIZE && !(h <= w < h + m.pool[h]) ==> r.pool[w] == m.pool[w])
    && FreeTable.FreeSet(r.table) == FreeTable.FreeSet(m.table) + FreeTable.Span(h + k, h + m.pool[h])
    && FreeTable.Sum(r.table) == FreeTable.Sum(m.table) + (m.pool[h] - k)
    && r.objectCount == m.objectCount && r.blocksAllocated == m.blocksAllocated - (m.pool[h] - k)
  }

  /** `r` is `m` with the block at `h` extended to `k` words taken from the free table. */
  ghost predicate GrowsBlock(m: Manager, r: Manager, h: nat, k: nat) {
    && Wellformed(m) && Wellformed(r) && h < POOL_SIZE && m.pool[h] < k && h + k <= POOL_SIZE
    && r.pool == m.pool[h := k]
    && FreeTable.Span(h + m.pool[h], h + k) <= FreeTable.FreeSet(m.table)
    && FreeTable.FreeSet(r.table) == FreeTable.FreeSet(m.table) - FreeTable.Span(h + m.pool[h], h + k)
    && FreeTable.Sum(r.table) + (k - m.pool[h]) == FreeTable.Sum(m.table)
    && r.objectCount == m.objectCount && r.blocksAllocated == m.blocksAllocated + (k - m.pool[h])
  }

  /** `allocate` takes exactly the new block's words from the free table. */
  lemma AllocateAddsBlock(m: Manager, n: nat, a: Allocated)
    requires Wellformed(m) && 0 < n && AllocateWords(m, n) == Some(a)
    ensures 1 <= a.payload && AddsBlock(m, a.manager, a.payload - 1, n)
  {
    AllocateWordsConserves(m, n, a);
  }

  /** `deallocate` returns exactly the block's words to the free table. */
  lemma DeallocateRemovesBlock(m: Manager, h: nat)
    requires LiveHeader(m, h)
    ensures RemovesBlock(m, Deallocate(m, h + 1), h)
  {
    DeallocateConserves(m, h);
    DeallocateKeeps(m, h);
    RemovesBlockIntro(m, Deallocate(m, h + 1), h, m.pool[h]);
  }

  /** `RemovesBlock` from its parts, with the block's length named `l`. */
  lemma RemovesBlockIntro(m: Manager, r: Manager, h: nat, l: nat)
    requires Wellformed(m) && Wellformed(r) && h < POOL_SIZE && l == m.pool[h] && 0 < l
    requires forall w :: 0 <= w < POOL_SIZE && w != h ==> r.pool[w] == m.pool[w]
    requires FreeTable.FreeSet(r.table) == FreeTable.FreeSet(m.table) + FreeTable.Span(h, h + l)
    requires FreeTable.Sum(r.table) == FreeTable.Sum(m.table) + l
    requires r.objectCount == m.objectCount - 1 && r.blocksAllocated == m.blocksAllocated - l
    ensures RemovesBlock(m, r, h)
  {
  }

  /** Shrinking returns exactly the cut-off tail to the free table. */
  lemma ShrinkShrinksBlock(m: Manager, h: nat, needed: nat)
    requires LiveHeader(m, h) && 0 < needed < m.pool[h]
    ensures ShrinksBlock(m, Shrink(m, h, needed), h, needed)
  {
    ShrinkConserves(m, h, needed);
  }

  /** Growing in place takes exactly the added words from the free table. */
  lemma GrowInPlaceGrowsBlock(m: Manager, h: nat, needed: nat)
    requires LiveHeader(m, h) && m.pool[h] < needed && CanGrowInPlace(m, h, needed)
    ensures GrowsBlock(m, GrowInPlace(m, h, needed), h, needed)
  {
    GrowConserves(m, h, needed);
  }

  // ---------------------------------------------------------------------------
  // The operations keep the invariant

  /** The fresh manager has no live block. */
  lemma InitConsistent()
    ensures Consistent(Init(), {})
  {
    var m := Init();
    forall w | 0 <= w < POOL_SIZE
      ensures w in FreeTable.FreeSet(m.table)
    {
      InSpan(w, 0, POOL_SIZE);
    }
  }

  lemma AddBlockConsistent(m: Manager, live: set<nat>, r: Manager, h: nat, n: nat)
    requires Consistent(m, live) && AddsBlock(m, r, h, n)
    ensures h !in live && Consistent(r, live + {h})
  {
    TiledAdd(m.pool, FreeTable.FreeSet(m.table), live, h, n);
    assert |live + {h}| == |live| + 1;
  }

  lemma RemoveBlockConsistent(m: Manager, live: set<nat>, r: Manager, h: nat)
    requires Consistent(m, live) && h in live && RemovesBlock(m, r, h)
    ensures Consistent(r, live - {h})
  {
    TiledRemove(m.pool, FreeTable.FreeSet(m.table), live, h, r.pool);
  }

  lemma ShrinkBlockConsistent(m: Manager, live: set<nat>, r: Manager, h: nat, k: nat)
    requires Consistent(m, live) && h in live && ShrinksBlock(m, r, h, k)
    ensures Consistent(r, live)
  {
    forall g | g in live && g != h
      ensures r.pool[g] == m.pool[g]
    {
      assert g + m.pool[g] <= h || h + m.pool[h] <= g;
    }
    TiledShrink(m.pool, FreeTable.FreeSet(m.table), live, h, k, r.pool);
  }

  lemma GrowBlockConsistent(m: Manager, live: set<nat>, r: Manager, h: nat, k: nat)
    requires Consistent(m, live) && h in live && GrowsBlock(m, r, h, k)
    ensures Consistent(r, live)
  {
    TiledGrow(m.pool, FreeTable.FreeSet(m.table), live, h, k, r.pool);
  }

  /** A fresh block joins the live set; it was not live before. */
  lemma AllocateConsistent(m: Manager, live: set<nat>, n: nat, a: Allocated)
    requires Consistent(m, live) && 0 < n && AllocateWords(m, n) == Some(a)
    ensures a.payload - 1 !in live && Consistent(a.manager, live + {a.payload - 1})
  {
    var h: nat := a.payload - 1;
    AllocateAddsBlock(m, n, a);
    AddBlockConsistent(m, live, a.manager, h, n);
  }

  /** Releasing a live block removes it from the live set. */
  lemma DeallocateConsistent(m: Manager, live: set<nat>, h: nat)
    requires Consistent(m, live) && h in live
    ensures LiveHeader(m, h) && Consistent(Deallocate(m, h + 1), live - {h})
  {
    LiveIsLiveHeader(m, live, h);
    DeallocateRemovesBlock(m, h);
    RemoveBlockConsistent(m, live, Deallocate(m, h + 1), h);
  }

  /** Shrinking a live block keeps it live and releases its tail. */
  lemma ShrinkConsistent(m: Manager, live: set<nat>, h: nat, needed: nat)
    requires Consistent(m, live) && h in live && 0 < needed < m.pool[h]
    ensures LiveHeader(m, h) && Consistent(Shrink(m, h, needed), live)
  {
    LiveIsLiveHeader(m, live, h);
    ShrinkShrinksBlock(m, h, needed);
    ShrinkBlockConsistent(m, live, Shrink(m, h, needed), h, needed);
  }

  /** Growing a live block in place keeps it live over its new length. */
  lemma GrowConsistent(m: Manager, live: set<nat>, h: nat, needed: nat)
    requires Consistent(m, live) && h in live && m.pool[h] < needed
    ensures LiveHeader(m, h)
    ensures CanGrowInPlace(m, h, needed) ==> Consistent(GrowInPlace(m, h, needed), live)
  {
    LiveIsLiveHeader(m, live, h);
    if CanGrowInPlace(m, h, needed) {
      GrowInPlaceGrowsBlock(m, h, needed);
      GrowBlockConsistent(m, live, GrowInPlace(m, h, needed), h, needed);
    }
  }

  /** Moving a live block: the fresh block replaces the old one in the live set. */
  lemma RelocateConsistent(m: Manager, live: set<nat>, h: nat, needed: nat)
    requires Consistent(m, live) && h in live && m.pool[h] < needed
    ensures LiveHeader(m, h)
    ensures Relocate(m, h, needed).Some? ==> Replaces(live, h, Relocate(m, h, needed).value)
  {
    LiveIsLiveHeader(m, live, h);
    if AllocateWords(m, needed).Some? {
      var a := AllocateWords(m, needed).value;
      var d: nat := a.payload - 1;
      RelocateMoves(m, h, needed, a);
      AllocatedMoveConsistent(m, live, h, needed, a, d);
    }
  }

  lemma AllocatedMoveConsistent(m: Manager, live: set<nat>, h: nat, needed: nat, a: Allocated, d: nat)
    requires Consistent(m, live) && h in live && m.pool[h] < needed
    requires AllocateWords(m, needed) == Some(a) && d + 1 == a.payload
    ensures LiveHeader(CopyPayload(a, h, m.pool[h]), h)
    ensures Consistent(MoveTo(a, h, m.pool[h]), (live - {h}) + {d})
  {
    AllocateConsistent(m, live, needed, a);
    var meta: nat := m.pool[h];
    assert a.manager.pool[h] == meta && a.manager.pool[d] == needed;
    GrownMoveConsistent(a, live, d, h, meta);
  }

  /** Moving the live block at `h` into the block at `d` just added to the live set. */
  lemma GrownMoveConsistent(a: Allocated, live: set<nat>, d: nat, h: nat, meta: nat)
    requires Consistent(a.manager, live + {d}) && d !in live && h in live && d + 1 == a.payload
    requires meta == a.manager.pool[h] && meta <= a.manager.pool[d]
    ensures LiveHeader(CopyPayload(a, h, meta), h) && Consistent(MoveTo(a, h, meta), (live - {h}) + {d})
  {
    var grown := live + {d};
    MoveConsistent(a, grown, d, h, meta);
    assert grown - {h} == (live - {h}) + {d};
  }

  /**
   * Copying the payload of the live block at `h` into the longer live block
   * at `d`, then releasing `h`, leaves only `h` released.
   */
  lemma MoveConsistent(a: Allocated, live: set<nat>, d: nat, h: nat, meta: nat)
    requires Consistent(a.manager, live) && d in live && h in live && d != h && d + 1 == a.payload
    requires meta == a.manager.pool[h] && meta <= a.manager.pool[d]
    ensures LiveHeader(CopyPayload(a, h, meta), h) && Consistent(MoveTo(a, h, meta), live - {h})
  {
    var m := a.manager;
    var src: nat, n: nat := h + 1, meta - 1;
    CopyConsistent(m, live, d, src, n);
    var c := CopyPayload(a, h, meta);
    assert c == m.(pool := Copy(m.pool, src, d + 1, n));
    DeallocateConsistent(c, live, h);
  }

  /** Writing inside a live block's payload keeps the invariant. */
  lemma CopyConsistent(m: Manager, live: set<nat>, d: nat, src: nat, n: nat)
    requires Consistent(m, live) && d in live && n < m.pool[d] && src + n <= POOL_SIZE
    ensures Consistent(m.(pool := Copy(m.pool, src, d + 1, n)), live)
  {
    var copied := Copy(m.pool, src, d + 1, n);
    forall g | g in live
      ensures copied[g] == m.pool[g]
    {
      if g < d {
        assert g + m.pool[g] <= d;
      } else if d < g {
        assert d + m.pool[d] <= g;
      }
    }
    TiledRewrite(m.pool, FreeTable.FreeSet(m.table), live, copied);
  }

  /** Resizing a live block: the block the returned pointer names replaces it in the live set. */
  lemma ResizeConsistent(m: Manager, live: set<nat>, h: nat, needed: nat)
    requires Consistent(m, live) && h in live && 0 < needed
    ensures LiveHeader(m, h)
    ensures Resize(m, h, needed).Some? ==> Replaces(live, h, Resize(m, h, needed).value)
  {
    LiveIsLiveHeader(m, live, h);
    if m.pool[h] < needed && !CanGrowInPlace(m, h, needed) {
      RelocateConsistent(m, live, h, needed);
      assert Resize(m, h, needed) == Relocate(m, h, needed);
    } else {
      InPlaceConsistent(m, live, h, needed);
      InPlace(live, h, Resize(m, h, needed).value);
    }
  }

  /** Keeping, shrinking or growing a live block in place keeps the invariant. */
  lemma InPlaceConsistent(m: Manager, live: set<nat>, h: nat, needed: nat)
    requires Consistent(m, live) && h in live && 0 < needed && LiveHeader(m, h)
    requires needed <= m.pool[h] || CanGrowInPlace(m, h, needed)
    ensures Resize(m, h, needed).Some?
    ensures var r := Resize(m, h, needed).value; r.ptr == Addr(h + 1) && Consistent(r.manager, live)
  {
    var meta := m.pool[h];
    if meta == needed {
    } else if needed < meta {
      ShrinkConsistent(m, live, h, needed);
    } else {
      GrowConsistent(m, live, h, needed);
    }
  }

  /** A block resized where it stands keeps its place in the live set. */
  lemma InPlace(live: set<nat>, h: nat, r: Resized)
    requires h in live && r.ptr == Addr(h + 1) && Consistent(r.manager, live)
    ensures Replaces(live, h, r)
  {
    assert (live - {h}) + {(r.ptr.offset - 1) as nat} == live;
  }

  /** `managedRealloc` of a null pointer adds the fresh block to the live set. */
  lemma ReallocNullConsistent(m: Manager, live: set<nat>, size: nat)
    requires Consistent(m, live)
    ensures Realloc(m, Null, size).Some? ==>
      var r := Realloc(m, Null, size).value;
      && r.ptr.Addr? && 1 <= r.ptr.offset && (r.ptr.offset - 1) as nat !in live
      && Consistent(r.manager, live + {(r.ptr.offset - 1) as nat})
  {
    match Allocate(m, size)
    case None =>
      NullAllocates(m, size);
    case Some(a) =>
      NullAllocates(m, size);
      AllocateConsistent(m, live, WordsFor(size), a);
  }

  lemma NullAllocates(m: Manager, size: nat)
    requires Wellformed(m)
    ensures Allocate(m, size).None? ==> Realloc(m, Null, size).None?
    ensures Allocate(m, size).Some? ==>
      var a := Allocate(m, size).value;
      Realloc(m, Null, size) == Some(Resized(a.manager, Addr(a.payload)))
  {
  }

  /**
   * `managedRealloc` of a live block's payload pointer replaces the block in
   * the live set by the block the returned pointer names: the same one
   * unless it moved. Every live block's payload pointer is managed.
   */
  lemma ReallocConsistent(m: Manager, live: set<nat>, h: nat, size: nat)
    requires Consistent(m, live) && h in live
    ensures LiveHeader(m, h)
    ensures var r := Realloc(m, Addr(h + 1), size); r.Some? ==> Replaces(live, h, r.value)
  {
    LiveIsLiveHeader(m, live, h);
    ResizeConsistent(m, live, h, WordsFor(size));
    assert Realloc(m, Addr(h + 1), size) == Resize(m, h, WordsFor(size));
  }

  /**
   * Allocating and then releasing the same block gives back the table and
   * the counters; only the header word keeps a trace (the marker).
   */
  lemma AllocateThenDeallocate(m: Manager, n: nat)
    requires Wellformed(m) && 0 < n && AllocateWords(m, n).Some?
    ensures var a := AllocateWords(m, n).value;
      && LiveHeader(a.manager, a.payload - 1)
      && var r := Deallocate(a.manager, a.payload);
      && r.table == m.table
      && r.objectCount == m.objectCount && r.blocksAllocated == m.blocksAllocated
      && forall w :: 0 <= w < POOL_SIZE && w != a.payload - 1 ==> r.pool[w] == m.pool[w]
  {
    var a := AllocateWords(m, n).value;
    FreeTable.GetBlockReleaseRoundTrip(m.table, n);
    DeallocateTable(a.manager, a.payload);
  }
}
