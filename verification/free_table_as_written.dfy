/**
 * `deallocUpdate` exactly as Source/MemoryManager.cpp:64-131 writes it,
 * kept beside the corrected `FreeTable.Release` to exhibit where the two
 * part company.
 *
 * Three things differ from the coalescing rule the source describes:
 *  - with a single entry in the table (:68-78) only right adjacency is
 *    tested, so a range ending where the freed one starts is never joined;
 *  - below the lowest entry (:81-85) an adjacent entry is erased and the
 *    freed range inserted in its place, so the entry's own words are lost;
 *  - elsewhere (:93-104) the neighbours are looked up with `upper_bound`,
 *    which yields the entry ABOVE the freed range as "left" and the one
 *    after it as "right", so neither test can succeed on a valid table and
 *    the freed range is always inserted unmerged.
 * Where the code dereferences `end()` of the map (an empty table, or an
 * `upper_bound` at or next to the end) the behaviour is undefined; the
 * model answers `None` there.
 */
module FreeTableAsWritten {
  import opened Optional
  import FreeTable

  type Record = FreeTable.Record

  /** The keys of the map are strictly increasing (what `std::map` keeps). */
  ghost predicate Keyed(t: seq<Record>) {
    forall i, j :: 0 <= i < j < |t| ==> t[i].start < t[j].start
  }

  /** `lower_bound(key)`: the first entry whose start is not below `key`. */
  function LowerBound(t: seq<Record>, key: nat): (k: nat)
    requires Keyed(t)
    ensures k <= |t|
    ensures forall j :: 0 <= j < k ==> t[j].start < key
    ensures forall j :: k <= j < |t| ==> key <= t[j].start
    decreases |t|
  {
    if |t| == 0 || key <= t[0].start then 0
    else 1 + LowerBound(t[1..], key)
  }

  /** `upper_bound(key)`: the first entry whose start is above `key`. */
  function UpperBound(t: seq<Record>, key: nat): (k: nat)
    requires Keyed(t)
    ensures k <= |t|
    ensures forall j :: 0 <= j < k ==> t[j].start <= key
    ensures forall j :: k <= j < |t| ==> key < t[j].start
    decreases |t|
  {
    if |t| == 0 || key < t[0].start then 0
    else 1 + UpperBound(t[1..], key)
  }

  /** `insert(x)`: places `x` by its start; a start already present leaves the map unchanged. */
  function Insert(t: seq<Record>, x: Record): (r: seq<Record>)
    requires Keyed(t)
    ensures Keyed(r)
    ensures (exists i :: 0 <= i < |t| && t[i].start == x.start) ==> r == t
    ensures (forall i :: 0 <= i < |t| ==> t[i].start != x.start) ==> |r| == |t| + 1 && x in r
  {
    var k := LowerBound(t, x.start);
    if k < |t| && t[k].start == x.start then t
    else t[..k] + [x] + t[k..]
  }

  /** A fresh start adds exactly one record and keeps every other. */
  lemma InsertContents(t: seq<Record>, x: Record)
    requires Keyed(t) && forall i :: 0 <= i < |t| ==> t[i].start != x.start
    ensures multiset(Insert(t, x)) == multiset(t) + multiset{x}
  {
    var k := LowerBound(t, x.start);
    assert t == t[..k] + t[k..];
  }

  /** Where `insert` puts a fresh start: at its `lower_bound`, with the entries on either side kept in order. */
  lemma InsertPlaces(t: seq<Record>, x: Record)
    requires Keyed(t) && forall i :: 0 <= i < |t| ==> t[i].start != x.start
    ensures var r, k := Insert(t, x), LowerBound(t, x.start);
      && |r| == |t| + 1 && r[k] == x
      && (forall j :: 0 <= j < k ==> r[j] == t[j])
      && (forall j :: k < j < |r| ==> r[j] == t[j - 1])
  {
  }

  /**
   * `deallocUpdate((s, l))`: the updated table and the record returned to
   * `deallocate`, or `None` where the code reads through `end()`.
   */
  function Release(t: seq<Record>, s: nat, l: nat): (r: Option<FreeTable.Released>)
    requires Keyed(t)
    ensures r.None? <==> |t| == 0 || (1 < |t| && t[0].start <= s && |t| <= UpperBound(t, s) + 1)
    ensures r.Some? ==> Keyed(r.value.table)
  {
    var mem := FreeTable.Record(s, l);
    if |t| == 0 then None
    else if |t| == 1 then
      if s + l == t[0].start then
        Some(FreeTable.Released([FreeTable.Record(t[0].start - l, t[0].len + l)], mem))
      else
        Some(FreeTable.Released(Insert(t, mem), mem))
    else if s < t[0].start then
      if s + l == t[0].start then
        Some(FreeTable.Released(Insert(t[1..], mem), mem))
      else
        Some(FreeTable.Released(Insert(t, mem), mem))
    else
      var u := UpperBound(t, s);
      if |t| <= u + 1 then None
      else
        // leftIter is the entry found by upper_bound, which starts above s,
        // so its end never equals s and the two branches that test
        // leftAdjacent (:106-118) cannot run.
        var right := t[u + 1];
        var rightAdjacent := s + l == right.start;
        if rightAdjacent then
          var m := FreeTable.Record(s, right.len + l);
          Some(FreeTable.Released(Insert(t[..u + 1] + t[u + 2..], m), m))
        else
          Some(FreeTable.Released(Insert(t, mem), mem))
  }

  lemma ValidIsKeyed(t: seq<Record>)
    requires FreeTable.Valid(t)
    ensures Keyed(t)
  {
    forall i, j | 0 <= i < j < |t|
      ensures t[i].start < t[j].start
    {
      assert t[i].End() < t[j].start;
    }
  }

  /**
   * On a table the allocator can hold, the `upper_bound` branch never
   * coalesces: whenever it is defined it inserts the freed range as a new
   * entry and hands that same range back.
   */
  lemma GeneralBranchNeverMerges(t: seq<Record>, s: nat, l: nat)
    requires FreeTable.Releasable(t, s, l) && 1 < |t| && t[0].start <= s
    ensures Keyed(t)
    ensures Release(t, s, l).Some? ==>
      Release(t, s, l).value == FreeTable.Released(Insert(t, FreeTable.Record(s, l)), FreeTable.Record(s, l))
  {
    ValidIsKeyed(t);
    var u := UpperBound(t, s);
    if u + 1 < |t| {
      assert t[u].End() < t[u + 1].start;
    }
  }

  /** Whatever branch runs, the record handed back to `deallocate` is the freed range itself. */
  lemma ReturnsFreedRange(t: seq<Record>, s: nat, l: nat)
    requires FreeTable.Releasable(t, s, l)
    ensures Keyed(t)
    ensures Release(t, s, l).Some? ==> Release(t, s, l).value.merged == FreeTable.Record(s, l)
  {
    ValidIsKeyed(t);
    if 1 < |t| && t[0].start <= s {
      GeneralBranchNeverMerges(t, s, l);
    }
  }

  /** Two entries where the first ends at the second's start break the table's invariant. */
  lemma TouchingInvalid(w: seq<Record>, i: nat)
    requires i + 1 < |w| && w[i].End() == w[i + 1].start
    ensures !FreeTable.Valid(w)
  {
  }

  /**
   * A free entry ending exactly where the freed range starts is never joined
   * to it: on every valid table where the code is defined, the result holds
   * two touching entries and so is not a valid table.
   */
  lemma LeftNeighbourNeverJoined(t: seq<Record>, s: nat, l: nat)
    requires FreeTable.Releasable(t, s, l)
    requires exists i :: 0 <= i < |t| && t[i].End() == s
    ensures Keyed(t)
    ensures Release(t, s, l).Some? ==> !FreeTable.Valid(Release(t, s, l).value.table)
  {
    ValidIsKeyed(t);
    var i :| 0 <= i < |t| && t[i].End() == s;
    var x := FreeTable.Record(s, l);
    LeftTouchInserts(t, s, l, i);
    if Release(t, s, l).Some? {
      InsertBesideTouching(t, x, i);
    }
  }

  /** With an entry ending at `s`, every defined branch just inserts the freed range. */
  lemma LeftTouchInserts(t: seq<Record>, s: nat, l: nat, i: nat)
    requires FreeTable.Releasable(t, s, l) && i < |t| && t[i].End() == s
    ensures Keyed(t)
    ensures forall j :: 0 <= j < |t| ==> t[j].start != s
    ensures LowerBound(t, s) == i + 1
    ensures Release(t, s, l).Some? ==> Release(t, s, l).value.table == Insert(t, FreeTable.Record(s, l))
  {
    ValidIsKeyed(t);
    assert i + 1 < |t| ==> s < t[i + 1].start;
    if 1 < |t| && t[0].start <= s {
      GeneralBranchNeverMerges(t, s, l);
    }
  }

  /** Inserting right after an entry that ends where the new record starts breaks the invariant. */
  lemma InsertBesideTouching(t: seq<Record>, x: Record, i: nat)
    requires Keyed(t) && forall j :: 0 <= j < |t| ==> t[j].start != x.start
    requires i < |t| && t[i].End() == x.start && LowerBound(t, x.start) == i + 1
    ensures !FreeTable.Valid(Insert(t, x))
  {
    var r := Insert(t, x);
    var j: nat := i + 1;
    InsertPlaces(t, x);
    assert r[i] == t[i] && r[j] == x;
    TouchingInvalid(r, i);
  }

  /**
   * Below the lowest entry and touching it, the entry is erased and only the
   * freed range recorded: the table loses that entry's words.
   */
  lemma LowestBranchDropsEntry(t: seq<Record>, s: nat, l: nat)
    requires FreeTable.Releasable(t, s, l) && 1 < |t| && s + l == t[0].start
    ensures Keyed(t) && Release(t, s, l).Some?
    ensures FreeTable.Sum(Release(t, s, l).value.table) + t[0].len == FreeTable.Sum(t) + l
  {
    ValidIsKeyed(t);
    var x := FreeTable.Record(s, l);
    assert Insert(t[1..], x) == [x] + t[1..];
    assert ([x] + t[1..])[1..] == t[1..];
  }

  // ---------------------------------------------------------------------------
  // Inputs on which the code as written and the corrected release disagree

  /**
   * The `upper_bound` lookup: freeing [2, 5) next to the free range [0, 2)
   * leaves two touching entries, which the table's invariant forbids.
   */
  lemma UpperBoundMissesLeftNeighbour()
    ensures var t := [FreeTable.Record(0, 2), FreeTable.Record(10, 5), FreeTable.Record(20, 5)];
      && FreeTable.Releasable(t, 2, 3)
      && Keyed(t)
      && Release(t, 2, 3).Some?
      && !FreeTable.Valid(Release(t, 2, 3).value.table)
  {
    var t := [FreeTable.Record(0, 2), FreeTable.Record(10, 5), FreeTable.Record(20, 5)];
    FreeTable.ValidFromGaps(t);
    assert t[0].End() == 2;
    assert UpperBound(t, 2) == 1;
    LeftNeighbourNeverJoined(t, 2, 3);
  }

  /** On the same input the corrected release joins the two ranges into [0, 5). */
  lemma CorrectedJoinsLeftNeighbour()
    ensures var t := [FreeTable.Record(0, 2), FreeTable.Record(10, 5), FreeTable.Record(20, 5)];
      && FreeTable.Releasable(t, 2, 3)
      && FreeTable.Release(t, 2, 3).table
         == [FreeTable.Record(0, 5), FreeTable.Record(10, 5), FreeTable.Record(20, 5)]
  {
    var t := [FreeTable.Record(0, 2), FreeTable.Record(10, 5), FreeTable.Record(20, 5)];
    FreeTable.ValidFromGaps(t);
    assert FreeTable.Position(t, 2) == 1;
  }

  /**
   * Below the lowest entry: freeing [2, 5) right before the free range
   * [5, 10) erases that entry, so the table records 8 free words where 13
   * are free.
   */
  lemma LowestBranchLosesEntry()
    ensures var t := [FreeTable.Record(5, 5), FreeTable.Record(20, 5)];
      && FreeTable.Releasable(t, 2, 3)
      && Keyed(t)
      && Release(t, 2, 3).Some?
      && FreeTable.Sum(Release(t, 2, 3).value.table) == 8
      && FreeTable.Sum(t) + 3 == 13
  {
    var t := [FreeTable.Record(5, 5), FreeTable.Record(20, 5)];
    FreeTable.ValidFromGaps(t);
    LowestBranchDropsEntry(t, 2, 3);
  }

  /** On the same input the corrected release records [2, 10). */
  lemma CorrectedKeepsLowestEntry()
    ensures var t := [FreeTable.Record(5, 5), FreeTable.Record(20, 5)];
      && FreeTable.Releasable(t, 2, 3)
      && FreeTable.Release(t, 2, 3).table == [FreeTable.Record(2, 8), FreeTable.Record(20, 5)]
  {
    var t := [FreeTable.Record(5, 5), FreeTable.Record(20, 5)];
    FreeTable.ValidFromGaps(t);
    assert FreeTable.Position(t, 2) == 0;
  }

  /**
   * A single entry ending where the freed range starts: [0, 5) and the freed
   * [5, 8) end up as two touching entries.
   */
  lemma SingleEntryIgnoresLeft()
    ensures var t := [FreeTable.Record(0, 5)];
      && FreeTable.Releasable(t, 5, 3)
      && Keyed(t)
      && Release(t, 5, 3).Some?
      && !FreeTable.Valid(Release(t, 5, 3).value.table)
  {
    var t := [FreeTable.Record(0, 5)];
    FreeTable.ValidFromGaps(t);
    assert t[0].End() == 5;
    LeftNeighbourNeverJoined(t, 5, 3);
  }

  /** On the same input the corrected release gives the single range [0, 8). */
  lemma CorrectedJoinsSingleEntry()
    ensures var t := [FreeTable.Record(0, 5)];
      && FreeTable.Releasable(t, 5, 3)
      && FreeTable.Release(t, 5, 3).table == [FreeTable.Record(0, 8)]
  {
    var t := [FreeTable.Record(0, 5)];
    FreeTable.ValidFromGaps(t);
    assert FreeTable.Position(t, 5) == 1;
  }

  /**
   * Freeing a range above every entry of a two-entry table walks
   * `upper_bound` to `end()` and reads through it.
   */
  lemma TopmostReadsPastEnd()
    ensures var t := [FreeTable.Record(0, 2), FreeTable.Record(10, 5)];
      && FreeTable.Releasable(t, 20, 3)
      && Keyed(t)
      && Release(t, 20, 3).None?
  {
    var t := [FreeTable.Record(0, 2), FreeTable.Record(10, 5)];
    FreeTable.ValidFromGaps(t);
    ValidIsKeyed(t);
    assert UpperBound(t, 20) == 2;
  }

  /** On the same input the corrected release appends the range. */
  lemma CorrectedAppendsTopmost()
    ensures var t := [FreeTable.Record(0, 2), FreeTable.Record(10, 5)];
      && FreeTable.Releasable(t, 20, 3)
      && FreeTable.Release(t, 20, 3).table
         == [FreeTable.Record(0, 2), FreeTable.Record(10, 5), FreeTable.Record(20, 3)]
  {
    var t := [FreeTable.Record(0, 2), FreeTable.Record(10, 5)];
    FreeTable.ValidFromGaps(t);
    assert FreeTable.Position(t, 20) == 2;
  }
}
