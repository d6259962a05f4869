/**
 * The free-range table of Source/MemoryManager.cpp: `m_deallocTable`, an
 * address-ordered map from the first word of each free range to its length
 * in words, with first-fit reservation (`getBlock`) and coalescing release
 * (`deallocUpdate`).
 *
 * The map is modelled as a sequence of records sorted by start. `Valid`
 * states the table's invariant: positive lengths, every range inside the
 * pool, and a gap of at least one word between consecutive ranges, so that
 * ranges are disjoint and never address-adjacent.
 *
 * `Release` follows the neighbour rules the source states in its comments
 * and branch bodies (left = greatest start below the freed range, right =
 * least start above it); the code as written looks up different entries.
 * That version is `FreeTableAsWritten.Release`.
 */
module FreeTable {
  import opened Optional
  import opened Config

  /** A free range: `len` words from word offset `start` (`MemRecord`). */
  datatype Record = Record(start: nat, len: nat) {
    /** One past the last word of the range. */
    function End(): nat { start + len }
  }

  predicate Within(w: int, lo: int, hi: int) {
    lo <= w < hi
  }

  /** The words of the half-open interval [lo, hi). */
  ghost function Span(lo: int, hi: int): set<int> {
    set w: int | lo <= w < hi && Within(w, lo, hi)
  }

  ghost function Words(r: Record): set<int> {
    Span(r.start, r.End())
  }

  /** Every word the table records as free. */
  ghost function FreeSet(t: seq<Record>): set<int>
    decreases |t|
  {
    if |t| == 0 then {} else Words(t[0]) + FreeSet(t[1..])
  }

  /** Total free words in the table. */
  function Sum(t: seq<Record>): nat
    decreases |t|
  {
    if |t| == 0 then 0 else t[0].len + Sum(t[1..])
  }

  /** `a` ends at least one word before `b` starts. */
  predicate Before(a: Record, b: Record) {
    a.End() < b.start
  }

  ghost predicate Valid(t: seq<Record>) {
    && (forall i :: 0 <= i < |t| ==> 0 < t[i].len && t[i].End() <= POOL_SIZE)
    && (forall i, j :: 0 <= i < j < |t| ==> Before(t[i], t[j]))
  }

  /** The range [s, s + l) shares no word with any entry. */
  ghost predicate Disjoint(t: seq<Record>, s: nat, l: nat) {
    forall i :: 0 <= i < |t| ==> t[i].End() <= s || s + l <= t[i].start
  }

  // ---------------------------------------------------------------------------
  // Facts about valid tables

  /** In particular no entry ends where the next one starts: free ranges are never adjacent. */
  lemma NoAdjacent(t: seq<Record>)
    requires Valid(t)
    ensures forall i :: 0 <= i < |t| - 1 ==> t[i].End() != t[i + 1].start
  {
  }

  /** A gap between each pair of consecutive entries is enough: the pairwise gaps follow. */
  lemma ValidFromGaps(t: seq<Record>)
    requires forall i :: 0 <= i < |t| ==> 0 < t[i].len && t[i].End() <= POOL_SIZE
    requires forall i :: 0 <= i < |t| - 1 ==> Before(t[i], t[i + 1])
    ensures Valid(t)
  {
    forall i, j | 0 <= i < j < |t|
      ensures Before(t[i], t[j])
    {
      GapChain(t, i, j);
    }
  }

  lemma {:induction false} GapChain(t: seq<Record>, i: nat, j: nat)
    requires i < j < |t|
    requires forall k :: 0 <= k < |t| ==> 0 < t[k].len
    requires forall k :: 0 <= k < |t| - 1 ==> Before(t[k], t[k + 1])
    ensures Before(t[i], t[j])
    decreases j - i
  {
    var p: nat := j - 1;
    assert Before(t[p], t[j]);
    if i < p {
      GapChain(t, i, p);
    }
  }

  lemma {:induction false} InFreeSet(t: seq<Record>, w: int)
    ensures w in FreeSet(t) <==> exists i :: 0 <= i < |t| && t[i].start <= w < t[i].End()
    decreases |t|
  {
    if |t| > 0 {
      InFreeSet(t[1..], w);
      if w in FreeSet(t[1..]) {
        var i :| 0 <= i < |t[1..]| && t[1..][i].start <= w < t[1..][i].End();
        assert t[i + 1] == t[1..][i];
      }
      if exists i :: 0 <= i < |t| && t[i].start <= w < t[i].End() {
        var i :| 0 <= i < |t| && t[i].start <= w < t[i].End();
        if i > 0 {
          assert t[1..][i - 1] == t[i];
        }
      }
    }
  }

  lemma {:induction false} FreeSetConcat(a: seq<Record>, b: seq<Record>)
    ensures FreeSet(a + b) == FreeSet(a) + FreeSet(b)
    decreases |a|
  {
    if |a| == 0 {
      assert a + b == b;
    } else {
      assert (a + b)[1..] == a[1..] + b;
      FreeSetConcat(a[1..], b);
    }
  }

  lemma {:induction false} SumConcat(a: seq<Record>, b: seq<Record>)
    ensures Sum(a + b) == Sum(a) + Sum(b)
    decreases |a|
  {
    if |a| == 0 {
      assert a + b == b;
    } else {
      assert (a + b)[1..] == a[1..] + b;
      SumConcat(a[1..], b);
    }
  }

  lemma SingletonMeasures(x: Record)
    ensures FreeSet([x]) == Words(x) && Sum([x]) == x.len
  {
    assert [x][1..] == [];
  }

  lemma SpanJoin(a: int, b: int, c: int)
    requires a <= b <= c
    ensures Span(a, b) + Span(b, c) == Span(a, c)
  {
  }

  /** The measures of a table split into a prefix, a middle part and a suffix. */
  lemma ThreeWaySplit(t: seq<Record>, lo: nat, hi: nat)
    requires lo <= hi <= |t|
    ensures FreeSet(t) == FreeSet(t[..lo]) + FreeSet(t[lo..hi]) + FreeSet(t[hi..])
    ensures Sum(t) == Sum(t[..lo]) + Sum(t[lo..hi]) + Sum(t[hi..])
  {
    var a, b, c := t[..lo], t[lo..hi], t[hi..];
    var p := t[..hi];
    assert t == p + c;
    assert p == a + b by {
      assert p[..lo] == a && p[lo..] == b;
    }
    ConcatMeasures(p, c);
    ConcatMeasures(a, b);
  }

  lemma ConcatMeasures(a: seq<Record>, b: seq<Record>)
    ensures FreeSet(a + b) == FreeSet(a) + FreeSet(b)
    ensures Sum(a + b) == Sum(a) + Sum(b)
  {
    FreeSetConcat(a, b);
    SumConcat(a, b);
  }

  /**
   * Replacing the entries `t[lo..hi]` by one record `x`: the measures of the
   * result are those of the kept prefix and suffix plus `x`'s.
   */
  lemma SpliceMeasures(t: seq<Record>, lo: nat, hi: nat, x: Record)
    requires lo <= hi <= |t|
    ensures FreeSet(t[..lo] + [x] + t[hi..]) == FreeSet(t[..lo]) + Words(x) + FreeSet(t[hi..])
    ensures Sum(t[..lo] + [x] + t[hi..]) == Sum(t[..lo]) + x.len + Sum(t[hi..])
  {
    FreeSetConcat(t[..lo] + [x], t[hi..]);
    FreeSetConcat(t[..lo], [x]);
    SumConcat(t[..lo] + [x], t[hi..]);
    SumConcat(t[..lo], [x]);
    SingletonMeasures(x);
  }

  /** The measures of one or two consecutive entries. */
  lemma PairMeasures(t: seq<Record>, i: nat)
    requires i + 1 < |t|
    ensures FreeSet(t[i..i + 1]) == Words(t[i]) && Sum(t[i..i + 1]) == t[i].len
    ensures FreeSet(t[i..i + 2]) == Words(t[i]) + Words(t[i + 1])
    ensures Sum(t[i..i + 2]) == t[i].len + t[i + 1].len
  {
    SingletonMeasures(t[i]);
    SingletonMeasures(t[i + 1]);
    assert t[i..i + 1] == [t[i]];
    assert t[i..i + 2] == [t[i]] + [t[i + 1]];
    FreeSetConcat([t[i]], [t[i + 1]]);
    SumConcat([t[i]], [t[i + 1]]);
  }

  lemma LastMeasures(t: seq<Record>, i: nat)
    requires i < |t|
    ensures FreeSet(t[i..i + 1]) == Words(t[i]) && Sum(t[i..i + 1]) == t[i].len
  {
    SingletonMeasures(t[i]);
    assert t[i..i + 1] == [t[i]];
  }

  /** A splice keeps the table valid when `x` fits strictly between its new neighbours. */
  lemma SpliceValid(t: seq<Record>, lo: nat, hi: nat, x: Record)
    requires Valid(t) && lo <= hi <= |t| && 0 < x.len && x.End() <= POOL_SIZE
    requires 0 < lo ==> t[lo - 1].End() < x.start
    requires hi < |t| ==> x.End() < t[hi].start
    ensures Valid(t[..lo] + [x] + t[hi..])
  {
    var r := t[..lo] + [x] + t[hi..];
    var d := hi - lo - 1;
    assert |r| == |t| - d;
    assert forall i :: 0 <= i < lo ==> r[i] == t[i];
    assert r[lo] == x;
    assert forall i :: lo < i < |r| ==> r[i] == t[i + d];
    forall i | 0 <= i < |r|
      ensures 0 < r[i].len && r[i].End() <= POOL_SIZE
    {
    }
    forall i, j | 0 <= i < j < |r|
      ensures r[i].End() < r[j].start
    {
      if j < lo {
        assert r[i] == t[i] && r[j] == t[j];
      } else if j == lo {
        assert r[i] == t[i];
        if i < lo - 1 {
          assert t[i].End() < t[lo - 1].start;
        }
      } else if i < lo {
        assert r[i] == t[i] && r[j] == t[j + d];
      } else if i == lo {
        assert r[j] == t[j + d];
        if hi < j + d {
          assert t[hi].End() < t[j + d].start;
        }
      } else {
        assert r[i] == t[i + d] && r[j] == t[j + d];
      }
    }
  }

  /** Removing one entry keeps the table valid. */
  lemma RemoveValid(t: seq<Record>, i: nat)
    requires Valid(t) && i < |t|
    ensures Valid(t[..i] + t[i + 1..])
  {
    var r := t[..i] + t[i + 1..];
    forall j | 0 <= j < |r|
      ensures r[j] == if j < i then t[j] else t[j + 1]
    {
    }
  }

  /** `Disjoint` is the entry-by-entry form of: no word of [s, s + l) is free. */
  lemma DisjointIffApart(t: seq<Record>, s: nat, l: nat)
    requires Valid(t) && 0 < l
    ensures Disjoint(t, s, l) <==> Span(s, s + l) !! FreeSet(t)
  {
    if Disjoint(t, s, l) {
      forall w | w in Span(s, s + l)
        ensures w !in FreeSet(t)
      {
        InFreeSet(t, w);
      }
    } else {
      var i :| 0 <= i < |t| && !(t[i].End() <= s || s + l <= t[i].start);
      var w := if t[i].start < s then s else t[i].start;
      assert w in Span(s, s + l);
      assert t[i].start <= w < t[i].End();
      InFreeSet(t, w);
      assert w in FreeSet(t);
    }
  }

  // ---------------------------------------------------------------------------
  // Lookup

  function PositionFrom(t: seq<Record>, s: nat, i: nat): (k: nat)
    requires Valid(t) && i <= |t|
    requires forall j :: 0 <= j < i ==> t[j].start < s
    ensures i <= k <= |t|
    ensures forall j :: 0 <= j < k ==> t[j].start < s
    ensures forall j :: k <= j < |t| ==> s <= t[j].start
    decreases |t| - i
  {
    if i == |t| then i
    else if s <= t[i].start then i
    else PositionFrom(t, s, i + 1)
  }

  /** The number of entries starting below `s`: the index `s` would be inserted at. */
  function Position(t: seq<Record>, s: nat): (k: nat)
    requires Valid(t)
    ensures k <= |t|
    ensures forall j :: 0 <= j < k ==> t[j].start < s
    ensures forall j :: k <= j < |t| ==> s <= t[j].start
  {
    PositionFrom(t, s, 0)
  }

  /** Any split point of the entries around `s` is the one `Position` finds. */
  lemma {:induction false} PositionAt(t: seq<Record>, s: nat, i: nat, x: nat)
    requires Valid(t) && x <= i <= |t|
    requires forall j :: 0 <= j < i ==> t[j].start < s
    requires forall j :: i <= j < |t| ==> s <= t[j].start
    ensures PositionFrom(t, s, x) == i
    decreases i - x
  {
    if x < i {
      assert t[x].start < s;
      PositionAt(t, s, i, x + 1);
    }
  }

  /** `find(key)`: the index of the entry that starts at `key`, if any. */
  function Find(t: seq<Record>, key: nat): (r: Option<nat>)
    requires Valid(t)
    ensures r.Some? ==> r.value < |t| && t[r.value].start == key
    ensures r.None? ==> forall i :: 0 <= i < |t| ==> t[i].start != key
  {
    var k := Position(t, key);
    if k < |t| && t[k].start == key then Some(k)
    else None
  }

  function FirstFitFrom(t: seq<Record>, n: nat, i: nat): (r: Option<nat>)
    requires i <= |t|
    requires forall j :: 0 <= j < i ==> t[j].len < n
    ensures r.Some? ==> i <= r.value < |t| && n <= t[r.value].len
    ensures r.Some? ==> forall j :: 0 <= j < r.value ==> t[j].len < n
    ensures r.None? <==> forall j :: 0 <= j < |t| ==> t[j].len < n
    decreases |t| - i
  {
    if i == |t| then None
    else if n <= t[i].len then Some(i)
    else FirstFitFrom(t, n, i + 1)
  }

  /**
   * The scan at the head of `getBlock`: the lowest-address entry at least
   * `n` words long, every entry before it being shorter; `None` when no
   * entry is long enough.
   */
  function FirstFit(t: seq<Record>, n: nat): (r: Option<nat>)
    ensures r.Some? ==> r.value < |t| && n <= t[r.value].len
    ensures r.Some? ==> forall j :: 0 <= j < r.value ==> t[j].len < n
    ensures r.None? <==> forall j :: 0 <= j < |t| ==> t[j].len < n
  {
    FirstFitFrom(t, n, 0)
  }

  /**
   * `s` is where a first-fit search for `n` words lands: the start of an
   * entry of at least `n` words, every earlier entry being shorter.
   */
  ghost predicate FirstFitStart(t: seq<Record>, n: nat, s: nat) {
    exists i :: 0 <= i < |t| && t[i].start == s && n <= t[i].len
                && forall j :: 0 <= j < i ==> t[j].len < n
  }

  // ---------------------------------------------------------------------------
  // getBlock

  /** A reservation: the first word of the reserved range and the table after it. */
  datatype Taken = Taken(start: nat, table: seq<Record>)

  /**
   * `getBlock(n)`: first-fit reservation of `n` words. An entry of exactly
   * `n` words is removed; a longer one keeps its tail, starting `n` words
   * later. Returns the entry's original start, or `None` when no entry is
   * long enough.
   */
  function GetBlock(t: seq<Record>, n: nat): (r: Option<Taken>)
    requires Valid(t)
    ensures r.None? <==> forall i :: 0 <= i < |t| ==> t[i].len < n
    ensures r.Some? ==> r.value.start + n <= POOL_SIZE
    ensures r.Some? ==> FirstFitStart(t, n, r.value.start)
  {
    match FirstFit(t, n)
    case None => None
    case Some(i) =>
      Some(Taken(t[i].start, TakeFront(t, i, n)))
  }

  lemma GetBlockValid(t: seq<Record>, n: nat)
    requires Valid(t)
    ensures GetBlock(t, n).Some? ==> Valid(GetBlock(t, n).value.table)
  {
    match FirstFit(t, n)
    case None =>
    case Some(i) =>
      TakeFrontValid(t, i, n);
  }

  /** A table whose entries all lie inside [lo, hi) records no free word outside it. */
  lemma {:induction false} FreeSetWithin(t: seq<Record>, lo: int, hi: int)
    requires forall i :: 0 <= i < |t| ==> lo <= t[i].start && t[i].End() <= hi
    ensures forall w :: w in FreeSet(t) ==> lo <= w < hi
    decreases |t|
  {
    if |t| > 0 {
      FreeSetWithin(t[1..], lo, hi);
    }
  }

  /**
   * A valid table seen around entry `i`: the words of the entries before it
   * lie below its start and those of the entries after it at or above its end.
   */
  lemma AroundEntry(t: seq<Record>, i: nat)
    requires Valid(t) && i < |t|
    ensures FreeSet(t) == FreeSet(t[..i]) + Words(t[i]) + FreeSet(t[i + 1..])
    ensures Sum(t) == Sum(t[..i]) + t[i].len + Sum(t[i + 1..])
    ensures forall w :: w in FreeSet(t[..i]) ==> w < t[i].start
    ensures var above := FreeSet(t[i + 1..]); forall w :: w in above ==> t[i].End() <= w
  {
    var j: nat := i + 1;
    assert t == t[..i] + [t[i]] + t[j..];
    SpliceMeasures(t, i, j, t[i]);
    BelowEntry(t, i);
    AboveEntry(t, i, j);
  }

  lemma BelowEntry(t: seq<Record>, i: nat)
    requires Valid(t) && i < |t|
    ensures forall w :: w in FreeSet(t[..i]) ==> w < t[i].start
  {
    var below, s := t[..i], t[i].start;
    forall j | 0 <= j < |below|
      ensures 0 <= below[j].start && below[j].End() <= s
    {
      assert below[j] == t[j] && Before(t[j], t[i]);
    }
    FreeSetWithin(below, 0, s);
  }

  lemma AboveEntry(t: seq<Record>, i: nat, j: nat)
    requires Valid(t) && i < |t| && j == i + 1
    ensures forall w :: w in FreeSet(t[j..]) ==> t[i].End() <= w
  {
    var above, e := t[j..], t[i].End();
    forall k | 0 <= k < |above|
      ensures e <= above[k].start && above[k].End() <= POOL_SIZE
    {
      assert above[k] == t[j + k] && Before(t[i], t[j + k]);
    }
    FreeSetWithin(above, e, POOL_SIZE);
  }

  /**
   * Taking the first `n` words of entry `i`: removing the entry when it is
   * exactly `n` long, shifting and shortening it otherwise.
   */
  function TakeFront(t: seq<Record>, i: nat, n: nat): (r: seq<Record>)
    requires i < |t| && n <= t[i].len
    ensures |r| == |t| <==> n < t[i].len
    ensures |r| == |t| || |r| == |t| - 1
  {
    if t[i].len == n then t[..i] + t[i + 1..]
    else t[..i] + [Record(t[i].start + n, t[i].len - n)] + t[i + 1..]
  }

  lemma TakeFrontValid(t: seq<Record>, i: nat, n: nat)
    requires Valid(t) && i < |t| && n <= t[i].len
    ensures Valid(TakeFront(t, i, n))
  {
    if t[i].len == n {
      RemoveValid(t, i);
    } else {
      SpliceValid(t, i, i + 1, Record(t[i].start + n, t[i].len - n));
    }
  }

  /** Removing `s` from the middle part of a union whose other parts avoid `s`. */
  lemma CarveMiddle(below: set<int>, mid: set<int>, above: set<int>, s: set<int>, rest: set<int>)
    requires mid == s + rest && below !! s && above !! s && rest !! s
    ensures (below + mid + above) - s == below + rest + above
  {
  }

  lemma SplitFrontMeasures(t: seq<Record>, i: nat, n: nat)
    requires i < |t| && n < t[i].len
    ensures FreeSet(TakeFront(t, i, n)) == FreeSet(t[..i]) + Span(t[i].start + n, t[i].End()) + FreeSet(t[i + 1..])
    ensures Sum(TakeFront(t, i, n)) == Sum(t[..i]) + (t[i].len - n) + Sum(t[i + 1..])
  {
    var y := Record(t[i].start + n, t[i].len - n);
    assert TakeFront(t, i, n) == t[..i] + [y] + t[i + 1..];
    SpliceMeasures(t, i, i + 1, y);
  }

  lemma TakeFrontConserves(t: seq<Record>, i: nat, n: nat)
    requires Valid(t) && i < |t| && n <= t[i].len
    ensures Span(t[i].start, t[i].start + n) <= FreeSet(t)
    ensures FreeSet(TakeFront(t, i, n)) == FreeSet(t) - Span(t[i].start, t[i].start + n)
    ensures Sum(TakeFront(t, i, n)) + n == Sum(t)
  {
    var s: nat := t[i].start;
    var e: nat := s + n;
    TakeFrontCarves(t, i, n, s, e);
  }

  lemma TakeFrontCarves(t: seq<Record>, i: nat, n: nat, s: nat, e: nat)
    requires Valid(t) && i < |t| && n <= t[i].len && s == t[i].start && e == s + n
    ensures Span(s, e) <= FreeSet(t)
    ensures FreeSet(TakeFront(t, i, n)) == FreeSet(t) - Span(s, e)
    ensures Sum(TakeFront(t, i, n)) + n == Sum(t)
  {
    var x := t[i];
    var taken := Span(s, e);
    var rest := Span(e, x.End());
    var below := FreeSet(t[..i]);
    var above := FreeSet(t[i + 1..]);
    AroundEntry(t, i);
    SpanJoin(s, e, x.End());
    assert below !! taken by {
      forall w | w in below ensures w !in taken { }
    }
    assert above !! taken by {
      forall w | w in above ensures w !in taken { }
    }
    assert rest !! taken;
    CarveMiddle(below, Words(x), above, taken, rest);
    if x.len == n {
      ConcatMeasures(t[..i], t[i + 1..]);
      assert rest == {};
    } else {
      SplitFrontMeasures(t, i, n);
    }
  }

  /**
   * A reservation takes exactly the words [start, start + n), which were
   * free, out of the table: no other word changes state and the free-word
   * total drops by exactly `n`.
   */
  lemma GetBlockConserves(t: seq<Record>, n: nat)
    requires Valid(t)
    ensures GetBlock(t, n).Some? ==>
      var r := GetBlock(t, n).value;
      && Span(r.start, r.start + n) <= FreeSet(t)
      && FreeSet(r.table) == FreeSet(t) - Span(r.start, r.start + n)
      && Sum(r.table) + n == Sum(t)
  {
    match FirstFit(t, n)
    case None =>
    case Some(i) =>
      assert GetBlock(t, n).value.table == TakeFront(t, i, n);
      TakeFrontConserves(t, i, n);
  }

  // ---------------------------------------------------------------------------
  // deallocUpdate

  /** A release: the table after it and the entry that now holds the freed range. */
  datatype Released = Released(table: seq<Record>, merged: Record)

  /** What a caller may release: a non-empty range inside the pool that is not already free. */
  ghost predicate Releasable(t: seq<Record>, s: nat, l: nat) {
    Valid(t) && 0 < l && s + l <= POOL_SIZE && Disjoint(t, s, l)
  }

  /** The left neighbour (greatest start below `s`) ends exactly at `s`. */
  predicate LeftAdjacent(t: seq<Record>, s: nat)
    requires Valid(t)
  {
    var k := Position(t, s);
    0 < k && t[k - 1].End() == s
  }

  /** The right neighbour (least start above `s`) starts exactly at `s + l`. */
  predicate RightAdjacent(t: seq<Record>, s: nat, l: nat)
    requires Valid(t)
  {
    var k := Position(t, s);
    k < |t| && s + l == t[k].start
  }

  /** The entries a release replaces: `t[MergeLo(t, s)..MergeHi(t, s, l)]`. */
  function MergeLo(t: seq<Record>, s: nat): (lo: nat)
    requires Valid(t)
    ensures lo <= Position(t, s)
  {
    if LeftAdjacent(t, s) then Position(t, s) - 1 else Position(t, s)
  }

  function MergeHi(t: seq<Record>, s: nat, l: nat): (hi: nat)
    requires Valid(t)
    ensures Position(t, s) <= hi <= |t|
  {
    if RightAdjacent(t, s, l) then Position(t, s) + 1 else Position(t, s)
  }

  /**
   * `deallocUpdate((s, l))` with the neighbours the source describes: the
   * left neighbour is the entry with the greatest start below `s`, the right
   * neighbour the entry with the least start above it. Each of the source's
   * four branches is one combination of the two adjacency tests: the merged
   * entry reaches back over an adjacent left neighbour and forward over an
   * adjacent right neighbour, and replaces them. The result names the entry
   * that now contains the freed words.
   */
  function Release(t: seq<Record>, s: nat, l: nat): (r: Released)
    requires Releasable(t, s, l)
    ensures r.merged.start <= s && s + l <= r.merged.End()
    ensures |t| - 1 <= |r.table| <= |t| + 1
  {
    var lo := MergeLo(t, s);
    var hi := MergeHi(t, s, l);
    var start := if LeftAdjacent(t, s) then t[lo].start else s;
    var end := if RightAdjacent(t, s, l) then t[hi - 1].End() else s + l;
    var m := Record(start, end - start);
    Released(t[..lo] + [m] + t[hi..], m)
  }

  /** Where the freed range sits relative to its neighbours. */
  lemma ReleaseNeighbours(t: seq<Record>, s: nat, l: nat)
    requires Releasable(t, s, l)
    ensures var k := Position(t, s);
      && (0 < k ==> t[k - 1].End() <= s)
      && (k < |t| ==> s + l <= t[k].start)
  {
  }

  lemma ReleaseValid(t: seq<Record>, s: nat, l: nat)
    requires Releasable(t, s, l)
    ensures Valid(Release(t, s, l).table)
  {
    var k := Position(t, s);
    ReleaseNeighbours(t, s, l);
    SpliceValid(t, MergeLo(t, s), MergeHi(t, s, l), Release(t, s, l).merged);
  }

  /** The merged entry covers exactly the replaced entries and the freed range. */
  lemma ReleaseMiddle(t: seq<Record>, s: nat, l: nat)
    requires Releasable(t, s, l)
    ensures var lo, hi := MergeLo(t, s), MergeHi(t, s, l);
      && Words(Release(t, s, l).merged) == FreeSet(t[lo..hi]) + Span(s, s + l)
      && Release(t, s, l).merged.len == Sum(t[lo..hi]) + l
  {
    var e: nat := s + l;
    ReleaseMiddleAt(t, s, l, e);
  }

  lemma ReleaseMiddleAt(t: seq<Record>, s: nat, l: nat, e: nat)
    requires Releasable(t, s, l) && e == s + l
    ensures var lo, hi := MergeLo(t, s), MergeHi(t, s, l);
      && Words(Release(t, s, l).merged) == FreeSet(t[lo..hi]) + Span(s, e)
      && Release(t, s, l).merged.len == Sum(t[lo..hi]) + l
  {
    var k := Position(t, s);
    ReleaseNeighbours(t, s, l);
    var la, ra := LeftAdjacent(t, s), RightAdjacent(t, s, l);
    if la && ra {
      var p: nat := k - 1;
      PairMeasures(t, p);
      SpanJoin(t[p].start, s, e);
      SpanJoin(t[p].start, e, t[k].End());
    } else if la {
      var p: nat := k - 1;
      LastMeasures(t, p);
      SpanJoin(t[p].start, s, e);
    } else if ra {
      LastMeasures(t, k);
      SpanJoin(s, e, t[k].End());
    } else {
      assert t[k..k] == [];
    }
  }

  lemma UnionRegroup(p: set<int>, mid: set<int>, q: set<int>, extra: set<int>)
    ensures p + (mid + extra) + q == (p + mid + q) + extra
  {
  }

  /**
   * A release adds exactly the words [s, s + l) to the free words, and the
   * free-word total grows by exactly `l`, whichever neighbours merge.
   */
  lemma ReleaseConserves(t: seq<Record>, s: nat, l: nat)
    requires Releasable(t, s, l)
    ensures FreeSet(Release(t, s, l).table) == FreeSet(t) + Span(s, s + l)
    ensures Sum(Release(t, s, l).table) == Sum(t) + l
  {
    var lo, hi := MergeLo(t, s), MergeHi(t, s, l);
    var m := Release(t, s, l).merged;
    ReleaseMiddle(t, s, l);
    ThreeWaySplit(t, lo, hi);
    SpliceMeasures(t, lo, hi, m);
    UnionRegroup(FreeSet(t[..lo]), FreeSet(t[lo..hi]), FreeSet(t[hi..]), Span(s, s + l));
  }

  /**
   * Releasing the tail `[s, e)` of a releasable range `[s0, e)`: the tail is
   * releasable too, and exactly its words join the free words.
   */
  lemma ReleaseTailConserves(t: seq<Record>, s0: nat, l0: nat, s: nat, l: nat, e: nat)
    requires Releasable(t, s0, l0) && s0 <= s && 0 < l && s + l == e && e == s0 + l0
    ensures Releasable(t, s, l)
    ensures FreeSet(Release(t, s, l).table) == FreeSet(t) + Span(s, e)
    ensures Sum(Release(t, s, l).table) == Sum(t) + l
  {
    ReleaseConserves(t, s, l);
  }

  /** Only the left neighbour can end at `s`, and only the right one can start at `s + l`. */
  lemma OnlyNeighboursTouch(t: seq<Record>, s: nat, l: nat)
    requires Releasable(t, s, l)
    ensures forall i :: 0 <= i < |t| && t[i].End() == s ==> LeftAdjacent(t, s) && i == Position(t, s) - 1
    ensures forall i :: 0 <= i < |t| && t[i].start == s + l ==> RightAdjacent(t, s, l) && i == Position(t, s)
  {
    var k := Position(t, s);
    ReleaseNeighbours(t, s, l);
    forall i | 0 <= i < |t| && t[i].End() == s
      ensures i == k - 1
    {
    }
    forall i | 0 <= i < |t| && t[i].start == s + l
      ensures i == k
    {
    }
  }

  /** A splice keeps every entry outside `t[lo..hi]` and adds only `x`. */
  lemma SpliceKeeps(t: seq<Record>, lo: nat, hi: nat, x: Record)
    requires lo <= hi <= |t|
    ensures var u := t[..lo] + [x] + t[hi..];
      && x in u
      && (forall i :: 0 <= i < |t| && (i < lo || hi <= i) ==> t[i] in u)
      && (forall y :: y in u && y != x ==> y in t)
  {
    var u := t[..lo] + [x] + t[hi..];
    assert u[lo] == x;
    forall i | 0 <= i < |t| && (i < lo || hi <= i)
      ensures t[i] in u
    {
      if i < lo {
        assert u[i] == t[i];
      } else {
        assert u[i - hi + lo + 1] == t[i];
      }
    }
    forall y | y in u && y != x
      ensures y in t
    {
      var j :| 0 <= j < |u| && u[j] == y;
      if j < lo {
        assert t[j] == y;
      } else {
        assert t[j - lo - 1 + hi] == y;
      }
    }
  }

  /** The release keeps every entry outside `t[lo..hi]` and adds only the merged one. */
  lemma ReleaseKeeps(t: seq<Record>, s: nat, l: nat)
    requires Releasable(t, s, l)
    ensures var r := Release(t, s, l);
      var lo, hi := MergeLo(t, s), MergeHi(t, s, l);
      && r.merged in r.table
      && (forall i :: 0 <= i < |t| && (i < lo || hi <= i) ==> t[i] in r.table)
      && (forall x :: x in r.table && x != r.merged ==> x in t)
  {
    var r := Release(t, s, l);
    var lo, hi := MergeLo(t, s), MergeHi(t, s, l);
    assert r.table == t[..lo] + [r.merged] + t[hi..];
    SpliceKeeps(t, lo, hi, r.merged);
  }

  /**
   * The coalescing rule, stated without the lookup: the merged entry reaches
   * back to the start of an entry ending at `s` and forward to the end of an
   * entry starting at `s + l`, and stops at the freed range on a side where
   * no entry touches it. Every other entry is kept, and nothing else is added.
   */
  lemma ReleaseCoalesces(t: seq<Record>, s: nat, l: nat)
    requires Releasable(t, s, l)
    ensures var r := Release(t, s, l);
      && r.merged in r.table
      && (forall i :: 0 <= i < |t| && t[i].End() == s ==> r.merged.start == t[i].start)
      && ((forall i :: 0 <= i < |t| ==> t[i].End() != s) ==> r.merged.start == s)
      && (forall i :: 0 <= i < |t| && t[i].start == s + l ==> r.merged.End() == t[i].End())
      && ((forall i :: 0 <= i < |t| ==> t[i].start != s + l) ==> r.merged.End() == s + l)
      && (forall i :: 0 <= i < |t| && t[i].End() != s && t[i].start != s + l ==> t[i] in r.table)
      && (forall x :: x in r.table && x != r.merged ==> x in t)
  {
    var e: nat := s + l;
    ReleaseReaches(t, s, l, e);
    ReleaseKeepsApart(t, s, l, e);
  }

  /** The merged entry's ends: an adjacent neighbour's far end, else the freed range's own. */
  lemma ReleaseReaches(t: seq<Record>, s: nat, l: nat, e: nat)
    requires Releasable(t, s, l) && e == s + l
    ensures var r := Release(t, s, l);
      && (forall i :: 0 <= i < |t| && t[i].End() == s ==> r.merged.start == t[i].start)
      && ((forall i :: 0 <= i < |t| ==> t[i].End() != s) ==> r.merged.start == s)
      && (forall i :: 0 <= i < |t| && t[i].start == e ==> r.merged.End() == t[i].End())
      && ((forall i :: 0 <= i < |t| ==> t[i].start != e) ==> r.merged.End() == e)
  {
    var k := Position(t, s);
    OnlyNeighboursTouch(t, s, l);
    if LeftAdjacent(t, s) {
      assert t[k - 1].End() == s;
    }
    if RightAdjacent(t, s, l) {
      assert t[k].start == e;
    }
  }

  /** Entries touching neither end of the freed range stay; nothing but the merged entry is new. */
  lemma ReleaseKeepsApart(t: seq<Record>, s: nat, l: nat, e: nat)
    requires Releasable(t, s, l) && e == s + l
    ensures var r := Release(t, s, l);
      && r.merged in r.table
      && (forall i :: 0 <= i < |t| && t[i].End() != s && t[i].start != e ==> t[i] in r.table)
      && (forall x :: x in r.table && x != r.merged ==> x in t)
  {
    var lo, hi := MergeLo(t, s), MergeHi(t, s, l);
    OnlyNeighboursTouch(t, s, l);
    ReleaseKeeps(t, s, l);
    forall i | 0 <= i < |t| && t[i].End() != s && t[i].start != e
      ensures i < lo || hi <= i
    {
    }
  }

  /** The entries of a reservation's table lie below its start or from its end on. */
  lemma TakeFrontAround(t: seq<Record>, i: nat, n: nat)
    requires Valid(t) && i < |t| && 0 < n <= t[i].len
    ensures var u, s := TakeFront(t, i, n), t[i].start;
      && (forall j :: 0 <= j < i ==> u[j].End() < s)
      && (forall j :: i <= j < |u| ==> s + n <= u[j].start)
      && (i < |u| && u[i].start == s + n <==> n < t[i].len)
  {
    var u := TakeFront(t, i, n);
    assert forall j :: 0 <= j < i ==> u[j] == t[j];
    if t[i].len == n {
      assert forall j :: i <= j < |u| ==> u[j] == t[j + 1];
    } else {
      assert u[i] == Record(t[i].start + n, t[i].len - n);
      assert forall j :: i < j < |u| ==> u[j] == t[j];
    }
  }

  /** The reservation's table seen from its start: the chosen entry's slot is `i` again. */
  lemma TakeFrontPosition(t: seq<Record>, i: nat, n: nat)
    requires Valid(t) && i < |t| && 0 < n <= t[i].len
    requires Valid(TakeFront(t, i, n))
    ensures Position(TakeFront(t, i, n), t[i].start) == i
    ensures !LeftAdjacent(TakeFront(t, i, n), t[i].start)
    ensures RightAdjacent(TakeFront(t, i, n), t[i].start, n) <==> n < t[i].len
  {
    TakeFrontAround(t, i, n);
    PositionAt(TakeFront(t, i, n), t[i].start, i, 0);
  }

  /** Releasing what `TakeFront` carved out re-inserts or re-joins the chosen entry. */
  lemma ReleaseAfterTakeFront(t: seq<Record>, i: nat, n: nat)
    requires Valid(t) && i < |t| && 0 < n <= t[i].len
    ensures Valid(TakeFront(t, i, n))
    ensures Releasable(TakeFront(t, i, n), t[i].start, n)
    ensures Release(TakeFront(t, i, n), t[i].start, n).table == t
  {
    var u := TakeFront(t, i, n);
    var s := t[i].start;
    TakeFrontValid(t, i, n);
    TakeFrontAround(t, i, n);
    DisjointIffApart(u, s, n);
    TakeFrontPosition(t, i, n);
    if t[i].len == n {
      ReinsertExact(t, u, i);
    } else {
      RejoinSplit(t, i, n);
    }
  }

  lemma ReinsertExact(t: seq<Record>, u: seq<Record>, i: nat)
    requires i < |t| && u == t[..i] + t[i + 1..] && Releasable(u, t[i].start, t[i].len)
    requires Position(u, t[i].start) == i
    requires !LeftAdjacent(u, t[i].start) && !RightAdjacent(u, t[i].start, t[i].len)
    ensures Release(u, t[i].start, t[i].len).table == t
  {
    assert u[..i] == t[..i];
    assert u[i..] == t[i + 1..];
    assert t[..i] + [t[i]] + t[i + 1..] == t;
  }

  lemma RejoinSplit(t: seq<Record>, i: nat, n: nat)
    requires Valid(t) && i < |t| && 0 < n < t[i].len
    requires Valid(TakeFront(t, i, n))
    requires Position(TakeFront(t, i, n), t[i].start) == i
    requires !LeftAdjacent(TakeFront(t, i, n), t[i].start)
    requires RightAdjacent(TakeFront(t, i, n), t[i].start, n)
    ensures Release(TakeFront(t, i, n), t[i].start, n).table == t
  {
    var u := TakeFront(t, i, n);
    assert u[i] == Record(t[i].start + n, t[i].len - n);
    assert u[..i] == t[..i];
    assert u[i + 1..] == t[i + 1..];
    assert t[..i] + [t[i]] + t[i + 1..] == t;
  }

  /**
   * Reserving `n` words and releasing them again restores the table exactly:
   * an exact-fit entry is re-inserted and a split entry re-joins its tail.
   */
  lemma GetBlockReleaseRoundTrip(t: seq<Record>, n: nat)
    requires Valid(t) && 0 < n && GetBlock(t, n).Some?
    ensures var r := GetBlock(t, n).value;
      Releasable(r.table, r.start, n) && Release(r.table, r.start, n).table == t
  {
    ReleaseAfterTakeFront(t, FirstFit(t, n).value, n);
  }

}
