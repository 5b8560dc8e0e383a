/** Ranges of the block bitmap, and the map that the boot allocator builds from the loader's memory map. */
module BootBitmap {
  import opened Words
  import opened Bitmap
  import opened BootInfo

  // ----- Ranges

  /** The map with count blocks from `from` on given free, one after the other. */
  function ClearRange(m: seq<u32>, from: nat, count: nat): (r: seq<u32>)
    requires from + count <= BLOCKS_PER_UNIT * |m|
    ensures |r| == |m|
    decreases count, |m|
  {
    if count == 0 then m else ClearRange(Unmark(m, from), from + 1, count - 1)
  }

  function SetRange(m: seq<u32>, from: nat, count: nat): (r: seq<u32>)
    requires from + count <= BLOCKS_PER_UNIT * |m|
    ensures |r| == |m|
    decreases count, |m|
  {
    if count == 0 then m else SetRange(Mark(m, from), from + 1, count - 1)
  }

  lemma {:induction false} ClearRangeClears(m: seq<u32>, from: nat, count: nat, c: nat)
    requires from + count <= BLOCKS_PER_UNIT * |m|
    ensures Marked(ClearRange(m, from, count), c) <==> Marked(m, c) && !(from <= c < from + count)
    decreases count
  {
    if count > 0 {
      UnmarkUnmarks(m, from, c);
      ClearRangeClears(Unmark(m, from), from + 1, count - 1, c);
    }
  }

  lemma {:induction false} SetRangeSets(m: seq<u32>, from: nat, count: nat, c: nat)
    requires from + count <= BLOCKS_PER_UNIT * |m|
    ensures Marked(SetRange(m, from, count), c) <==> Marked(m, c) || from <= c < from + count
    decreases count
  {
    if count > 0 {
      MarkMarks(m, from, c);
      SetRangeSets(Mark(m, from), from + 1, count - 1, c);
    }
  }

  /** How many blocks of a range are marked and lie below n. */
  function MarkedIn(m: seq<u32>, from: nat, count: nat, n: nat): (k: nat)
    ensures k <= count
    decreases count, |m|
  {
    if count == 0 then 0 else (if from < n && Marked(m, from) then 1 else 0) + MarkedIn(m, from + 1, count - 1, n)
  }

  lemma {:induction false} MarkedInElsewhere(m: seq<u32>, r: seq<u32>, from: nat, count: nat, n: nat)
    requires forall c: nat :: from <= c < from + count ==> (Marked(m, c) <==> Marked(r, c))
    ensures MarkedIn(m, from, count, n) == MarkedIn(r, from, count, n)
    decreases count
  {
    if count > 0 {
      assert Marked(m, from) <==> Marked(r, from);
      MarkedInElsewhere(m, r, from + 1, count - 1, n);
    }
  }

  lemma {:induction false} ClearRangeCounts(m: seq<u32>, from: nat, count: nat, n: nat)
    requires from + count <= BLOCKS_PER_UNIT * |m|
    ensures UsedBelow(ClearRange(m, from, count), n) == UsedBelow(m, n) - MarkedIn(m, from, count, n)
    decreases count
  {
    if count > 0 {
      var r := Unmark(m, from);
      UnmarkCounts(m, from, n);
      forall c: nat | from + 1 <= c < from + count ensures Marked(m, c) <==> Marked(r, c) { UnmarkUnmarks(m, from, c); }
      MarkedInElsewhere(m, r, from + 1, count - 1, n);
      ClearRangeCounts(r, from + 1, count - 1, n);
    }
  }

  /** How many blocks of a range lie below n. */
  function BlocksIn(from: nat, count: nat, n: nat): nat {
    if n <= from then 0 else if n <= from + count then n - from else count
  }

  lemma {:induction false} SetRangeCounts(m: seq<u32>, from: nat, count: nat, n: nat)
    requires from + count <= BLOCKS_PER_UNIT * |m|
    ensures UsedBelow(SetRange(m, from, count), n) ==
      UsedBelow(m, n) + BlocksIn(from, count, n) - MarkedIn(m, from, count, n)
    decreases count
  {
    if count > 0 {
      var r := Mark(m, from);
      MarkCounts(m, from, n);
      forall c: nat | from + 1 <= c < from + count ensures Marked(m, c) <==> Marked(r, c) { MarkMarks(m, from, c); }
      MarkedInElsewhere(m, r, from + 1, count - 1, n);
      SetRangeCounts(r, from + 1, count - 1, n);
    }
  }

  // ----- The memory map

  const AVAILABLE: u32 := 1
  const MEGABYTE: nat := 0x10_0000

  /** The block range of an entry: base and length are cut to 32 bits first. */
  function FirstBlock(e: MmapEntry): nat {
    e.base % MODULUS / PAGE_SIZE
  }

  function BlockCount(e: MmapEntry): nat {
    e.length % MODULUS / PAGE_SIZE
  }

  ghost predicate Covers(e: MmapEntry, b: nat) {
    e.kind == AVAILABLE && FirstBlock(e) <= b < FirstBlock(e) + BlockCount(e)
  }

  ghost predicate Covered(entries: seq<MmapEntry>, b: nat) {
    exists e :: e in entries && Covers(e, b)
  }

  /** In numbers: type 1, and from the page of the base on as many pages as the length has. */
  predicate Available(e: MmapEntry, b: nat) {
    var first, count := e.base % 0x1_0000_0000 / 0x1000, e.length % 0x1_0000_0000 / 0x1000;
    e.kind == 1 && first <= b < first + count
  }

  lemma CoveredBlocks(entries: seq<MmapEntry>, b: nat)
    ensures Covered(entries, b) <==> exists e :: e in entries && Available(e, b)
  {
    assert forall e :: Covers(e, b) <==> Available(e, b);
  }

  /** The units hold a bit for every block that the available entries mention. */
  ghost predicate Holds(m: seq<u32>, entries: seq<MmapEntry>) {
    forall e :: e in entries && e.kind == AVAILABLE ==> FirstBlock(e) + BlockCount(e) <= BLOCKS_PER_UNIT * |m|
  }

  function FreeEntry(m: seq<u32>, e: MmapEntry): (r: seq<u32>)
    requires e.kind == AVAILABLE ==> FirstBlock(e) + BlockCount(e) <= BLOCKS_PER_UNIT * |m|
    ensures |r| == |m|
  {
    if e.kind == AVAILABLE then ClearRange(m, FirstBlock(e), BlockCount(e)) else m
  }

  function FreeEntries(m: seq<u32>, entries: seq<MmapEntry>): (r: seq<u32>)
    requires Holds(m, entries)
    ensures |r| == |m|
    decreases entries
  {
    if entries == [] then m else FreeEntries(FreeEntry(m, entries[0]), entries[1..])
  }

  lemma {:induction false} FreeEntriesFree(m: seq<u32>, entries: seq<MmapEntry>, b: nat)
    requires Holds(m, entries)
    ensures Marked(FreeEntries(m, entries), b) <==> Marked(m, b) && !Covered(entries, b)
    decreases entries
  {
    if entries != [] {
      var e := entries[0];
      if e.kind == AVAILABLE { ClearRangeClears(m, FirstBlock(e), BlockCount(e), b); }
      FreeEntriesFree(FreeEntry(m, e), entries[1..], b);
      assert Covered(entries, b) <==> Covers(e, b) || Covered(entries[1..], b) by {
        if c :| c in entries && Covers(c, b) { assert c == e || c in entries[1..]; }
      }
    }
  }

  /** The first `size` units set, the ones behind them as they were. */
  function Filled(m: seq<u32>, size: nat): (r: seq<u32>)
    requires size <= |m|
    ensures |r| == |m|
  {
    seq(size, _ => FULL_UNIT) + m[size..]
  }

  lemma FilledMarks(m: seq<u32>, size: nat, b: nat)
    requires size <= |m|
    ensures Marked(Filled(m, size), b) <==> b < BLOCKS_PER_UNIT * size || Marked(m, b)
  {
    if b < BLOCKS_PER_UNIT * size { FullWord(FULL_UNIT, b % BLOCKS_PER_UNIT); }
  }

  /** The low megabyte and the kernel reserved. */
  function WithKernel(m: seq<u32>, kernelEnd: nat): (r: seq<u32>)
    requires MEGABYTE <= kernelEnd <= PAGE_SIZE * (BLOCKS_PER_UNIT * |m|)
    ensures |r| == |m|
  {
    SetRange(SetRange(m, 0, MEGABYTE / PAGE_SIZE), MEGABYTE / PAGE_SIZE, (kernelEnd - MEGABYTE) / PAGE_SIZE)
  }

  /** The map after initialization: filled, freed by the entries, the low megabyte and the kernel reserved. */
  function Initialized(m: seq<u32>, size: nat, entries: seq<MmapEntry>, kernelEnd: nat): (r: seq<u32>)
    requires size <= |m| && Holds(m, entries) && MEGABYTE <= kernelEnd <= PAGE_SIZE * (BLOCKS_PER_UNIT * |m|)
    ensures |r| == |m|
  {
    WithKernel(FreeEntries(Filled(m, size), entries), kernelEnd)
  }

  /**
   A block is free exactly when an available entry covers it and it lies behind the reserved low
   megabyte and the kernel with its bitmap; for blocks behind the fill, what the units held before
   counts as well.
   */
  lemma InitializedMap(m: seq<u32>, size: nat, entries: seq<MmapEntry>, kernelEnd: nat, b: nat)
    requires size <= |m| && Holds(m, entries) && MEGABYTE <= kernelEnd <= PAGE_SIZE * (BLOCKS_PER_UNIT * |m|)
    ensures Marked(Initialized(m, size, entries, kernelEnd), b) <==>
      b < kernelEnd / PAGE_SIZE || ((b < BLOCKS_PER_UNIT * size || Marked(m, b)) && !Covered(entries, b))
  {
    var freed := FreeEntries(Filled(m, size), entries);
    var low := SetRange(freed, 0, MEGABYTE / PAGE_SIZE);
    FilledMarks(m, size, b);
    FreeEntriesFree(Filled(m, size), entries, b);
    SetRangeSets(freed, 0, MEGABYTE / PAGE_SIZE, b);
    SetRangeSets(low, MEGABYTE / PAGE_SIZE, (kernelEnd - MEGABYTE) / PAGE_SIZE, b);
  }

  /** Only the set of entries matters, not their order or number. */
  lemma EntryOrderDoesNotMatter(m: seq<u32>, size: nat, entries: seq<MmapEntry>, others: seq<MmapEntry>, kernelEnd: nat)
    requires size <= |m| && Holds(m, entries) && Holds(m, others)
    requires MEGABYTE <= kernelEnd <= PAGE_SIZE * (BLOCKS_PER_UNIT * |m|)
    requires forall e :: e in entries <==> e in others
    ensures Initialized(m, size, entries, kernelEnd) == Initialized(m, size, others, kernelEnd)
  {
    var r, s := Initialized(m, size, entries, kernelEnd), Initialized(m, size, others, kernelEnd);
    forall b: nat | b < BLOCKS_PER_UNIT * |r| ensures Marked(r, b) <==> Marked(s, b) {
      InitializedMap(m, size, entries, kernelEnd, b);
      InitializedMap(m, size, others, kernelEnd, b);
      assert Covered(entries, b) <==> Covered(others, b);
    }
    SameMap(r, s);
  }

  // ----- The used counter

  /** How many blocks the available entries give back to the counter without clearing a bit below `total`. */
  function Wasted(m: seq<u32>, entries: seq<MmapEntry>, total: nat): nat
    requires Holds(m, entries)
    decreases entries
  {
    if entries == [] then 0
    else
      var e := entries[0];
      (if e.kind == AVAILABLE then BlockCount(e) - MarkedIn(m, FirstBlock(e), BlockCount(e), total) else 0)
      + Wasted(FreeEntry(m, e), entries[1..], total)
  }

  /** The blocks that the counter loses over all available entries. */
  function Released(entries: seq<MmapEntry>): nat {
    if entries == [] then 0 else ReleasedBy(entries[0]) + Released(entries[1..])
  }

  function ReleasedBy(e: MmapEntry): nat {
    if e.kind == AVAILABLE then BlockCount(e) else 0
  }

  lemma {:induction false} FreeEntriesCount(m: seq<u32>, entries: seq<MmapEntry>, total: nat)
    requires Holds(m, entries)
    ensures UsedBelow(FreeEntries(m, entries), total) ==
      UsedBelow(m, total) - Released(entries) + Wasted(m, entries, total)
    decreases entries
  {
    if entries != [] {
      var e := entries[0];
      if e.kind == AVAILABLE { ClearRangeCounts(m, FirstBlock(e), BlockCount(e), total); }
      FreeEntriesCount(FreeEntry(m, e), entries[1..], total);
    }
  }

  ghost predicate Apart(entries: seq<MmapEntry>) {
    forall i, j, b: nat :: 0 <= i < j < |entries| && Covers(entries[i], b) ==> !Covers(entries[j], b)
  }

  lemma {:induction false} AllMarkedIn(m: seq<u32>, from: nat, count: nat, n: nat)
    requires from + count <= n && forall c: nat :: from <= c < from + count ==> Marked(m, c)
    ensures MarkedIn(m, from, count, n) == count
    decreases count
  {
    if count > 0 { AllMarkedIn(m, from + 1, count - 1, n); }
  }

  /** Entries that do not overlap and stay below `total` waste nothing. */
  lemma {:induction false} NothingWasted(m: seq<u32>, entries: seq<MmapEntry>, total: nat)
    requires Holds(m, entries) && Apart(entries)
    requires forall e, b: nat :: e in entries && Covers(e, b) ==> b < total && Marked(m, b)
    requires forall e :: e in entries && e.kind == AVAILABLE ==> FirstBlock(e) + BlockCount(e) <= total
    ensures Wasted(m, entries, total) == 0
    decreases entries
  {
    if entries != [] {
      var e := entries[0];
      if e.kind == AVAILABLE {
        forall c: nat | FirstBlock(e) <= c < FirstBlock(e) + BlockCount(e) ensures Marked(m, c) { assert Covers(e, c); }
        AllMarkedIn(m, FirstBlock(e), BlockCount(e), total);
      }
      var r := FreeEntry(m, e);
      forall d, b: nat | d in entries[1..] && Covers(d, b) ensures b < total && Marked(r, b) {
        assert d in entries;
        if e.kind == AVAILABLE { ClearRangeClears(m, FirstBlock(e), BlockCount(e), b); }
        var j :| 0 <= j < |entries[1..]| && entries[1..][j] == d;
        assert entries[j + 1] == d;
      }
      forall i, j, b: nat | 0 <= i < j < |entries[1..]| && Covers(entries[1..][i], b)
        ensures !Covers(entries[1..][j], b)
      {
        assert entries[1..][i] == entries[i + 1] && entries[1..][j] == entries[j + 1];
      }
      NothingWasted(r, entries[1..], total);
    }
  }

  lemma {:induction false} MarkedInJoins(m: seq<u32>, from: nat, a: nat, b: nat, n: nat)
    ensures MarkedIn(m, from, a + b, n) == MarkedIn(m, from, a, n) + MarkedIn(m, from + a, b, n)
    decreases a
  {
    if a > 0 { MarkedInJoins(m, from + 1, a - 1, b, n); }
  }

  lemma {:induction false} AllUsedBelow(m: seq<u32>, n: nat)
    requires forall c: nat :: c < n ==> Marked(m, c)
    ensures UsedBelow(m, n) == n
  {
    if n > 0 { AllUsedBelow(m, n - 1); }
  }

  lemma ReservedCounts(freed: seq<u32>, z: nat, a: nat, b: nat, total: nat)
    requires z + a + b <= total <= BLOCKS_PER_UNIT * |freed|
    ensures UsedBelow(SetRange(SetRange(freed, z, a), z + a, b), total) ==
      UsedBelow(freed, total) + (a + b) - MarkedIn(freed, z, a + b, total)
  {
    var low := SetRange(freed, z, a);
    SetRangeCounts(freed, z, a, total);
    SetRangeCounts(low, z + a, b, total);
    forall c: nat | z + a <= c < z + a + b ensures Marked(low, c) <==> Marked(freed, c) {
      SetRangeSets(freed, z, a, c);
    }
    MarkedInElsewhere(low, freed, z + a, b, total);
    MarkedInJoins(freed, z, a, b, total);
  }

  lemma FreedCounts(m: seq<u32>, size: nat, entries: seq<MmapEntry>, total: nat)
    requires size <= |m| && Holds(m, entries) && total <= BLOCKS_PER_UNIT * size
    ensures UsedBelow(FreeEntries(Filled(m, size), entries), total) ==
      total - Released(entries) + Wasted(Filled(m, size), entries, total)
  {
    forall c: nat | c < total ensures Marked(Filled(m, size), c) { FilledMarks(m, size, c); }
    AllUsedBelow(Filled(m, size), total);
    FreeEntriesCount(Filled(m, size), entries, total);
  }

  /**
   The marked blocks below `total` after initialization, in terms of what the used counter adds up:
   it starts at `total`, loses every block of an available entry and gains every reserved block.
   */
  lemma CounterAgainstMap(m: seq<u32>, size: nat, entries: seq<MmapEntry>, kernelEnd: nat, pages: nat, total: nat)
    requires size <= |m| && Holds(m, entries) && kernelEnd == PAGE_SIZE * pages
    requires MEGABYTE <= kernelEnd && pages <= total <= BLOCKS_PER_UNIT * size
    ensures var freed := FreeEntries(Filled(m, size), entries);
      UsedBelow(Initialized(m, size, entries, kernelEnd), total) ==
        total - Released(entries) + Wasted(Filled(m, size), entries, total) + pages - MarkedIn(freed, 0, pages, total)
  {
    hide UsedBelow, MarkedIn, Wasted, FreeEntries, SetRange, Filled, Released;
    var freed, a := FreeEntries(Filled(m, size), entries), MEGABYTE / PAGE_SIZE;
    var b := pages - a;
    FreedCounts(m, size, entries, total);
    assert (kernelEnd - MEGABYTE) / PAGE_SIZE == b;
    assert Initialized(m, size, entries, kernelEnd) == SetRange(SetRange(freed, 0, a), a, b);
    ReservedCounts(freed, 0, a, b, total);
  }
}
