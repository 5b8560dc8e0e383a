/** The physical block allocator of the boot code, kernel/init/init/memory/kmemlow.c. */
module BootAllocator {
  import opened Options
  import opened Words
  import opened Bitmap
  import opened BootBitmap
  import MB = Multiboot2
  import BootInfo

  const NULL: u32 := 0
  const KILOBYTES: nat := 1024
  const ERROR_ENOMEM: nat := 1
  const MAX_START: nat := 0x4000_0000  // physical addresses that the kernel's window at 0xc0000000 reaches

  // ----- Sizes

  function TotalBlocks(kilobytes: u32): (n: nat)
    ensures n < 0x10_0000
  {
    kilobytes * KILOBYTES % MODULUS / PAGE_SIZE
  }

  function BitmapSize(total: nat): nat {
    total / BLOCKS_PER_UNIT + if total % BLOCKS_PER_UNIT > 0 then 1 else 0
  }

  /** The first page boundary strictly above the bitmap, which itself lies above the kernel. */
  function KernelEnd(start: nat, size: nat): nat {
    (start + 4 * size) / PAGE_SIZE * PAGE_SIZE + PAGE_SIZE
  }

  /** What the three sizes are to each other, in numbers. */
  ghost predicate Sized(kilobytes: u32, total: nat, units: nat, start: nat, end: nat) {
    && 4 * total <= kilobytes % 0x40_0000 < 4 * total + 4  // a block is 4 kilobytes, and 2^32 bytes are none
    && total <= 32 * units < total + 32                    // the least number of units with a bit for each block
    && end % 4096 == 0 && end - 4096 <= start + 4 * units < end
  }

  lemma SizesAreRight(kilobytes: u32, start: nat)
    ensures var total := TotalBlocks(kilobytes);
      Sized(kilobytes, total, BitmapSize(total), start, KernelEnd(start, BitmapSize(total)))
  {
    BytesOf(kilobytes, kilobytes / 0x40_0000, kilobytes % 0x40_0000);
    assert TotalBlocks(kilobytes) == 1024 * (kilobytes % 0x40_0000) / 4096;
  }

  lemma BytesOf(k: nat, laps: nat, rest: nat)
    requires k == 0x40_0000 * laps + rest && rest < 0x40_0000
    ensures k * 1024 % MODULUS == 1024 * rest
  {
    assert k * 1024 == MODULUS * laps + 1024 * rest;
  }

  /** The used counter after k blocks have been given back: it wraps below zero. */
  function Without(used: u32, k: nat): u32 {
    (used - k) % MODULUS
  }

  function With(used: u32, k: nat): u32 {
    (used + k) % MODULUS
  }

  lemma WithoutAnother(before: u32, k: nat, used: u32)
    requires used == Without(before, k)
    ensures (used - 1) % MODULUS == Without(before, k + 1)
  {
    var left: int := before - k;
    WrapLater(left, -1);
  }

  // ----- The boot information that initialization reads

  /** The boot information is there and complete, and its first memory map can be walked. */
  ghost predicate Usable(boot: BootInfo.Walker)
    reads boot`mbootPtr, boot`tags, boot`reserved, boot.mem
  {
    && boot.Valid() && boot.mbootPtr != BootInfo.NULL
    && !MB.Absent(boot.tags, MB.MEMORY_MAP)
    && (forall k: nat :: MB.FirstOf(boot.tags, MB.MEMORY_SIZE, k) ==> |boot.tags[k].payload| >= 8)
    && (forall k: nat :: MB.FirstOf(boot.tags, MB.MEMORY_MAP, k) ==> BootInfo.GoodMap(boot.tags[k].payload))
  }

  /** The kilobytes of memory that the size tag reports, or 0 without one. */
  ghost function Kilobytes(tags: seq<MB.Tag>): u32 {
    if k: nat :| MB.FirstOf(tags, MB.MEMORY_SIZE, k) && |tags[k].payload| >= 8
    then (MB.Read32(tags[k].payload, 0) + MB.Read32(tags[k].payload, 4)) % MODULUS else 0
  }

  /** The payload of the first memory map. */
  ghost function MapPayload(tags: seq<MB.Tag>): (r: Option<seq<MB.byte>>)
    ensures r.Some? ==> BootInfo.GoodMap(r.value)
  {
    if k: nat :| MB.FirstOf(tags, MB.MEMORY_MAP, k) && BootInfo.GoodMap(tags[k].payload) then Some(tags[k].payload)
      else None
  }

  /** The entries of the memory map that the iterator has still to deliver. */
  ghost function Remaining(boot: BootInfo.Walker): Option<seq<BootInfo.MmapEntry>>
    reads boot, boot.mem
  {
    if !Usable(boot) then None else
      match MapPayload(boot.tags)
      case Some(payload) =>
        if boot.currentMmapEntry <= BootInfo.EntryCount(payload)
        then Some(BootInfo.Entries(payload, boot.currentMmapEntry)) else None
      case None => None
  }

  /**
   Room for everything: units for the bitmap and the kernel, memory for the second copy of the boot
   information, and an old place of it that the copy survives.
   */
  ghost predicate Fits(boot: BootInfo.Walker, start: nat, units: nat)
    requires Usable(boot)
    reads boot, boot.mem
  {
    var size, info := BitmapSize(TotalBlocks(Kilobytes(boot.tags))), MB.InfoSize(boot.tags);
    var end := KernelEnd(start, size);
    && size <= units && end <= PAGE_SIZE * (BLOCKS_PER_UNIT * units)
    && end + 2 * info <= boot.mem.Length
    && boot.Survives(end)
  }

  lemma KernelEndIsAbove(start: nat, size: nat)
    requires MEGABYTE <= start < MAX_START && size <= 0x8000
    ensures start + 4 * size < KernelEnd(start, size) < MODULUS && KernelEnd(start, size) % PAGE_SIZE == 0
    ensures MEGABYTE < KernelEnd(start, size)
  {
  }

  lemma BothReserved(u: u32, v: u32, w: u32, end: nat)
    requires MEGABYTE <= end && end % PAGE_SIZE == 0
    requires v == (u + MEGABYTE / PAGE_SIZE) % MODULUS && w == (v + (end - MEGABYTE) / PAGE_SIZE) % MODULUS
    ensures w == (u + end / PAGE_SIZE) % MODULUS
  {
    var a, b := MEGABYTE / PAGE_SIZE, (end - MEGABYTE) / PAGE_SIZE;
    assert a + b == end / PAGE_SIZE;
    WrapTwice(u + a, b, v, w);
  }

  class Allocator {
    const mbitmap: array<u32>
    const start: nat  // the physical address of the bitmap
    var totalBlocks: nat
    var usedBlocks: u32
    var bitmapSize: nat
    var kernelEnd: nat
    var kinitErrno: nat

    constructor (mbitmap: array<u32>, start: nat)
      ensures this.mbitmap == mbitmap && this.start == start && totalBlocks == 0 && usedBlocks == 0 && kinitErrno == 0
    {
      this.mbitmap, this.start := mbitmap, start;
      totalBlocks, usedBlocks, bitmapSize, kernelEnd, kinitErrno := 0, 0, 0, 0, 0;
    }

    /**
     Initialization: the counters from the reported memory size, the boot information moved behind
     the bitmap, and the bitmap built from the memory map.
     */
    method InitAllocator(boot: BootInfo.Walker)
      requires boot.mem != mbitmap as object && boot.currentMmapEntry == 0 && Remaining(boot).Some?
      requires MEGABYTE <= start < MAX_START
      requires Fits(boot, start, mbitmap.Length) && Holds(mbitmap[..], Remaining(boot).value)
      modifies this, mbitmap, boot, boot.mem
      ensures totalBlocks == TotalBlocks(Kilobytes(old(boot.tags))) && bitmapSize == BitmapSize(totalBlocks)
      ensures kernelEnd == KernelEnd(start, bitmapSize)
      ensures Sized(Kilobytes(old(boot.tags)), totalBlocks, bitmapSize, start, kernelEnd)
      ensures mbitmap[..] == Initialized(old(mbitmap[..]), bitmapSize, old(Remaining(boot)).value, kernelEnd)
      ensures usedBlocks == With(Without(totalBlocks, Released(old(Remaining(boot)).value)), kernelEnd / PAGE_SIZE)
      ensures boot.Valid() && boot.tags == old(boot.tags) && start + 4 * bitmapSize < kernelEnd < boot.mbootPtr
    {
      hide KernelEnd, BitmapSize, TotalBlocks;
      SizesAreRight(Kilobytes(boot.tags), start);
      Prepare(boot);
      Fill(bitmapSize);
      FreeMap(boot);
      ReserveKernel();
    }

    method Prepare(boot: BootInfo.Walker)
      requires boot.mem != mbitmap as object && Remaining(boot).Some?
      requires MEGABYTE <= start < MAX_START && Fits(boot, start, mbitmap.Length)
      modifies this, boot, boot.mem
      ensures totalBlocks == usedBlocks == TotalBlocks(Kilobytes(old(boot.tags)))
      ensures bitmapSize == BitmapSize(totalBlocks)
      ensures kernelEnd == KernelEnd(start, bitmapSize) && kernelEnd % PAGE_SIZE == 0
      ensures MEGABYTE <= kernelEnd < MODULUS && bitmapSize <= mbitmap.Length
      ensures kernelEnd <= PAGE_SIZE * (BLOCKS_PER_UNIT * mbitmap.Length)
      ensures Remaining(boot) == old(Remaining(boot)) && boot.tags == old(boot.tags)
      ensures boot.Valid() && start + 4 * bitmapSize < kernelEnd < boot.mbootPtr
    {
      hide KernelEnd, BitmapSize, TotalBlocks, Usable;
      var kilobytes := Measure(boot);
      Size(kilobytes);
      MoveBehind(boot, kernelEnd);
    }

    method Size(kilobytes: u32)
      requires MEGABYTE <= start < MAX_START
      modifies this
      ensures totalBlocks == usedBlocks == TotalBlocks(kilobytes) && bitmapSize == BitmapSize(totalBlocks)
      ensures kernelEnd == KernelEnd(start, bitmapSize) && kernelEnd % PAGE_SIZE == 0
      ensures MEGABYTE <= kernelEnd < MODULUS && start + 4 * bitmapSize < kernelEnd
    {
      totalBlocks := TotalBlocks(kilobytes);
      usedBlocks := totalBlocks;
      bitmapSize := BitmapSize(totalBlocks);
      kernelEnd := KernelEnd(start, bitmapSize);
      KernelEndIsAbove(start, bitmapSize);
    }

    /** For the places of the boot information that survive the copy. */
    method MoveBehind(boot: BootInfo.Walker, end: nat)
      requires Remaining(boot).Some? && end + 2 * MB.InfoSize(boot.tags) <= boot.mem.Length
      requires boot.Survives(end)
      modifies boot`mbootPtr, boot`kinitErrno, boot.mem
      ensures Remaining(boot) == old(Remaining(boot)) && boot.Valid() && end < boot.mbootPtr
    {
      boot.Relocate(end);
    }

    method ReserveKernel()
      requires kernelEnd % PAGE_SIZE == 0 && MEGABYTE <= kernelEnd < MODULUS
      requires kernelEnd <= PAGE_SIZE * (BLOCKS_PER_UNIT * mbitmap.Length)
      modifies this`usedBlocks, mbitmap
      ensures mbitmap[..] == WithKernel(old(mbitmap[..]), kernelEnd)
      ensures usedBlocks == With(old(usedBlocks), kernelEnd / PAGE_SIZE)
    {
      ReserveRegion(0, MEGABYTE);
      ghost var v := usedBlocks;
      ReserveRegion(MEGABYTE, kernelEnd - MEGABYTE);
      BothReserved(old(usedBlocks), v, usedBlocks, kernelEnd);
    }

    method Measure(boot: BootInfo.Walker) returns (kilobytes: u32)
      requires Remaining(boot).Some?
      modifies boot`kinitErrno
      ensures kilobytes == Kilobytes(boot.tags) && Remaining(boot) == old(Remaining(boot))
    {
      var size: Option<u32>;
      ghost var i;
      size, i := boot.GetMemorySize();
      match size
      case Some(k) => kilobytes := k;
      case None => kilobytes := 0;
    }

    method ReserveRegion(base: u32, length: u32)
      requires base / PAGE_SIZE + length / PAGE_SIZE <= BLOCKS_PER_UNIT * mbitmap.Length
      modifies this`usedBlocks, mbitmap
      ensures mbitmap[..] == SetRange(old(mbitmap[..]), base / PAGE_SIZE, length / PAGE_SIZE)
      ensures usedBlocks == (old(usedBlocks) + length / PAGE_SIZE) % MODULUS
    {
      var align: nat, blocks: nat := base / PAGE_SIZE, length / PAGE_SIZE;
      ghost var from, count := align, blocks;
      while blocks > 0
        invariant align + blocks == from + count && blocks <= count
        invariant SetRange(mbitmap[..], align, blocks) == SetRange(old(mbitmap[..]), from, count)
        invariant usedBlocks == (old(usedBlocks) + (count - blocks)) % MODULUS
      {
        ghost var before := mbitmap[..];
        mbitmap[align / BLOCKS_PER_UNIT] := WithBit(mbitmap[align / BLOCKS_PER_UNIT], align % BLOCKS_PER_UNIT);
        assert mbitmap[..] == Mark(before, align);
        align, blocks := align + 1, blocks - 1;
        WrapLater(old(usedBlocks) + (count - blocks) - 1, 1);
        usedBlocks := (usedBlocks + 1) % MODULUS;
      }
    }

    method FreeRegion(base: u32, length: u32)
      requires base / PAGE_SIZE + length / PAGE_SIZE <= BLOCKS_PER_UNIT * mbitmap.Length
      modifies this`usedBlocks, mbitmap
      ensures mbitmap[..] == ClearRange(old(mbitmap[..]), base / PAGE_SIZE, length / PAGE_SIZE)
      ensures usedBlocks == Without(old(usedBlocks), length / PAGE_SIZE)
    {
      var align: nat, blocks: nat := base / PAGE_SIZE, length / PAGE_SIZE;
      ghost var from, count := align, blocks;
      while blocks > 0
        invariant align + blocks == from + count && blocks <= count
        invariant ClearRange(mbitmap[..], align, blocks) == ClearRange(old(mbitmap[..]), from, count)
        invariant usedBlocks == Without(old(usedBlocks), count - blocks)
      {
        ghost var before := mbitmap[..];
        mbitmap[align / BLOCKS_PER_UNIT] := WithoutBit(mbitmap[align / BLOCKS_PER_UNIT], align % BLOCKS_PER_UNIT);
        assert mbitmap[..] == Unmark(before, align);
        align, blocks := align + 1, blocks - 1;
        WithoutAnother(old(usedBlocks), count - blocks - 1, usedBlocks);
        usedBlocks := (usedBlocks - 1) % MODULUS;
      }
    }

    /** The first free block is taken; the used counter does not hear of it. */
    method Alloc() returns (pointer: u32)
      requires totalBlocks <= BLOCKS_PER_UNIT * mbitmap.Length && totalBlocks <= 0x10_0000
      modifies this`kinitErrno, mbitmap
      ensures NoneFree(old(mbitmap[..]), Searchable(totalBlocks)) ==>
        pointer == NULL && mbitmap[..] == old(mbitmap[..]) && kinitErrno == ERROR_ENOMEM
      ensures forall b :: IsFirstFree(old(mbitmap[..]), Searchable(totalBlocks), b) && b > 0 ==>
        pointer == PAGE_SIZE * b && mbitmap[..] == Mark(old(mbitmap[..]), b) && kinitErrno == old(kinitErrno)
      ensures IsFirstFree(old(mbitmap[..]), Searchable(totalBlocks), 0) ==>
        && pointer == NULL && kinitErrno == old(kinitErrno)
        && mbitmap[..] == if old(kinitErrno) == ERROR_ENOMEM then old(mbitmap[..]) else Mark(old(mbitmap[..]), 0)
    {
      var b, enomem := FirstFree(mbitmap, totalBlocks);
      if enomem { kinitErrno := ERROR_ENOMEM; }
      if b == 0 && kinitErrno == ERROR_ENOMEM {
        return NULL;
      }
      var i, j := b / BLOCKS_PER_UNIT, b % BLOCKS_PER_UNIT;
      ghost var before := mbitmap[..];
      mbitmap[i] := WithBit(mbitmap[i], j);
      assert mbitmap[..] == Mark(before, b);
      pointer := PAGE_SIZE * b;
    }

    /** A block below the number of blocks is given back; the used counter does not hear of it either. */
    method Free(pointer: u32)
      requires totalBlocks <= BLOCKS_PER_UNIT * mbitmap.Length
      modifies mbitmap
      ensures mbitmap[..] == if pointer / PAGE_SIZE < totalBlocks then Unmark(old(mbitmap[..]), pointer / PAGE_SIZE)
        else old(mbitmap[..])
    {
      var b := pointer / PAGE_SIZE;
      if b < totalBlocks {
        var i, j := b / BLOCKS_PER_UNIT, b % BLOCKS_PER_UNIT;
        mbitmap[i] := WithoutBit(mbitmap[i], j);
      }
    }

    method Fill(size: nat)
      requires size <= mbitmap.Length
      modifies mbitmap
      ensures mbitmap[..] == Filled(old(mbitmap[..]), size)
    {
      var i := 0;
      while i < size
        invariant 0 <= i <= size
        invariant mbitmap[..] == Filled(old(mbitmap[..]), i)
      {
        mbitmap[i] := FULL_UNIT;
        i := i + 1;
      }
    }

    /** The next entry of the boot information's memory map. */
    method NextEntry(boot: BootInfo.Walker) returns (e: Option<BootInfo.MmapEntry>)
      requires Remaining(boot).Some?
      modifies boot`currentMmapEntry, boot`kinitErrno
      ensures old(Remaining(boot)) == Some([]) ==> e == None && Remaining(boot) == Some([])
      ensures old(Remaining(boot)) != Some([]) ==>
        e == Some(old(Remaining(boot)).value[0]) && Remaining(boot) == Some(old(Remaining(boot)).value[1..])
    {
      ghost var i;
      ghost var payload, c := MapPayload(boot.tags).value, boot.currentMmapEntry;
      e, i := boot.NextMmap();
      assert e.Some? ==> BootInfo.Entries(payload, c)[1..] == BootInfo.Entries(payload, c + 1);
    }

    method FreeAvailable(e: BootInfo.MmapEntry)
      requires e.kind == AVAILABLE ==> FirstBlock(e) + BlockCount(e) <= BLOCKS_PER_UNIT * mbitmap.Length
      modifies this`usedBlocks, mbitmap
      ensures mbitmap[..] == FreeEntry(old(mbitmap[..]), e)
      ensures usedBlocks == Without(old(usedBlocks), ReleasedBy(e))
    {
      if e.kind == AVAILABLE {
        FreeRegion(e.base % MODULUS, e.length % MODULUS);
      }
    }

    /** Give back every block that an available entry of the memory map mentions. */
    method FreeMap(boot: BootInfo.Walker)
      requires boot.mem != mbitmap as object && Remaining(boot).Some? && Holds(mbitmap[..], Remaining(boot).value)
      modifies this`usedBlocks, mbitmap, boot`currentMmapEntry, boot`kinitErrno
      ensures mbitmap[..] == FreeEntries(old(mbitmap[..]), old(Remaining(boot)).value)
      ensures usedBlocks == Without(old(usedBlocks), Released(old(Remaining(boot)).value))
    {
      ghost var rest, m, u := Remaining(boot).value, mbitmap[..], usedBlocks;
      ghost var all, m0, u0 := rest, m, u;
      var e := NextEntry(boot);
      while e.Some?
        invariant m == mbitmap[..] && u == usedBlocks
        invariant Outcome(m, rest, u) == Outcome(m0, all, u0)
        invariant e == if rest == [] then None else Some(rest[0])
        invariant Remaining(boot) == Some(if rest == [] then [] else rest[1..])
        decreases rest
      {
        OutcomeStep(m, rest, u, m0, all, u0);
        FreeAvailable(e.value);
        rest, m, u := rest[1..], mbitmap[..], usedBlocks;
        e := NextEntry(boot);
      }
      OutcomeReached(m, rest, u, m0, all, u0);
    }
  }

  /** The map and the counter that freeing the entries will leave, or none if the units do not hold them. */
  ghost function Outcome(m: seq<u32>, entries: seq<BootInfo.MmapEntry>, used: u32): Option<(seq<u32>, u32)> {
    if Holds(m, entries) then Some((FreeEntries(m, entries), Without(used, Released(entries)))) else None
  }

  lemma OutcomeStep(m: seq<u32>, rest: seq<BootInfo.MmapEntry>, used: u32, m0: seq<u32>, all: seq<BootInfo.MmapEntry>,
      u0: u32)
    requires Holds(m0, all) && rest != [] && Outcome(m, rest, used) == Outcome(m0, all, u0)
    ensures var e := rest[0];
      && (e.kind == AVAILABLE ==> FirstBlock(e) + BlockCount(e) <= BLOCKS_PER_UNIT * |m|)
      && Outcome(FreeEntry(m, e), rest[1..], Without(used, ReleasedBy(e))) == Outcome(m0, all, u0)
  {
    assert forall d :: d in rest[1..] ==> d in rest;
    var left: int, gone: int := used - ReleasedBy(rest[0]), 0 - Released(rest[1..]);
    WrapLater(left, gone);
  }

  lemma OutcomeReached(m: seq<u32>, rest: seq<BootInfo.MmapEntry>, used: u32, m0: seq<u32>,
      all: seq<BootInfo.MmapEntry>, u0: u32)
    requires Holds(m0, all) && rest == [] && Outcome(m, rest, used) == Outcome(m0, all, u0)
    ensures m == FreeEntries(m0, all) && used == Without(u0, Released(all))
  {
  }

  // ----- The used counter against the map

  /**
   After initialization from a map whose available entries do not overlap and stay below the number
   of blocks, the counter exceeds the marked blocks by those reserved blocks that were marked
   already when they were reserved.
   */
  lemma DriftAfterInit(m: seq<u32>, entries: seq<BootInfo.MmapEntry>, kilobytes: u32, start: nat)
    requires var total := TotalBlocks(kilobytes);
      var size, end := BitmapSize(total), KernelEnd(start, BitmapSize(total));
      && MEGABYTE <= start < MAX_START && end / PAGE_SIZE <= total && size <= |m|
      && Holds(m, entries) && Apart(entries)
      && forall e :: e in entries && e.kind == AVAILABLE ==> FirstBlock(e) + BlockCount(e) <= total
    ensures var total := TotalBlocks(kilobytes);
      var size, end := BitmapSize(total), KernelEnd(start, BitmapSize(total));
      With(Without(total, Released(entries)), end / PAGE_SIZE) - UsedBelow(Initialized(m, size, entries, end), total)
        == MarkedIn(FreeEntries(Filled(m, size), entries), 0, end / PAGE_SIZE, total)
  {
    hide FreeEntries, MarkedIn, Released, UsedBelow, Wasted;
    var total := TotalBlocks(kilobytes);
    var size, end := BitmapSize(total), KernelEnd(start, BitmapSize(total));
    var filled, pages := Filled(m, size), end / PAGE_SIZE;
    KernelEndIsAbove(start, size);
    forall e, b: nat | e in entries && Covers(e, b) ensures b < total && Marked(filled, b) { FilledMarks(m, size, b); }
    NothingWasted(filled, entries, total);
    FreedCounts(m, size, entries, total);
    CounterAgainstMap(m, size, entries, end, pages, total);
    NoWrap(total, Released(entries), pages);
  }

  lemma NoWrap(total: nat, released: nat, pages: nat)
    requires released <= total < 0x10_0000 && pages <= total
    ensures With(Without(total, released), pages) == total - released + pages
  {
  }

  /** Every block that the boot code takes is one that the counter does not hear of. */
  lemma AllocLowersDrift(m: seq<u32>, total: nat, limit: nat, b: nat)
    requires limit <= BLOCKS_PER_UNIT * |m| && limit <= total && IsFirstFree(m, limit, b)
    ensures UsedBelow(Mark(m, b), total) == UsedBelow(m, total) + 1
  {
    MarkCounts(m, b, total);
  }
}
