/** From the boot code to the kernel: the state that the setup leaves is one on which the kernel's heap can be built. */
module Handover {
  import opened Options
  import opened Words
  import opened Bitmap
  import opened PageTables
  import opened BlockAllocator
  import opened PageManager
  import opened HeapPages
  import opened BootPaging
  import HeapModel
  import HeapOnBreak
  import HeapRuns
  import ProgramBreak
  import Tilings
  import BootBitmap
  import BootInfo
  import B = BootAllocator

  /** What the setup starts from: everything below the kernel's end is reserved, and free blocks hold zeros. */
  ghost predicate Prepared(m: seq<u32>, units: seq<u32>, total: nat, pages: nat) {
    && Whole(m) && total <= BLOCKS_PER_UNIT * |units| && total <= FRAMES && LOW_PAGES <= pages <= ENTRIES
    && (forall b: nat :: b < pages ==> Marked(units, b))
    && (forall b: nat :: b < total && !Marked(units, b) ==> forall i :: 0 <= i < ENTRIES ==> At(m, b, i) == 0)
  }

  /** The kernel's machine: the boot code's memory, bitmap and number of blocks. */
  function Booted(m: seq<u32>, fs: Frames, pages: nat, r: seq<u32>, total: nat, used: u32): Machine
    requires Whole(m) && InMemory(fs) && pages <= FRAMES
  {
    Machine(SpaceOf(Built(m, fs, pages), fs), Blocks(r, total, used))
  }

  /** What each page shows. */
  lemma BuiltPages(m: seq<u32>, fs: Frames, pages: nat, d: nat, t: nat)
    requires Whole(m) && InMemory(fs) && Distinct(fs) && LOW_PAGES <= pages <= ENTRIES && d < ENTRIES && t < ENTRIES
    ensures Page(SpaceOf(Built(m, fs, pages), fs), d, t) ==
      if d == 0 && t < LOW_PAGES then Some(t)
      else if d == KERNEL && LOW_PAGES <= t < pages then Some(t)
      else if d == STACK && t == WINDOW then Some(fs.stack)
      else if d == WINDOW then TableOf(fs, t)
      else None
  {
    BuiltEntries(m, fs, pages, d, t);
  }

  function TableOf(fs: Frames, d: nat): Option<nat> {
    if d == 0 then Some(fs.first) else if d == KERNEL then Some(fs.kernel)
    else if d == STACK then Some(fs.stackMap) else if d == WINDOW then Some(fs.directory) else None
  }

  lemma BootedIsPrivate(m: seq<u32>, units: seq<u32>, total: nat, fs: Frames, pages: nat, r: seq<u32>)
    requires Prepared(m, units, total, pages) && Chosen(units, Searchable(total), fs, r) && InMemory(fs)
    ensures TablesPrivate(SpaceOf(Built(m, fs, pages), fs))
  {
    hide Built, Chosen, Marked;
    var s := SpaceOf(Built(m, fs, pages), fs);
    ChosenFrames(units, Searchable(total), fs, r);
    BuiltPages(m, fs, pages, WINDOW, WINDOW);
    DirectoryEntries(m, fs, pages, WINDOW);
    forall c, d, t | 0 <= c < ENTRIES && 0 <= d < ENTRIES && 0 <= t < ENTRIES && Page(s, WINDOW, c).Some?
      && Page(s, d, t) == Page(s, WINDOW, c)
      ensures d == WINDOW && t == c
    {
      BuiltPages(m, fs, pages, WINDOW, c);
      BuiltPages(m, fs, pages, d, t);
      assert Page(s, WINDOW, c).value in FrameSet(fs);
      assert t < pages ==> Marked(units, t);
    }
  }

  lemma DirectoryEntries(m: seq<u32>, fs: Frames, pages: nat, d: nat)
    requires Whole(m) && InMemory(fs) && Distinct(fs) && pages <= FRAMES && d < ENTRIES
    ensures Pde(SpaceOf(Built(m, fs, pages), fs), d) == DirectoryWord(fs, d)
  {
    BuiltWords(m, fs, pages, fs.directory, d);
  }

  lemma BootedIsClean(m: seq<u32>, units: seq<u32>, total: nat, fs: Frames, pages: nat, r: seq<u32>, used: u32)
    requires Prepared(m, units, total, pages) && Chosen(units, Searchable(total), fs, r) && InMemory(fs)
    ensures Clean(Booted(m, fs, pages, r, total, used))
  {
    hide Built;
    var s := SpaceOf(Built(m, fs, pages), fs);
    ChosenFrames(units, Searchable(total), fs, r);
    forall f | 0 <= f < total && !Marked(r, f) ensures f < FRAMES && Blank(s, f) {
      assert !Marked(units, f);
      forall i | 0 <= i < ENTRIES ensures Word(s, f, i) == 0 {
        BuiltWords(m, fs, pages, f, i);
        assert At(m, f, i) == 0;
      }
    }
  }

  lemma BootedIsSound(m: seq<u32>, units: seq<u32>, total: nat, fs: Frames, pages: nat, r: seq<u32>, used: u32)
    requires Prepared(m, units, total, pages) && Chosen(units, Searchable(total), fs, r) && InMemory(fs)
    ensures Sound(Booted(m, fs, pages, r, total, used))
  {
    hide Built, Chosen;
    var k := Booted(m, fs, pages, r, total, used);
    ChosenFrames(units, Searchable(total), fs, r);
    ChosenSize(units, Searchable(total), fs, r);
    BootedIsPrivate(m, units, total, fs, pages, r);
    forall d, t | 0 <= d < ENTRIES && 0 <= t < ENTRIES && Page(k.space, d, t).Some?
      ensures Marked(r, Page(k.space, d, t).value)
    {
      BuiltPages(m, fs, pages, d, t);
      assert Page(k.space, d, t).value in FrameSet(fs) || Page(k.space, d, t).value < pages;
    }
    forall d | 0 <= d < ENTRIES
      ensures Pde(k.space, d) == 0 || (Present(Pde(k.space, d)) && 0 < FrameOf(Pde(k.space, d)) < total)
    {
      DirectoryEntries(m, fs, pages, d);
      assert Pde(k.space, d) != 0 ==> FrameOf(Pde(k.space, d)) in FrameSet(fs);
      assert Marked(units, 0);
    }
  }

  lemma ChosenSize(m: seq<u32>, limit: nat, fs: Frames, r: seq<u32>)
    requires Chosen(m, limit, fs, r)
    ensures |r| == |m|
  {
  }

  /** The state of the break then: no break yet, and the heap based at the kernel's end. */
  function AtHandover(m: seq<u32>, fs: Frames, pages: nat, r: seq<u32>, total: nat, used: u32, errno: nat)
    : ProgramBreak.Break
    requires Whole(m) && InMemory(fs) && pages <= ENTRIES
  {
    ProgramBreak.Break(Booted(m, fs, pages, r, total, used), KERNEL_BASE + FRAME_SIZE * pages, 0, errno)
  }

  /**
   With the heap based at the kernel's end, as the boot parameters say, the heap starts out exact:
   empty, in a sound address space, with all free blocks clean.
   */
  lemma HeapStartsExact(m: seq<u32>, units: seq<u32>, total: nat, fs: Frames, pages: nat, r: seq<u32>, used: u32,
      errno: nat)
    requires Prepared(m, units, total, pages) && Chosen(units, Searchable(total), fs, r) && InMemory(fs)
    ensures ProgramBreak.HeapExact(AtHandover(m, fs, pages, r, total, used, errno))
  {
    hide Built;
    var k := Booted(m, fs, pages, r, total, used);
    BootedIsSound(m, units, total, fs, pages, r, used);
    BootedIsClean(m, units, total, fs, pages, r, used);
    ChosenFrames(units, Searchable(total), fs, r);
    var first := KERNEL_BASE / FRAME_SIZE + pages;
    forall v | first <= v < STACK_PAGE ensures EntryAt(k.space, v) == 0 {
      BuiltEntries(m, fs, pages, v / ENTRIES, v % ENTRIES);
    }
    assert (KERNEL_BASE + FRAME_SIZE * pages) / FRAME_SIZE == first;
  }

  /** The kernel's own start: it sets the break to the heap's base, and the allocator has no list yet. */
  ghost predicate Starts(s: ProgramBreak.Break, base: nat, k: HeapOnBreak.Stack)
    requires ProgramBreak.HeapExact(s)
  {
    && s.brk == 0 && s.base / FRAME_SIZE < STACK_PAGE && 0 < base && base + Tilings.HEADER <= s.base
    && ProgramBreak.Enough(s, s.base)
    && (HeapOnBreak.KernelStarts(s, base);
       k == HeapOnBreak.Stack(HeapRuns.Fresh(base, s.base), ProgramBreak.AfterBrk(s, s.base).0))
  }

  /**
   All layers together: from the tables that the boot code builds, through the kernel's start and any
   run of `malloc` and `free` with enough blocks, every byte of every block of the heap is mapped, in
   a page whose frame no other page shows.
   */
  lemma KernelHeapIsBacked(m: seq<u32>, units: seq<u32>, total: nat, fs: Frames, pages: nat, r: seq<u32>, used: u32,
      errno: nat, base: nat, k: HeapOnBreak.Stack, calls: seq<HeapOnBreak.Call>, a: nat, va: u32)
    requires Prepared(m, units, total, pages) && Chosen(units, Searchable(total), fs, r) && InMemory(fs)
    requires var s := AtHandover(m, fs, pages, r, total, used, errno);
      (HeapStartsExact(m, units, total, fs, pages, r, used, errno);
       Starts(s, base, k))
    requires HeapOnBreak.LegalRun(k, calls)
    ensures var end := HeapOnBreak.Run(k, calls);
      && HeapOnBreak.Coupled(end) && end.h.lo == KERNEL_BASE + FRAME_SIZE * pages
      && Tilings.Tiling(HeapModel.Blocks(end.h), end.h.size, end.h.lo, end.s.brk)
      && (a in HeapModel.Blocks(end.h) && a in end.h.size && a <= va < a + end.h.size[a] ==>
        Walk(end.s.m.space, va).Some? && Owned(end.s.m.space, va / FRAME_SIZE))
  {
    hide Marked, At, Chosen, Booted, HeapOnBreak.Coupled, HeapOnBreak.LegalRun, ProgramBreak.HeapExact;
    var s := AtHandover(m, fs, pages, r, total, used, errno);
    HeapStartsExact(m, units, total, fs, pages, r, used, errno);
    HeapOnBreak.KernelStarts(s, base);
    HeapOnBreak.RunsAreBacked(k, calls, a, va);
  }

  /** The bitmap that the boot allocator builds is one to start from. */
  lemma InitializedIsPrepared(m: seq<u32>, u0: seq<u32>, size: nat, entries: seq<BootInfo.MmapEntry>, end: nat,
      total: nat)
    requires size <= |u0| && BootBitmap.Holds(u0, entries) && total <= BLOCKS_PER_UNIT * size && total <= FRAMES
    requires Whole(m)
    requires BootBitmap.MEGABYTE <= end <= FRAME_SIZE * ENTRIES && end <= PAGE_SIZE * (BLOCKS_PER_UNIT * |u0|)
    requires end % FRAME_SIZE == 0
    requires forall b: nat :: b < total && BootBitmap.Covered(entries, b) && b >= end / PAGE_SIZE ==>
      forall i :: 0 <= i < ENTRIES ==> At(m, b, i) == 0
    ensures Prepared(m, BootBitmap.Initialized(u0, size, entries, end), total, end / FRAME_SIZE)
  {
    var units := BootBitmap.Initialized(u0, size, entries, end);
    forall b: nat ensures b < end / FRAME_SIZE ==> Marked(units, b)
      ensures b < total && !Marked(units, b) ==> BootBitmap.Covered(entries, b) && b >= end / PAGE_SIZE
    {
      BootBitmap.InitializedMap(u0, size, entries, end, b);
    }
  }

  // ----- The used counter from the boot code on

  lemma ChosenCounts(m: seq<u32>, limit: nat, fs: Frames, r: seq<u32>, total: nat)
    requires Chosen(m, limit, fs, r) && limit <= total
    ensures UsedBelow(r, total) == UsedBelow(m, total) + 5
  {
    var m1, m2, m3, m4 :|
      && Next(m, limit, fs.directory, m1) && Next(m1, limit, fs.first, m2) && Next(m2, limit, fs.kernel, m3)
      && Next(m3, limit, fs.stackMap, m4) && Next(m4, limit, fs.stack, r);
    B.AllocLowersDrift(m, total, limit, fs.directory);
    B.AllocLowersDrift(m1, total, limit, fs.first);
    B.AllocLowersDrift(m2, total, limit, fs.kernel);
    B.AllocLowersDrift(m3, total, limit, fs.stackMap);
    B.AllocLowersDrift(m4, total, limit, fs.stack);
  }

  /**
   The counter that the kernel is handed exceeds the marked blocks by the reserved blocks that were
   marked already, less the five frames of the setup, and keeps that distance over every run of the
   kernel's allocator.
   */
  lemma DriftFromBootOn(u0: seq<u32>, entries: seq<BootInfo.MmapEntry>, kilobytes: u32, start: nat, fs: Frames,
      r: seq<u32>, calls: seq<BlockAllocator.Call>)
    requires var total := B.TotalBlocks(kilobytes);
      var size, end := B.BitmapSize(total), B.KernelEnd(start, B.BitmapSize(total));
      && BootBitmap.MEGABYTE <= start < B.MAX_START && end / PAGE_SIZE <= total && size <= |u0|
      && BootBitmap.Holds(u0, entries) && BootBitmap.Apart(entries)
      && (forall e :: e in entries && e.kind == BootBitmap.AVAILABLE ==>
        BootBitmap.FirstBlock(e) + BootBitmap.BlockCount(e) <= total)
      && Chosen(BootBitmap.Initialized(u0, size, entries, end), Searchable(total), fs, r)
      && var used := B.With(B.Without(total, BootBitmap.Released(entries)), end / PAGE_SIZE);
         LegalCalls(Run(Blocks(r, total, used), {}), calls)
    ensures var total := B.TotalBlocks(kilobytes);
      var size, end := B.BitmapSize(total), B.KernelEnd(start, B.BitmapSize(total));
      var used := B.With(B.Without(total, BootBitmap.Released(entries)), end / PAGE_SIZE);
      var m := BootBitmap.FreeEntries(BootBitmap.Filled(u0, size), entries);
      var already := BootBitmap.MarkedIn(m, 0, end / PAGE_SIZE, total);
      && used - UsedBelow(r, total) == already - 5
      && Drift(DoAll(Run(Blocks(r, total, used), {}), calls).a) == (already - 5) % MODULUS
  {
    hide Chosen, BootBitmap.FreeEntries, BootBitmap.MarkedIn, BootBitmap.Released, UsedBelow, DoAll;
    var total := B.TotalBlocks(kilobytes);
    var size, end := B.BitmapSize(total), B.KernelEnd(start, B.BitmapSize(total));
    var used := B.With(B.Without(total, BootBitmap.Released(entries)), end / PAGE_SIZE);
    B.DriftAfterInit(u0, entries, kilobytes, start);
    ChosenCounts(BootBitmap.Initialized(u0, size, entries, end), Searchable(total), fs, r, total);
    RunsStayAccounted(r, Run(Blocks(r, total, used), {}), calls);
  }
}
