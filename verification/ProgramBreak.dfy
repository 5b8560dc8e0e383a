/** The break of the kernel heap, kernel/arch/i386/memory.c. */
module ProgramBreak {
  import opened Options
  import opened Words
  import opened PageTables
  import opened BlockAllocator
  import opened PageManager
  import opened HeapPages

  const EINVAL: nat := 1
  const ENOMEM: nat := 2
  const FAILED: u32 := 0xffff_ffff  // (void *)(-1)

  /** The page manager's machine, the heap base and the break (0 before the first call), and errno. */
  datatype Break = Break(m: Machine, base: u32, brk: u32, errno: nat)

  /** The first page above the heap: PAGEMNGR_PAGE_ALIGN_UP always goes up, also from a page boundary. */
  function Top(s: Break): nat {
    if s.brk == 0 then s.base / FRAME_SIZE else s.brk / FRAME_SIZE + 1
  }

  /** The mapped heap pages are exactly those from the base up to the break, each with a block of its own. */
  ghost predicate HeapExact(s: Break) {
    && Good(s.m)
    && 0 < s.base && s.base % FRAME_SIZE == 0 && (s.brk == 0 || s.base <= s.brk)
    && HeapUpTo(s.m.space, s.base / FRAME_SIZE, Top(s))
  }

  /** The new break lies in a lower page than the old one. */
  predicate Lowers(s: Break, addr: u32) {
    addr / FRAME_SIZE + 1 < Top(s)
  }

  /** How many pages the source's arithmetic on unsigned numbers makes of the new break. */
  function NewPages(s: Break, addr: u32): nat {
    var top := addr / FRAME_SIZE + 1;
    if !Lowers(s, addr) then top - Top(s)
    else if top + 1 == Top(s) then MODULUS - 1
    else top + PAGES - Top(s)
  }

  /** A new break that does not lead into the page of the kernel stack, or finds no blocks to get there. */
  ghost predicate Legal(s: Break, addr: u32)
    requires Good(s.m)
  {
    addr >= s.base ==> InReach(s.m, Top(s), 0, NewPages(s, addr))
  }

  ghost predicate Enough(s: Break, addr: u32)
    requires HeapExact(s)
  {
    addr >= s.base ==> !Lowers(s, addr) && Needed(Dirs(s.m.space), Top(s), NewPages(s, addr)) <= FreeCount(s.m.blocks)
  }

  // ----- The calls

  ghost function AfterBrk(s: Break, addr: u32): (r: (Break, int))
    requires Good(s.m) && Legal(s, addr)
  {
    if s.base == 0 then (s.(errno := EINVAL), -1)
    else if addr < s.base then (s.(errno := ENOMEM), -1)
    else
      var (m, result) := AllocateNewBrk(s.m, Top(s), 0, NewPages(s, addr));
      if result == -1 then (s.(m := m, errno := ENOMEM), -1) else (s.(m := m, brk := addr), 0)
  }

  /** The address that sbrk asks for: the increment is signed. */
  function Target(s: Break, increment: int): u32 {
    (s.brk + increment) % MODULUS
  }

  ghost function AfterSbrk(s: Break, increment: int): (r: (Break, u32))
    requires Good(s.m) && Legal(s, Target(s, increment))
  {
    if increment == 0 then (s, s.brk)
    else
      var (t, result) := AfterBrk(s, Target(s, increment));
      if result != 0 then (t.(errno := ENOMEM), FAILED) else (t, s.brk)
  }

  // ----- What one call does

  /**
   A new break above the base is granted, with the heap exact again, if and only if there are blocks
   for its pages and tables.
   */
  lemma BrkIsExactIff(s: Break, addr: u32)
    requires HeapExact(s) && Legal(s, addr) && s.base <= addr
    ensures AfterBrk(s, addr).1 == 0 && HeapExact(AfterBrk(s, addr).0) && AfterBrk(s, addr).0.brk == addr
      <==> Enough(s, addr)
    ensures AfterBrk(s, addr).0.base == s.base
  {
    hide AllocateNewBrk, Needed, HeapUpTo, FreeCount;
    var n := NewPages(s, addr);
    LoopResult(s.m, Top(s), 0, n);
    if Lowers(s, addr) {
      LoweringTakesEverything(s, addr);
    } else if Top(s) + n > STACK_PAGE {
      NeededAtLeast(Dirs(s.m.space), Top(s), n);
      HeapEndsAtTop(s);
      LoopRunsOut(s.m, Top(s), 0, n, 0);
    } else {
      GrowsExactlyIff(s.m, s.base / FRAME_SIZE, Top(s), 0, n);
      var (m, result) := AllocateNewBrk(s.m, Top(s), 0, n);
      if result == 0 { LoopKeepsGood(s.m, Top(s), 0, n); }
    }
  }

  /**
   A lower page does not give anything back: the count of new pages wraps, and the call takes every
   block that is free before it fails, with the break as before. The heap then has pages beyond its
   break, unless there was neither a table for a first one nor a block to spare for it.
   */
  lemma LoweringTakesEverything(s: Break, addr: u32)
    requires HeapExact(s) && Legal(s, addr) && s.base <= addr && Lowers(s, addr)
    ensures var (t, result) := AfterBrk(s, addr);
      && result == -1 && t.brk == s.brk && t.errno == ENOMEM && Good(t.m) && FreeCount(t.m.blocks) == 0
      && (HeapExact(t) <==> Pde(s.m.space, Top(s) / ENTRIES) == 0 && FreeCount(s.m.blocks) <= 1)
  {
    hide AllocateNewBrk, FreeCount, HeapUpTo;
    HeapEndsAtTop(s);
    assert NewPages(s, addr) > STACK_PAGE - Top(s);
    LoopRunsOut(s.m, Top(s), 0, NewPages(s, addr), 0);
    RunningOutSparesHeapIff(s.m, s.base / FRAME_SIZE, Top(s), NewPages(s, addr));
  }

  /** The calls that are refused for other reasons than blocks, and the one that asks for nothing. */
  lemma Refusals(s: Break, addr: u32)
    requires Good(s.m) && Legal(s, addr) && (addr < s.base || s.base == 0)
    ensures AfterBrk(s, addr) == (s.(errno := if s.base == 0 then EINVAL else ENOMEM), -1)
    ensures addr != s.brk ==>
      Target(s, addr - s.brk) == addr && AfterSbrk(s, addr - s.brk) == (s.(errno := ENOMEM), 0xffff_ffff)
    ensures Legal(s, s.brk) ==> AfterSbrk(s, 0) == (s, s.brk)
  {
  }

  /** A break that is granted maps its own page, also where it begins one, and no page above it. */
  lemma BreakMapsItsPage(s: Break, addr: u32, va: u32)
    requires HeapExact(s) && Legal(s, addr) && s.base <= addr && Enough(s, addr)
    requires s.base <= va && va / 4096 < STACK_PAGE
    ensures Walk(AfterBrk(s, addr).0.m.space, va).Some? <==> va / 4096 <= addr / 4096
  {
    hide AfterBrk, Needed;
    BrkIsExactIff(s, addr);
    var t := AfterBrk(s, addr).0;
    if va / 4096 <= addr / 4096 { HeapIsMapped(t, va); } else { HeapEnds(t, va); }
  }

  lemma {:induction false} NeededAtLeast(dirs: set<nat>, v: nat, n: nat)
    ensures Needed(dirs, v, n) >= n
    decreases n
  {
    if n > 0 { NeededAtLeast(dirs + {v / ENTRIES}, v + 1, n - 1); }
  }

  lemma HeapEndsAtTop(s: Break)
    requires HeapExact(s)
    ensures NothingFrom(s.m.space, Top(s)) && Top(s) <= STACK_PAGE && 0 < s.base / FRAME_SIZE <= Top(s)
  {
  }

  lemma {:induction false} LoopResult(m: Machine, page: nat, i: nat, n: nat)
    requires Good(m) && InReach(m, page, i, n)
    ensures AllocateNewBrk(m, page, i, n).1 in {0, -1}
    decreases n
  {
    hide Turn, OutOfBlocks, RolledBack;
    if n > 0 && !OutOfBlocks(m, i) {
      TurnStaysInReach(m, page, i, n);
      LoopResult(Turn(m, page), page + 1, i + 1, n - 1);
    }
  }

  lemma {:induction false} LoopKeepsGood(m: Machine, page: nat, i: nat, n: nat)
    requires Good(m) && page + n <= STACK_PAGE && AllocateNewBrk(m, page, i, n).1 == 0
    ensures Good(AllocateNewBrk(m, page, i, n).0)
    decreases n
  {
    hide Turn, OutOfBlocks, RolledBack;
    if n > 0 {
      TurnsFollow(m, page, i, n);
      LoopKeepsGood(Turn(m, page), page + 1, i + 1, n - 1);
    }
  }

  // ----- Grants

  /** The break is above the base and below the stack; the heap need not be exact. */
  ghost predicate Standing(s: Break) {
    Good(s.m) && 0 < s.base && s.base % FRAME_SIZE == 0 && s.base <= s.brk && Top(s) <= STACK_PAGE
  }

  /**
   What sbrk grants is never in a lower page, and no less than one page: that it grants even without
   a block.
   */
  lemma SbrkGrants(s: Break, bytes: nat)
    requires Standing(s) && 0 < bytes && Legal(s, Target(s, bytes))
    ensures var (t, p) := AfterSbrk(s, bytes); var target := Target(s, bytes);
      && (p != FAILED ==> p == s.brk && s.base <= target && !Lowers(s, target))
      && (p != FAILED ==> Standing(t) && t.brk == target && t.base == s.base)
      && (s.base <= target && !Lowers(s, target) && NewPages(s, target) <= 1 ==> p != FAILED)
      && (p != FAILED && NewPages(s, target) == 0 ==> t.m == s.m)
  {
    hide AllocateNewBrk, FreeCount, Good;
    var target := Target(s, bytes);
    if s.base <= target {
      var n := NewPages(s, target);
      LoopResult(s.m, Top(s), 0, n);
      LoopFailsOrNot(s.m, Top(s), 0, n);
      if AllocateNewBrk(s.m, Top(s), 0, n).1 == 0 { LoopKeepsGood(s.m, Top(s), 0, n); }
      if n == 0 { NoPages(s.m, Top(s), n); }
    }
  }

  /** Every byte between the base and the break is mapped, to a frame that no other page shows. */
  lemma HeapIsMapped(s: Break, va: u32)
    requires HeapExact(s) && s.base <= va && va / FRAME_SIZE < Top(s)
    ensures Walk(s.m.space, va).Some? && Owned(s.m.space, va / FRAME_SIZE)
  {
    var v: nat := va / FRAME_SIZE;
    assert PageAt(s.m.space, v) == Page(s.m.space, v / ENTRIES, v % ENTRIES);
    assert Owned(s.m.space, v);
    assert DirIndex(va) == v / ENTRIES && TableIndex(va) == v % ENTRIES;
  }

  lemma HeapEnds(s: Break, va: u32)
    requires HeapExact(s) && Top(s) <= va / FRAME_SIZE < STACK_PAGE
    ensures Walk(s.m.space, va) == None
  {
    var v: nat := va / FRAME_SIZE;
    assert EntryAt(s.m.space, v) == 0;
    assert DirIndex(va) == v / ENTRIES && TableIndex(va) == v % ENTRIES;
  }

  /** What sbrk returns for a positive increment is the start of a range that is mapped. */
  lemma SbrkRangeIsMapped(s: Break, increment: nat, va: u32)
    requires HeapExact(s) && 0 < s.brk && 0 < increment && s.brk + increment < MODULUS
    requires Legal(s, Target(s, increment)) && Enough(s, Target(s, increment))
    ensures var (t, start) := AfterSbrk(s, increment);
      && start == s.brk && t.brk == s.brk + increment && HeapExact(t)
      && (start <= va < start + increment ==> Walk(t.m.space, va).Some? && Owned(t.m.space, va / FRAME_SIZE))
  {
    hide AfterBrk, Needed;
    BrkIsExactIff(s, Target(s, increment));
    var t := AfterSbrk(s, increment).0;
    if s.brk <= va < s.brk + increment {
      assert va / FRAME_SIZE <= t.brk / FRAME_SIZE;
      HeapIsMapped(t, va);
    }
  }

  // ----- Whole runs

  datatype Call = SetBreak(addr: u32) | MoveBreak(increment: int)

  function NewBreak(s: Break, call: Call): u32 {
    match call
    case SetBreak(addr) => addr
    case MoveBreak(increment) => Target(s, increment)
  }

  ghost predicate Afforded(s: Break, call: Call) {
    HeapExact(s) && Legal(s, NewBreak(s, call)) && Enough(s, NewBreak(s, call))
  }

  ghost function Do(s: Break, call: Call): Break
    requires Afforded(s, call)
  {
    match call
    case SetBreak(addr) => AfterBrk(s, addr).0
    case MoveBreak(increment) => AfterSbrk(s, increment).0
  }

  ghost predicate AllAfforded(s: Break, calls: seq<Call>)
    decreases |calls|
  {
    calls == [] || (Afforded(s, calls[0]) && AllAfforded(Do(s, calls[0]), calls[1..]))
  }

  ghost function DoAll(s: Break, calls: seq<Call>): Break
    requires AllAfforded(s, calls)
    decreases |calls|
  {
    if calls == [] then s else DoAll(Do(s, calls[0]), calls[1..])
  }

  lemma CallKeepsHeapExact(s: Break, call: Call)
    requires Afforded(s, call)
    ensures HeapExact(Do(s, call)) && Top(s) <= Top(Do(s, call)) && Do(s, call).base == s.base
  {
    if NewBreak(s, call) >= s.base { BrkIsExactIff(s, NewBreak(s, call)); }
  }

  /** Over every run of calls with enough blocks the heap stays exact, and what was mapped once stays mapped. */
  lemma {:induction false} RunsKeepHeapExact(s: Break, calls: seq<Call>, va: u32)
    requires HeapExact(s) && AllAfforded(s, calls)
    ensures HeapExact(DoAll(s, calls)) && Top(s) <= Top(DoAll(s, calls)) && DoAll(s, calls).base == s.base
    ensures s.base <= va && va / FRAME_SIZE < Top(s) ==> Walk(DoAll(s, calls).m.space, va).Some?
    decreases |calls|
  {
    if calls == [] {
      if s.base <= va && va / FRAME_SIZE < Top(s) { HeapIsMapped(s, va); }
    } else {
      CallKeepsHeapExact(s, calls[0]);
      RunsKeepHeapExact(Do(s, calls[0]), calls[1..], va);
    }
  }

  // ----- The program

  class Kernel {
    const pager: Pager
    var heapBase: u32
    var brk: u32
    var errno: nat

    ghost function Model(): Break
      reads this, pager.phys, pager.allocator, pager.allocator.mbmp
    {
      Break(pager.Model(), heapBase, brk, errno)
    }

    constructor (pager: Pager)
      ensures this.pager == pager && heapBase == 0 && brk == 0 && errno == 0
    {
      this.pager, heapBase, brk, errno := pager, 0, 0, 0;
    }

    method SetBase(baseAddress: u32)
      modifies this`heapBase
      ensures heapBase == baseAddress
    {
      heapBase := baseAddress;
    }

    method Brk(addr: u32) returns (result: int)
      requires pager.allocator.mbmp != pager.phys && Good(pager.Model())
      requires heapBase % FRAME_SIZE == 0 && (brk == 0 || heapBase <= brk) && Legal(Model(), addr)
      modifies this`brk, this`errno, pager.phys, pager.allocator`usedBlocks, pager.allocator.mbmp
      ensures (Model(), result) == AfterBrk(old(Model()), addr)
    {
      if heapBase == 0 {
        errno := EINVAL;
        return -1;
      }
      if addr < heapBase {
        errno := ENOMEM;
        return -1;
      }
      LoopResult(pager.Model(), Top(Model()), 0, NewPages(Model(), addr));
      result := Grow(addr);
      if result == -1 {
        return;
      }
      brk := addr;
    }

    /** The pages up to the new break: none if it stays in the last mapped page. */
    method Grow(addr: u32) returns (result: int)
      requires pager.allocator.mbmp != pager.phys && Good(pager.Model()) && 0 < heapBase <= addr
      requires heapBase % FRAME_SIZE == 0 && (brk == 0 || heapBase <= brk) && Legal(Model(), addr)
      modifies this`errno, pager.phys, pager.allocator`usedBlocks, pager.allocator.mbmp
      ensures (pager.Model(), result) ==
        HeapPages.AllocateNewBrk(old(pager.Model()), Top(old(Model())), 0, NewPages(old(Model()), addr))
      ensures errno == if result == -1 then ENOMEM else old(errno)
    {
      hide HeapPages.AllocateNewBrk, Good, NewPages;
      var top := AlignUp(addr);
      PagesCounted(Model(), addr);
      if brk == 0 {
        var blockCount := (top - heapBase) % MODULUS / FRAME_SIZE;
        result := AllocateNewBrk(heapBase, blockCount);
      } else if AlignDown(addr) == AlignDown(brk) {
        NoPages(pager.Model(), Top(Model()), NewPages(Model(), addr));
        result := 0;
      } else {
        var newBlockCount := ((top - AlignDown(brk)) % MODULUS / FRAME_SIZE - 1) % MODULUS;
        result := AllocateNewBrk(AlignUp(brk), newBlockCount);
      }
    }

    method Sbrk(increment: int) returns (result: u32)
      requires pager.allocator.mbmp != pager.phys && Good(pager.Model())
      requires heapBase % FRAME_SIZE == 0 && (brk == 0 || heapBase <= brk) && Legal(Model(), Target(Model(), increment))
      modifies this`brk, this`errno, pager.phys, pager.allocator`usedBlocks, pager.allocator.mbmp
      ensures (Model(), result) == AfterSbrk(old(Model()), increment)
    {
      var oldBrk := brk;
      if increment == 0 {
        return brk;
      }
      var r := Brk((brk + increment) % MODULUS);
      if r != 0 {
        errno := ENOMEM;
        return FAILED;
      }
      result := oldBrk;
    }

    method AllocateNewBrk(frameAddr: u32, count: u32) returns (result: int)
      requires pager.allocator.mbmp != pager.phys && Good(pager.Model())
      requires frameAddr % FRAME_SIZE == 0 && InReach(pager.Model(), frameAddr / FRAME_SIZE, 0, count)
      modifies this`errno, pager.phys, pager.allocator`usedBlocks, pager.allocator.mbmp
      ensures (pager.Model(), result) == HeapPages.AllocateNewBrk(old(pager.Model()), frameAddr / FRAME_SIZE, 0, count)
      ensures errno == if result == -1 then ENOMEM else old(errno)
    {
      hide Turn, OutOfBlocks, RolledBack;
      ghost var goal := HeapPages.AllocateNewBrk(pager.Model(), frameAddr / FRAME_SIZE, 0, count);
      var i, frame := 0, frameAddr;
      while i < count
        invariant i <= count && frame == frameAddr + FRAME_SIZE * i
        invariant errno == old(errno) && Good(pager.Model())
        invariant InReach(pager.Model(), frameAddr / FRAME_SIZE + i, i, count - i)
        invariant HeapPages.AllocateNewBrk(pager.Model(), frameAddr / FRAME_SIZE + i, i, count - i) == goal
      {
        ghost var m, page := pager.Model(), frameAddr / FRAME_SIZE + i;
        var stuck := Next(frame, i);
        if stuck {
          errno := ENOMEM;
          return -1;
        }
        TurnStaysInReach(m, page, i, count - i);
        assert frame / FRAME_SIZE == page;
        i, frame := i + 1, frame + FRAME_SIZE;
      }
      result := 0;
    }

    /** One turn; the rollback loop of the source returns in its first turn. */
    method Next(frame: u32, i: nat) returns (stuck: bool)
      requires pager.allocator.mbmp != pager.phys && Good(pager.Model())
      requires frame % FRAME_SIZE == 0 && frame / FRAME_SIZE < STACK_PAGE
      modifies pager.phys, pager.allocator`usedBlocks, pager.allocator.mbmp
      ensures stuck <==> OutOfBlocks(old(pager.Model()), i)
      ensures pager.Model() == if stuck then RolledBack(old(pager.Model()), frame / FRAME_SIZE)
        else Turn(old(pager.Model()), frame / FRAME_SIZE)
    {
      hide Unmap, Map, AfterAllocate, AfterDeallocate;
      ghost var m := pager.Model();
      TakingIsGood(m);
      IndicesOf(frame / FRAME_SIZE);
      var block := pager.allocator.AllocateBlock();
      assert (pager.Model(), block) == Taken(m);
      if block == NULL {
        if i > 0 {
          var physical := pager.UnmapBlock(frame);
          if physical != NULL {
            pager.allocator.DeallocateBlock(physical);
          }
          return true;
        }
      }
      var ignored := pager.MapBlock(block, frame);
      stuck := false;
    }
  }

  function AlignDown(x: u32): u32 {
    x / FRAME_SIZE * FRAME_SIZE
  }

  function AlignUp(x: u32): u32 {
    (AlignDown(x) + FRAME_SIZE) % MODULUS
  }

  lemma NoPages(m: Machine, page: nat, n: nat)
    requires Good(m) && page + n <= STACK_PAGE && n == 0
    ensures AllocateNewBrk(m, page, 0, n) == (m, 0)
  {
  }

  /** The sums on addresses arrive at the count of pages. */
  lemma PagesCounted(s: Break, addr: u32)
    requires s.base % FRAME_SIZE == 0 && 0 < s.base <= addr && Top(s) <= STACK_PAGE
    requires s.brk == 0 || s.base <= s.brk
    ensures s.brk == 0 ==>
      s.base / FRAME_SIZE == Top(s) && (AlignUp(addr) - s.base) % MODULUS / FRAME_SIZE == NewPages(s, addr)
    ensures s.brk != 0 && AlignDown(addr) == AlignDown(s.brk) ==> NewPages(s, addr) == 0
    ensures s.brk != 0 && AlignDown(addr) != AlignDown(s.brk) ==>
      && AlignUp(s.brk) % FRAME_SIZE == 0 && AlignUp(s.brk) / FRAME_SIZE == Top(s)
      && ((AlignUp(addr) - AlignDown(s.brk)) % MODULUS / FRAME_SIZE - 1) % MODULUS == NewPages(s, addr)
  {
    Aligned(addr);
    Aligned(s.brk);
    var up := if addr / FRAME_SIZE + 1 == PAGES then 0 else addr / FRAME_SIZE + 1;
    if s.brk == 0 {
      assert AlignUp(addr) - s.base == FRAME_SIZE * (up - s.base / FRAME_SIZE);
      PagesWrap(up - s.base / FRAME_SIZE);
    } else {
      assert AlignUp(addr) - AlignDown(s.brk) == FRAME_SIZE * (up - s.brk / FRAME_SIZE);
      PagesWrap(up - s.brk / FRAME_SIZE);
    }
  }

  lemma PagesWrap(n: int)
    requires 0 <= n + PAGES && n < PAGES
    ensures (FRAME_SIZE * n) % MODULUS / FRAME_SIZE == if n < 0 then n + PAGES else n
  {
  }

  /** Above the last page of the address space comes the first one. */
  lemma Aligned(x: u32)
    ensures AlignDown(x) == FRAME_SIZE * (x / FRAME_SIZE)
    ensures AlignUp(x) == if x / FRAME_SIZE + 1 == PAGES then 0 else FRAME_SIZE * (x / FRAME_SIZE + 1)
  {
  }
}
