/** The pages behind the kernel heap: how allocate_new_brk of kernel/arch/i386/memory.c maps a run of pages. */
module HeapPages {
  import opened Options
  import opened Words
  import opened Bitmap
  import opened PageTables
  import opened BlockAllocator
  import opened PageManager

  const PAGES: nat := 0x10_0000
  const STACK_PAGE: nat := 0xf_fbff  // the page below the window holds the kernel stack

  // ----- Pages by number

  function PageAt(s: Space, v: nat): (f: Option<nat>)
    requires Shaped(s) && v < PAGES
    ensures f.Some? ==> f.value < FRAMES
  {
    Page(s, v / ENTRIES, v % ENTRIES)
  }

  function EntryAt(s: Space, v: nat): u32
    requires Shaped(s) && v < PAGES
  {
    Entry(s, v / ENTRIES, v % ENTRIES)
  }

  lemma IndicesOf(v: nat)
    requires v < STACK_PAGE
    ensures DirIndex(FRAME_SIZE * v) == v / ENTRIES < WINDOW && TableIndex(FRAME_SIZE * v) == v % ENTRIES
  {
  }

  // ----- Frames that nobody uses

  /** Blocks that are not in use hold only zeros, so that a block taken for a page table has no entries. */
  ghost predicate Clean(m: Machine)
    requires Shaped(m.space)
  {
    forall f {:trigger Marked(m.blocks.units, f)} :: 0 <= f < m.blocks.total && !Marked(m.blocks.units, f) ==>
      f < FRAMES && Blank(m.space, f)
  }

  ghost predicate Good(m: Machine) {
    Sound(m) && Clean(m)
  }

  lemma GoodIsFresh(m: Machine)
    requires Good(m)
    ensures FreshIsBlank(m)
  {
    if CanAllocate(m.blocks) { assert !Marked(m.blocks.units, NextBlock(m.blocks)); }
  }

  // ----- One page

  /** The state after taking a block. */
  ghost function Taken(m: Machine): (r: (Machine, u32))
    requires Good(m)
    ensures Shaped(r.0.space)
  {
    var (blocks, pointer) := AfterAllocate(m.blocks);
    (m.(blocks := blocks), pointer)
  }

  lemma TakingIsGood(m: Machine)
    requires Good(m)
    ensures Good(Taken(m).0) && Mappable(Taken(m).0, Taken(m).1)
  {
    var (r, pointer) := Taken(m);
    AllocateBlockTakesLeast(m.blocks);
    assert Sound(r) by {
      forall d, t | 0 <= d < ENTRIES && 0 <= t < ENTRIES && Page(r.space, d, t).Some?
        ensures Marked(r.blocks.units, Page(r.space, d, t).value)
      {
        assert Page(m.space, d, t).Some?;
      }
      forall d | 0 <= d < ENTRIES
        ensures Pde(r.space, d) == 0 || (Present(Pde(r.space, d)) && 0 < FrameOf(Pde(r.space, d)) < r.blocks.total)
      {
        assert Pde(m.space, d) == 0 || Present(Pde(m.space, d));
      }
    }
    forall f | 0 <= f < r.blocks.total && !Marked(r.blocks.units, f) ensures f < FRAMES && Blank(r.space, f) {
      assert !Marked(m.blocks.units, f);
    }
    forall c | 0 <= c < ENTRIES ensures Page(r.space, WINDOW, c) != Some(FrameOf(pointer)) {
      NotATable(m, c, pointer);
    }
  }

  /** Neither block 0 nor the block handed out next is a page table. */
  lemma NotATable(m: Machine, c: nat, pointer: u32)
    requires Good(m) && c < ENTRIES && pointer == AfterAllocate(m.blocks).1
    ensures Page(m.space, WINDOW, c) != Some(FrameOf(pointer))
  {
    AllocateBlockTakesLeast(m.blocks);
    assert Page(m.space, WINDOW, c).Some? ==> Page(m.space, WINDOW, c) == Some(FrameOf(Pde(m.space, c)));
    assert Pde(m.space, c) == 0 || Present(Pde(m.space, c));
  }

  /** Mapping a page writes into frames in use only. */
  lemma MapKeepsGood(m: Machine, physical: u32, d: nat, t: nat)
    requires Good(m) && Mappable(m, physical) && d < WINDOW && t < ENTRIES
    ensures Good(Map(m, physical, d, t).0)
  {
    GoodIsFresh(m);
    MapKeepsSound(m, physical, d, t);
    MapFailsIff(m, physical, d, t);
    if Map(m, physical, d, t).1 == 0 {
      var r := Map(m, physical, d, t).0;
      forall f | 0 <= f < r.blocks.total && !Marked(r.blocks.units, f) ensures f < FRAMES && Blank(r.space, f) {
        MapUnits(m, physical, d, t, f);
        assert !Marked(m.blocks.units, f);
        MapWritesElsewhere(m, physical, d, t, f);
      }
    }
  }

  lemma MapWritesElsewhere(m: Machine, physical: u32, d: nat, t: nat, f: nat)
    requires Sound(m) && d < WINDOW && t < ENTRIES && Map(m, physical, d, t).1 == 0 && f < FRAMES
    requires !Marked(Map(m, physical, d, t).0.blocks.units, f) && Blank(m.space, f)
    ensures Blank(Map(m, physical, d, t).0.space, f)
  {
    var n := WithTable(m, d);
    MapUnits(m, physical, d, t, f);
    MapUnits(m, physical, d, t, m.space.dir);
    assert Page(m.space, WINDOW, WINDOW) == Some(m.space.dir);
    if Pde(m.space, d) != 0 { assert Page(m.space, WINDOW, d) == Some(FrameOf(Pde(m.space, d))); }
    forall i | 0 <= i < ENTRIES ensures Word(Map(m, physical, d, t).0.space, f, i) == 0 {
      WithWordWords(n.space, TableFrame(m, d), t, WithPresent(physical), f, i);
      if Pde(m.space, d) == 0 {
        WithWordWords(m.space, m.space.dir, d, WithPresent(PAGE_SIZE * NextBlock(m.blocks)), f, i);
      }
    }
  }

  /** Unmapping gives back blank tables only. */
  lemma UnmapKeepsGood(m: Machine, d: nat, t: nat)
    requires Good(m) && d < WINDOW && t < ENTRIES
    ensures Good(Unmap(m, d, t).0)
  {
    UnmapKeepsSound(m, d, t);
    var r := Unmap(m, d, t).0;
    if Page(m.space, d, t).Some? {
      UnmapFreesTableIff(m, d, t);
      var table := FrameOf(Pde(m.space, d));
      var cleared := WithWord(m.space, table, t, 0);
      assert Page(m.space, WINDOW, WINDOW) == Some(m.space.dir) && Page(m.space, WINDOW, d) == Some(table);
      forall f | 0 <= f < r.blocks.total && !Marked(r.blocks.units, f) ensures f < FRAMES && Blank(r.space, f) {
        forall i | 0 <= i < ENTRIES ensures Word(r.space, f, i) == 0 {
          WithWordWords(m.space, table, t, 0, f, i);
          WithWordWords(cleared, m.space.dir, d, 0, f, i);
        }
      }
    }
  }

  // ----- The heap

  /** Page v shows a block of its own: no other page shows it. */
  ghost predicate Owned(s: Space, v: nat)
    requires Shaped(s) && v < PAGES
  {
    && PageAt(s, v).Some? && PageAt(s, v).value > 0
    && forall w {:trigger PageAt(s, w)} :: 0 <= w < PAGES && w != v ==> PageAt(s, w) != PageAt(s, v)
  }

  /** From page `first` on, exactly the pages below `top` are mapped, each to a block of its own. */
  ghost predicate HeapUpTo(s: Space, first: nat, top: nat)
    requires Shaped(s)
  {
    && first <= top <= STACK_PAGE
    && (forall v {:trigger PageAt(s, v)} :: first <= v < top ==> Owned(s, v))
    && (forall v {:trigger EntryAt(s, v)} :: top <= v < STACK_PAGE ==> EntryAt(s, v) == 0)
  }

  /** The directory indices that have a table. */
  ghost function Dirs(s: Space): set<nat>
    requires Shaped(s)
  {
    set d: nat | d < ENTRIES && Pde(s, d) != 0
  }

  /**
   The blocks that mapping n pages from v on takes: one for each page and one for each table that is
   not there yet.
   */
  ghost function Needed(dirs: set<nat>, v: nat, n: nat): nat
    decreases n
  {
    if n == 0 then 0 else (if v / ENTRIES in dirs then 1 else 2) + Needed(dirs + {v / ENTRIES}, v + 1, n - 1)
  }

  /** One turn of the loop: take a block and map it, whatever comes of either. */
  ghost function Turn(m: Machine, page: nat): (r: Machine)
    requires Good(m) && page < STACK_PAGE
    ensures Shaped(r.space)
  {
    var (taken, block) := Taken(m);
    TakingIsGood(m);
    Map(taken, block, page / ENTRIES, page % ENTRIES).0
  }

  lemma TurnIsGood(m: Machine, page: nat)
    requires Good(m) && page < STACK_PAGE
    ensures Good(Turn(m, page))
  {
    TakingIsGood(m);
    MapKeepsGood(Taken(m).0, Taken(m).1, page / ENTRIES, page % ENTRIES);
  }

  /** The way out of the loop: no block is left, and this is not the first one. */
  ghost predicate OutOfBlocks(m: Machine, i: nat)
    requires Good(m)
  {
    Taken(m).1 == NULL && i > 0
  }

  /** What is done then: unmap the page that is next, and give back what comes out of that. */
  ghost function RolledBack(m: Machine, page: nat): (r: Machine)
    requires Good(m) && page < STACK_PAGE
    ensures Shaped(r.space)
  {
    TakingIsGood(m);
    var (rolled, physical) := Unmap(Taken(m).0, page / ENTRIES, page % ENTRIES);
    if physical != NULL && Valid(rolled.blocks) then rolled.(blocks := AfterDeallocate(rolled.blocks, physical))
      else rolled
  }

  /** Every turn takes a block, but for a first one that finds none. */
  lemma TurnSpends(m: Machine, page: nat)
    requires Good(m) && page < STACK_PAGE
    ensures Good(Turn(m, page)) && (Taken(m).1 == NULL <==> FreeCount(m.blocks) == 0)
    ensures FreeCount(Turn(m, page).blocks) <= FreeCount(m.blocks) - if Taken(m).1 == NULL then 0 else 1
  {
    var (taken, block) := Taken(m);
    TurnIsGood(m, page);
    TakingIsGood(m);
    AllocateBlockTakesLeast(m.blocks);
    AllocatesIffFree(m.blocks);
    AllocatesIffFree(taken.blocks);
    MapTakes(taken, block, page);
  }

  lemma MapTakes(m: Machine, physical: u32, page: nat)
    requires Good(m) && page < STACK_PAGE && Good(Map(m, physical, page / ENTRIES, page % ENTRIES).0)
    ensures FreeCount(Map(m, physical, page / ENTRIES, page % ENTRIES).0.blocks) <= FreeCount(m.blocks)
  {
    AllocatesIffFree(m.blocks);
  }

  /** The loop stays below the page of the kernel stack, or the blocks run out before it gets there. */
  ghost predicate InReach(m: Machine, page: nat, i: nat, n: nat)
    requires Good(m)
  {
    page + n <= STACK_PAGE || page + FreeCount(m.blocks) + (if i == 0 then 1 else 0) < STACK_PAGE
  }

  lemma TurnStaysInReach(m: Machine, page: nat, i: nat, n: nat)
    requires Good(m) && InReach(m, page, i, n) && n > 0 && !OutOfBlocks(m, i)
    ensures Good(Turn(m, page)) && InReach(Turn(m, page), page + 1, i + 1, n - 1)
  {
    hide Turn;
    TurnSpends(m, page);
  }

  /** The loop of allocate_new_brk with n blocks to go and i done; without a first block NULL is mapped. */
  ghost function AllocateNewBrk(m: Machine, page: nat, i: nat, n: nat): (r: (Machine, int))
    requires Good(m) && InReach(m, page, i, n)
    ensures Shaped(r.0.space)
    decreases n
  {
    if n == 0 then (m, 0)
    else if OutOfBlocks(m, i) then (RolledBack(m, page), -1)
    else TurnStaysInReach(m, page, i, n); AllocateNewBrk(Turn(m, page), page + 1, i + 1, n - 1)
  }

  /**
   A page of the heap that is not mapped yet can be mapped exactly when there is a table for it or a
   block to make one.
   */
  lemma MapHeapPage(m: Machine, physical: u32, page: nat)
    requires Good(m) && page < STACK_PAGE
    ensures var (r, result) := Map(m, physical, page / ENTRIES, page % ENTRIES);
      && (result != 0 ==> r == m)
      && (EntryAt(m.space, page) == 0 ==> (result == 0 <==> Pde(m.space, page / ENTRIES) != 0 || CanAllocate(m.blocks)))
  {
    GoodIsFresh(m);
    MapFailsIff(m, physical, page / ENTRIES, page % ENTRIES);
  }

  lemma OtherPagesStay(m: Machine, physical: u32, page: nat, v: nat)
    requires Good(m) && page < STACK_PAGE && v < STACK_PAGE && v != page && Mappable(m, physical)
    ensures PageAt(Map(m, physical, page / ENTRIES, page % ENTRIES).0.space, v) == PageAt(m.space, v)
  {
    MapHeapPage(m, physical, page);
    GoodIsFresh(m);
    if Map(m, physical, page / ENTRIES, page % ENTRIES).1 == 0 {
      MapPages(m, physical, page / ENTRIES, page % ENTRIES, v / ENTRIES, v % ENTRIES);
    }
  }

  lemma TurnLeavesOthers(m: Machine, page: nat, v: nat)
    requires Good(m) && page < STACK_PAGE && v < STACK_PAGE && v != page
    ensures PageAt(Turn(m, page).space, v) == PageAt(m.space, v)
  {
    var (taken, block) := Taken(m);
    TakingIsGood(m);
    OtherPagesStay(taken, block, page, v);
  }

  lemma TurnsFollow(m: Machine, page: nat, i: nat, n: nat)
    requires Good(m) && page + n <= STACK_PAGE && n > 0 && AllocateNewBrk(m, page, i, n).1 == 0
    ensures Good(Turn(m, page))
    ensures AllocateNewBrk(m, page, i, n) == AllocateNewBrk(Turn(m, page), page + 1, i + 1, n - 1)
  {
    TurnIsGood(m, page);
  }

  /** What the loop has passed it does not touch again. */
  lemma {:induction false} PassedPagesStay(m: Machine, page: nat, i: nat, n: nat, v: nat)
    requires Good(m) && page + n <= STACK_PAGE && v < page && AllocateNewBrk(m, page, i, n).1 == 0
    ensures PageAt(AllocateNewBrk(m, page, i, n).0.space, v) == PageAt(m.space, v)
    decreases n
  {
    hide Turn, OutOfBlocks, RolledBack;
    if n > 0 {
      TurnsFollow(m, page, i, n);
      TurnLeavesOthers(m, page, v);
      PassedPagesStay(Turn(m, page), page + 1, i + 1, n - 1, v);
    }
  }

  // ----- One turn on the heap

  /** There is a block for the page, and a table or a second block to make one. */
  ghost predicate Affordable(m: Machine, page: nat)
    requires Good(m) && page < STACK_PAGE
  {
    CanAllocate(m.blocks) && (Pde(m.space, page / ENTRIES) != 0 || FreeCount(m.blocks) > 1)
  }

  lemma TurnSucceeds(m: Machine, page: nat)
    requires Good(m) && page < STACK_PAGE && EntryAt(m.space, page) == 0
    ensures Good(Taken(m).0)
    ensures CanAllocate(m.blocks) ==>
      (Map(Taken(m).0, Taken(m).1, page / ENTRIES, page % ENTRIES).1 == 0 <==> Affordable(m, page))
    ensures !Affordable(m, page) && CanAllocate(m.blocks) ==> Turn(m, page) == Taken(m).0
  {
    TakingIsGood(m);
    AllocatesIffFree(m.blocks);
    AllocatesIffFree(Taken(m).0.blocks);
    MapHeapPage(Taken(m).0, Taken(m).1, page);
  }

  /** The page shows the block just taken afterwards, a new table shows in the window, and nothing else changes. */
  lemma TurnMaps(m: Machine, page: nat, w: nat)
    requires Good(m) && page < STACK_PAGE && EntryAt(m.space, page) == 0 && w < PAGES && Affordable(m, page)
    ensures var r, table := Turn(m, page), ENTRIES * WINDOW + page / ENTRIES;
      && (w == page ==> PageAt(r.space, w) == Some(NextBlock(m.blocks)))
      && (w == table && Pde(m.space, page / ENTRIES) == 0 ==>
        PageAt(r.space, w).Some? && !Marked(m.blocks.units, PageAt(r.space, w).value)
          && PageAt(r.space, w).value != NextBlock(m.blocks))
      && (w != page && !(w == table && Pde(m.space, page / ENTRIES) == 0) ==> PageAt(r.space, w) == PageAt(m.space, w))
  {
    var (taken, block) := Taken(m);
    TurnSucceeds(m, page);
    AllocateBlockTakesLeast(m.blocks);
    GoodIsFresh(taken);
    MapPages(taken, block, page / ENTRIES, page % ENTRIES, w / ENTRIES, w % ENTRIES);
  }

  lemma TurnLeavesZeros(m: Machine, page: nat, w: nat)
    requires Good(m) && page < STACK_PAGE && EntryAt(m.space, page) == 0 && w < STACK_PAGE && w != page
    requires EntryAt(m.space, w) == 0 && Affordable(m, page)
    ensures EntryAt(Turn(m, page).space, w) == 0
  {
    var (taken, block) := Taken(m);
    TurnSucceeds(m, page);
    GoodIsFresh(taken);
    MapEntries(taken, block, page / ENTRIES, page % ENTRIES, w / ENTRIES, w % ENTRIES);
  }

  /** The blocks that are left after a turn. */
  lemma TurnTakes(m: Machine, page: nat)
    requires Good(m) && page < STACK_PAGE && EntryAt(m.space, page) == 0 && Affordable(m, page)
    ensures Valid(Turn(m, page).blocks)
    ensures FreeCount(Turn(m, page).blocks) == FreeCount(m.blocks) - if Pde(m.space, page / ENTRIES) != 0 then 1 else 2
    ensures Dirs(Turn(m, page).space) == Dirs(m.space) + {page / ENTRIES}
  {
    var (taken, block) := Taken(m);
    TurnSucceeds(m, page);
    AllocatesIffFree(m.blocks);
    AllocatesIffFree(taken.blocks);
    GoodIsFresh(taken);
    forall d: nat | d < ENTRIES ensures d in Dirs(Turn(m, page).space) <==> d in Dirs(m.space) + {page / ENTRIES} {
      MapPages(taken, block, page / ENTRIES, page % ENTRIES, d, 0);
    }
  }

  /** One more page of the heap. */
  lemma TurnGrows(m: Machine, first: nat, page: nat)
    requires Good(m) && page < STACK_PAGE && HeapUpTo(m.space, first, page) && Affordable(m, page)
    ensures HeapUpTo(Turn(m, page).space, first, page + 1)
  {
    var r := Turn(m, page);
    assert EntryAt(m.space, page) == 0;
    forall v | first <= v < page + 1 ensures Owned(r.space, v) {
      TurnMaps(m, page, v);
      forall w | 0 <= w < PAGES && w != v ensures PageAt(r.space, w) != PageAt(r.space, v) {
        TurnMaps(m, page, w);
        StaysApart(m, first, page, v, w);
      }
    }
    forall v | page + 1 <= v < STACK_PAGE ensures EntryAt(r.space, v) == 0 {
      assert EntryAt(m.space, v) == 0;
      TurnLeavesZeros(m, page, v);
    }
  }

  /** A block in use is neither the one that is taken nor a new table. */
  lemma StaysApart(m: Machine, first: nat, page: nat, v: nat, w: nat)
    requires Good(m) && page < STACK_PAGE && HeapUpTo(m.space, first, page) && CanAllocate(m.blocks)
    requires first <= v < page + 1 && w < PAGES && w != v
    ensures v < page ==> Owned(m.space, v) && PageAt(m.space, w) != PageAt(m.space, v)
    ensures PageAt(m.space, w).Some? ==> Marked(m.blocks.units, PageAt(m.space, w).value)
    ensures PageAt(m.space, v).Some? ==> Marked(m.blocks.units, PageAt(m.space, v).value)
    ensures !Marked(m.blocks.units, NextBlock(m.blocks))
  {
    if v < page { assert PageAt(m.space, v).Some?; }
    assert PageAt(m.space, w) == Page(m.space, w / ENTRIES, w % ENTRIES);
    assert PageAt(m.space, v) == Page(m.space, v / ENTRIES, v % ENTRIES);
  }

  /** Without the blocks the page stays unmapped, or shows block 0. */
  lemma TurnSpoils(m: Machine, page: nat)
    requires Good(m) && page < STACK_PAGE && EntryAt(m.space, page) == 0 && !Affordable(m, page)
    ensures PageAt(Turn(m, page).space, page) in {None, Some(0)}
  {
    TurnSucceeds(m, page);
    if !CanAllocate(m.blocks) {
      var d, t := page / ENTRIES, page % ENTRIES;
      MapHeapPage(m, NULL, page);
      if Map(m, NULL, d, t).1 == 0 { MapEntries(m, NULL, d, t, d, t); }
    }
  }

  // ----- The loop on the heap

  lemma NeededFirst(m: Machine, page: nat, n: nat)
    requires Good(m) && page < STACK_PAGE && n > 0
    ensures Needed(Dirs(m.space), page, n) ==
      (if Pde(m.space, page / ENTRIES) != 0 then 1 else 2) + Needed(Dirs(m.space) + {page / ENTRIES}, page + 1, n - 1)
  {
  }

  lemma UnaffordableIsTooMuch(m: Machine, page: nat, n: nat)
    requires Good(m) && page < STACK_PAGE && n > 0 && !Affordable(m, page)
    ensures Needed(Dirs(m.space), page, n) > FreeCount(m.blocks)
  {
    NeededFirst(m, page, n);
    AllocatesIffFree(m.blocks);
  }

  lemma SpoiltForGood(m: Machine, first: nat, page: nat, i: nat, n: nat)
    requires Good(m) && page + n <= STACK_PAGE && n > 0 && HeapUpTo(m.space, first, page) && !Affordable(m, page)
    ensures var (r, result) := AllocateNewBrk(m, page, i, n); !(result == 0 && HeapUpTo(r.space, first, page + n))
  {
    hide Turn, OutOfBlocks, RolledBack;
    var (r, result) := AllocateNewBrk(m, page, i, n);
    if result == 0 {
      assert EntryAt(m.space, page) == 0;
      TurnsFollow(m, page, i, n);
      TurnSpoils(m, page);
      PassedPagesStay(Turn(m, page), page + 1, i + 1, n - 1, page);
      assert !Owned(r.space, page);
    }
  }

  /**
   The loop ends well, with exactly the n pages added, if and only if there are enough blocks for
   the pages and the tables they need; it then takes just these.
   */
  lemma {:induction false} GrowsExactlyIff(m: Machine, first: nat, page: nat, i: nat, n: nat)
    requires Good(m) && page + n <= STACK_PAGE && HeapUpTo(m.space, first, page)
    ensures var (r, result) := AllocateNewBrk(m, page, i, n); var needed := Needed(Dirs(m.space), page, n);
      && (result == 0 && HeapUpTo(r.space, first, page + n) <==> needed <= FreeCount(m.blocks))
      && (needed <= FreeCount(m.blocks) ==> Good(r) && FreeCount(r.blocks) == FreeCount(m.blocks) - needed)
    decreases n
  {
    hide Turn, OutOfBlocks, RolledBack, FreeCount;
    if n > 0 {
      assert EntryAt(m.space, page) == 0;
      if Affordable(m, page) {
        BlockAtHand(m, page, i, n);
        TurnGrows(m, first, page);
        TurnTakes(m, page);
        NeededFirst(m, page, n);
        GrowsExactlyIff(Turn(m, page), first, page + 1, i + 1, n - 1);
      } else {
        UnaffordableIsTooMuch(m, page, n);
        SpoiltForGood(m, first, page, i, n);
      }
    }
  }

  lemma BlockAtHand(m: Machine, page: nat, i: nat, n: nat)
    requires Good(m) && page + n <= STACK_PAGE && n > 0 && Affordable(m, page)
    ensures Good(Turn(m, page))
    ensures AllocateNewBrk(m, page, i, n) == AllocateNewBrk(Turn(m, page), page + 1, i + 1, n - 1)
  {
    TurnIsGood(m, page);
    AllocateBlockTakesLeast(m.blocks);
  }

  // ----- The ways out

  /**
   With no block left and a table at hand, the loop maps the first page to block 0, reports success
   if that was the only page asked for, and otherwise failure with the page still mapped.
   */
  lemma OutOfBlocksMapsNull(m: Machine, first: nat, page: nat, n: nat)
    requires Good(m) && page + n <= STACK_PAGE && n > 0 && HeapUpTo(m.space, first, page)
    requires FreeCount(m.blocks) == 0 && Pde(m.space, page / ENTRIES) != 0
    ensures var (r, result) := AllocateNewBrk(m, page, 0, n);
      PageAt(r.space, page) == Some(0) && (result == 0 <==> n == 1)
  {
    hide RolledBack;
    var r, i := Turn(m, page), 1;
    assert EntryAt(m.space, page) == 0;
    NullTurn(m, page);
    assert AllocateNewBrk(m, page, i - 1, n) == AllocateNewBrk(r, page + 1, i, n - 1);
    if n > 1 {
      assert EntryAt(m.space, page + 1) == 0;
      NullTurnLeaves(m, page, page + 1);
      RollsNothingBack(r, page + 1);
    }
  }

  lemma NullTurn(m: Machine, page: nat)
    requires Good(m) && page < STACK_PAGE && FreeCount(m.blocks) == 0 && EntryAt(m.space, page) == 0
    requires Pde(m.space, page / ENTRIES) != 0
    ensures Good(Turn(m, page)) && Turn(m, page).blocks == m.blocks && PageAt(Turn(m, page).space, page) == Some(0)
    ensures Taken(m) == (m, NULL) && Taken(Turn(m, page)).1 == NULL
  {
    AllocatesIffFree(m.blocks);
    TurnIsGood(m, page);
    MapHeapPage(m, NULL, page);
    MapEntries(m, NULL, page / ENTRIES, page % ENTRIES, page / ENTRIES, page % ENTRIES);
  }

  lemma NullTurnLeaves(m: Machine, page: nat, v: nat)
    requires Good(m) && page < STACK_PAGE && v < STACK_PAGE && v != page && FreeCount(m.blocks) == 0
    requires EntryAt(m.space, page) == 0 && EntryAt(m.space, v) == 0 && Pde(m.space, page / ENTRIES) != 0
    ensures EntryAt(Turn(m, page).space, v) == 0
  {
    AllocatesIffFree(m.blocks);
    MapHeapPage(m, NULL, page);
    MapEntries(m, NULL, page / ENTRIES, page % ENTRIES, v / ENTRIES, v % ENTRIES);
  }

  /** Whatever is mapped already, more pages than blocks cannot be had; a single page can, with a block or without. */
  lemma {:induction false} LoopFailsOrNot(m: Machine, page: nat, i: nat, n: nat)
    requires Good(m) && InReach(m, page, i, n)
    ensures FreeCount(m.blocks) + (if i == 0 then 1 else 0) < n ==> AllocateNewBrk(m, page, i, n).1 == -1
    ensures i == 0 && n <= 1 ==> AllocateNewBrk(m, page, i, n).1 == 0
    decreases n
  {
    hide Turn, RolledBack, FreeCount;
    if n > 0 && !OutOfBlocks(m, i) {
      TurnSpends(m, page);
      LoopFailsOrNot(Turn(m, page), page + 1, i + 1, n - 1);
    } else if n > 0 {
      TurnSpends(m, page);
    }
  }

  /** From the page on, no page below the stack has an entry. */
  ghost predicate NothingFrom(s: Space, page: nat)
    requires Shaped(s)
  {
    forall v {:trigger EntryAt(s, v)} :: page <= v < STACK_PAGE ==> EntryAt(s, v) == 0
  }

  lemma TurnLeavesAbove(m: Machine, page: nat)
    requires Good(m) && page < STACK_PAGE && NothingFrom(m.space, page)
    ensures NothingFrom(Turn(m, page).space, page + 1)
  {
    var (taken, block) := Taken(m);
    TakingIsGood(m);
    MapHeapPage(taken, block, page);
    GoodIsFresh(taken);
    forall v | page + 1 <= v < STACK_PAGE ensures EntryAt(Turn(m, page).space, v) == 0 {
      assert EntryAt(m.space, v) == 0;
      if Map(taken, block, page / ENTRIES, page % ENTRIES).1 == 0 {
        MapEntries(taken, block, page / ENTRIES, page % ENTRIES, v / ENTRIES, v % ENTRIES);
      }
    }
  }

  /**
   With more pages to map than blocks the loop takes every block there is, and fails. Page v, below
   the first one, is as it was.
   */
  lemma {:induction false} LoopRunsOut(m: Machine, page: nat, i: nat, n: nat, v: nat)
    requires Good(m) && InReach(m, page, i, n) && FreeCount(m.blocks) + (if i == 0 then 1 else 0) < n
    requires NothingFrom(m.space, page) && v < page
    ensures var (r, result) := AllocateNewBrk(m, page, i, n);
      && result == -1 && Good(r) && FreeCount(r.blocks) == 0
      && PageAt(r.space, v) == PageAt(m.space, v)
    decreases n
  {
    hide Turn, RolledBack, FreeCount, PageAt;
    TurnSpends(m, page);
    if OutOfBlocks(m, i) {
      assert EntryAt(m.space, page) == 0;
      TakingIsGood(m);
      AllocatesIffFree(m.blocks);
      RollsNothingBack(m, page);
    } else {
      TurnLeavesAbove(m, page);
      TurnLeavesOthers(m, page, v);
      LoopRunsOut(Turn(m, page), page + 1, i + 1, n - 1, v);
    }
  }

  /** It leaves the heap as it was exactly when there was no table for a first page and no block to make one. */
  lemma RunningOutSparesHeapIff(m: Machine, first: nat, page: nat, n: nat)
    requires Good(m) && InReach(m, page, 0, n) && FreeCount(m.blocks) + 1 < n && 0 < first
    requires HeapUpTo(m.space, first, page)
    ensures HeapUpTo(AllocateNewBrk(m, page, 0, n).0.space, first, page)
      <==> Pde(m.space, page / ENTRIES) == 0 && FreeCount(m.blocks) <= 1
  {
    hide AllocateNewBrk, FreeCount, Turn;
    assert EntryAt(m.space, page) == 0 && NothingFrom(m.space, page);
    FirstTurn(m, page, n);
    if Pde(m.space, page / ENTRIES) == 0 && FreeCount(m.blocks) <= 1 {
      NoTableNoTurn(m, page);
    } else {
      FirstTurnMaps(m, page);
      assert EntryAt(AllocateNewBrk(m, page, 0, n).0.space, page) != 0;
    }
  }

  /** What the first turn does to its page is final; without a block left, it is all that is done. */
  lemma FirstTurn(m: Machine, page: nat, n: nat)
    requires Good(m) && InReach(m, page, 0, n) && FreeCount(m.blocks) + 1 < n && NothingFrom(m.space, page)
    ensures var (r, end) := (Turn(m, page), AllocateNewBrk(m, page, 0, n).0);
      && PageAt(end.space, page) == PageAt(r.space, page)
      && (Good(r) && Taken(r).1 == NULL ==> end.space == r.space)
  {
    hide Turn, RolledBack, FreeCount, PageAt;
    var r := Turn(m, page);
    TurnSpends(m, page);
    TurnLeavesAbove(m, page);
    LoopRunsOut(r, page + 1, 1, n - 1, page);
    assert EntryAt(r.space, page + 1) == 0;
    if Taken(r).1 == NULL { RollsNothingBack(r, page + 1); }
  }

  /** A first turn with no block to spare for a table comes to nothing, and leaves no block. */
  lemma NoTableNoTurn(m: Machine, page: nat)
    requires Good(m) && page < STACK_PAGE && EntryAt(m.space, page) == 0
    requires Pde(m.space, page / ENTRIES) == 0 && FreeCount(m.blocks) <= 1
    ensures Good(Turn(m, page)) && Turn(m, page).space == m.space && Taken(Turn(m, page)).1 == NULL
  {
    AllocatesIffFree(m.blocks);
    AllocatesIffFree(Taken(m).0.blocks);
    TurnSpends(m, page);
    TurnSpends(Turn(m, page), page);
    MapHeapPage(Taken(m).0, Taken(m).1, page);
  }

  lemma FirstTurnMaps(m: Machine, page: nat)
    requires Good(m) && page < STACK_PAGE && EntryAt(m.space, page) == 0
    requires Pde(m.space, page / ENTRIES) != 0 || FreeCount(m.blocks) > 1
    ensures PageAt(Turn(m, page).space, page).Some?
  {
    AllocatesIffFree(m.blocks);
    if Affordable(m, page) { TurnMaps(m, page, page); } else { NullTurn(m, page); }
  }

  /**
   If the page that the way out unmaps is mapped, it is unmapped, and what comes back from that, a flag, is
   taken for an address: block 0 becomes free.
   */
  lemma RollBackFreesBlockZero(m: Machine, page: nat)
    requires Good(m) && page < STACK_PAGE && Taken(m).1 == NULL && PageAt(m.space, page).Some?
    ensures var r := RolledBack(m, page);
      Marked(m.blocks.units, 0) && PageAt(r.space, page) == None && !Marked(r.blocks.units, 0)
  {
    hide Marked;
    TakingIsGood(m);
    AllocateBlockTakesLeast(m.blocks);
    var d, t := page / ENTRIES, page % ENTRIES;
    UnmapRemovesOneBinding(m, d, t);
    UnmapKeepsSound(m, d, t);
    var (rolled, physical) := Unmap(m, d, t);
    assert Pde(m.space, d) != 0 && 0 < m.blocks.total;
    DeallocateBlockGives(m.blocks, Pde(m.space, d));
    DeallocateBlockGives(rolled.blocks, physical);
  }

  lemma RollsNothingBack(m: Machine, page: nat)
    requires Good(m) && page < STACK_PAGE && EntryAt(m.space, page) == 0 && Taken(m).1 == NULL
    ensures RolledBack(m, page) == Taken(m).0 && RolledBack(m, page).space == m.space
  {
    TakingIsGood(m);
  }
}
