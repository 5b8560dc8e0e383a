/** Mapping and unmapping single pages at run time, kernel/arch/i386/pagemngr.c. */
module PageManager {
  import opened Options
  import opened Words
  import opened Bitmap
  import opened PageTables
  import opened BlockAllocator

  /** Physical memory with its page tables, and the allocator of its frames. */
  datatype Machine = Machine(space: Space, blocks: Blocks)

  /** a | 1 */
  function WithPresent(a: u32): (e: u32)
    ensures Present(e) && FrameOf(e) == FrameOf(a)
  {
    EvenStaysInFrame(a / 2);
    if a % 2 == 0 then a + 1 else a
  }

  lemma EvenStaysInFrame(h: nat)
    ensures (2 * h + 1) / FRAME_SIZE == 2 * h / FRAME_SIZE
  {
    var q, r := h / (FRAME_SIZE / 2), h % (FRAME_SIZE / 2);
    assert 2 * h == FRAME_SIZE * q + 2 * r;
  }

  lemma WithPresentIsOr(a: u32)
    ensures WithPresent(a) == Or(a, 1)
  {
    OrZero(a / 2);
  }

  // ----- What holds between calls

  /**
   Every directory entry is empty or names a table that nobody else sees, and every frame that a page
   shows is in use.
   */
  ghost predicate Sound(m: Machine) {
    && Shaped(m.space) && Valid(m.blocks) && Marked(m.blocks.units, 0)
    && TablesPrivate(m.space) && PagesUsed(m) && TablesKnown(m)
  }

  ghost predicate PagesUsed(m: Machine)
    requires Shaped(m.space)
  {
    forall d, t {:trigger Page(m.space, d, t)} :: 0 <= d < ENTRIES && 0 <= t < ENTRIES && Page(m.space, d, t).Some? ==>
      Marked(m.blocks.units, Page(m.space, d, t).value)
  }

  ghost predicate TablesKnown(m: Machine)
    requires Shaped(m.space)
  {
    forall d {:trigger Pde(m.space, d)} :: 0 <= d < ENTRIES ==>
      Pde(m.space, d) == 0 || (Present(Pde(m.space, d)) && 0 < FrameOf(Pde(m.space, d)) < m.blocks.total)
  }

  /** All words of a frame but one are zero. */
  ghost predicate OthersZero(s: Space, f: nat, t: nat)
    requires Shaped(s) && f < FRAMES
  {
    forall i :: 0 <= i < ENTRIES && i != t ==> Word(s, f, i) == 0
  }

  /** No word of a frame but one looks like a present entry. */
  ghost predicate OthersAbsent(s: Space, f: nat, t: nat)
    requires Shaped(s) && f < FRAMES
  {
    forall i :: 0 <= i < ENTRIES && i != t ==> !Present(Word(s, f, i))
  }

  // ----- The operations

  /** The frame that holds the table for directory index d, or is about to. */
  ghost function TableFrame(m: Machine, d: nat): (f: nat)
    requires Sound(m) && d < ENTRIES && (Pde(m.space, d) != 0 || CanAllocate(m.blocks))
    ensures f < FRAMES
  {
    if Pde(m.space, d) != 0 then FrameOf(Pde(m.space, d)) else NextBlock(m.blocks)
  }

  /** A table for directory index d: a new one, with whatever words the frame holds, if there is none yet. */
  ghost function WithTable(m: Machine, d: nat): (r: Machine)
    requires Sound(m) && d < ENTRIES && (Pde(m.space, d) != 0 || CanAllocate(m.blocks))
    ensures Shaped(r.space) && r.space.dir == m.space.dir && Valid(r.blocks)
  {
    if Pde(m.space, d) != 0 then m
    else
      var (blocks, pointer) := AfterAllocate(m.blocks);
      Machine(WithWord(m.space, m.space.dir, d, WithPresent(pointer)), blocks)
  }

  ghost function Map(m: Machine, physical: u32, d: nat, t: nat): (r: (Machine, int))
    requires Sound(m) && d < ENTRIES && t < ENTRIES
    ensures Shaped(r.0.space) && r.0.space.dir == m.space.dir && Valid(r.0.blocks)
  {
    if Pde(m.space, d) == 0 && !CanAllocate(m.blocks) then (m, -1)
    else
      var n := WithTable(m, d);
      if Word(n.space, TableFrame(m, d), t) != 0 then (n, -1)
      else (n.(space := WithWord(n.space, TableFrame(m, d), t, WithPresent(physical))), 0)
  }

  ghost function Unmap(m: Machine, d: nat, t: nat): (r: (Machine, u32))
    requires Shaped(m.space) && Valid(m.blocks) && d < ENTRIES && t < ENTRIES
    ensures Shaped(r.0.space) && r.0.space.dir == m.space.dir
  {
    if !Present(Entry(m.space, d, t)) then (m, NULL)
    else
      var cleared := WithWord(m.space, FrameOf(Pde(m.space, d)), t, 0);
      if OthersZero(m.space, FrameOf(Pde(m.space, d)), t)
      then (Machine(WithWord(cleared, m.space.dir, d, 0), AfterDeallocate(m.blocks, Pde(m.space, d))),
        Entry(m.space, d, t) % FRAME_SIZE)
      else (m.(space := cleared), Entry(m.space, d, t) % FRAME_SIZE)
  }

  // ----- What they do to the bindings

  lemma NewTableIsApart(m: Machine, c: nat)
    requires Sound(m) && CanAllocate(m.blocks) && c < ENTRIES && Present(Pde(m.space, c))
    ensures NextBlock(m.blocks) != FrameOf(Pde(m.space, c)) && NextBlock(m.blocks) != m.space.dir
  {
    assert Page(m.space, WINDOW, c) == Some(FrameOf(Pde(m.space, c)));
    assert Page(m.space, WINDOW, WINDOW) == Some(m.space.dir);
  }

  /** The entries once there is a table: a new one contributes the words of its frame. */
  lemma WithTableEntries(m: Machine, d: nat, d': nat, t': nat)
    requires Sound(m) && d < ENTRIES && (Pde(m.space, d) != 0 || CanAllocate(m.blocks)) && d' < ENTRIES && t' < ENTRIES
    ensures var n := WithTable(m, d);
      && FrameOf(Pde(n.space, d)) == TableFrame(m, d) && Present(Pde(n.space, d))
      && (d' != d ==> Pde(n.space, d') == Pde(m.space, d'))
      && Word(n.space, TableFrame(m, d), t') == Word(m.space, TableFrame(m, d), t')
      && Entry(n.space, d', t') ==
        if Pde(m.space, d) == 0 && d' == d then Word(m.space, TableFrame(m, d), t')
        else if Pde(m.space, d) == 0 && d' == WINDOW && t' == d then WithPresent(PAGE_SIZE * NextBlock(m.blocks))
        else Entry(m.space, d', t')
  {
    if Pde(m.space, d) == 0 {
      var e := WithPresent(PAGE_SIZE * NextBlock(m.blocks));
      NewTableIsApart(m, WINDOW);
      WritingTheDirectory(m.space, d, e, d', t');
      WritingTheDirectory(m.space, d, e, d, t');
      WithWordWords(m.space, m.space.dir, d, e, TableFrame(m, d), t');
    }
  }

  /** The table of d is found by d alone. */
  lemma WithTableIsOwn(m: Machine, d: nat)
    requires Sound(m) && d < ENTRIES && (Pde(m.space, d) != 0 || CanAllocate(m.blocks))
    ensures SelfMapped(WithTable(m, d).space) && OwnTable(WithTable(m, d).space, d)
  {
    var n := WithTable(m, d);
    WithTableEntries(m, d, WINDOW, 0);
    forall c | 0 <= c < ENTRIES && c != d && Present(Pde(n.space, c))
      ensures FrameOf(Pde(n.space, c)) != FrameOf(Pde(n.space, d))
    {
      WithTableEntries(m, d, c, 0);
      if Pde(m.space, d) == 0 { NewTableIsApart(m, c); } else { TablesDiffer(m.space, c, d); }
    }
  }

  /** All entries after a successful call. */
  lemma MapEntries(m: Machine, physical: u32, d: nat, t: nat, d': nat, t': nat)
    requires Sound(m) && d < WINDOW && t < ENTRIES && Map(m, physical, d, t).1 == 0 && d' < ENTRIES && t' < ENTRIES
    ensures var r := Map(m, physical, d, t).0;
      && Pde(r.space, d') == Pde(WithTable(m, d).space, d')
      && Entry(r.space, d', t') ==
        if d' == d && t' == t then WithPresent(physical)
        else if Pde(m.space, d) == 0 && d' == d then Word(m.space, TableFrame(m, d), t')
        else if Pde(m.space, d) == 0 && d' == WINDOW && t' == d then WithPresent(PAGE_SIZE * NextBlock(m.blocks))
        else Entry(m.space, d', t')
  {
    WithTableIsOwn(m, d);
    WithTableEntries(m, d, d', t');
    WithTableEntries(m, d, d, t);
    WritingAnEntry(WithTable(m, d).space, d, t, WithPresent(physical), d', t');
  }

  /** When a call fails: no frame for a table, or something in the slot already; a binding is never overwritten. */
  lemma MapFailsIff(m: Machine, physical: u32, d: nat, t: nat)
    requires Sound(m) && d < ENTRIES && t < ENTRIES
    ensures Map(m, physical, d, t).1 in {0, -1}
    ensures (Map(m, physical, d, t).1 == -1 <==>
        if Pde(m.space, d) == 0 then !CanAllocate(m.blocks) || Word(m.space, NextBlock(m.blocks), t) != 0
          else Entry(m.space, d, t) != 0)
    ensures Map(m, physical, d, t).1 == -1 && Pde(m.space, d) != 0 ==> Map(m, physical, d, t).0 == m
    ensures Page(m.space, d, t).Some? ==> Map(m, physical, d, t) == (m, -1)
  {
    if Pde(m.space, d) != 0 || CanAllocate(m.blocks) { WithTableEntries(m, d, d, t); }
  }

  /**
   A successful call adds the one binding; it adds nothing else exactly when the table was there or its
   frame holds no other entries.
   */
  lemma MapAddsOneBindingIff(m: Machine, physical: u32, d: nat, t: nat)
    requires Sound(m) && d < WINDOW && t < ENTRIES && Map(m, physical, d, t).1 == 0
    ensures var r := Map(m, physical, d, t).0;
      && Page(m.space, d, t) == None && Page(r.space, d, t) == Some(FrameOf(physical))
      && ((forall d', t' {:trigger Page(r.space, d', t')}
             | 0 <= d' < WINDOW && 0 <= t' < ENTRIES && (d', t') != (d, t) ::
             Page(r.space, d', t') == Page(m.space, d', t'))
          <==> Pde(m.space, d) != 0 || OthersAbsent(m.space, NextBlock(m.blocks), t))
  {
    var r := Map(m, physical, d, t).0;
    MapFailsIff(m, physical, d, t);
    MapEntries(m, physical, d, t, d, t);
    forall d', t' | 0 <= d' < WINDOW && 0 <= t' < ENTRIES && (d', t') != (d, t)
      ensures Page(r.space, d', t') == Page(m.space, d', t') <==>
        d' != d || Pde(m.space, d) != 0 || !Present(Word(m.space, NextBlock(m.blocks), t'))
    {
      MapEntries(m, physical, d, t, d', t');
    }
    if Pde(m.space, d) == 0 && !OthersAbsent(m.space, NextBlock(m.blocks), t) {
      var i :| 0 <= i < ENTRIES && i != t && Present(Word(m.space, NextBlock(m.blocks), i));
      assert Page(r.space, d, i) != Page(m.space, d, i);
    }
  }

  /** All entries after unmapping a page. */
  lemma UnmapEntries(m: Machine, d: nat, t: nat, d': nat, t': nat)
    requires Sound(m) && d < WINDOW && t < ENTRIES && Page(m.space, d, t).Some? && d' < ENTRIES && t' < ENTRIES
    ensures var r := Unmap(m, d, t).0;
      var freed := OthersZero(m.space, FrameOf(Pde(m.space, d)), t);
      && Pde(r.space, d') == (if d' == d && freed then 0 else Pde(m.space, d'))
      && Entry(r.space, d', t') ==
        if d' == d && t' == t then 0
        else if d' == WINDOW && t' == d && freed then 0
        else Entry(m.space, d', t')
  {
    var f := FrameOf(Pde(m.space, d));
    PrivateTablesAreOwn(m.space, d);
    WritingAnEntry(m.space, d, t, 0, d', t');
    if OthersZero(m.space, f, t) {
      var cleared := WithWord(m.space, f, t, 0);
      WithWordWords(cleared, m.space.dir, d, 0, m.space.dir, d');
      assert Pde(cleared, WINDOW) == Pde(m.space, WINDOW) by { WritingAnEntry(m.space, d, t, 0, WINDOW, 0); }
      if Present(Pde(m.space, d')) {
        WithWordWords(cleared, m.space.dir, d, 0, FrameOf(Pde(m.space, d')), t');
        if d' != WINDOW { TablesDiffer(m.space, d', WINDOW); }
        if d' == d && t' != t { assert Entry(m.space, d, t') == Word(m.space, f, t'); }
      }
    }
  }

  /** Unmapping removes the one binding, and no other. */
  lemma UnmapRemovesOneBinding(m: Machine, d: nat, t: nat)
    requires Sound(m) && d < WINDOW && t < ENTRIES
    ensures var r := Unmap(m, d, t).0;
      && Page(r.space, d, t) == None
      && forall d', t' {:trigger Page(r.space, d', t')}
           | 0 <= d' < WINDOW && 0 <= t' < ENTRIES && (d', t') != (d, t) ::
           Page(r.space, d', t') == Page(m.space, d', t')
  {
    var r := Unmap(m, d, t).0;
    if Page(m.space, d, t).Some? {
      UnmapEntries(m, d, t, d, t);
      forall d', t' | 0 <= d' < WINDOW && 0 <= t' < ENTRIES && (d', t') != (d, t)
        ensures Page(r.space, d', t') == Page(m.space, d', t')
      {
        UnmapEntries(m, d, t, d', t');
      }
    }
  }

  /**
   What unmapping returns is not the frame: of a block that was mapped at a page boundary it returns 1,
   the flag, and NULL only if nothing was mapped.
   */
  lemma UnmapReturnsFlags(m: Machine, physical: u32, d: nat, t: nat)
    requires Sound(m) && d < WINDOW && t < ENTRIES
    ensures Map(m, physical, d, t).1 == 0 && physical % 0x1000 == 0 ==> Unmap(Map(m, physical, d, t).0, d, t).1 == 1
    ensures !Present(Entry(m.space, d, t)) ==> Unmap(m, d, t) == (m, 0)
  {
    if Map(m, physical, d, t).1 == 0 { MapEntries(m, physical, d, t, d, t); }
  }

  /** A call that takes a new table and then finds the slot filled keeps the table and its block. */
  lemma FailureKeepsTable(m: Machine, physical: u32, d: nat, t: nat)
    requires Sound(m) && d < WINDOW && t < ENTRIES && Pde(m.space, d) == 0 && CanAllocate(m.blocks)
    requires Map(m, physical, d, t).1 == -1
    ensures var r := Map(m, physical, d, t).0;
      && r.blocks == AfterAllocate(m.blocks).0 && Pde(r.space, d) == 0x1000 * NextBlock(m.blocks) + 1
      && forall f, i | 0 <= f < FRAMES && 0 <= i < ENTRIES && !(f == m.space.dir && i == d) ::
           Word(r.space, f, i) == Word(m.space, f, i)
  {
    WithTableEntries(m, d, d, t);
    forall f, i | 0 <= f < FRAMES && 0 <= i < ENTRIES && !(f == m.space.dir && i == d)
      ensures Word(Map(m, physical, d, t).0.space, f, i) == Word(m.space, f, i)
    {
      WithWordWords(m.space, m.space.dir, d, WithPresent(PAGE_SIZE * NextBlock(m.blocks)), f, i);
    }
    WithWordWords(m.space, m.space.dir, d, WithPresent(PAGE_SIZE * NextBlock(m.blocks)), m.space.dir, d);
  }

  /** The table and its frame go exactly when the last entry does. */
  lemma UnmapFreesTableIff(m: Machine, d: nat, t: nat)
    requires Sound(m) && d < WINDOW && t < ENTRIES && Page(m.space, d, t).Some?
    ensures var r := Unmap(m, d, t).0;
      var f := FrameOf(Pde(m.space, d));
      && Pde(r.space, d) == (if OthersZero(m.space, f, t) then 0 else Pde(m.space, d))
      && forall b: nat ::
           Marked(r.blocks.units, b) <==> Marked(m.blocks.units, b) && !(b == f && OthersZero(m.space, f, t))
  {
    UnmapEntries(m, d, t, d, t);
    assert Page(m.space, WINDOW, d) == Some(FrameOf(Pde(m.space, d)));
    DeallocateBlockGives(m.blocks, Pde(m.space, d));
  }

  // ----- What they keep

  /** What a caller passes: a frame in use that is not a page table. */
  ghost predicate Mappable(m: Machine, physical: u32)
    requires Sound(m)
  {
    && Marked(m.blocks.units, FrameOf(physical))
    && forall c {:trigger Page(m.space, WINDOW, c)} :: 0 <= c < ENTRIES ==>
      Page(m.space, WINDOW, c) != Some(FrameOf(physical))
  }

  ghost predicate Blank(s: Space, f: nat)
    requires Shaped(s) && f < FRAMES
  {
    forall i :: 0 <= i < ENTRIES ==> Word(s, f, i) == 0
  }

  /** A frame taken for a table holds no entries. */
  ghost predicate FreshIsBlank(m: Machine)
    requires Sound(m)
  {
    CanAllocate(m.blocks) ==> Blank(m.space, NextBlock(m.blocks))
  }

  /** The pages with a blank table. */
  lemma MapPages(m: Machine, physical: u32, d: nat, t: nat, d': nat, t': nat)
    requires Sound(m) && FreshIsBlank(m) && d < WINDOW && t < ENTRIES && Map(m, physical, d, t).1 == 0 && d' < ENTRIES
    requires t' < ENTRIES
    ensures var r := Map(m, physical, d, t).0;
      && Page(r.space, d', t') ==
        (if d' == d && t' == t then Some(FrameOf(physical))
        else if Pde(m.space, d) == 0 && d' == WINDOW && t' == d then Some(NextBlock(m.blocks))
        else Page(m.space, d', t'))
      && Pde(r.space, d') == if d' == d && Pde(m.space, d) == 0 then WithPresent(PAGE_SIZE * NextBlock(m.blocks))
        else Pde(m.space, d')
  {
    MapEntries(m, physical, d, t, d', t');
    WithTableEntries(m, d, d', t');
    WithTableEntries(m, d, d, t');
  }

  lemma MapUnits(m: Machine, physical: u32, d: nat, t: nat, b: nat)
    requires Sound(m) && d < WINDOW && t < ENTRIES && Map(m, physical, d, t).1 == 0
    ensures var r := Map(m, physical, d, t).0;
      && (Marked(r.blocks.units, b)
        <==> Marked(m.blocks.units, b) || (Pde(m.space, d) == 0 && b == NextBlock(m.blocks)))
      && Valid(r.blocks) && r.blocks.total == m.blocks.total
  {
    if Pde(m.space, d) == 0 { AllocateBlockTakesLeast(m.blocks); }
  }

  lemma MapKeepsPrivate(m: Machine, physical: u32, d: nat, t: nat)
    requires Sound(m) && FreshIsBlank(m) && Mappable(m, physical) && d < WINDOW && t < ENTRIES
    requires Map(m, physical, d, t).1 == 0
    ensures TablesPrivate(Map(m, physical, d, t).0.space)
  {
    var s := Map(m, physical, d, t).0.space;
    MapPages(m, physical, d, t, WINDOW, 0);
    forall c, d', t' | 0 <= c < ENTRIES && 0 <= d' < ENTRIES && 0 <= t' < ENTRIES && Page(s, WINDOW, c).Some?
      && Page(s, d', t') == Page(s, WINDOW, c)
      ensures d' == WINDOW && t' == c
    {
      MapPages(m, physical, d, t, WINDOW, c);
      MapPages(m, physical, d, t, d', t');
      assert Page(m.space, WINDOW, c).Some? ==> Marked(m.blocks.units, Page(m.space, WINDOW, c).value);
      assert Page(m.space, d', t').Some? ==> Marked(m.blocks.units, Page(m.space, d', t').value);
    }
  }

  lemma MapKeepsSound(m: Machine, physical: u32, d: nat, t: nat)
    requires Sound(m) && FreshIsBlank(m) && Mappable(m, physical) && d < WINDOW && t < ENTRIES
    ensures Sound(Map(m, physical, d, t).0)
  {
    MapFailsIff(m, physical, d, t);
    if Map(m, physical, d, t).1 == 0 {
      var r := Map(m, physical, d, t).0;
      MapKeepsPrivate(m, physical, d, t);
      forall d', t' | 0 <= d' < ENTRIES && 0 <= t' < ENTRIES && Page(r.space, d', t').Some?
        ensures Marked(r.blocks.units, Page(r.space, d', t').value)
      {
        MapPages(m, physical, d, t, d', t');
        MapUnits(m, physical, d, t, Page(r.space, d', t').value);
      }
      forall d' | 0 <= d' < ENTRIES
        ensures Pde(r.space, d') == 0 || (Present(Pde(r.space, d')) && 0 < FrameOf(Pde(r.space, d')) < r.blocks.total)
      {
        MapPages(m, physical, d, t, d', 0);
      }
      MapUnits(m, physical, d, t, 0);
    }
  }

  lemma UnmapPages(m: Machine, d: nat, t: nat, d': nat, t': nat)
    requires Sound(m) && d < WINDOW && t < ENTRIES && Page(m.space, d, t).Some? && d' < ENTRIES && t' < ENTRIES
    ensures var r := Unmap(m, d, t).0;
      var freed := OthersZero(m.space, FrameOf(Pde(m.space, d)), t);
      && Page(r.space, d', t') ==
        (if (d' == d && t' == t) || (d' == WINDOW && t' == d && freed) then None else Page(m.space, d', t'))
      && Pde(r.space, d') == (if d' == d && freed then 0 else Pde(m.space, d'))
  {
    UnmapEntries(m, d, t, d', t');
  }

  lemma UnmapKeepsPrivate(m: Machine, d: nat, t: nat)
    requires Sound(m) && d < WINDOW && t < ENTRIES && Page(m.space, d, t).Some?
    ensures TablesPrivate(Unmap(m, d, t).0.space)
  {
    var s := Unmap(m, d, t).0.space;
    UnmapPages(m, d, t, WINDOW, 0);
    forall c, d', t' | 0 <= c < ENTRIES && 0 <= d' < ENTRIES && 0 <= t' < ENTRIES && Page(s, WINDOW, c).Some?
      && Page(s, d', t') == Page(s, WINDOW, c)
      ensures d' == WINDOW && t' == c
    {
      UnmapPages(m, d, t, WINDOW, c);
      UnmapPages(m, d, t, d', t');
    }
  }

  lemma UnmapKeepsSound(m: Machine, d: nat, t: nat)
    requires Sound(m) && d < WINDOW && t < ENTRIES
    ensures Sound(Unmap(m, d, t).0)
  {
    var r := Unmap(m, d, t).0;
    if Page(m.space, d, t).Some? {
      UnmapFreesTableIff(m, d, t);
      UnmapKeepsPrivate(m, d, t);
      assert Page(m.space, WINDOW, d) == Some(FrameOf(Pde(m.space, d)));
      forall d', t' | 0 <= d' < ENTRIES && 0 <= t' < ENTRIES && Page(r.space, d', t').Some?
        ensures Marked(r.blocks.units, Page(r.space, d', t').value)
      {
        UnmapPages(m, d, t, d', t');
      }
      forall d' | 0 <= d' < ENTRIES
        ensures Pde(r.space, d') == 0 || (Present(Pde(r.space, d')) && 0 < FrameOf(Pde(r.space, d')) < r.blocks.total)
      {
        UnmapPages(m, d, t, d', 0);
      }
    }
  }

  /** Unmapping what was just mapped restores memory, bitmap and counter exactly when the table goes as it came. */
  lemma UnmapUndoesMapIff(m: Machine, physical: u32, d: nat, t: nat)
    requires Sound(m) && d < WINDOW && t < ENTRIES && Map(m, physical, d, t).1 == 0
    ensures Unmap(Map(m, physical, d, t).0, d, t).0 == m <==>
      (Pde(m.space, d) == 0 <==> OthersZero(m.space, TableFrame(m, d), t))
  {
    var n := Map(m, physical, d, t).0;
    var r := Unmap(n, d, t).0;
    var f := TableFrame(m, d);
    MapEntries(m, physical, d, t, d, t);
    WithTableEntries(m, d, d, t);
    forall i | 0 <= i < ENTRIES && i != t ensures Word(n.space, f, i) == Word(m.space, f, i) {
      MapEntries(m, physical, d, t, d, i);
      WithTableEntries(m, d, d, i);
    }
    assert OthersZero(n.space, f, t) <==> OthersZero(m.space, f, t);
    TableStays(m, physical, d, t);
    if OthersZero(m.space, f, t) {
      if Pde(m.space, d) == 0 { FreshTableGoes(m, physical, d, t); }
    } else if Pde(m.space, d) != 0 {
      assert r.space.mem == m.space.mem;
    }
  }

  /** The directory entry after mapping and unmapping. */
  lemma TableStays(m: Machine, physical: u32, d: nat, t: nat)
    requires Sound(m) && d < WINDOW && t < ENTRIES && Map(m, physical, d, t).1 == 0
    ensures var n := Map(m, physical, d, t).0;
      && Pde(n.space, d) != 0
      && Pde(Unmap(n, d, t).0.space, d) == if OthersZero(n.space, TableFrame(m, d), t) then 0 else Pde(n.space, d)
  {
    var n, f := Map(m, physical, d, t).0, TableFrame(m, d);
    MapEntries(m, physical, d, t, d, t);
    WithTableEntries(m, d, d, t);
    WithTableEntries(m, d, WINDOW, t);
    WithTableIsOwn(m, d);
    WithWordWords(n.space, f, t, 0, m.space.dir, d);
    WithWordWords(WithWord(n.space, f, t, 0), m.space.dir, d, 0, m.space.dir, d);
  }

  lemma FreshTableGoes(m: Machine, physical: u32, d: nat, t: nat)
    requires Sound(m) && d < WINDOW && t < ENTRIES && Map(m, physical, d, t).1 == 0
    requires Pde(m.space, d) == 0 && OthersZero(m.space, NextBlock(m.blocks), t)
    requires OthersZero(Map(m, physical, d, t).0.space, NextBlock(m.blocks), t)
    ensures Unmap(Map(m, physical, d, t).0, d, t).0 == m
  {
    var n, f := Map(m, physical, d, t).0, NextBlock(m.blocks);
    MapEntries(m, physical, d, t, d, t);
    WithTableEntries(m, d, d, t);
    DeallocateUndoesAllocate(m.blocks);
    SameBlockGoes(n.blocks, PAGE_SIZE * f);
    NewTableIsApart(m, WINDOW);
    assert Unmap(n, d, t).0.space.mem == m.space.mem;
  }

  /** Flag bits in the address of a block do not change which block is given back. */
  lemma SameBlockGoes(a: Blocks, pointer: u32)
    requires Valid(a)
    ensures AfterDeallocate(a, WithPresent(pointer)) == AfterDeallocate(a, pointer)
  {
    assert WithPresent(pointer) / PAGE_SIZE == FrameOf(WithPresent(pointer));
  }

  // ----- A frame that is not blank

  /** The machine with one word of the next free block changed. */
  ghost function WithStale(m: Machine, i: nat, e: u32): (r: Machine)
    requires Shaped(m.space) && Valid(m.blocks) && CanAllocate(m.blocks) && NextBlock(m.blocks) < FRAMES && i < ENTRIES
    ensures Shaped(r.space) && r.blocks == m.blocks
  {
    m.(space := WithWord(m.space, NextBlock(m.blocks), i, e))
  }

  /** Nothing that is mapped shows a free block. */
  lemma StaleIsUnseen(m: Machine, i: nat, e: u32)
    requires Sound(m) && CanAllocate(m.blocks) && i < ENTRIES
    ensures Sound(WithStale(m, i, e))
    ensures forall d :: 0 <= d < ENTRIES ==> Pde(WithStale(m, i, e).space, d) == Pde(m.space, d)
    ensures forall d, t :: 0 <= d < ENTRIES && 0 <= t < ENTRIES ==>
      Page(WithStale(m, i, e).space, d, t) == Page(m.space, d, t)
  {
    var f, r := NextBlock(m.blocks), WithStale(m, i, e);
    NewTableIsApart(m, WINDOW);
    forall d | 0 <= d < ENTRIES ensures Pde(r.space, d) == Pde(m.space, d) {
      WithWordWords(m.space, f, i, e, m.space.dir, d);
    }
    forall d, t | 0 <= d < ENTRIES && 0 <= t < ENTRIES ensures Page(r.space, d, t) == Page(m.space, d, t) {
      if Present(Pde(m.space, d)) {
        NewTableIsApart(m, d);
        WithWordWords(m.space, f, i, e, FrameOf(Pde(m.space, d)), t);
      }
    }
    assert TablesPrivate(r.space);
  }

  /**
   Every machine with a free block and without a table for d has a variant, different in that block
   alone, on which mapping a page of d binds another page too, and unmapping does not undo it.
   */
  lemma StaleFrameStrays(m: Machine, physical: u32, d: nat, t: nat, i: nat)
    requires Sound(m) && d < WINDOW && t < ENTRIES && i < ENTRIES && i != t
    requires Pde(m.space, d) == 0 && CanAllocate(m.blocks)
    ensures var v := WithStale(WithStale(m, t, 0), i, 1);
      && Sound(v) && v.blocks == m.blocks
      && (forall f, j :: 0 <= f < FRAMES && 0 <= j < ENTRIES && f != NextBlock(m.blocks) ==>
        Word(v.space, f, j) == Word(m.space, f, j))
      && Map(v, physical, d, t).1 == 0
      && Page(v.space, d, i) == None && Page(Map(v, physical, d, t).0.space, d, i) == Some(0)
      && Unmap(Map(v, physical, d, t).0, d, t).0 != v
  {
    var u := WithStale(m, t, 0);
    StaleIsUnseen(m, t, 0);
    var v, f := WithStale(u, i, 1), NextBlock(m.blocks);
    StaleIsUnseen(u, i, 1);
    forall g, j | 0 <= g < FRAMES && 0 <= j < ENTRIES && g != f ensures Word(v.space, g, j) == Word(m.space, g, j) {
      WithWordWords(m.space, f, t, 0, g, j);
      WithWordWords(u.space, f, i, 1, g, j);
    }
    StaleWords(m, t, i);
    MapFailsIff(v, physical, d, t);
    MapEntries(v, physical, d, t, d, i);
    UnmapUndoesMapIff(v, physical, d, t);
  }

  lemma StaleWords(m: Machine, t: nat, i: nat)
    requires Sound(m) && CanAllocate(m.blocks) && i < ENTRIES && t < ENTRIES && i != t && Sound(WithStale(m, t, 0))
    ensures var v, f := WithStale(WithStale(m, t, 0), i, 1), NextBlock(m.blocks);
      Word(v.space, f, t) == 0 && Word(v.space, f, i) == 1
  {
    var u, f := WithStale(m, t, 0), NextBlock(m.blocks);
    WithWordWords(m.space, f, t, 0, f, t);
    WithWordWords(u.space, f, i, 1, f, t);
    WithWordWords(u.space, f, i, 1, f, i);
  }

  // ----- The program

  class Pager {
    const phys: array<u32>
    const dir: nat
    const allocator: BlockAllocator.Allocator

    ghost function Model(): Machine
      reads phys, allocator, allocator.mbmp
    {
      Machine(Space(phys[..], dir), allocator.Model())
    }

    ghost function Memory(): Space
      reads phys
    {
      Space(phys[..], dir)
    }

    constructor (phys: array<u32>, dir: nat, allocator: BlockAllocator.Allocator)
      ensures this.phys == phys && this.dir == dir && this.allocator == allocator
    {
      this.phys, this.dir, this.allocator := phys, dir, allocator;
    }

    /** Read entry t of table d where the window shows it. */
    method LoadEntry(d: nat, t: nat) returns (e: u32)
      requires Shaped(Memory()) && SelfMapped(Memory()) && d < ENTRIES && t < ENTRIES && Present(Pde(Memory(), d))
      ensures e == Word(Memory(), FrameOf(Pde(Memory(), d)), t)
    {
      WindowReachesEntries(Memory(), d, t);
      var pa := Walk(Space(phys[..], dir), WINDOW_BASE + FRAME_SIZE * d + 4 * t);
      e := phys[pa.value / 4];
    }

    method StoreEntry(d: nat, t: nat, e: u32)
      requires Shaped(Memory()) && SelfMapped(Memory()) && d < ENTRIES && t < ENTRIES && Present(Pde(Memory(), d))
      modifies phys
      ensures Memory() == WithWord(old(Memory()), FrameOf(Pde(old(Memory()), d)), t, e)
    {
      WindowReachesEntries(Memory(), d, t);
      var pa := Walk(Space(phys[..], dir), WINDOW_BASE + FRAME_SIZE * d + 4 * t);
      phys[pa.value / 4] := e;
    }

    method MapBlock(physical: u32, virtual: u32) returns (result: int)
      requires allocator.mbmp != phys && Sound(Model())
      modifies phys, allocator`usedBlocks, allocator.mbmp
      ensures (Model(), result) == Map(old(Model()), physical, DirIndex(virtual), TableIndex(virtual))
    {
      ghost var m := Model();
      var d, t := DirIndex(virtual), TableIndex(virtual);
      var pde := LoadEntry(WINDOW, d);
      if pde == 0 {
        var table := allocator.AllocateBlock();
        if table == NULL {
          return -1;
        }
        WithPresentIsOr(table);
        StoreEntry(WINDOW, d, Or(table, 1));
      }
      assert Model() == WithTable(m, d);
      WithTableIsOwn(m, d);
      WithTableEntries(m, d, d, t);
      var e := LoadEntry(d, t);
      if e != 0 {
        return -1;
      }
      WithPresentIsOr(physical);
      StoreEntry(d, t, Or(physical, 1));
      result := 0;
    }

    /**
     Not for the last page, without which nothing is seen through the window any more. What comes back
     is not the frame: the flag bits of the entry are kept instead of its address.
     */
    method UnmapBlock(virtual: u32) returns (pointer: u32)
      requires allocator.mbmp != phys && Sound(Model()) && virtual < MODULUS - FRAME_SIZE
      modifies phys, allocator`usedBlocks, allocator.mbmp
      ensures (Model(), pointer) == Unmap(old(Model()), DirIndex(virtual), TableIndex(virtual))
    {
      ghost var m := Model();
      var d, t := DirIndex(virtual), TableIndex(virtual);
      var pde := LoadEntry(WINDOW, d);
      if !Present(pde) {
        return NULL;
      }
      var e := LoadEntry(d, t);
      if !Present(e) {
        return NULL;
      }
      pointer := e % FRAME_SIZE;
      StoreEntry(d, t, 0);
      ClearedTable(m, d, t);
      var empty := IsEmpty(d);
      if empty {
        pde := LoadEntry(WINDOW, d);
        allocator.DeallocateBlock(pde);
        StoreEntry(WINDOW, d, 0);
      }
    }

    /** The scan for an entry that is left. */
    method IsEmpty(d: nat) returns (empty: bool)
      requires Shaped(Memory()) && SelfMapped(Memory()) && d < ENTRIES && Present(Pde(Memory(), d))
      ensures empty <==> Blank(Memory(), FrameOf(Pde(Memory(), d)))
    {
      var i := 0;
      while i < ENTRIES
        invariant 0 <= i <= ENTRIES
        invariant forall k :: 0 <= k < i ==> Word(Memory(), FrameOf(Pde(Memory(), d)), k) == 0
      {
        var e := LoadEntry(d, i);
        if e > 0 {
          return false;
        }
        i := i + 1;
      }
      empty := true;
    }
  }

  lemma ClearedTable(m: Machine, d: nat, t: nat)
    requires Sound(m) && d < ENTRIES && t < ENTRIES && !(d == t == WINDOW) && Present(Pde(m.space, d))
    ensures var f := FrameOf(Pde(m.space, d));
      var cleared := WithWord(m.space, f, t, 0);
      SelfMapped(cleared) && Pde(cleared, d) == Pde(m.space, d) && (Blank(cleared, f) <==> OthersZero(m.space, f, t))
  {
    var f := FrameOf(Pde(m.space, d));
    var cleared := WithWord(m.space, f, t, 0);
    if d < WINDOW {
      PrivateTablesAreOwn(m.space, d);
      WritingAnEntry(m.space, d, t, 0, d, t);
      WritingAnEntry(m.space, d, t, 0, WINDOW, t);
    } else {
      WithWordWords(m.space, m.space.dir, t, 0, m.space.dir, WINDOW);
    }
    forall i | 0 <= i < ENTRIES ensures Word(cleared, f, i) == if i == t then 0 else Word(m.space, f, i) {
      WithWordWords(m.space, f, t, 0, f, i);
    }
  }
}
