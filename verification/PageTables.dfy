/**
 The two-level page tables of the i386, section 4.3 of the Intel SDM volume 3A, as they stand in
 physical memory: a directory of 1024 entries, each naming a table of 1024 entries, each naming a
 4096-byte frame.
 */
module PageTables {
  import opened Options
  import opened Words

  const ENTRIES: nat := 1024
  const FRAMES: nat := 0x10_0000
  const FRAME_SIZE: nat := 4096
  const TABLE_SPAN: nat := 0x40_0000  // bytes that one table maps
  const WINDOW: nat := 1023           // the directory entry that names the directory itself
  const WINDOW_BASE: nat := 0xffc0_0000

  /** All of physical memory, word by word, and the frame of the page directory. */
  datatype Space = Space(mem: seq<u32>, dir: nat)

  predicate Shaped(s: Space) {
    |s.mem| == ENTRIES * FRAMES && s.dir < FRAMES
  }

  predicate Present(e: u32) {
    e % 2 == 1
  }

  function FrameOf(e: u32): (f: nat)
    ensures f < FRAMES
  {
    e / FRAME_SIZE
  }

  // ----- Reading

  function Word(s: Space, f: nat, i: nat): u32
    requires Shaped(s) && f < FRAMES && i < ENTRIES
  {
    s.mem[ENTRIES * f + i]
  }

  function Pde(s: Space, d: nat): u32
    requires Shaped(s) && d < ENTRIES
  {
    Word(s, s.dir, d)
  }

  /** The table entry for directory index d and table index t, 0 where there is no table. */
  function Entry(s: Space, d: nat, t: nat): u32
    requires Shaped(s) && d < ENTRIES && t < ENTRIES
  {
    if Present(Pde(s, d)) then Word(s, FrameOf(Pde(s, d)), t) else 0
  }

  /** The frame that a page is bound to. */
  function Page(s: Space, d: nat, t: nat): (f: Option<nat>)
    requires Shaped(s) && d < ENTRIES && t < ENTRIES
    ensures f.Some? ==> f.value < FRAMES
  {
    if Present(Entry(s, d, t)) then Some(FrameOf(Entry(s, d, t))) else None
  }

  function DirIndex(va: u32): (d: nat)
    ensures d < ENTRIES
  {
    va / TABLE_SPAN
  }

  function TableIndex(va: u32): (t: nat)
    ensures t < ENTRIES
  {
    va % TABLE_SPAN / FRAME_SIZE
  }

  /** The hardware's walk from a virtual to a physical address. */
  function Walk(s: Space, va: u32): (pa: Option<nat>)
    requires Shaped(s)
    ensures pa.Some? ==> pa.value < MODULUS && pa.value % FRAME_SIZE == va % FRAME_SIZE
  {
    match Page(s, DirIndex(va), TableIndex(va))
    case Some(f) => Some(FRAME_SIZE * f + va % FRAME_SIZE)
    case None => None
  }

  // ----- The recursive window

  /** The last directory entry names the directory. */
  predicate SelfMapped(s: Space)
    requires Shaped(s)
  {
    Present(Pde(s, WINDOW)) && FrameOf(Pde(s, WINDOW)) == s.dir
  }

  /** In the window lie the entries of every table, and as its last page those of the directory. */
  lemma WindowReachesEntries(s: Space, d: nat, t: nat)
    requires Shaped(s) && SelfMapped(s) && d < ENTRIES && t < ENTRIES && Present(Pde(s, d))
    ensures Walk(s, WINDOW_BASE + FRAME_SIZE * d + 4 * t) == Some(4 * (ENTRIES * FrameOf(Pde(s, d)) + t))
  {
    var va := WINDOW_BASE + FRAME_SIZE * d + 4 * t;
    assert DirIndex(va) == WINDOW && TableIndex(va) == d && va % FRAME_SIZE == 4 * t;
  }

  /** Without a table there is nothing in the window. */
  lemma WindowHasHoles(s: Space, d: nat, t: nat)
    requires Shaped(s) && SelfMapped(s) && d < ENTRIES && t < ENTRIES && !Present(Pde(s, d))
    ensures Walk(s, WINDOW_BASE + FRAME_SIZE * d + 4 * t) == None
  {
    var va := WINDOW_BASE + FRAME_SIZE * d + 4 * t;
    assert DirIndex(va) == WINDOW && TableIndex(va) == d;
  }

  // ----- Writing

  function WithWord(s: Space, f: nat, i: nat, e: u32): (r: Space)
    requires Shaped(s) && f < FRAMES && i < ENTRIES
    ensures Shaped(r) && r.dir == s.dir
  {
    s.(mem := s.mem[ENTRIES * f + i := e])
  }

  lemma WithWordWords(s: Space, f: nat, i: nat, e: u32, g: nat, j: nat)
    requires Shaped(s) && f < FRAMES && i < ENTRIES && g < FRAMES && j < ENTRIES
    ensures Word(WithWord(s, f, i, e), g, j) == if g == f && j == i then e else Word(s, g, j)
  {
    assert ENTRIES * f + i == ENTRIES * g + j <==> f == g && i == j;
  }

  /**
   The tables are private: no page but its own one in the window shows a table or the directory, and
   in particular no two directory entries name the same table.
   */
  ghost predicate TablesPrivate(s: Space)
    requires Shaped(s)
  {
    && SelfMapped(s)
    && forall c, d, t {:trigger Page(s, WINDOW, c), Page(s, d, t)}
         | 0 <= c < ENTRIES && 0 <= d < ENTRIES && 0 <= t < ENTRIES ::
         Page(s, WINDOW, c).Some? && Page(s, d, t) == Page(s, WINDOW, c) ==> d == WINDOW && t == c
  }

  lemma TablesDiffer(s: Space, c: nat, d: nat)
    requires Shaped(s) && TablesPrivate(s) && c < ENTRIES && d < ENTRIES && c != d && Present(Pde(s, c))
    requires Present(Pde(s, d))
    ensures FrameOf(Pde(s, c)) != FrameOf(Pde(s, d))
  {
    assert Page(s, WINDOW, c).Some? && Page(s, WINDOW, d).Some?;
  }

  /** No other directory entry names the table of d. */
  ghost predicate OwnTable(s: Space, d: nat)
    requires Shaped(s) && d < ENTRIES
  {
    forall c {:trigger Pde(s, c)} :: 0 <= c < ENTRIES && c != d && Present(Pde(s, c)) ==>
      FrameOf(Pde(s, c)) != FrameOf(Pde(s, d))
  }

  lemma PrivateTablesAreOwn(s: Space, d: nat)
    requires Shaped(s) && TablesPrivate(s) && d < ENTRIES && Present(Pde(s, d))
    ensures OwnTable(s, d)
  {
    forall c | 0 <= c < ENTRIES && c != d && Present(Pde(s, c)) ensures FrameOf(Pde(s, c)) != FrameOf(Pde(s, d)) {
      TablesDiffer(s, c, d);
    }
  }

  /** Writing one entry of a table changes that entry and no other. */
  lemma WritingAnEntry(s: Space, d: nat, t: nat, e: u32, d': nat, t': nat)
    requires Shaped(s) && SelfMapped(s) && d < WINDOW && t < ENTRIES && Present(Pde(s, d)) && OwnTable(s, d)
    requires d' < ENTRIES && t' < ENTRIES
    ensures var r := WithWord(s, FrameOf(Pde(s, d)), t, e);
      && Pde(r, d') == Pde(s, d')
      && Entry(r, d', t') == if d' == d && t' == t then e else Entry(s, d', t')
  {
    var table := FrameOf(Pde(s, d));
    assert Present(Pde(s, WINDOW));
    WithWordWords(s, table, t, e, s.dir, d');
    if Present(Pde(s, d')) {
      WithWordWords(s, table, t, e, FrameOf(Pde(s, d')), t');
    }
  }

  /** Writing a directory entry puts the words of another frame, or nothing, in place of one whole table. */
  lemma WritingTheDirectory(s: Space, d: nat, e: u32, d': nat, t': nat)
    requires Shaped(s) && TablesPrivate(s) && d < WINDOW && d' < ENTRIES && t' < ENTRIES
    requires Present(e) ==> FrameOf(e) != s.dir
    ensures var r := WithWord(s, s.dir, d, e);
      && Pde(r, d') == (if d' == d then e else Pde(s, d'))
      && Entry(r, d', t') ==
        if d' == d then (if Present(e) then Word(s, FrameOf(e), t') else 0)
        else if d' == WINDOW && t' == d then e
        else Entry(s, d', t')
  {
    WithWordWords(s, s.dir, d, e, s.dir, d');
    if d' == d {
      if Present(e) { WithWordWords(s, s.dir, d, e, FrameOf(e), t'); }
    } else if Present(Pde(s, d')) {
      WithWordWords(s, s.dir, d, e, FrameOf(Pde(s, d')), t');
      if d' != WINDOW { TablesDiffer(s, d', WINDOW); }
    }
  }
}
