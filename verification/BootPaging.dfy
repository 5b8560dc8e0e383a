/** The initial address space, kernel/init/init/memory/paging.c. */
module BootPaging {
  import opened Options
  import opened Words
  import opened Bitmap
  import opened PageTables
  import B = BootAllocator

  const LOW_PAGES: nat := 256           // the first megabyte
  const KERNEL: nat := 0x300            // pdir_entry(0xc0100000)
  const STACK: nat := 0x3fe             // pdir_entry of the kernel stack
  const KERNEL_BASE: nat := 0xc000_0000
  const STACK_MAPPING: nat := 0xffbf_f000
  const ERROR_PAGING_ENOMEM: nat := 1

  /**
   The frames of the directory, the tables for the first megabyte, the kernel and the stack, and of the
   stack itself.
   */
  datatype Frames = Frames(directory: nat, first: nat, kernel: nat, stackMap: nat, stack: nat)

  // ----- Entries

  /** The address of a frame with the flags for present and user. */
  function EntryFor(f: nat): (e: u32)
    requires f < FRAMES
    ensures Present(e) && FrameOf(e) == f
  {
    FRAME_SIZE * f + 5
  }

  /** address | PTABLE_FLAG_PRESENT | PTABLE_FLAG_USER */
  lemma EntryForIsOr(f: nat)
    requires f < FRAMES
    ensures Or(Or(FRAME_SIZE * f, 1), 4) == EntryFor(f)
  {
    OrFlags(512 * f);
  }

  lemma OrFlags(a: nat)
    ensures Or(Or(8 * a, 1), 4) == 8 * a + 5
  {
    hide Or;
    OrDigit(4 * a, 0, 0, 1);
    OrZero(4 * a);
    OrDigit(4 * a, 1, 2, 0);
    OrDigit(2 * a, 0, 1, 0);
    OrDigit(a, 0, 0, 1);
    OrZero(a);
  }

  /** The lowest digit of an or. */
  lemma OrDigit(x: nat, p: nat, y: nat, q: nat)
    requires p < 2 && q < 2
    ensures Or(2 * x + p, 2 * y + q) == (if p == 1 || q == 1 then 1 else 0) + 2 * Or(x, y)
  {
    assert (2 * x + p) / 2 == x && (2 * y + q) / 2 == y;
  }

  // ----- Memory, step by step

  /** A frame set to zero. */
  function Zeroed(m: seq<u32>, f: nat): (r: seq<u32>)
    ensures |r| == |m|
  {
    seq(|m|, k requires 0 <= k < |m| => if ENTRIES * f <= k < ENTRIES * f + ENTRIES then 0 else m[k])
  }

  /** The loop over the pages of the kernel up to page n: the index into the one table wraps. */
  function KernelMapped(m: seq<u32>, f: nat, n: nat): (r: seq<u32>)
    requires ENTRIES * f + ENTRIES <= |m| && n <= FRAMES
    ensures |r| == |m|
  {
    if n <= LOW_PAGES then m else KernelMapped(m, f, n - 1)[ENTRIES * f + (n - 1) % ENTRIES := EntryFor(n - 1)]
  }

  /** The loop over the pages of the first megabyte. */
  function LowMapped(m: seq<u32>, f: nat, n: nat): (r: seq<u32>)
    requires ENTRIES * f + ENTRIES <= |m| && n <= LOW_PAGES
    ensures |r| == |m|
  {
    if n == 0 then m else LowMapped(m, f, n - 1)[ENTRIES * f + (n - 1) := EntryFor(n - 1)]
  }

  lemma {:induction false} KernelMappedWords(m: seq<u32>, f: nat, n: nat, k: nat)
    requires ENTRIES * f + ENTRIES <= |m| && n <= FRAMES && k < |m|
    ensures !(ENTRIES * f <= k < ENTRIES * f + ENTRIES) ==> KernelMapped(m, f, n)[k] == m[k]
    ensures n <= ENTRIES && ENTRIES * f <= k < ENTRIES * f + ENTRIES ==>
      KernelMapped(m, f, n)[k] == if LOW_PAGES <= k - ENTRIES * f < n then EntryFor(k - ENTRIES * f) else m[k]
  {
    if n > LOW_PAGES { KernelMappedWords(m, f, n - 1, k); }
  }

  lemma {:induction false} LowMappedWords(m: seq<u32>, f: nat, n: nat, k: nat)
    requires ENTRIES * f + ENTRIES <= |m| && n <= LOW_PAGES && k < |m|
    ensures LowMapped(m, f, n)[k] == if ENTRIES * f <= k < ENTRIES * f + n then EntryFor(k - ENTRIES * f) else m[k]
  {
    if n > 0 { LowMappedWords(m, f, n - 1, k); }
  }

  ghost predicate Whole(m: seq<u32>) {
    |m| == ENTRIES * FRAMES
  }

  function Set(m: seq<u32>, f: nat, i: nat, e: u32): (r: seq<u32>)
    requires Whole(m) && f < FRAMES && i < ENTRIES
    ensures |r| == |m|
  {
    m[ENTRIES * f + i := e]
  }

  function WithDirectory(m: seq<u32>, dir: nat): (r: seq<u32>)
    requires Whole(m) && dir < FRAMES
    ensures |r| == |m|
  {
    Set(Zeroed(m, dir), dir, WINDOW, EntryFor(dir))
  }

  function WithFirstMegabyte(m: seq<u32>, dir: nat, first: nat): (r: seq<u32>)
    requires Whole(m) && dir < FRAMES && first < FRAMES
    ensures |r| == |m|
  {
    LowMapped(Set(Zeroed(m, first), dir, 0, EntryFor(first)), first, LOW_PAGES)
  }

  function WithKernel(m: seq<u32>, dir: nat, kernel: nat, pages: nat): (r: seq<u32>)
    requires Whole(m) && dir < FRAMES && kernel < FRAMES && pages <= FRAMES
    ensures |r| == |m|
  {
    KernelMapped(Set(Zeroed(m, kernel), dir, KERNEL, EntryFor(kernel)), kernel, pages)
  }

  function WithStack(m: seq<u32>, dir: nat, stackMap: nat, stack: nat): (r: seq<u32>)
    requires Whole(m) && dir < FRAMES && stackMap < FRAMES && stack < FRAMES
    ensures |r| == |m|
  {
    Set(Set(Zeroed(Zeroed(m, stackMap), stack), dir, STACK, EntryFor(stackMap)), stackMap, WINDOW, EntryFor(stack))
  }

  function WithTables(m: seq<u32>, dir: nat, first: nat, kernel: nat, pages: nat): (r: seq<u32>)
    requires Whole(m) && dir < FRAMES && first < FRAMES && kernel < FRAMES && pages <= FRAMES
    ensures |r| == |m|
  {
    WithKernel(WithFirstMegabyte(WithDirectory(m, dir), dir, first), dir, kernel, pages)
  }

  predicate InMemory(fs: Frames) {
    fs.directory < FRAMES && fs.first < FRAMES && fs.kernel < FRAMES && fs.stackMap < FRAMES && fs.stack < FRAMES
  }

  predicate Distinct(fs: Frames) {
    && fs.directory != fs.first && fs.directory != fs.kernel && fs.directory != fs.stackMap && fs.directory != fs.stack
    && fs.first != fs.kernel && fs.first != fs.stackMap && fs.first != fs.stack
    && fs.kernel != fs.stackMap && fs.kernel != fs.stack && fs.stackMap != fs.stack
  }

  /** Memory after the whole setup. */
  function Built(m: seq<u32>, fs: Frames, pages: nat): (r: seq<u32>)
    requires Whole(m) && InMemory(fs) && pages <= FRAMES
    ensures |r| == |m|
  {
    WithStack(WithTables(m, fs.directory, fs.first, fs.kernel, pages), fs.directory, fs.stackMap, fs.stack)
  }

  function SpaceOf(m: seq<u32>, fs: Frames): Space {
    Space(m, fs.directory)
  }

  // ----- What the tables hold

  function DirectoryWord(fs: Frames, i: nat): u32
    requires InMemory(fs)
  {
    if i == 0 then EntryFor(fs.first) else if i == KERNEL then EntryFor(fs.kernel)
    else if i == STACK then EntryFor(fs.stackMap) else if i == WINDOW then EntryFor(fs.directory) else 0
  }

  function At(m: seq<u32>, f: nat, i: nat): u32
    requires Whole(m) && f < FRAMES && i < ENTRIES
  {
    m[ENTRIES * f + i]
  }

  lemma ZeroedWords(m: seq<u32>, f: nat, g: nat, i: nat)
    requires Whole(m) && f < FRAMES && g < FRAMES && i < ENTRIES
    ensures At(Zeroed(m, f), g, i) == if g == f then 0 else At(m, g, i)
  {
  }

  lemma SetWords(m: seq<u32>, f: nat, j: nat, e: u32, g: nat, i: nat)
    requires Whole(m) && f < FRAMES && j < ENTRIES && g < FRAMES && i < ENTRIES
    ensures At(Set(m, f, j, e), g, i) == if g == f && i == j then e else At(m, g, i)
  {
    assert ENTRIES * f + j == ENTRIES * g + i <==> f == g && i == j;
  }

  lemma DirectoryWords(m: seq<u32>, fs: Frames, f: nat, i: nat)
    requires Whole(m) && InMemory(fs) && f < FRAMES && i < ENTRIES
    ensures At(WithDirectory(m, fs.directory), f, i) ==
      if f == fs.directory then (if i == WINDOW then EntryFor(fs.directory) else 0) else At(m, f, i)
  {
    ZeroedWords(m, fs.directory, f, i);
    SetWords(Zeroed(m, fs.directory), fs.directory, WINDOW, EntryFor(fs.directory), f, i);
  }

  lemma FirstMegabyteWords(m: seq<u32>, fs: Frames, f: nat, i: nat)
    requires Whole(m) && InMemory(fs) && Distinct(fs) && f < FRAMES && i < ENTRIES
    ensures At(WithFirstMegabyte(m, fs.directory, fs.first), f, i) ==
      if f == fs.first then (if i < LOW_PAGES then EntryFor(i) else 0)
      else if f == fs.directory && i == 0 then EntryFor(fs.first)
      else At(m, f, i)
  {
    var n := Set(Zeroed(m, fs.first), fs.directory, 0, EntryFor(fs.first));
    ZeroedWords(m, fs.first, f, i);
    SetWords(Zeroed(m, fs.first), fs.directory, 0, EntryFor(fs.first), f, i);
    LowMappedWords(n, fs.first, LOW_PAGES, ENTRIES * f + i);
  }

  lemma KernelWords(m: seq<u32>, fs: Frames, pages: nat, f: nat, i: nat)
    requires Whole(m) && InMemory(fs) && Distinct(fs) && pages <= FRAMES && f < FRAMES && i < ENTRIES
    ensures f == fs.kernel && pages <= ENTRIES ==>
      At(WithKernel(m, fs.directory, fs.kernel, pages), f, i) == if LOW_PAGES <= i < pages then EntryFor(i) else 0
    ensures f != fs.kernel ==>
      At(WithKernel(m, fs.directory, fs.kernel, pages), f, i) ==
      if f == fs.directory && i == KERNEL then EntryFor(fs.kernel) else At(m, f, i)
  {
    var n := Set(Zeroed(m, fs.kernel), fs.directory, KERNEL, EntryFor(fs.kernel));
    ZeroedWords(m, fs.kernel, f, i);
    SetWords(Zeroed(m, fs.kernel), fs.directory, KERNEL, EntryFor(fs.kernel), f, i);
    KernelMappedWords(n, fs.kernel, pages, ENTRIES * f + i);
  }

  lemma StackWords(m: seq<u32>, fs: Frames, f: nat, i: nat)
    requires Whole(m) && InMemory(fs) && Distinct(fs) && f < FRAMES && i < ENTRIES
    ensures At(WithStack(m, fs.directory, fs.stackMap, fs.stack), f, i) ==
      if f == fs.stackMap then (if i == WINDOW then EntryFor(fs.stack) else 0)
      else if f == fs.stack then 0
      else if f == fs.directory && i == STACK then EntryFor(fs.stackMap) else At(m, f, i)
  {
    var z := Zeroed(m, fs.stackMap);
    var n := Set(Zeroed(z, fs.stack), fs.directory, STACK, EntryFor(fs.stackMap));
    ZeroedWords(m, fs.stackMap, f, i);
    ZeroedWords(z, fs.stack, f, i);
    SetWords(Zeroed(z, fs.stack), fs.directory, STACK, EntryFor(fs.stackMap), f, i);
    SetWords(n, fs.stackMap, WINDOW, EntryFor(fs.stack), f, i);
  }

  /** The words of the five frames; all others are as before. */
  lemma BuiltWords(m: seq<u32>, fs: Frames, pages: nat, f: nat, i: nat)
    requires Whole(m) && InMemory(fs) && Distinct(fs) && pages <= FRAMES && f < FRAMES && i < ENTRIES
    ensures var w := At(Built(m, fs, pages), f, i);
      && (f == fs.directory ==> w == DirectoryWord(fs, i))
      && (f == fs.first ==> w == if i < LOW_PAGES then EntryFor(i) else 0)
      && (f == fs.kernel && pages <= ENTRIES ==> w == if LOW_PAGES <= i < pages then EntryFor(i) else 0)
      && (f == fs.stackMap ==> w == if i == WINDOW then EntryFor(fs.stack) else 0)
      && (f == fs.stack ==> w == 0)
      && (f !in {fs.directory, fs.first, fs.kernel, fs.stackMap, fs.stack} ==> w == At(m, f, i))
  {
    hide WithDirectory, WithFirstMegabyte, WithKernel, WithStack, At;
    var m1 := WithDirectory(m, fs.directory);
    var m2 := WithFirstMegabyte(m1, fs.directory, fs.first);
    var m3 := WithKernel(m2, fs.directory, fs.kernel, pages);
    DirectoryWords(m, fs, f, i);
    FirstMegabyteWords(m1, fs, f, i);
    KernelWords(m2, fs, pages, f, i);
    StackWords(m3, fs, f, i);
  }

  // ----- The walk

  /** The address space that the setup is for. */
  function Promised(fs: Frames, pages: nat, va: u32): Option<nat>
    requires InMemory(fs)
  {
    if va < FRAME_SIZE * LOW_PAGES then Some(va)
    else if KERNEL_BASE + FRAME_SIZE * LOW_PAGES <= va < KERNEL_BASE + FRAME_SIZE * pages then Some(va - KERNEL_BASE)
    else if STACK_MAPPING <= va < WINDOW_BASE then Some(FRAME_SIZE * fs.stack + va % FRAME_SIZE)
    else if WINDOW_BASE <= va && DirectoryWord(fs, (va - WINDOW_BASE) / FRAME_SIZE) != 0
    then Some(FRAME_SIZE * FrameOf(DirectoryWord(fs, (va - WINDOW_BASE) / FRAME_SIZE)) + va % FRAME_SIZE)
    else None
  }

  /** The entries that the walk finds. */
  lemma BuiltEntries(m: seq<u32>, fs: Frames, pages: nat, d: nat, t: nat)
    requires Whole(m) && InMemory(fs) && Distinct(fs) && pages <= FRAMES && d < ENTRIES && t < ENTRIES
    ensures var e := Entry(SpaceOf(Built(m, fs, pages), fs), d, t);
      && (d == 0 ==> e == if t < LOW_PAGES then EntryFor(t) else 0)
      && (d == KERNEL && pages <= ENTRIES ==> e == if LOW_PAGES <= t < pages then EntryFor(t) else 0)
      && (d == STACK ==> e == if t == WINDOW then EntryFor(fs.stack) else 0)
      && (d == WINDOW ==> e == DirectoryWord(fs, t))
      && (d !in {0, KERNEL, STACK, WINDOW} ==> e == 0)
  {
    var s := SpaceOf(Built(m, fs, pages), fs);
    BuiltWords(m, fs, pages, fs.directory, d);
    assert Pde(s, d) == DirectoryWord(fs, d);
    if Present(Pde(s, d)) { BuiltWords(m, fs, pages, FrameOf(Pde(s, d)), t); }
  }

  /** The same, read off the two indices and the offset. */
  lemma PromisedAt(fs: Frames, pages: nat, d: nat, t: nat, offset: nat)
    requires InMemory(fs) && LOW_PAGES <= pages <= ENTRIES && d < ENTRIES && t < ENTRIES && offset < FRAME_SIZE
    ensures Promised(fs, pages, TABLE_SPAN * d + FRAME_SIZE * t + offset) ==
      if d == 0 && t < LOW_PAGES then Some(FRAME_SIZE * t + offset)
      else if d == KERNEL && LOW_PAGES <= t < pages then Some(FRAME_SIZE * t + offset)
      else if d == STACK && t == WINDOW then Some(FRAME_SIZE * fs.stack + offset)
      else if d == WINDOW && DirectoryWord(fs, t) != 0 then Some(FRAME_SIZE * FrameOf(DirectoryWord(fs, t)) + offset)
      else None
  {
    var va := TABLE_SPAN * d + FRAME_SIZE * t + offset;
    assert va == FRAME_SIZE * (ENTRIES * d + t) + offset;
    if d == WINDOW { assert va - WINDOW_BASE == FRAME_SIZE * t + offset; }
  }

  lemma Parts(va: u32)
    ensures va == TABLE_SPAN * DirIndex(va) + FRAME_SIZE * TableIndex(va) + va % FRAME_SIZE
  {
  }

  lemma WalkIsPromised(m: seq<u32>, fs: Frames, pages: nat, va: u32)
    requires Whole(m) && InMemory(fs) && Distinct(fs) && LOW_PAGES <= pages <= ENTRIES
    ensures Walk(SpaceOf(Built(m, fs, pages), fs), va) == Promised(fs, pages, va)
  {
    hide Promised, DirIndex, TableIndex, Built, Entry;
    BuiltEntries(m, fs, pages, DirIndex(va), TableIndex(va));
    Parts(va);
    PromisedAt(fs, pages, DirIndex(va), TableIndex(va), va % FRAME_SIZE);
  }

  /** The address space is the promised one exactly when the kernel fits into the one table it is given. */
  lemma WalkIsPromisedIff(m: seq<u32>, fs: Frames, pages: nat)
    requires Whole(m) && InMemory(fs) && Distinct(fs) && LOW_PAGES <= pages < (STACK_MAPPING - KERNEL_BASE) / FRAME_SIZE
    ensures (forall va: u32 :: Walk(SpaceOf(Built(m, fs, pages), fs), va) == Promised(fs, pages, va))
      <==> pages <= ENTRIES
  {
    if pages <= ENTRIES {
      forall va: u32 ensures Walk(SpaceOf(Built(m, fs, pages), fs), va) == Promised(fs, pages, va) {
        WalkIsPromised(m, fs, pages, va);
      }
    } else {
      var va: u32 := KERNEL_BASE + TABLE_SPAN;
      BuiltEntries(m, fs, pages, DirIndex(va), TableIndex(va));
      assert Walk(SpaceOf(Built(m, fs, pages), fs), va) == None && Promised(fs, pages, va) == Some(TABLE_SPAN);
    }
  }

  // ----- The frames

  /** The five frames are the least free blocks, one after the other. */
  ghost predicate Chosen(m: seq<u32>, limit: nat, fs: Frames, r: seq<u32>) {
    exists m1: seq<u32>, m2: seq<u32>, m3: seq<u32>, m4: seq<u32> ::
      && Next(m, limit, fs.directory, m1) && Next(m1, limit, fs.first, m2) && Next(m2, limit, fs.kernel, m3)
      && Next(m3, limit, fs.stackMap, m4) && Next(m4, limit, fs.stack, r)
  }

  /** Block f is the least free one, and r is the map with it taken. */
  ghost predicate Next(m: seq<u32>, limit: nat, f: nat, r: seq<u32>) {
    limit <= BLOCKS_PER_UNIT * |m| && IsFirstFree(m, limit, f) && r == Mark(m, f)
  }

  ghost function FrameSet(fs: Frames): set<nat> {
    {fs.directory, fs.first, fs.kernel, fs.stackMap, fs.stack}
  }

  lemma NextTakesOne(m: seq<u32>, limit: nat, f: nat, r: seq<u32>)
    requires Next(m, limit, f, r)
    ensures UsedBelow(r, limit) == UsedBelow(m, limit) + 1 <= limit
    ensures NoneFree(r, limit) <==> UsedBelow(r, limit) == limit
  {
    MarkCounts(m, f, limit);
    UsedAtMost(r, limit);
  }

  ghost predicate ThreeChosen(m: seq<u32>, limit: nat, dir: nat, first: nat, kernel: nat, r: seq<u32>) {
    exists m1: seq<u32>, m2: seq<u32> :: Next(m, limit, dir, m1) && Next(m1, limit, first, m2)
      && Next(m2, limit, kernel, r)
  }

  lemma AllChosen(m0: seq<u32>, m3: seq<u32>, limit: nat, fs: Frames, r: seq<u32>)
    requires ThreeChosen(m0, limit, fs.directory, fs.first, fs.kernel, m3)
    requires exists m4 :: Next(m3, limit, fs.stackMap, m4) && Next(m4, limit, fs.stack, r)
    ensures Chosen(m0, limit, fs, r) && UsedBelow(m0, limit) + 5 <= limit
  {
    var m1, m2 :| Next(m0, limit, fs.directory, m1) && Next(m1, limit, fs.first, m2) && Next(m2, limit, fs.kernel, m3);
    var m4 :| Next(m3, limit, fs.stackMap, m4) && Next(m4, limit, fs.stack, r);
    NextTakesOne(m0, limit, fs.directory, m1);
    NextTakesOne(m1, limit, fs.first, m2);
    NextTakesOne(m2, limit, fs.kernel, m3);
    NextTakesOne(m3, limit, fs.stackMap, m4);
    NextTakesOne(m4, limit, fs.stack, r);
  }

  /** They are distinct, were free, and are all that is taken. */
  lemma ChosenFrames(m: seq<u32>, limit: nat, fs: Frames, r: seq<u32>)
    requires Chosen(m, limit, fs, r)
    ensures Distinct(fs)
    ensures forall f :: f in FrameSet(fs) ==> f < limit && !Marked(m, f)
    ensures forall c: nat :: Marked(r, c) <==> Marked(m, c) || c in FrameSet(fs)
  {
    var m1, m2, m3, m4 :|
      && Next(m, limit, fs.directory, m1) && Next(m1, limit, fs.first, m2) && Next(m2, limit, fs.kernel, m3)
      && Next(m3, limit, fs.stackMap, m4) && Next(m4, limit, fs.stack, r);
    forall c: nat
      ensures Marked(m1, c) <==> Marked(m, c) || c == fs.directory
      ensures Marked(m2, c) <==> Marked(m1, c) || c == fs.first
      ensures Marked(m3, c) <==> Marked(m2, c) || c == fs.kernel
      ensures Marked(m4, c) <==> Marked(m3, c) || c == fs.stackMap
      ensures Marked(r, c) <==> Marked(m4, c) || c == fs.stack
    {
      MarkMarks(m, fs.directory, c);
      MarkMarks(m1, fs.first, c);
      MarkMarks(m2, fs.kernel, c);
      MarkMarks(m3, fs.stackMap, c);
      MarkMarks(m4, fs.stack, c);
    }
  }

  // ----- What a setup spares, also one that fails

  /** Of the frames, only those whose blocks were free in m have been written. */
  ghost predicate Spared(m: seq<u32>, limit: nat, p: seq<u32>, q: seq<u32>) {
    && Whole(p) && Whole(q)
    && forall f, i {:trigger At(q, f, i)} | 0 <= f < FRAMES && 0 <= i < ENTRIES && (f >= limit || Marked(m, f)) ::
         At(q, f, i) == At(p, f, i)
  }

  ghost predicate Free(m: seq<u32>, limit: nat, f: nat) {
    f < limit <= FRAMES && !Marked(m, f)
  }

  /** What is free after a block has been taken was free before. */
  lemma NextWasFree(m: seq<u32>, limit: nat, f: nat, r: seq<u32>, g: nat)
    requires Next(m, limit, f, r) && limit <= FRAMES
    ensures Free(m, limit, f) && (Free(r, limit, g) ==> Free(m, limit, g))
  {
    MarkMarks(m, f, g);
  }

  lemma DirectorySpares(m: seq<u32>, limit: nat, p: seq<u32>, dir: nat)
    requires Whole(p) && Free(m, limit, dir)
    ensures Spared(m, limit, p, WithDirectory(p, dir))
  {
    forall f, i | 0 <= f < FRAMES && 0 <= i < ENTRIES && (f >= limit || Marked(m, f))
      ensures At(WithDirectory(p, dir), f, i) == At(p, f, i)
    {
      ZeroedWords(p, dir, f, i);
      SetWords(Zeroed(p, dir), dir, WINDOW, EntryFor(dir), f, i);
    }
  }

  lemma FirstMegabyteSpares(m: seq<u32>, limit: nat, p: seq<u32>, dir: nat, first: nat)
    requires Whole(p) && Free(m, limit, dir) && Free(m, limit, first)
    ensures Spared(m, limit, p, WithFirstMegabyte(p, dir, first))
  {
    var n := Set(Zeroed(p, first), dir, 0, EntryFor(first));
    forall f, i | 0 <= f < FRAMES && 0 <= i < ENTRIES && (f >= limit || Marked(m, f))
      ensures At(WithFirstMegabyte(p, dir, first), f, i) == At(p, f, i)
    {
      ZeroedWords(p, first, f, i);
      SetWords(Zeroed(p, first), dir, 0, EntryFor(first), f, i);
      LowMappedWords(n, first, LOW_PAGES, ENTRIES * f + i);
    }
  }

  lemma KernelSpares(m: seq<u32>, limit: nat, p: seq<u32>, dir: nat, kernel: nat, pages: nat)
    requires Whole(p) && Free(m, limit, dir) && Free(m, limit, kernel) && pages <= FRAMES
    ensures Spared(m, limit, p, WithKernel(p, dir, kernel, pages))
  {
    var n := Set(Zeroed(p, kernel), dir, KERNEL, EntryFor(kernel));
    forall f, i | 0 <= f < FRAMES && 0 <= i < ENTRIES && (f >= limit || Marked(m, f))
      ensures At(WithKernel(p, dir, kernel, pages), f, i) == At(p, f, i)
    {
      ZeroedWords(p, kernel, f, i);
      SetWords(Zeroed(p, kernel), dir, KERNEL, EntryFor(kernel), f, i);
      KernelMappedWords(n, kernel, pages, ENTRIES * f + i);
    }
  }

  lemma SparedTwice(m: seq<u32>, limit: nat, p: seq<u32>, q: seq<u32>, r: seq<u32>)
    requires Spared(m, limit, p, q) && Spared(m, limit, q, r)
    ensures Spared(m, limit, p, r)
  {
    forall f, i | 0 <= f < FRAMES && 0 <= i < ENTRIES && (f >= limit || Marked(m, f))
      ensures At(r, f, i) == At(p, f, i)
    {
      assert At(q, f, i) == At(p, f, i);
    }
  }

  // ----- The program

  class Setup {
    const phys: array<u32>
    const allocator: B.Allocator
    var pageDirectory: u32
    var firstPagetable: u32
    var kernelPagetable: u32
    var kernelStackMap: u32
    var kernelEndVirtual: u32

    ghost function Limit(): nat
      reads allocator
    {
      Searchable(allocator.totalBlocks)
    }

    /** Block 0 is in use, and the bitmap covers all blocks. */
    ghost predicate Ready()
      reads allocator, allocator.mbitmap
    {
      && phys.Length == ENTRIES * FRAMES && phys != allocator.mbitmap
      && allocator.totalBlocks <= BLOCKS_PER_UNIT * allocator.mbitmap.Length && allocator.totalBlocks <= FRAMES
      && Marked(allocator.mbitmap[..], 0)
    }

    constructor (phys: array<u32>, allocator: B.Allocator)
      ensures this.phys == phys && this.allocator == allocator
    {
      this.phys, this.allocator := phys, allocator;
      pageDirectory, firstPagetable, kernelPagetable, kernelStackMap, kernelEndVirtual := 0, 0, 0, 0, 0;
    }

    /** A frame, if there is one left. */
    method Take() returns (pointer: u32)
      requires Ready()
      modifies allocator`kinitErrno, allocator.mbitmap
      ensures Ready()
      ensures pointer == 0 ==>
        NoneFree(old(allocator.mbitmap[..]), Limit()) && allocator.mbitmap[..] == old(allocator.mbitmap[..])
      ensures pointer != 0 ==>
        && pointer % FRAME_SIZE == 0
        && Next(old(allocator.mbitmap[..]), Limit(), pointer / FRAME_SIZE, allocator.mbitmap[..])
    {
      hide Marked;
      ghost var m := allocator.mbitmap[..];
      pointer := allocator.Alloc();
      if !NoneFree(m, Limit()) {
        ghost var c: nat :| c < Limit() && !Marked(m, c);
        SomeFirstFree(m, Limit(), c);
        ghost var b :| IsFirstFree(m, Limit(), b);
        MarkMarks(m, b, 0);
      }
    }

    method Clear(f: nat)
      requires phys.Length == ENTRIES * FRAMES && f < FRAMES
      modifies phys
      ensures phys[..] == Zeroed(old(phys[..]), f)
    {
      var i := 0;
      while i < ENTRIES
        invariant 0 <= i <= ENTRIES
        invariant forall k :: 0 <= k < phys.Length ==>
          phys[k] == if ENTRIES * f <= k < ENTRIES * f + i then 0 else old(phys[k])
      {
        phys[ENTRIES * f + i] := 0;
        i := i + 1;
      }
    }

    /**
     The whole setup: it succeeds exactly when five blocks are free, takes the five least, and builds
     the tables in them. A setup that fails keeps all free blocks, and has written into these only.
     */
    method SetupPaging() returns (result: int, ghost fs: Frames)
      requires Ready()
      requires allocator.kernelEnd % FRAME_SIZE == 0
      requires FRAME_SIZE * LOW_PAGES <= allocator.kernelEnd < MODULUS - KERNEL_BASE
      modifies this, allocator`kinitErrno, allocator.mbitmap, phys
      ensures result in {0, -1}
      ensures result == 0 <==> UsedBelow(old(allocator.mbitmap[..]), Limit()) + 5 <= Limit()
      ensures result == -1 ==>
        && allocator.kinitErrno == ERROR_PAGING_ENOMEM && NoneFree(allocator.mbitmap[..], Limit())
        && Spared(old(allocator.mbitmap[..]), Limit(), old(phys[..]), phys[..])
      ensures result == 0 ==>
        && InMemory(fs) && Chosen(old(allocator.mbitmap[..]), Limit(), fs, allocator.mbitmap[..])
        && phys[..] == Built(old(phys[..]), fs, allocator.kernelEnd / FRAME_SIZE)
        && pageDirectory == FRAME_SIZE * fs.directory && kernelEndVirtual == KERNEL_BASE + allocator.kernelEnd
    {
      hide WithDirectory, WithFirstMegabyte, WithKernel, WithStack, NoneFree, UsedBelow, Marked, Next;
      fs := Frames(0, 0, 0, 0, 0);
      ghost var m0, limit, stack := allocator.mbitmap[..], Limit(), 0;
      result := SetupTables();
      if result != 0 {
        return;
      }
      ghost var m3 := allocator.mbitmap[..];
      result, stack := CreateNewKernelStack();
      if result != 0 {
        return;
      }
      fs := Frames(pageDirectory / FRAME_SIZE, firstPagetable / FRAME_SIZE, kernelPagetable / FRAME_SIZE,
        kernelStackMap / FRAME_SIZE, stack / FRAME_SIZE);
      AllChosen(m0, m3, limit, fs, allocator.mbitmap[..]);
    }

    /** The directory and the first two tables. */
    method SetupTables() returns (result: int)
      requires Ready()
      requires allocator.kernelEnd % FRAME_SIZE == 0
      requires FRAME_SIZE * LOW_PAGES <= allocator.kernelEnd < MODULUS - KERNEL_BASE
      modifies this, allocator`kinitErrno, allocator.mbitmap, phys
      ensures Ready() && result in {0, -1}
      ensures Spared(old(allocator.mbitmap[..]), Limit(), old(phys[..]), phys[..])
      ensures result == -1 ==>
        && UsedBelow(old(allocator.mbitmap[..]), Limit()) + 3 > Limit()
        && NoneFree(allocator.mbitmap[..], Limit()) && allocator.kinitErrno == ERROR_PAGING_ENOMEM
      ensures result == 0 ==>
        && pageDirectory % FRAME_SIZE == 0 && firstPagetable % FRAME_SIZE == 0 && kernelPagetable % FRAME_SIZE == 0
        && kernelEndVirtual == KERNEL_BASE + allocator.kernelEnd
        && UsedBelow(allocator.mbitmap[..], Limit()) == UsedBelow(old(allocator.mbitmap[..]), Limit()) + 3
        && ThreeChosen(old(allocator.mbitmap[..]), Limit(), pageDirectory / FRAME_SIZE, firstPagetable / FRAME_SIZE,
          kernelPagetable / FRAME_SIZE, allocator.mbitmap[..])
        && phys[..] == WithTables(old(phys[..]), pageDirectory / FRAME_SIZE, firstPagetable / FRAME_SIZE,
          kernelPagetable / FRAME_SIZE, allocator.kernelEnd / FRAME_SIZE)
    {
      hide WithDirectory, WithFirstMegabyte, WithKernel, UsedBelow, Marked, At, Free;
      ghost var m0, limit, p0 := allocator.mbitmap[..], Limit(), phys[..];
      UsedAtMost(m0, limit);
      result := CreatePageDirectory();
      if result != 0 {
        return;
      }
      ghost var m1, p1, dir := allocator.mbitmap[..], phys[..], pageDirectory / FRAME_SIZE;
      NextTakesOne(m0, limit, dir, m1);
      NextWasFree(m0, limit, dir, m1, dir);
      DirectorySpares(m0, limit, p0, dir);
      result := MapFirstMegabyte();
      if result != 0 {
        return;
      }
      ghost var m2, p2, first := allocator.mbitmap[..], phys[..], firstPagetable / FRAME_SIZE;
      NextTakesOne(m1, limit, first, m2);
      NextWasFree(m1, limit, first, m2, first);
      NextWasFree(m0, limit, dir, m1, first);
      FirstMegabyteSpares(m0, limit, p1, dir, first);
      SparedTwice(m0, limit, p0, p1, p2);
      result := MapKernel();
      if result != 0 {
        return;
      }
      ghost var m3, kernel := allocator.mbitmap[..], kernelPagetable / FRAME_SIZE;
      NextTakesOne(m2, limit, kernel, m3);
      NextWasFree(m2, limit, kernel, m3, kernel);
      NextWasFree(m1, limit, first, m2, kernel);
      NextWasFree(m0, limit, dir, m1, kernel);
      KernelSpares(m0, limit, p2, dir, kernel, allocator.kernelEnd / FRAME_SIZE);
      SparedTwice(m0, limit, p0, p2, phys[..]);
    }

    method CreatePageDirectory() returns (result: int)
      requires Ready()
      modifies this`pageDirectory, allocator`kinitErrno, allocator.mbitmap, phys
      ensures Ready() && result in {0, -1}
      ensures result == -1 ==>
        && NoneFree(old(allocator.mbitmap[..]), Limit()) && allocator.kinitErrno == ERROR_PAGING_ENOMEM
        && allocator.mbitmap[..] == old(allocator.mbitmap[..]) && phys[..] == old(phys[..])
      ensures result == 0 ==>
        && pageDirectory % FRAME_SIZE == 0
        && Next(old(allocator.mbitmap[..]), Limit(), pageDirectory / FRAME_SIZE, allocator.mbitmap[..])
        && phys[..] == WithDirectory(old(phys[..]), pageDirectory / FRAME_SIZE)
    {
      pageDirectory := Take();
      if pageDirectory == 0 {
        allocator.kinitErrno := ERROR_PAGING_ENOMEM;
        return -1;
      }
      var f := pageDirectory / FRAME_SIZE;
      Clear(f);
      EntryForIsOr(f);
      phys[ENTRIES * f + DirIndex(WINDOW_BASE)] := Or(Or(pageDirectory, 1), 4);
      result := 0;
    }

    method MapFirstMegabyte() returns (result: int)
      requires Ready() && pageDirectory % FRAME_SIZE == 0
      modifies this`firstPagetable, allocator`kinitErrno, allocator.mbitmap, phys
      ensures Ready() && result in {0, -1}
      ensures result == -1 ==>
        && NoneFree(old(allocator.mbitmap[..]), Limit()) && allocator.kinitErrno == ERROR_PAGING_ENOMEM
        && allocator.mbitmap[..] == old(allocator.mbitmap[..]) && phys[..] == old(phys[..])
      ensures result == 0 ==>
        && firstPagetable % FRAME_SIZE == 0
        && Next(old(allocator.mbitmap[..]), Limit(), firstPagetable / FRAME_SIZE, allocator.mbitmap[..])
        && phys[..] == WithFirstMegabyte(old(phys[..]), pageDirectory / FRAME_SIZE, firstPagetable / FRAME_SIZE)
    {
      firstPagetable := Take();
      if firstPagetable == 0 {
        allocator.kinitErrno := ERROR_PAGING_ENOMEM;
        return -1;
      }
      var dir, f := pageDirectory / FRAME_SIZE, firstPagetable / FRAME_SIZE;
      Clear(f);
      EntryForIsOr(f);
      phys[ENTRIES * dir + DirIndex(0)] := Or(Or(firstPagetable, 1), 4);
      MapLowPages(f);
      result := 0;
    }

    method MapLowPages(f: nat)
      requires phys.Length == ENTRIES * FRAMES && f < FRAMES
      modifies phys
      ensures phys[..] == LowMapped(old(phys[..]), f, LOW_PAGES)
    {
      hide Or, TableIndex, EntryFor;
      ghost var m, n := phys[..], 0;
      var i: nat := 0;
      while i < 0x10_0000
        invariant n <= LOW_PAGES && i == FRAME_SIZE * n
        invariant phys[..] == LowMapped(m, f, n)
      {
        EntryForIsOr(n);
        LowIndex(n);
        phys[ENTRIES * f + TableIndex(i)] := Or(Or(i, 1), 4);
        i, n := i + FRAME_SIZE, n + 1;
      }
    }

    method MapKernel() returns (result: int)
      requires Ready() && pageDirectory % FRAME_SIZE == 0
      requires allocator.kernelEnd % FRAME_SIZE == 0
      requires FRAME_SIZE * LOW_PAGES <= allocator.kernelEnd < MODULUS - KERNEL_BASE
      modifies this`kernelPagetable, this`kernelEndVirtual, allocator`kinitErrno, allocator.mbitmap, phys
      ensures Ready() && result in {0, -1}
      ensures result == -1 ==>
        && NoneFree(old(allocator.mbitmap[..]), Limit()) && allocator.kinitErrno == ERROR_PAGING_ENOMEM
        && allocator.mbitmap[..] == old(allocator.mbitmap[..]) && phys[..] == old(phys[..])
      ensures result == 0 ==>
        && kernelPagetable % FRAME_SIZE == 0 && kernelEndVirtual == KERNEL_BASE + allocator.kernelEnd
        && Next(old(allocator.mbitmap[..]), Limit(), kernelPagetable / FRAME_SIZE, allocator.mbitmap[..])
        && phys[..] == WithKernel(old(phys[..]), pageDirectory / FRAME_SIZE, kernelPagetable / FRAME_SIZE,
          allocator.kernelEnd / FRAME_SIZE)
    {
      hide Or, EntryFor;
      kernelPagetable := Take();
      if kernelPagetable == 0 {
        allocator.kinitErrno := ERROR_PAGING_ENOMEM;
        return -1;
      }
      var dir, f := pageDirectory / FRAME_SIZE, kernelPagetable / FRAME_SIZE;
      Clear(f);
      EntryForIsOr(f);
      phys[ENTRIES * dir + DirIndex(KERNEL_BASE + 0x10_0000)] := Or(Or(kernelPagetable, 1), 4);
      kernelEndVirtual := allocator.kernelEnd + KERNEL_BASE;
      MapKernelPages(f);
      result := 0;
    }

    method MapKernelPages(f: nat)
      requires phys.Length == ENTRIES * FRAMES && f < FRAMES
      requires kernelEndVirtual % FRAME_SIZE == 0 && KERNEL_BASE + FRAME_SIZE * LOW_PAGES <= kernelEndVirtual
      modifies phys
      ensures phys[..] == KernelMapped(old(phys[..]), f, (kernelEndVirtual - KERNEL_BASE) / FRAME_SIZE)
    {
      hide Or, TableIndex, EntryFor;
      ghost var m, n := phys[..], LOW_PAGES;
      var i: nat := KERNEL_BASE + 0x10_0000;
      while i < kernelEndVirtual
        invariant LOW_PAGES <= n <= (kernelEndVirtual - KERNEL_BASE) / FRAME_SIZE && i == KERNEL_BASE + FRAME_SIZE * n
        invariant phys[..] == KernelMapped(m, f, n)
      {
        EntryForIsOr(n);
        KernelIndex(n);
        phys[ENTRIES * f + TableIndex(i)] := Or(Or(i - KERNEL_BASE, 1), 4);
        i, n := i + FRAME_SIZE, n + 1;
      }
    }

    method CreateNewKernelStack() returns (result: int, ghost stack: u32)
      requires Ready() && pageDirectory % FRAME_SIZE == 0
      modifies this`kernelStackMap, allocator`kinitErrno, allocator.mbitmap, phys
      ensures Ready() && result in {0, -1}
      ensures result == -1 ==>
        && UsedBelow(old(allocator.mbitmap[..]), Limit()) + 1 >= Limit()
        && NoneFree(allocator.mbitmap[..], Limit()) && allocator.kinitErrno == ERROR_PAGING_ENOMEM
        && phys[..] == old(phys[..])
      ensures result == 0 ==>
        && kernelStackMap % FRAME_SIZE == 0 && stack % FRAME_SIZE == 0
        && (exists m ::
              && Next(old(allocator.mbitmap[..]), Limit(), kernelStackMap / FRAME_SIZE, m)
              && Next(m, Limit(), stack / FRAME_SIZE, allocator.mbitmap[..]))
        && phys[..] ==
          WithStack(old(phys[..]), pageDirectory / FRAME_SIZE, kernelStackMap / FRAME_SIZE, stack / FRAME_SIZE)
    {
      hide Or, UsedBelow, Marked, Zeroed, EntryFor;
      ghost var m0 := allocator.mbitmap[..];
      kernelStackMap := Take();
      if kernelStackMap == 0 {
        UsedAtMost(m0, Limit());
        allocator.kinitErrno := ERROR_PAGING_ENOMEM;
        return -1, 0;
      }
      ghost var m := allocator.mbitmap[..];
      var block := Take();
      if block == 0 {
        UsedAtMost(m, Limit());
        NextTakesOne(m0, Limit(), kernelStackMap / FRAME_SIZE, m);
        allocator.kinitErrno := ERROR_PAGING_ENOMEM;
        return -1, 0;
      }
      stack := block;
      var dir, f := pageDirectory / FRAME_SIZE, kernelStackMap / FRAME_SIZE;
      Clear(f);
      Clear(block / FRAME_SIZE);
      EntryForIsOr(f);
      EntryForIsOr(block / FRAME_SIZE);
      phys[ENTRIES * dir + DirIndex(STACK_MAPPING)] := Or(Or(kernelStackMap, 1), 4);
      phys[ENTRIES * f + TableIndex(STACK_MAPPING)] := Or(Or(block, 1), 4);
      result := 0;
    }
  }

  lemma LowIndex(n: nat)
    requires n < LOW_PAGES
    ensures TableIndex(FRAME_SIZE * n) == n
  {
  }

  lemma KernelIndex(n: nat)
    requires LOW_PAGES <= n < (MODULUS - KERNEL_BASE) / FRAME_SIZE
    ensures TableIndex(KERNEL_BASE + FRAME_SIZE * n) == n % ENTRIES
  {
  }
}
