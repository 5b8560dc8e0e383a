/**
 The heap allocator on the break that it asks for memory: whole runs in which `malloc` gets its
 answers from `sbrk`, with adjacency by byte addresses.
 */
module HeapOnBreak {
  import opened Words
  import opened PageTables
  import opened HeapPages
  import opened ProgramBreak
  import opened Tilings
  import opened HeapModel
  import opened MallocProofs
  import R = HeapRuns
  import W = HeapWraps
  import HeapMisfire
  import opened SearchLoop

  /** The free list and the break beneath it. */
  datatype Stack = Stack(h: Heap, s: Break)

  /** Both in good order, with one break and one base between them. */
  ghost predicate Coupled(k: Stack) {
    R.Good(k.h) && HeapExact(k.s) && Meets(k.h, k.s)
  }

  ghost predicate Meets(h: Heap, s: Break) {
    0 < s.brk && h.brk == s.brk && h.lo == s.base
  }

  // ----- One request to sbrk

  /** The break may be moved by this much, and there are blocks for the pages. */
  ghost predicate Supplied(s: Break, alloc: nat) {
    HeapExact(s) && ProgramBreak.Legal(s, Target(s, Request(alloc))) && Enough(s, Target(s, Request(alloc)))
  }

  ghost function Asked(s: Break, alloc: nat): (r: (Break, bool))
    requires Supplied(s, alloc)
  {
    var (t, p) := AfterSbrk(s, Request(alloc));
    (t, p != FAILED)
  }

  /** sbrk grants a request exactly if the new break is not below the heap, and the heap stays exact. */
  lemma SbrkAnswers(h: Heap, s: Break, alloc: nat)
    requires HeapExact(s) && Meets(h, s) && Supplied(s, alloc)
    ensures var (t, granted) := Asked(s, alloc);
      && HeapExact(t) && t.base == s.base && granted == Granted(h, alloc, true)
      && t.brk == if granted then Target(s, Request(alloc)) else s.brk
  {
    hide Needed, HeapUpTo;
    var target := Target(s, Request(alloc));
    if target >= s.base { BrkIsExactIff(s, target); }
  }

  // ----- malloc

  /** What the one or two requests that a search may make need. */
  ghost predicate SuppliedFor(h: Heap, s: Break, alloc: nat) {
    NoneFits(h, alloc) ==>
      && Supplied(s, alloc)
      && (Asked(s, alloc).1 && !TopIsFree(h) ==> Supplied(Asked(s, alloc).0, alloc))
  }

  ghost function First(h: Heap, s: Break, alloc: nat): (Break, bool)
    requires SuppliedFor(h, s, alloc)
  {
    if NoneFits(h, alloc) then Asked(s, alloc) else (s, false)
  }

  ghost function Second(h: Heap, s: Break, alloc: nat): (Break, bool)
    requires SuppliedFor(h, s, alloc)
  {
    var (t, granted) := First(h, s, alloc);
    if granted && !TopIsFree(h) then Asked(t, alloc) else (t, false)
  }

  /** The break after as many requests as the search makes. */
  ghost function BreakAfter(h: Heap, s: Break, alloc: nat, asked: nat): Break
    requires SuppliedFor(h, s, alloc)
  {
    if asked == 0 then s else if asked == 1 then First(h, s, alloc).0 else Second(h, s, alloc).0
  }

  /** The search over the list and the requests to sbrk move the two breaks together. */
  lemma SearchMovesBoth(h: Heap, s: Break, alloc: nat)
    requires Inv(h) && Sane(alloc) && Clear(h, alloc) && HeapExact(s) && Meets(h, s) && SuppliedFor(h, s, alloc)
    ensures SafeSearch(h, alloc, First(h, s, alloc).1, Second(h, s, alloc).1, false)
    ensures var r := Searched(h, alloc, First(h, s, alloc).1, Second(h, s, alloc).1, false);
      var t := BreakAfter(h, s, alloc, r.asked);
      HeapExact(t) && Meets(r.heap, t) && t.base == s.base
  {
    hide Enough, Supplied, AfterSbrk;
    BytewiseSearchIsSafe(h, alloc, First(h, s, alloc).1, Second(h, s, alloc).1);
    if NoneFits(h, alloc) {
      SbrkAnswers(h, s, alloc);
      if Granted(h, alloc, First(h, s, alloc).1) { GrowthMovesBoth(h, s, alloc); }
    }
  }

  lemma GrowthMovesBoth(h: Heap, s: Break, alloc: nat)
    requires Inv(h) && Sane(alloc) && Clear(h, alloc) && NoneFits(h, alloc) && HeapExact(s) && Meets(h, s)
    requires SuppliedFor(h, s, alloc) && Granted(h, alloc, First(h, s, alloc).1)
    requires SafeGrowths(h, alloc, Second(h, s, alloc).1, false)
    ensures var r := SearchedOn(h, alloc, Second(h, s, alloc).1, false);
      var t := BreakAfter(h, s, alloc, r.asked);
      HeapExact(t) && Meets(r.heap, t) && t.base == s.base
  {
    hide Enough, Supplied, AfterSbrk, GrownFrom, Tiling, SoundGrowth, HeapUpTo;
    SbrkAnswers(h, s, alloc);
    BytewiseGrowthMergesIff(h, alloc);
    var g, t := Grown(h, alloc, false), First(h, s, alloc).0;
    GrownMeets(h, s, t, alloc);
    if |g.list| > |h.list| {
      SbrkAnswers(g, t, alloc);
      if Granted(g, alloc, Second(h, s, alloc).1) { GrownMeets(g, t, Second(h, s, alloc).0, alloc); }
    }
  }

  lemma GrownMeets(h: Heap, s: Break, t: Break, alloc: nat)
    requires CanGrow(h, alloc, false) && Meets(h, s) && t.brk == Target(s, Request(alloc)) && t.base == s.base
    ensures Meets(Grown(h, alloc, false), t) && |Grown(h, alloc, false).list| >= |h.list|
  {
  }

  // ----- Calls

  datatype Call = Malloc(nbytes: nat) | Free(m: nat)

  ghost predicate LegalCall(k: Stack, call: Call) {
    match call
    case Malloc(nbytes) => R.Legal(k.h, R.Allocate(nbytes, false, false))
      && SuppliedFor(Started(k.h), k.s, nbytes + HEADER)
    case Free(m) => R.Legal(k.h, R.Release(m))
  }

  ghost function AfterMalloc(k: Stack, nbytes: nat): Stack
    requires Coupled(k) && LegalCall(k, Malloc(nbytes))
  {
    hide HeapExact, SuppliedFor, First, Second, Tiling;
    var h, alloc := Started(k.h), nbytes + HEADER;
    StartedKeepsInv(k.h);
    SearchMovesBoth(h, k.s, alloc);
    var first, second := First(h, k.s, alloc).1, Second(h, k.s, alloc).1;
    Stack(R.Step(k.h, R.Allocate(nbytes, first, second)),
          BreakAfter(h, k.s, alloc, Searched(h, alloc, first, second, false).asked))
  }

  ghost function Do(k: Stack, call: Call): Stack
    requires Coupled(k) && LegalCall(k, call)
  {
    match call
    case Malloc(nbytes) => AfterMalloc(k, nbytes)
    case Free(m) => k.(h := R.Step(k.h, R.Release(m)))
  }

  lemma MallocStaysCoupled(k: Stack, nbytes: nat)
    requires Coupled(k) && LegalCall(k, Malloc(nbytes))
    ensures Coupled(AfterMalloc(k, nbytes)) && AfterMalloc(k, nbytes).s.base == k.s.base
  {
    hide HeapExact, SuppliedFor, First, Second, BreakAfter, Searched, Inv;
    var h, alloc := Started(k.h), nbytes + HEADER;
    StartedKeepsInv(k.h);
    SearchMovesBoth(h, k.s, alloc);
    var first, second := First(h, k.s, alloc).1, Second(h, k.s, alloc).1;
    R.AllocationKeepsGood(k.h, nbytes, first, second);
    MallocServes(k.h, alloc, first, second, false, Searched(h, alloc, first, second, false));
  }

  lemma CallStaysCoupled(k: Stack, call: Call)
    requires Coupled(k) && LegalCall(k, call)
    ensures Coupled(Do(k, call)) && Do(k, call).s.base == k.s.base
  {
    match call
    case Malloc(nbytes) => MallocStaysCoupled(k, nbytes);
    case Free(m) =>
      R.ReleaseKeepsGood(k.h, m);
      R.StepKeepsBottom(k.h, R.Release(m));
  }

  // ----- Runs

  ghost predicate LegalRun(k: Stack, calls: seq<Call>)
    decreases |calls|
  {
    calls == [] || (Coupled(k) && LegalCall(k, calls[0]) && LegalRun(Do(k, calls[0]), calls[1..]))
  }

  ghost function Run(k: Stack, calls: seq<Call>): Stack
    requires LegalRun(k, calls)
    decreases |calls|
  {
    if calls == [] then k else Run(Do(k, calls[0]), calls[1..])
  }

  lemma {:induction false} RunsStayCoupled(k: Stack, calls: seq<Call>)
    requires Coupled(k) && LegalRun(k, calls)
    ensures Coupled(Run(k, calls)) && Run(k, calls).s.base == k.s.base
    decreases |calls|
  {
    hide Coupled, LegalCall, Do;
    if calls != [] {
      CallStaysCoupled(k, calls[0]);
      RunsStayCoupled(Do(k, calls[0]), calls[1..]);
    }
  }

  /**
   After every run of `malloc` and `free` in which the requests to sbrk find their blocks, the free
   and the live blocks tile the memory below the break, and each of their bytes is mapped, in a page
   whose frame no other page shows.
   */
  lemma RunsAreBacked(k: Stack, calls: seq<Call>, a: nat, va: u32)
    requires Coupled(k) && LegalRun(k, calls)
    ensures var r := Run(k, calls);
      && Coupled(r) && r.h.brk == r.s.brk && r.h.lo == r.s.base == k.s.base
      && Tiling(Blocks(r.h), r.h.size, r.s.base, r.s.brk)
      && (a in Blocks(r.h) && a in r.h.size && a <= va < a + r.h.size[a] ==>
        Walk(r.s.m.space, va).Some? && Owned(r.s.m.space, va / FRAME_SIZE))
  {
    hide HeapUpTo;
    RunsStayCoupled(k, calls);
    var r := Run(k, calls);
    R.GoodTiling(r.h);
    if a in Blocks(r.h) && a in r.h.size && a <= va < a + r.h.size[a] { HeapIsMapped(r.s, va); }
  }

  /** Where the kernel starts: no block yet, and its first call of brk has put the break at the heap's base. */
  lemma KernelStarts(s: Break, base: nat)
    requires HeapExact(s) && s.brk == 0 && s.base / FRAME_SIZE < STACK_PAGE && Enough(s, s.base)
    requires 0 < base && base + HEADER <= s.base
    ensures ProgramBreak.Legal(s, s.base) && AfterBrk(s, s.base).1 == 0
    ensures Coupled(Stack(R.Fresh(base, s.base), AfterBrk(s, s.base).0))
  {
    hide HeapUpTo, Needed, AllocateNewBrk;
    BrkIsExactIff(s, s.base);
    var h := R.Fresh(base, s.base);
  }

  // ----- One call, whatever it asks for

  /** sbrk can be asked n times in a row, until it refuses, without getting into the page of the kernel stack. */
  ghost predicate Answerable(s: Break, alloc: nat, n: nat)
    requires Standing(s)
    decreases n
  {
    n > 0 ==>
      && ProgramBreak.Legal(s, Target(s, Request(alloc)))
      && (SbrkGrants(s, Request(alloc));
         var (t, p) := AfterSbrk(s, Request(alloc)); p != FAILED ==> Answerable(t, alloc, n - 1))
  }

  /** Its answers. */
  ghost function Answers(s: Break, alloc: nat, n: nat): seq<bool>
    requires Standing(s) && Answerable(s, alloc, n)
    decreases n
  {
    if n == 0 then []
    else
      SbrkGrants(s, Request(alloc));
      var (t, p) := AfterSbrk(s, Request(alloc));
      if p == FAILED then [false] else [true] + Answers(t, alloc, n - 1)
  }

  /** The new break comes back into the heap, and into the page of the old one: then sbrk grants it. */
  ghost predicate ComesBackInPage(h: Heap, alloc: nat) {
    ComesBack(h, alloc) && (h.brk + Request(alloc) - WRAP) / FRAME_SIZE == h.brk / FRAME_SIZE
  }

  /** What a caller would have to see to before the call. */
  ghost predicate Guarded(h: Heap, nbytes: nat) {
    nbytes + 2 * HEADER < WRAP && !(NoneFits(h, nbytes + HEADER) && ComesBackInPage(h, nbytes + HEADER))
  }

  /**
   On the kernel's own break a call of `malloc` keeps its promise if and only if neither sum wraps and
   the new break, if one is asked for, does not come back within the page of the old one. Requests
   that come back further down are refused.
   */
  lemma CallsKeepTheirPromiseIff(h: Heap, s: Break, nbytes: nat, n: nat)
    requires Inv(h) && Multiples(h) && nbytes % HEADER == 0 && nbytes < WRAP
    requires Standing(s) && Meets(h, s) && n >= 2 && Answerable(s, Allocation(nbytes), n)
    ensures W.CallKept(h, nbytes, Answers(s, Allocation(nbytes), n)) <==> Guarded(h, nbytes)
  {
    hide W.Loop, W.Kept, Inv, Standing, Answerable, Answers;
    var alloc, replies := Allocation(nbytes), Answers(s, Allocation(nbytes), n);
    FirstAnswers(h, s, alloc, n);
    if WRAP <= nbytes + HEADER {
      W.EmptySumIsBroken(h, nbytes, replies, 0);
    } else if WRAP <= nbytes + 2 * HEADER {
      W.HugeAsksThrice(h, nbytes, alloc, replies, 0);
    } else if NoneFits(h, alloc) && ComesBackInPage(h, alloc) {
      W.FirstComesBack(h, nbytes, alloc, replies, 0);
    } else {
      W.SaneIsKept(h, nbytes, replies, 0);
    }
  }

  /** The two answers that matter: both are grants for requests of 1024 bytes, and none is for a lower page. */
  lemma FirstAnswers(h: Heap, s: Break, alloc: nat, n: nat)
    requires Standing(s) && Meets(h, s) && n >= 2 && Answerable(s, alloc, n)
    ensures var replies := Answers(s, alloc, n);
      && (Request(alloc) == MIN_REQUEST ==>
        && Reply(replies) && Reply(Rest(replies)) && MIN_REQUEST <= h.lo && h.brk + 2 * MIN_REQUEST < WRAP)
      && (ComesBack(h, alloc) ==> (Reply(replies) <==> ComesBackInPage(h, alloc)))
      && (ComesBack(h.(brk := h.brk + Request(alloc)), alloc) && h.brk + Request(alloc) < WRAP ==>
        !(Reply(replies) && Reply(Rest(replies))))
  {
    hide AfterSbrk, ProgramBreak.Legal, Good, Target;
    var (t, p) := AfterSbrk(s, Request(alloc));
    OneAnswer(h, s, alloc);
    if p != FAILED { OneAnswer(h.(brk := t.brk), t, alloc); }
  }

  lemma OneAnswer(h: Heap, s: Break, alloc: nat)
    requires Standing(s) && Meets(h, s) && ProgramBreak.Legal(s, Target(s, Request(alloc)))
    ensures var (t, p) := AfterSbrk(s, Request(alloc));
      && FRAME_SIZE <= h.lo <= h.brk < FRAME_SIZE * STACK_PAGE
      && (p != FAILED ==> Standing(t) && t.brk == (h.brk + Request(alloc)) % WRAP && t.base == s.base && 0 < t.brk)
      && (Request(alloc) == MIN_REQUEST ==> p != FAILED)
      && (ComesBack(h, alloc) ==> (p != FAILED <==> ComesBackInPage(h, alloc)))
  {
    hide AfterSbrk, ProgramBreak.Legal, Good;
    SbrkGrants(s, Request(alloc));
  }

  /**
   After malloc(48), sbrk grants the 2^32 - 64 bytes that malloc(2^32 - 80) asks for, without a block,
   and the heap ends 64 bytes below where it ended, with a block of that many bytes behind its end.
   */
  lemma BreakComesBack(s: Break)
    requires Standing(s) && Meets(HeapMisfire.First(), s)
    ensures Request(0xffff_ffb8) == 0xffff_ffc0 && Answerable(s, 0xffff_ffb8, 1)
    ensures var (t, p) := AfterSbrk(s, 0xffff_ffc0); p == s.brk && t.m == s.m && t.brk == s.brk - 64
    ensures Inv(HeapMisfire.First()) && !W.CallKept(HeapMisfire.First(), 0xffff_ffb0, Answers(s, 0xffff_ffb8, 1))
  {
    hide AfterSbrk, Inv, W.CallKept;
    SbrkGrants(s, 0xffff_ffc0);
    W.WrappedBreakOverlaps(Answers(s, 0xffff_ffb8, 1));
  }
}
