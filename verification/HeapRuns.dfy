/** Whole runs of `malloc` and `free`. */
module HeapRuns {
  import opened Tilings
  import opened HeapModel
  import opened HeapProofs
  import opened MallocProofs

  /** One call: `malloc` with the answers sbrk would give, or `free` of the block with header m. */
  datatype Call = Allocate(nbytes: nat, first: bool, second: bool) | Release(m: nat)

  /**
   A call that a well-behaved program may make: it frees only live blocks, and asks for multiples of
   the header so small that no sum of 32 bits goes wrong.
   */
  ghost predicate Legal(h: Heap, call: Call) {
    match call
    case Allocate(nbytes, _, _) => nbytes % HEADER == 0 && nbytes + 2 * HEADER < WRAP
      && Clear(Started(h), nbytes + HEADER)
    case Release(m) => m in h.live
  }

  /** With byte addresses, the state of the heap between two calls. */
  ghost predicate Good(h: Heap) {
    Ready(h) && (h.list != [] ==> Coalesced(h)) && Multiples(h)
  }

  ghost function Step(h: Heap, call: Call): Heap
    requires Good(h) && Legal(h, call)
  {
    match call
    case Allocate(nbytes, first, second) =>
      BytewiseCallsAreSafe(h, nbytes + HEADER, first, second);
      Malloc(h, nbytes + HEADER, first, second, false).heap
    case Release(m) =>
      BytewiseMergesAreExact(h, m);
      HeapModel.Release(h, m, false)
  }

  // ----- Multiples of the header size

  lemma MergesKeepMultiples(blocks: set<nat>, size: map<nat, nat>, head: nat, m: nat, next: nat, up: bool, down: bool)
    requires m in size && (up ==> next in blocks) && (down ==> head in blocks) && m in blocks
    requires forall a :: a in blocks ==> a in size && size[a] % HEADER == 0
    ensures var size' := MergedSizes(size, head, m, next, up, down);
      forall a :: a in blocks ==> a in size' && size'[a] % HEADER == 0
  {
  }

  lemma ReleaseKeepsMultiples(h: Heap, m: nat, up: bool, down: bool)
    requires Inv(h) && Multiples(h) && m in h.live && Freeable(h, m) && SoundMerges(h, m, up, down)
    ensures Multiples(ReleaseWith(h, m, up, down))
  {
    Neighbours(h, m);
    ReleasedBlocks(h, m, up, down);
    ReleasedSizes(h, m, up, down);
    var i := Slot(h.list, m);
    MergesKeepMultiples(Blocks(h), h.size, h.list[i], m, Next(h.list, i), up && |h.list| > 1, down);
  }

  lemma CutKeepsMultiples(blocks: set<nat>, size: map<nat, nat>, a: nat, rest: nat)
    requires a in blocks && rest <= a + rest && rest % HEADER == 0
    requires forall b :: b in blocks ==> b in size && size[b] % HEADER == 0
    requires rest <= size[a]
    ensures var size' := size[a := rest][a + rest := size[a] - rest];
      forall b :: b in blocks + {a + rest} ==> b in size' && size'[b] % HEADER == 0
  {
  }

  lemma ServeKeepsMultiples(h: Heap, k: nat, alloc: nat)
    requires Inv(h) && Multiples(h) && 0 < k < |h.list| && HEADER <= alloc && alloc % HEADER == 0 && Fits(h, alloc, k)
    ensures Inv(Serve(h, k, alloc)) && Multiples(Serve(h, k, alloc))
  {
    hide Tiling;
    NextIsFree(h, k);
    assert h.list[k] in Blocks(h);
    ServeKeepsTilingIff(h, k, alloc);
    if h.size[h.list[k]] == alloc {
      ServedWhole(h, k, alloc);
    } else {
      ServedPart(h, k, alloc);
      CutKeepsMultiples(Blocks(h), h.size, h.list[k], h.size[h.list[k]] - alloc);
    }
  }

  lemma GrowthKeepsGood(h: Heap, alloc: nat)
    requires Inv(h) && Coalesced(h) && Multiples(h) && alloc % HEADER == 0 && CanGrow(h, alloc, false)
    ensures Coalesced(Grown(h, alloc, false)) && Multiples(Grown(h, alloc, false))
  {
    hide ReleaseWith;
    BytewiseGrowth(h, alloc);
    ExtendedKeepsInv(h, Request(alloc));
    var e := Extend(h, Request(alloc));
    assert Blocks(e) == Blocks(h) + {h.brk};
    BytewiseMergesAreExact(e, h.brk);
    ReleaseKeepsMultiples(e, h.brk, MergesUp(e, h.brk, false), MergesDown(e, h.brk, false));
  }

  // ----- Every step, every run

  lemma SearchKeepsGood(h: Heap, alloc: nat, first: bool, second: bool)
    requires Coalesced(h) && Multiples(h) && alloc % HEADER == 0
    requires SafeSearch(h, alloc, first, second, false)
    ensures var s := Searched(h, alloc, first, second, false); Coalesced(s.heap) && Multiples(s.heap)
  {
    if NoneFits(h, alloc) && Granted(h, alloc, first) {
      GrowthKeepsGood(h, alloc);
      var g := Grown(h, alloc, false);
      if |g.list| > |h.list| && Granted(g, alloc, second) { GrowthKeepsGood(g, alloc); }
    }
  }

  lemma AllocationKeepsGood(h: Heap, nbytes: nat, first: bool, second: bool)
    requires Good(h) && Legal(h, Allocate(nbytes, first, second))
    ensures Good(Step(h, Allocate(nbytes, first, second)))
  {
    hide Searched;
    var alloc := nbytes + HEADER;
    StartedKeepsInv(h);
    BytewiseCallsAreSafe(h, alloc, first, second);
    SearchKeepsGood(Started(h), alloc, first, second);
    SearchEndsWell(Started(h), alloc, first, second, false);
    var s := Searched(Started(h), alloc, first, second, false);
    MallocServes(h, alloc, first, second, false, s);
    if s.at.Some? {
      ServeKeepsMultiples(s.heap, s.at.value, alloc);
      ServeStaysCoalesced(s.heap, s.at.value, alloc);
    }
  }

  lemma ReleaseKeepsGood(h: Heap, m: nat)
    requires Good(h) && m in h.live
    ensures Good(Step(h, Release(m)))
  {
    assert Inv(h);
    BytewiseReleaseStaysCoalesced(h, m);
    BytewiseMergesAreExact(h, m);
    ReleaseKeepsMultiples(h, m, MergesUp(h, m, false), MergesDown(h, m, false));
  }

  ghost predicate LegalRun(h: Heap, calls: seq<Call>)
    requires Good(h)
    decreases |calls|
  {
    calls == [] || (Legal(h, calls[0]) && (StepKeepsGood(h, calls[0]); LegalRun(Step(h, calls[0]), calls[1..])))
  }

  lemma StepKeepsGood(h: Heap, call: Call)
    requires Good(h) && Legal(h, call)
    ensures Good(Step(h, call))
  {
    match call
    case Allocate(nbytes, first, second) => AllocationKeepsGood(h, nbytes, first, second);
    case Release(m) => ReleaseKeepsGood(h, m);
  }

  ghost function Run(h: Heap, calls: seq<Call>): Heap
    requires Good(h) && LegalRun(h, calls)
    decreases |calls|
  {
    if calls == [] then h else StepKeepsGood(h, calls[0]); Run(Step(h, calls[0]), calls[1..])
  }

  lemma StepKeepsBottom(h: Heap, call: Call)
    requires Good(h) && Legal(h, call)
    ensures Step(h, call).lo == h.lo
  {
    hide Searched;
    match call
    case Allocate(nbytes, first, second) =>
      BytewiseCallsAreSafe(h, nbytes + HEADER, first, second);
      var s := Searched(Started(h), nbytes + HEADER, first, second, false);
      SearchEndsWell(Started(h), nbytes + HEADER, first, second, false);
      MallocServes(h, nbytes + HEADER, first, second, false, s);
    case Release(m) =>
      BytewiseMergesAreExact(h, m);
  }

  lemma {:induction false} RunsKeepGood(h: Heap, calls: seq<Call>)
    requires Good(h) && LegalRun(h, calls)
    ensures Good(Run(h, calls)) && Run(h, calls).lo == h.lo
    decreases |calls|
  {
    if calls != [] {
      StepKeepsGood(h, calls[0]);
      StepKeepsBottom(h, calls[0]);
      RunsKeepGood(Step(h, calls[0]), calls[1..]);
    }
  }

  // ----- What a good heap looks like

  ghost predicate FromSbrk(h: Heap, x: nat) {
    h.lo <= x < h.brk
  }

  /** The byte at x belongs to the block at a: to its header or to the bytes behind it. */
  ghost predicate BelongsTo(h: Heap, x: nat, a: nat) {
    Covers(Blocks(h), h.size, a, x)
  }

  ghost predicate Owned(h: Heap, x: nat) {
    exists a :: BelongsTo(h, x, a)
  }

  lemma GoodTiling(h: Heap)
    requires Good(h)
    ensures Tiling(Blocks(h), h.size, h.lo, h.brk) && FreeSet(h) !! h.live
  {
    if h.list == [] { assert Blocks(h) == {}; }
  }

  /** The heap before the first call. */
  ghost function Fresh(base: nat, lo: nat): (h: Heap)
    requires 0 < base && base + HEADER <= lo < WRAP
    ensures Good(h)
  {
    var h := Heap(base, lo, lo, [], map[], {}, 0);
    assert Blocks(h) == {};
    h
  }

  /**
   After every run from the empty heap, every byte obtained from sbrk, and no other, belongs to
   exactly one block, each block is free or live but not both, and no two free blocks touch.
   */
  lemma RunsTileTheHeap(base: nat, lo: nat, calls: seq<Call>)
    requires 0 < base && base + HEADER <= lo < WRAP
    requires LegalRun(Fresh(base, lo), calls)
    ensures var r := Run(Fresh(base, lo), calls);
      && r.lo == lo
      && (forall x :: FromSbrk(r, x) <==> Owned(r, x))
      && (forall x, a, b :: BelongsTo(r, x, a) && BelongsTo(r, x, b) ==> a == b)
      && FreeSet(r) !! r.live
      && Apart(FreeSet(r), r.size)
  {
    var h := Fresh(base, lo);
    RunsKeepGood(h, calls);
    var r := Run(h, calls);
    GoodTiling(r);
    forall x: nat ensures FromSbrk(r, x) <==> Owned(r, x) { BytesOnce(r, x); }
    forall x, a, b | BelongsTo(r, x, a) && BelongsTo(r, x, b) ensures a == b { BytesOnce(r, x); }
  }

  lemma BytesOnce(h: Heap, x: nat)
    requires Tiling(Blocks(h), h.size, h.lo, h.brk)
    ensures FromSbrk(h, x) <==> Owned(h, x)
    ensures forall a, b :: BelongsTo(h, x, a) && BelongsTo(h, x, b) ==> a == b
  {
    EveryByteOnce(Blocks(h), h.size, h.lo, h.brk, x);
    assert forall a :: BelongsTo(h, x, a) <==> Covers(Blocks(h), h.size, a, x);
  }
}
