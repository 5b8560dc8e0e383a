/** Which headers `malloc` and `free` write: none that lies in a block which stays in use. */
module HeapFrame {
  import opened Tilings
  import opened HeapModel
  import opened HeapProofs
  import opened MallocProofs
  import opened HeapRuns

  /** Different blocks of one heap do not share a byte, and the static header lies below them all. */
  lemma BlocksApart(h: Heap, x: nat, a: nat)
    requires Inv(h) && a in h.live && x != a && (x == h.base || x in h.list || x in h.live || x >= h.brk)
    ensures a in h.size && (x + HEADER <= a || a + h.size[a] <= x)
  {
    assert a in Blocks(h);
    if x in h.list && x != h.base { assert x in Blocks(h); }
    if x in h.live { assert x in Blocks(h); }
  }

  lemma ListApart(h: Heap, a: nat)
    requires Inv(h) && a in h.live
    ensures a !in h.list && a != h.base && a < h.brk
  {
    Neighbours(h, a);
  }

  /**
   A block that is in use before and after a call keeps its size, and no header that the call may
   write shares a byte with it.
   */
  lemma StepSparesLiveBlocks(h: Heap, call: Call, x: nat, a: nat)
    requires Good(h) && Legal(h, call) && a in h.live && a in Step(h, call).live
    ensures a in h.size && a in Step(h, call).size && Step(h, call).size[a] == h.size[a]
    ensures MayWrite(h, Step(h, call), x) ==> x + HEADER <= a || a + h.size[a] <= x
  {
    var r := Step(h, call);
    assert Inv(h);
    StepKeepsGood(h, call);
    StepKeepsSizes(h, call, a);
    ListApart(h, a);
    if MayWrite(h, r, x) {
      if x in r.live && x !in h.live { BlocksApart(r, x, a); } else { BlocksApart(h, x, a); }
    }
  }

  lemma StepKeepsSizes(h: Heap, call: Call, a: nat)
    requires Good(h) && Legal(h, call) && a in h.live && a in Step(h, call).live
    ensures a in h.size && a in Step(h, call).size && Step(h, call).size[a] == h.size[a]
  {
    match call
    case Release(m) =>
      BytewiseMergesAreExact(h, m);
      ReleaseKeepsSizes(h, m, a);
    case Allocate(nbytes, first, second) =>
      AllocationKeepsSizes(h, nbytes, first, second, a);
  }

  lemma ReleaseKeepsSizes(h: Heap, m: nat, a: nat)
    requires Inv(h) && m in h.live && Freeable(h, m) && a in h.live && a != m
    ensures var r := HeapModel.Release(h, m, false); a in h.size && a in r.size && r.size[a] == h.size[a]
  {
    ListApart(h, a);
    assert a in Blocks(h);
    SlotIsUnique(h.list, m, 0);
    ReleasedSizes(h, m, MergesUp(h, m, false), MergesDown(h, m, false));
  }

  lemma AllocationKeepsSizes(h: Heap, nbytes: nat, first: bool, second: bool, a: nat)
    requires Good(h) && Legal(h, Allocate(nbytes, first, second)) && a in h.live
    ensures var r := Step(h, Allocate(nbytes, first, second)); a in h.size && a in r.size && r.size[a] == h.size[a]
  {
    hide Malloc, Searched, Tiling;
    AllocationKeepsGood(h, nbytes, first, second);
    BytewiseCallsAreSafe(h, nbytes + HEADER, first, second);
    MallocKeepsTilingIff(h, nbytes + HEADER, first, second, false);
    MallocHandsOutNewBlock(h, nbytes + HEADER, first, second, false);
  }
}
