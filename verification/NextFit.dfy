/** Where `malloc` and `free` leave `_next_free`, and so where the next search of `malloc` begins. */
module NextFit {
  import opened Options
  import opened Tilings
  import opened HeapModel
  import opened HeapProofs
  import opened MallocProofs
  import opened HeapMisfire

  /** The header at which the next search of `free`, and behind which the next search of `malloc`, begins. */
  function NextFree(h: Heap): nat
    requires h.rover < |h.list|
  {
    h.list[h.rover]
  }

  // ----- After one call

  /**
   A request is cut off the upper end of the block where the search ends, or takes that block out of
   the list, and `_next_free` is then the header before that block in the list that was searched.
   */
  lemma MallocLeavesOff(h0: Heap, alloc: nat, first: bool, second: bool, scaled: bool)
    requires SafeCall(h0, alloc, first, second, scaled)
    ensures var s := Searched(Started(h0), alloc, first, second, scaled);
      var o := Malloc(h0, alloc, first, second, scaled);
      && (o.block.Some? <==> s.at.Some?)
      && (s.at.Some? ==> CutFrom(s.heap, s.at.value, alloc, o))
  {
    hide Searched, Serve, Served, Inv, SafeGrowths, CutFrom;
    var s := Searched(Started(h0), alloc, first, second, scaled);
    MallocServes(h0, alloc, first, second, scaled, s);
    if s.at.Some? { CutOff(s.heap, s.at.value, alloc); }
  }

  lemma CutOff(g: Heap, j: nat, alloc: nat)
    requires 0 < j < |g.list| && Fits(g, alloc, j)
    ensures CutFrom(g, j, alloc, Outcome(Serve(g, j, alloc), Some(Served(g, j, alloc))))
  {
  }

  ghost predicate CutFrom(g: Heap, j: nat, alloc: nat, o: Outcome) {
    && 0 < j < |g.list| && g.list[j] in g.size && o.block.Some? && o.heap.rover < |o.heap.list|
    && NextFree(o.heap) == g.list[j - 1]
    && var rest := g.size[g.list[j]] - alloc;
       && o.block.value == g.list[j] + rest
       && if rest == 0 then
            o.heap.list == g.list[..j] + g.list[j + 1..]
          else
            && o.heap.list == g.list && g.list[j] in o.heap.size && o.heap.size[g.list[j]] == rest
            && o.block.value in o.heap.size && o.heap.size[o.block.value] == alloc
  }

  /** After `free`, whatever it merges, `_next_free` is the header of the list that lies next below the block. */
  lemma FreeLeavesOff(h: Heap, m: nat, scaled: bool)
    requires Inv(h) && m in h.live
    ensures Freeable(h, m)
    ensures var r := Release(h, m, scaled); r.rover < |r.list| && NextBelow(h.list, m, NextFree(r))
  {
    hide Tiling, Reach, MergedSizes, Slot, Spliced;
    Neighbours(h, m);
    var i, joined := Slot(h.list, m), MergesUp(h, m, scaled) && |h.list| > 1;
    SlotIsUnique(h.list, m, i);
    KeptHead(h.list, i, m, joined, MergesDown(h, m, scaled));
    assert forall k :: 0 <= k < |h.list| && h.list[k] < m ==> k <= i;
  }

  ghost predicate NextBelow(list: seq<nat>, m: nat, a: nat) {
    a in list && a < m && forall b :: b in list && b < m ==> b <= a
  }

  lemma KeptHead(list: seq<nat>, i: nat, m: nat, joined: bool, down: bool)
    requires i < |list| && (joined ==> |list| > 1)
    ensures var (r, k) := (Spliced(list, i, m, joined, down), Kept(|list|, i, joined)); k < |r| && r[k] == list[i]
  {
  }

  // ----- Over two calls

  /**
   The search goes round once: the block it ends at is the lowest that fits of those above a, and only
   if none of these fits the lowest of all.
   */
  ghost predicate GoesRound(h: Heap, alloc: nat, a: nat, k: nat) {
    && 0 < k < |h.list| && Fits(h, alloc, k)
    && forall i :: 0 <= i < |h.list| && Fits(h, alloc, i) ==>
      if h.list[k] > a then h.list[i] <= a || h.list[k] <= h.list[i] else h.list[k] <= h.list[i] <= a
  }

  lemma FoundGoesRound(h: Heap, alloc: nat)
    requires Inv(h) && HEADER <= alloc && !NoneFits(h, alloc)
    ensures GoesRound(h, alloc, NextFree(h), Found(h, alloc))
  {
    var n, k, j := |h.list|, NextIndex(|h.list|, h.rover), Found(h, alloc);
    forall i | 0 <= i < n && Fits(h, alloc, i)
      ensures if h.list[j] > NextFree(h) then h.list[i] <= NextFree(h) || h.list[j] <= h.list[i]
        else h.list[j] <= h.list[i] <= NextFree(h)
    {
      assert Steps(n, k, j) <= Steps(n, k, i);
      assert i < j ==> h.list[i] < h.list[j];
      assert j < i ==> h.list[j] < h.list[i];
      assert i > h.rover ==> NextFree(h) < h.list[i];
      assert i < h.rover ==> h.list[i] < NextFree(h);
      assert j > h.rover ==> NextFree(h) < h.list[j];
      assert j < h.rover ==> h.list[j] < NextFree(h);
    }
  }

  /**
   The next fit: a call that is served without sbrk goes on above the header before the block that
   served the call before it.
   */
  lemma SecondCallGoesOn(h0: Heap, alloc: nat, first: bool, second: bool, scaled: bool, alloc': nat,
      first': bool, second': bool)
    requires SafeCall(h0, alloc, first, second, scaled) && LeavesNoSplinter(h0, alloc)
    requires var o := Malloc(h0, alloc, first, second, scaled);
      o.block.Some? && Sane(alloc') && !NoneFits(o.heap, alloc')
    ensures var s := Searched(Started(h0), alloc, first, second, scaled);
      var g := Malloc(h0, alloc, first, second, scaled).heap;
      && s.at.Some? && 0 < s.at.value < |s.heap.list|
      && SafeCall(g, alloc', first', second', scaled)
      && exists k: nat ::
           && GoesRound(g, alloc', s.heap.list[s.at.value - 1], k)
           && Malloc(g, alloc', first', second', scaled).block == Some(g.list[k] + (g.size[g.list[k]] - alloc'))
  {
    hide Searched, Inv, SafeGrowths, Malloc, GoesRound;
    MallocLeavesOff(h0, alloc, first, second, scaled);
    MallocKeepsTilingIff(h0, alloc, first, second, scaled);
    var g := Malloc(h0, alloc, first, second, scaled).heap;
    ServedWithoutSbrk(g, alloc', first', second', scaled);
    FoundGoesRound(g, alloc');
  }

  lemma ServedWithoutSbrk(h: Heap, alloc: nat, first: bool, second: bool, scaled: bool)
    requires Inv(h) && Sane(alloc) && !NoneFits(h, alloc)
    ensures SafeCall(h, alloc, first, second, scaled) && h.rover < |h.list|
    ensures var k := Found(h, alloc);
      && h.list[k] in h.size
      && Malloc(h, alloc, first, second, scaled).block == Some(h.list[k] + (h.size[h.list[k]] - alloc))
  {
    StartedAlready(h);
    MallocLeavesOff(h, alloc, first, second, scaled);
  }

  // ----- An input

  /** After malloc(48) and malloc(1000): 16 bytes are left of the second region. */
  ghost function Third(): Heap {
    Heap(BASE, LO, LO + 2048, [BASE, LO, LO + 1024],
         map[BASE := 0, LO := 968, LO + 1024 := 16, LO + 968 := 56, LO + 1040 := 1008], {LO + 968, LO + 1040}, 1)
  }

  ghost function Fourth(): Heap {
    Heap(BASE, LO, LO + 2048, [BASE, LO],
         map[BASE := 0, LO := 968, LO + 1024 := 16, LO + 968 := 56, LO + 1040 := 1008],
         {LO + 968, LO + 1040, LO + 1024}, 1)
  }

  ghost predicate Gives(h: Heap, alloc: nat, o: Outcome) {
    SafeCall(h, alloc, true, true, true) && Malloc(h, alloc, true, true, true) == o
  }

  /**
   Then malloc(8) takes these 16 bytes, although the first block is large enough as well: the search goes
   on where it has been.
   */
  lemma ThirdCallGoesOn(h: Heap, g: Heap, f: Heap)
    requires h == First() && g == Third() && f == Fourth()
    ensures Fits(g, 8 + HEADER, 1) && Fits(g, 8 + HEADER, 2)
    ensures Gives(h, 1000 + HEADER, Outcome(g, Some(LO + 1040)))
    ensures Gives(g, 8 + HEADER, Outcome(f, Some(LO + 1024)))
  {
    hide Inv, Gives, Serve;
    InOrder();
    ThirdCut(h, g);
    FourthCut(g);
    ServedAtTwo(h, 1000 + HEADER);
    ServedAtTwo(g, 8 + HEADER);
  }

  lemma ThirdCut(h: Heap, g: Heap)
    requires h == First() && g == Third() && Inv(h)
    ensures Fits(h, 1008, 2) && Serve(h, 2, 1008) == g && Served(h, 2, 1008) == LO + 1040 && Inv(g)
    ensures FirstFit(h, 1008, NextIndex(|h.list|, h.rover), 2)
  {
    assert Serve(h, 2, 1008).size == g.size;
    ServeKeepsTilingIff(h, 2, 1008);
  }

  lemma FourthCut(g: Heap)
    requires g == Third()
    ensures Fits(g, 16, 1) && FirstFit(g, 16, NextIndex(|g.list|, g.rover), 2)
    ensures Served(g, 2, 16) == LO + 1024 && Serve(g, 2, 16) == Fourth()
  {
  }

  lemma ServedAtTwo(h: Heap, alloc: nat)
    requires Inv(h) && Sane(alloc) && |h.list| > 2 && FirstFit(h, alloc, NextIndex(|h.list|, h.rover), 2)
    ensures Gives(h, alloc, Outcome(Serve(h, 2, alloc), Some(Served(h, 2, alloc))))
  {
    FoundIs(h, alloc, 2);
    StartedAlready(h);
    MallocServes(h, alloc, true, true, true, Search(h, Some(2), 0));
  }

  lemma FoundIs(h: Heap, alloc: nat, j: nat)
    requires Inv(h) && HEADER <= alloc && FirstFit(h, alloc, NextIndex(|h.list|, h.rover), j) && j > 0
    ensures !NoneFits(h, alloc) && Found(h, alloc) == j
  {
    FirstFitIsUnique(h, alloc, NextIndex(|h.list|, h.rover), j, Found(h, alloc));
  }
}
