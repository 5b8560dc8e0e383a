/** What `malloc` and `free` promise together, on top of the invariant of one `free`. */
module MallocProofs {
  import opened Options
  import opened Tilings
  import opened HeapModel
  import opened HeapProofs

  // ----- Coalescing

  lemma NotBetween(list: seq<nat>, i: nat, m: nat, a: nat)
    requires Ascending(list) && i < |list| && list[i] < m && (i + 1 < |list| ==> m < list[i + 1])
    ensures a in list ==> a <= list[i] || (i + 1 < |list| && list[i + 1] <= a)
  {
  }

  /** Of the free blocks only the two neighbours in the list can touch m. */
  lemma OnlyNeighboursTouch(h: Heap, m: nat, a: nat)
    requires Inv(h) && m in h.live && Freeable(h, m) && a in FreeSet(h)
    ensures var i := Slot(h.list, m);
      && (a + h.size[a] == m ==> i > 0 && a == h.list[i])
      && (m + h.size[m] == a ==> i + 1 < |h.list| && a == h.list[i + 1])
  {
    Neighbours(h, m);
    NotBetween(h.list, Slot(h.list, m), m, a);
    assert a in Blocks(h) && h.base < a;
  }

  lemma BlocksHaveBytes(h: Heap, m: nat)
    requires Inv(h) && m in Blocks(h)
    ensures m in h.size && h.size[m] > 0
  {
  }

  lemma ReleaseStaysCoalesced(h: Heap, m: nat, up: bool, down: bool)
    requires Inv(h) && Coalesced(h) && m in h.live && Freeable(h, m)
    requires var i := Slot(h.list, m);
      && (up <==> i + 1 < |h.list| && m + h.size[m] == h.list[i + 1])
      && (down <==> i > 0 && h.list[i] + h.size[h.list[i]] == m)
    ensures Coalesced(ReleaseWith(h, m, up, down))
  {
    hide Tiling, Ascending;
    Neighbours(h, m);
    BlocksHaveBytes(h, m);
    ReleasedSet(h, m, up, down);
    var i := Slot(h.list, m);
    forall a | a in FreeSet(h) ensures a + h.size[a] == m ==> down && a == h.list[i] { OnlyNeighboursTouch(h, m, a); }
    if m + h.size[m] in FreeSet(h) { OnlyNeighboursTouch(h, m, m + h.size[m]); }
    MergedStayApart(FreeSet(h), h.size, h.list[i], m, Next(h.list, i), up, down);
  }

  lemma BytewiseReleaseStaysCoalesced(h: Heap, m: nat)
    requires Inv(h) && Coalesced(h) && m in h.live
    ensures Freeable(h, m) && Inv(Release(h, m, false)) && Coalesced(Release(h, m, false))
  {
    BytewiseMergesAreExact(h, m);
    ReleaseKeepsTilingIff(h, m, false);
    ReleaseStaysCoalesced(h, m, MergesUp(h, m, false), MergesDown(h, m, false));
  }

  // ----- Serving a request

  lemma ServedSets(h: Heap, k: nat, alloc: nat)
    requires Inv(h) && 0 < k < |h.list| && HEADER <= alloc && Fits(h, alloc, k)
    ensures h.list[k] in FreeSet(h)
    ensures var s := Serve(h, k, alloc); var m := Served(h, k, alloc);
      && Ascending(s.list) && s.rover < |s.list| && s.list[0] == h.base && m != h.base
      && FreeSet(s) == FreeSet(h) - (if m == h.list[k] then {m} else {})
      && s.live == h.live + {m}
  {
    var a := h.list[k];
    assert h.list[0] < a;
    assert a in FreeSet(h) && a in Blocks(h);
    RemoveAtFacts(h.list, k);
    SameElements(RemoveAt(h.list, k), h.list, {a}, {});
    assert Elements(h.list) - {a} + {} - {h.base} == FreeSet(h) - {a};
  }

  lemma ServedWhole(h: Heap, k: nat, alloc: nat)
    requires Inv(h) && 0 < k < |h.list| && HEADER <= alloc && Fits(h, alloc, k) && h.size[h.list[k]] == alloc
    ensures Inv(Serve(h, k, alloc))
    ensures Blocks(Serve(h, k, alloc)) == Blocks(h)
  {
    ServedSets(h, k, alloc);
    var a := h.list[k];
    assert FreeSet(h) - {a} + (h.live + {a}) == FreeSet(h) + h.live;
    assert (FreeSet(h) - {a}) !! (h.live + {a});
  }

  lemma ServedPart(h: Heap, k: nat, alloc: nat)
    requires Inv(h) && 0 < k < |h.list| && HEADER <= alloc && Fits(h, alloc, k)
    requires HEADER + alloc <= h.size[h.list[k]]
    ensures Inv(Serve(h, k, alloc))
    ensures Served(h, k, alloc) !in Blocks(h)
    ensures Blocks(Serve(h, k, alloc)) == Blocks(h) + {Served(h, k, alloc)}
  {
    ServedSets(h, k, alloc);
    var m := Served(h, k, alloc);
    assert h.list[k] in Blocks(h);
    Split(Blocks(h), h.size, h.lo, h.brk, h.list[k], h.size[h.list[k]] - alloc);
    assert FreeSet(Serve(h, k, alloc)) == FreeSet(h);
    HandedOut(FreeSet(h), h.live, m);
  }

  /** Serving a request keeps the invariant exactly when no splinter shorter than a header is left. */
  lemma ServeKeepsTilingIff(h: Heap, k: nat, alloc: nat)
    requires Inv(h) && 0 < k < |h.list| && HEADER <= alloc && Fits(h, alloc, k)
    ensures var rest := h.size[h.list[k]] - alloc;
      Inv(Serve(h, k, alloc)) <==> rest == 0 || rest >= HEADER
  {
    var rest := h.size[h.list[k]] - alloc;
    if rest == 0 {
      ServedWhole(h, k, alloc);
    } else if rest >= HEADER {
      ServedPart(h, k, alloc);
    } else {
      ServedSets(h, k, alloc);
      assert h.list[k] in Blocks(Serve(h, k, alloc));
    }
  }

  lemma ServeStaysCoalesced(h: Heap, k: nat, alloc: nat)
    requires Inv(h) && Coalesced(h) && 0 < k < |h.list| && HEADER <= alloc && Fits(h, alloc, k)
    requires Inv(Serve(h, k, alloc))
    ensures Coalesced(Serve(h, k, alloc))
  {
    ServedSets(h, k, alloc);
    var s := Serve(h, k, alloc);
    forall a, b | a in FreeSet(s) && b in FreeSet(s) ensures a in s.size && a + s.size[a] != b {
      assert a in Blocks(h) && b in Blocks(h) && h.list[k] in Blocks(h);
    }
  }

  // ----- Growing the heap

  lemma ExtendedKeepsInv(h: Heap, bytes: nat)
    requires Inv(h) && HEADER <= bytes && h.brk + bytes < WRAP
    ensures h.brk !in Blocks(h) && h.base < h.brk
    ensures Inv(Extend(h, bytes))
    ensures FreeSet(Extend(h, bytes)) == FreeSet(h)
  {
    Append(Blocks(h), h.size, h.lo, h.brk, bytes);
    var e := Extend(h, bytes);
    assert Blocks(e) == Blocks(h) + {h.brk};
  }

  /** The new region goes behind every free block. */
  lemma TopSlot(h: Heap, bytes: nat)
    requires Inv(h) && Inv(Extend(h, bytes)) && h.brk !in Blocks(h) && Freeable(Extend(h, bytes), h.brk)
    ensures Slot(h.list, h.brk) == |h.list| - 1
  {
    var e := Extend(h, bytes);
    Neighbours(e, h.brk);
    SlotIsUnique(h.list, h.brk, |h.list| - 1);
    var last := h.list[|h.list| - 1];
    if |h.list| > 1 {
      assert h.list[0] < last;
      assert last in FreeSet(h) && last in Blocks(h);
    }
  }

  ghost predicate GrownFrom(h: Heap, g: Heap, bytes: nat) {
    && |h.list| > 0 && g.rover == |h.list| - 1
    && g.base == h.base && g.lo == h.lo && g.live == h.live && g.brk == h.brk + bytes
    && (forall a :: a in h.size && a != h.brk && a != h.list[|h.list| - 1] ==> a in g.size && g.size[a] == h.size[a])
    && var top := h.list[|h.list| - 1];
       && top in h.size && top in g.size
       && if g.list == h.list then
            g.size[top] == h.size[top] + bytes && top + h.size[top] == h.brk && |h.list| > 1
          else
            g.list == h.list + [h.brk] && h.brk in g.size && g.size[h.brk] == bytes && g.size[top] == h.size[top]
  }

  lemma GrowthShape(h: Heap, alloc: nat, scaled: bool)
    requires Inv(h) && h.brk + Request(alloc) < WRAP && SoundGrowth(h, alloc, scaled)
    ensures Freeable(Extend(h, Request(alloc)), h.brk)
    ensures Inv(Grow(h, alloc, scaled))
    ensures GrownFrom(h, Grow(h, alloc, scaled), Request(alloc))
  {
    hide Tiling;
    var bytes := Request(alloc);
    ExtendedKeepsInv(h, bytes);
    var e := Extend(h, bytes);
    ReleaseKeepsTilingIff(e, h.brk, scaled);
    TopSlot(h, bytes);
    Neighbours(e, h.brk);
    assert h.live + {h.brk} - {h.brk} == h.live;
  }

  /** With byte addresses every growth is sound and keeps the list coalesced. */
  lemma BytewiseGrowth(h: Heap, alloc: nat)
    requires Inv(h) && h.brk + Request(alloc) < WRAP
    ensures SoundGrowth(h, alloc, false)
    ensures Coalesced(h) ==> Inv(Grow(h, alloc, false)) && Coalesced(Grow(h, alloc, false))
  {
    var e := Extend(h, Request(alloc));
    ExtendedKeepsInv(h, Request(alloc));
    BytewiseMergesAreExact(e, h.brk);
    if Coalesced(h) {
      forall a, b | a in FreeSet(e) && b in FreeSet(e) ensures a + e.size[a] != b {
        assert a in Blocks(h) && b in Blocks(h);
      }
      BytewiseReleaseStaysCoalesced(e, h.brk);
    }
  }

  // ----- malloc as a whole

  /** Before the first call there is no list yet; afterwards the invariant holds. */
  ghost predicate Ready(h: Heap) {
    if h.list == [] then 0 < h.base && h.base + HEADER <= h.lo == h.brk < WRAP && h.live == {} else Inv(h)
  }

  lemma StartedKeepsInv(h: Heap)
    requires Ready(h)
    ensures Inv(Started(h)) && FreeSet(Started(h)) == FreeSet(h) && Blocks(Started(h)) == Blocks(h)
    ensures h.list == [] ==> Coalesced(Started(h))
  {
    if h.list == [] {
      assert Elements([h.base]) == {h.base};
      assert Elements(h.list) == {};
      assert FreeSet(Started(h)) == {};
    }
  }

  lemma FirstFitExists(h: Heap, alloc: nat, k: nat, left: nat)
    requires k < |h.list| && left <= |h.list|
    requires exists j :: 0 <= j < |h.list| && Steps(|h.list|, k, j) < left && Fits(h, alloc, j)
    ensures exists j :: FirstFit(h, alloc, k, j)
  {
    var j :| 0 <= j < |h.list| && Steps(|h.list|, k, j) < left && Fits(h, alloc, j);
    if exists i :: 0 <= i < |h.list| && Steps(|h.list|, k, i) < Steps(|h.list|, k, j) && Fits(h, alloc, i) {
      FirstFitExists(h, alloc, k, Steps(|h.list|, k, j));
    } else {
      assert FirstFit(h, alloc, k, j);
    }
  }

  lemma FirstFitIsUnique(h: Heap, alloc: nat, k: nat, i: nat, j: nat)
    requires k < |h.list| && FirstFit(h, alloc, k, i) && FirstFit(h, alloc, k, j)
    ensures i == j
  {
  }

  /** The header that a search from the rover finds. */
  ghost function Found(h: Heap, alloc: nat): (j: nat)
    requires Inv(h) && !NoneFits(h, alloc) && HEADER <= alloc
    ensures 0 < j < |h.list| && FirstFit(h, alloc, NextIndex(|h.list|, h.rover), j)
  {
    FirstFitExists(h, alloc, NextIndex(|h.list|, h.rover), |h.list|);
    var j :| FirstFit(h, alloc, NextIndex(|h.list|, h.rover), j);
    j
  }

  ghost predicate CanGrow(h: Heap, alloc: nat, scaled: bool) {
    Inv(h) && h.brk + Request(alloc) < WRAP && SoundGrowth(h, alloc, scaled)
  }

  /** A growth whose adjacency tests join only blocks that touch. */
  ghost function Grown(h: Heap, alloc: nat, scaled: bool): (g: Heap)
    requires CanGrow(h, alloc, scaled)
    ensures Inv(g) && GrownFrom(h, g, Request(alloc))
  {
    GrowthShape(h, alloc, scaled);
    Grow(h, alloc, scaled)
  }

  /** The same for the one or two growths that a search from h may make. */
  ghost predicate SafeGrowths(h: Heap, alloc: nat, second: bool, scaled: bool) {
    && CanGrow(h, alloc, scaled)
    && var g := Grown(h, alloc, scaled);
       |g.list| > |h.list| && Granted(g, alloc, second) ==> CanGrow(g, alloc, scaled)
  }

  ghost predicate SafeSearch(h: Heap, alloc: nat, first: bool, second: bool, scaled: bool) {
    && Inv(h) && Sane(alloc)
    && (NoneFits(h, alloc) && Granted(h, alloc, first) ==> SafeGrowths(h, alloc, second, scaled))
  }

  ghost predicate SafeCall(h0: Heap, alloc: nat, first: bool, second: bool, scaled: bool) {
    Ready(h0) && SafeSearch(Started(h0), alloc, first, second, scaled)
  }

  /**
   heap:  the heap when the search ends, with what sbrk has added
   at:    the position of the block that serves the request, or none
   asked: how many times sbrk was called
   */
  datatype Search = Search(heap: Heap, at: Option<nat>, asked: nat)

  /**
   How `malloc` looks for alloc bytes, header included, given whether sbrk grants a first and a
   second request.
   */
  ghost function Searched(h: Heap, alloc: nat, first: bool, second: bool, scaled: bool): Search
    requires SafeSearch(h, alloc, first, second, scaled)
  {
    if !NoneFits(h, alloc) then Search(h, Some(Found(h, alloc)), 0)
    else if !Granted(h, alloc, first) then Search(h, None, 1)
    else SearchedOn(h, alloc, second, scaled)
  }

  /**
   The search after a first growth. The new region is used at once only if it could be merged into
   a free block at the top of the heap; otherwise the search comes back to the rover before it
   reaches the new block and asks again.
   */
  ghost function SearchedOn(h: Heap, alloc: nat, second: bool, scaled: bool): Search
    requires SafeGrowths(h, alloc, second, scaled)
  {
    var g := Grown(h, alloc, scaled);
    if |g.list| == |h.list| then Search(g, Some(g.rover), 1)
    else if !Granted(g, alloc, second) then Search(g, None, 2)
    else var g2 := Grown(g, alloc, scaled); Search(g2, Some(g2.rover), 2)
  }

  /** After a growth the block at the rover is large enough, unless the new region is a block of its own. */
  lemma GrowthServes(h: Heap, g: Heap, alloc: nat)
    requires Inv(g) && GrownFrom(h, g, Request(alloc)) && Sane(alloc)
    requires |g.list| == |h.list|
      || (|h.list| > 1 && h.list[|h.list| - 1] in h.size && Request(alloc) <= h.size[h.list[|h.list| - 1]])
    ensures 0 < g.rover < |g.list| && Fits(g, alloc, g.rover) && alloc + HEADER <= g.size[g.list[g.rover]]
  {
  }

  lemma SearchOnEndsWell(h: Heap, alloc: nat, second: bool, scaled: bool)
    requires SafeGrowths(h, alloc, second, scaled) && Sane(alloc)
    ensures EndsWell(h, SearchedOn(h, alloc, second, scaled), alloc)
  {
    var g := Grown(h, alloc, scaled);
    if |g.list| == |h.list| {
      GrowthServes(h, g, alloc);
    } else if Granted(g, alloc, second) {
      GrowthServes(g, Grown(g, alloc, scaled), alloc);
    }
  }

  ghost predicate EndsWell(h0: Heap, s: Search, alloc: nat) {
    && Inv(s.heap)
    && s.heap.live == h0.live && s.heap.lo == h0.lo && h0.brk <= s.heap.brk
    && (s.at.Some? ==> 0 < s.at.value < |s.heap.list| && Fits(s.heap, alloc, s.at.value))
    && (s.at.Some? && s.asked > 0 ==> alloc + HEADER <= s.heap.size[s.heap.list[s.at.value]])
  }

  lemma SearchEndsWell(h: Heap, alloc: nat, first: bool, second: bool, scaled: bool)
    requires SafeSearch(h, alloc, first, second, scaled)
    ensures EndsWell(h, Searched(h, alloc, first, second, scaled), alloc)
  {
    if NoneFits(h, alloc) && Granted(h, alloc, first) { SearchOnEndsWell(h, alloc, second, scaled); }
  }

  /** Whatever happens to the free list, the sizes of the live blocks stay as they are. */
  lemma SearchKeepsLiveSizes(h: Heap, alloc: nat, first: bool, second: bool, scaled: bool, a: nat)
    requires SafeSearch(h, alloc, first, second, scaled) && a in h.live
    ensures a in Searched(h, alloc, first, second, scaled).heap.size && a in h.size
    ensures Searched(h, alloc, first, second, scaled).heap.size[a] == h.size[a]
  {
    assert a in Blocks(h);
    if NoneFits(h, alloc) && Granted(h, alloc, first) {
      LiveIsNeither(h, a);
      LiveIsNeither(Grown(h, alloc, scaled), a);
    }
  }

  lemma LiveIsNeither(h: Heap, a: nat)
    requires Inv(h) && a in h.live
    ensures a != h.brk && a != h.list[|h.list| - 1]
  {
    assert a in Blocks(h);
    assert h.list[|h.list| - 1] in Elements(h.list);
  }

  /** The heap after the call and the header handed out, or none when the call returns NULL. */
  datatype Outcome = Outcome(heap: Heap, block: Option<nat>)

  ghost function Malloc(h0: Heap, alloc: nat, first: bool, second: bool, scaled: bool): Outcome
    requires SafeCall(h0, alloc, first, second, scaled)
  {
    var h := Started(h0);
    SearchEndsWell(h, alloc, first, second, scaled);
    match Searched(h, alloc, first, second, scaled)
    case Search(g, Some(k), _) => Outcome(Serve(g, k, alloc), Some(Served(g, k, alloc)))
    case Search(g, None, _) => Outcome(g, None)
  }

  lemma MallocServes(h0: Heap, alloc: nat, first: bool, second: bool, scaled: bool, s: Search)
    requires SafeCall(h0, alloc, first, second, scaled)
    requires s == Searched(Started(h0), alloc, first, second, scaled)
    ensures s.at.None? ==> Malloc(h0, alloc, first, second, scaled) == Outcome(s.heap, None)
    ensures s.at.Some? ==> 0 < s.at.value < |s.heap.list| && Fits(s.heap, alloc, s.at.value)
    ensures s.at.Some? ==>
      Malloc(h0, alloc, first, second, scaled) ==
      Outcome(Serve(s.heap, s.at.value, alloc), Some(Served(s.heap, s.at.value, alloc)))
  {
    SearchEndsWell(Started(h0), alloc, first, second, scaled);
  }

  lemma NextIsFree(h: Heap, k: nat)
    requires Inv(h) && k < |h.list|
    ensures k > 0 ==> h.list[k] in FreeSet(h)
    ensures k + 1 < |h.list| ==> h.list[k + 1] in FreeSet(h)
  {
    assert k > 0 ==> h.list[k] in Elements(h.list) && h.list[0] < h.list[k];
    assert k + 1 < |h.list| ==> h.list[k + 1] in Elements(h.list) && h.list[0] < h.list[k + 1];
  }

  // ----- What malloc promises

  /** The block with the highest address is free, so that a region from sbrk is merged into it. */
  ghost predicate TopIsFree(h: Heap) {
    |h.list| > 1 && h.list[|h.list| - 1] in h.size && h.list[|h.list| - 1] + h.size[h.list[|h.list| - 1]] == h.brk
  }

  /** No request to sbrk that the search may make brings the break back into the heap. */
  ghost predicate Clear(h: Heap, alloc: nat) {
    NoneFits(h, alloc) ==>
      && !ComesBack(h, alloc)
      && (h.brk + Request(alloc) < WRAP && !TopIsFree(h) ==> !ComesBack(h.(brk := h.brk + Request(alloc)), alloc))
  }

  /** The same for given answers: no request that is granted does. */
  ghost predicate ClearWith(h: Heap, alloc: nat, first: bool, second: bool) {
    NoneFits(h, alloc) && first ==>
      && !ComesBack(h, alloc)
      && (second && h.brk + Request(alloc) < WRAP && !TopIsFree(h) ==>
        !ComesBack(h.(brk := h.brk + Request(alloc)), alloc))
  }

  lemma GrantedFits(h: Heap, alloc: nat, reply: bool)
    requires h.brk < WRAP && Granted(h, alloc, reply) && !ComesBack(h, alloc)
    ensures h.brk + Request(alloc) < WRAP
  {
  }

  lemma BytewiseGrowthMergesIff(h: Heap, alloc: nat)
    requires CanGrow(h, alloc, false)
    ensures |Grown(h, alloc, false).list| == |h.list| <==> TopIsFree(h)
  {
    var e := Extend(h, Request(alloc));
    ExtendedKeepsInv(h, Request(alloc));
    BytewiseMergesAreExact(e, h.brk);
    GrowthShape(h, alloc, false);
    TopSlot(h, Request(alloc));
    if |h.list| > 1 {
      NextIsFree(h, |h.list| - 1);
      assert h.list[|h.list| - 1] in Blocks(h);
    }
  }

  lemma BytewiseSearchIsSafe(h: Heap, alloc: nat, first: bool, second: bool)
    requires Inv(h) && Sane(alloc) && ClearWith(h, alloc, first, second)
    ensures SafeSearch(h, alloc, first, second, false)
  {
    if NoneFits(h, alloc) && Granted(h, alloc, first) {
      GrantedFits(h, alloc, first);
      BytewiseGrowth(h, alloc);
      BytewiseGrowthMergesIff(h, alloc);
      var g := Grown(h, alloc, false);
      if |g.list| > |h.list| && Granted(g, alloc, second) {
        GrantedFits(g, alloc, second);
        BytewiseGrowth(g, alloc);
      }
    }
  }

  lemma BytewiseCallsAreSafe(h0: Heap, alloc: nat, first: bool, second: bool)
    requires Ready(h0) && Sane(alloc) && Clear(Started(h0), alloc)
    ensures SafeCall(h0, alloc, first, second, false)
  {
    StartedKeepsInv(h0);
    BytewiseSearchIsSafe(Started(h0), alloc, first, second);
  }

  /** With the heap in the upper half of the address space no request below two gigabytes comes back. */
  lemma HighHeapsAreClear(h: Heap, alloc: nat)
    requires h.brk < WRAP && WRAP / 2 <= h.lo && alloc + HEADER <= WRAP / 2
    ensures Clear(h, alloc)
  {
  }

  /** The block that serves the request is used up or leaves room for a header. */
  ghost predicate LeavesNoSplinter(h0: Heap, alloc: nat)
    requires Ready(h0) && HEADER <= alloc
  {
    StartedKeepsInv(h0);
    var h := Started(h0);
    !NoneFits(h, alloc) ==> var rest := h.size[h.list[Found(h, alloc)]] - alloc; rest == 0 || rest >= HEADER
  }

  /** One `malloc` keeps the invariant exactly when it leaves no splinter; regions fresh from sbrk never do. */
  lemma MallocKeepsTilingIff(h0: Heap, alloc: nat, first: bool, second: bool, scaled: bool)
    requires SafeCall(h0, alloc, first, second, scaled)
    ensures Inv(Malloc(h0, alloc, first, second, scaled).heap) <==> LeavesNoSplinter(h0, alloc)
  {
    var h := Started(h0);
    SearchEndsWell(h, alloc, first, second, scaled);
    var s := Searched(h, alloc, first, second, scaled);
    if s.at.Some? { ServeKeepsTilingIff(s.heap, s.at.value, alloc); }
  }

  lemma ServeHandsOutNewBlock(h: Heap, k: nat, alloc: nat)
    requires Inv(h) && 0 < k < |h.list| && HEADER <= alloc && Fits(h, alloc, k) && Inv(Serve(h, k, alloc))
    ensures var s := Serve(h, k, alloc); var m := Served(h, k, alloc);
      && m !in h.live && s.live == h.live + {m} && s.size[m] == alloc
      && (forall a :: a in h.live ==> a in h.size && s.size[a] == h.size[a])
  {
    ServeKeepsTilingIff(h, k, alloc);
    ServedSets(h, k, alloc);
    if h.size[h.list[k]] > alloc { ServedPart(h, k, alloc); }
    forall a | a in h.live ensures a in h.size && Serve(h, k, alloc).size[a] == h.size[a] {
      assert a in Blocks(h);
    }
  }

  /** A block handed out is new, has the requested size, and the other live blocks are as before. */
  lemma MallocHandsOutNewBlock(h0: Heap, alloc: nat, first: bool, second: bool, scaled: bool)
    requires SafeCall(h0, alloc, first, second, scaled) && LeavesNoSplinter(h0, alloc)
    ensures var o := Malloc(h0, alloc, first, second, scaled);
      && Inv(o.heap)
      && (o.block == None ==> o.heap.live == h0.live)
      && (o.block.Some? ==>
        && o.block.value !in h0.live
        && o.heap.live == h0.live + {o.block.value}
        && o.heap.size[o.block.value] == alloc)
      && (forall a :: a in h0.live ==> a in h0.size && a in o.heap.size && o.heap.size[a] == h0.size[a])
  {
    var h := Started(h0);
    MallocKeepsTilingIff(h0, alloc, first, second, scaled);
    SearchEndsWell(h, alloc, first, second, scaled);
    var s := Searched(h, alloc, first, second, scaled);
    if s.at.Some? { ServeHandsOutNewBlock(s.heap, s.at.value, alloc); }
    var o := Malloc(h0, alloc, first, second, scaled);
    forall a | a in h0.live ensures a in h0.size && a in o.heap.size && o.heap.size[a] == h0.size[a] {
      SearchKeepsLiveSizes(h, alloc, first, second, scaled, a);
    }
  }

  /** `malloc` asks sbrk at most twice, and returns NULL only if sbrk refused; the live blocks are then as before. */
  lemma NullMeansRefused(h0: Heap, alloc: nat, first: bool, second: bool, scaled: bool)
    requires SafeCall(h0, alloc, first, second, scaled)
    ensures var s := Searched(Started(h0), alloc, first, second, scaled);
      var o := Malloc(h0, alloc, first, second, scaled);
      && s.asked <= 2
      && (o.block == None ==> s.asked > 0 && o.heap.live == h0.live)
      && (o.block == None && s.asked == 1 ==> !Granted(h0, alloc, first) && Blocks(o.heap) == Blocks(h0))
      && (o.block == None && s.asked == 2 ==> !Granted(o.heap, alloc, second) && o.heap.brk == h0.brk + Request(alloc))
  {
    hide SoundGrowth, Tiling;
    StartedKeepsInv(h0);
  }

  // ----- free after malloc

  /** The same blocks with the same sizes, and the same free list; the rover may differ. */
  ghost predicate SameFreeList(h: Heap, g: Heap)
    requires Inv(h)
  {
    && g.list == h.list && g.live == h.live && g.lo == h.lo && g.brk == h.brk
    && (forall a :: a in h.list || a in h.live ==> a in h.size && a in g.size && g.size[a] == h.size[a])
  }

  lemma PutBack(s: seq<nat>, k: nat)
    requires 0 < k < |s| && Ascending(s) && s[0] < s[k]
    ensures Ascending(RemoveAt(s, k)) && Slot(RemoveAt(s, k), s[k]) == k - 1
    ensures InsertAt(RemoveAt(s, k), k, s[k]) == s
  {
    RemoveAtFacts(s, k);
    SlotIsUnique(RemoveAt(s, k), s[k], k - 1);
  }

  lemma WholeComesBack(h: Heap, k: nat, alloc: nat)
    requires Inv(h) && 0 < k < |h.list| && HEADER <= alloc && Fits(h, alloc, k) && h.size[h.list[k]] == alloc
    ensures var s := Serve(h, k, alloc);
      && Inv(s) && h.list[k] in s.live && Freeable(s, h.list[k]) && Slot(s.list, h.list[k]) == k - 1
      && (SameFreeList(h, ReleaseWith(s, h.list[k], false, false)))
  {
    ServedSets(h, k, alloc);
    ServedWhole(h, k, alloc);
    PutBack(h.list, k);
    var s := Serve(h, k, alloc);
    Neighbours(s, h.list[k]);
    ServeHandsOutNewBlock(h, k, alloc);
    assert h.list[k] !in h.live;
    forall a | a in h.list || a in h.live ensures a in h.size {
      assert a in Elements(h.list) || a in h.live;
      assert a == h.base || a in Blocks(h);
    }
  }

  lemma PartSlot(h: Heap, k: nat, m: nat)
    requires Inv(h) && 0 < k < |h.list| && h.list[k] in FreeSet(h) && h.list[k] < m < h.list[k] + h.size[h.list[k]]
    ensures m !in h.list && Slot(h.list, m) == k
  {
    var a := h.list[k];
    assert a in Blocks(h);
    assert m in h.list ==> m in Elements(h.list) && m in Blocks(h);
    if k + 1 < |h.list| { assert h.list[k + 1] in Elements(h.list) && h.list[k + 1] in Blocks(h); }
    SlotIsUnique(h.list, m, k);
  }

  lemma PartSplitOff(h: Heap, k: nat, alloc: nat)
    requires Inv(h) && 0 < k < |h.list| && HEADER <= alloc && Fits(h, alloc, k) && HEADER + alloc <= h.size[h.list[k]]
    ensures var s := Serve(h, k, alloc); var m := Served(h, k, alloc);
      && Inv(s) && m in s.live && Freeable(s, m) && s.list == h.list && Slot(s.list, m) == k
  {
    ServedSets(h, k, alloc);
    ServedPart(h, k, alloc);
    PartSlot(h, k, Served(h, k, alloc));
    Neighbours(Serve(h, k, alloc), Served(h, k, alloc));
  }

  lemma PartComesBack(h: Heap, k: nat, alloc: nat)
    requires Inv(h) && 0 < k < |h.list| && HEADER <= alloc && Fits(h, alloc, k) && HEADER + alloc <= h.size[h.list[k]]
    requires Freeable(Serve(h, k, alloc), Served(h, k, alloc))
    ensures SameFreeList(h, ReleaseWith(Serve(h, k, alloc), Served(h, k, alloc), false, true))
  {
    PartSplitOff(h, k, alloc);
    ServedPart(h, k, alloc);
    var m := Served(h, k, alloc);
    assert m !in FreeSet(h) && m !in h.live;
    assert h.live + {m} - {m} == h.live;
    assert h.list[k] in Elements(h.list) && h.list[k] in FreeSet(h);
    forall a | a in h.list || a in h.live ensures a in h.size && a != m {
      assert a in Elements(h.list) || a in h.live;
      assert a == h.base || a in Blocks(h);
    }
  }

  lemma WholeTouchesNothing(h: Heap, k: nat, alloc: nat)
    requires Inv(h) && Coalesced(h) && 0 < k < |h.list| && HEADER <= alloc && Fits(h, alloc, k)
    requires h.size[h.list[k]] == alloc
    requires var s := Serve(h, k, alloc);
      Inv(s) && h.list[k] in s.live && Freeable(s, h.list[k]) && Slot(s.list, h.list[k]) == k - 1
    ensures var s := Serve(h, k, alloc); !MergesUp(s, h.list[k], false) && !MergesDown(s, h.list[k], false)
  {
    var s := Serve(h, k, alloc);
    BytewiseMergesAreExact(s, h.list[k]);
    NextIsFree(h, k);
    NextIsFree(h, k - 1);
    assert k < |s.list| ==> s.list[k] == h.list[k + 1];
  }

  lemma PartTouchesRest(h: Heap, k: nat, alloc: nat)
    requires Inv(h) && Coalesced(h) && 0 < k < |h.list| && HEADER <= alloc && Fits(h, alloc, k)
    requires HEADER + alloc <= h.size[h.list[k]]
    ensures var s := Serve(h, k, alloc); var m := Served(h, k, alloc);
      Freeable(s, m) && !MergesUp(s, m, false) && MergesDown(s, m, false)
  {
    PartSplitOff(h, k, alloc);
    BytewiseMergesAreExact(Serve(h, k, alloc), Served(h, k, alloc));
    NextIsFree(h, k);
  }

  /**
   With byte addresses, `free` right after a `malloc` that was served from the free list gives back
   exactly the free list there was before.
   */
  lemma FreeUndoesMalloc(h: Heap, k: nat, alloc: nat)
    requires Inv(h) && Coalesced(h) && 0 < k < |h.list| && HEADER <= alloc && Fits(h, alloc, k)
    requires Inv(Serve(h, k, alloc))
    ensures var s := Serve(h, k, alloc); var m := Served(h, k, alloc);
      Freeable(s, m) && SameFreeList(h, Release(s, m, false))
  {
    ServeKeepsTilingIff(h, k, alloc);
    if h.size[h.list[k]] == alloc {
      WholeComesBack(h, k, alloc);
      WholeTouchesNothing(h, k, alloc);
      assert Served(h, k, alloc) == h.list[k];
    } else {
      PartTouchesRest(h, k, alloc);
      PartComesBack(h, k, alloc);
    }
  }

  /** The same for a whole call that something in the list fits. */
  lemma FreeUndoesMallocCall(h: Heap, alloc: nat, first: bool, second: bool)
    requires Inv(h) && Coalesced(h) && Sane(alloc) && !NoneFits(h, alloc) && LeavesNoSplinter(h, alloc)
    ensures SafeCall(h, alloc, first, second, false)
    ensures var o := Malloc(h, alloc, first, second, false);
      o.block.Some? && Freeable(o.heap, o.block.value) && SameFreeList(h, Release(o.heap, o.block.value, false))
  {
    hide Inv;
    StartedAlready(h);
    MallocServes(h, alloc, first, second, false, Searched(h, alloc, first, second, false));
    ServeKeepsTilingIff(h, Found(h, alloc), alloc);
    FreeUndoesMalloc(h, Found(h, alloc), alloc);
  }

  lemma StartedAlready(h: Heap)
    requires Inv(h)
    ensures Started(h) == h && Ready(h)
  {
  }

  /**
   As the file is written, the free list comes back exactly when the request used up a whole block and
   no merge is wrong: a block that was split is never put together again.
   */
  lemma ScaledFreeUndoesMallocIff(h: Heap, k: nat, alloc: nat)
    requires Inv(h) && 0 < k < |h.list| && HEADER <= alloc && Fits(h, alloc, k)
    requires Inv(Serve(h, k, alloc))
    ensures var s := Serve(h, k, alloc); var m := Served(h, k, alloc);
      && Freeable(s, m)
      && (SameFreeList(h, Release(s, m, true)) <==> h.size[h.list[k]] == alloc && SoundRelease(s, m, true))
  {
    hide Tiling;
    var s, m := Serve(h, k, alloc), Served(h, k, alloc);
    ServeKeepsTilingIff(h, k, alloc);
    ServeHandsOutNewBlock(h, k, alloc);
    ReleaseKeepsTilingIff(s, m, true);
    if SoundRelease(s, m, true) {
      ScaledMergesAreWrong(s, m);
      if h.size[h.list[k]] == alloc {
        WholeComesBack(h, k, alloc);
        if MergesUp(s, m, true) { ReleasedAlone(s, m); }
      } else {
        PartSplitOff(h, k, alloc);
      }
    } else if SameFreeList(h, Release(s, m, true)) {
      SameListIsInOrder(h, Release(s, m, true));
    }
  }

  lemma SameListIsInOrder(h: Heap, g: Heap)
    requires Inv(h) && SameFreeList(h, g) && g.base == h.base && g.rover < |g.list|
    ensures Inv(g)
  {
    assert Blocks(g) == Blocks(h) && FreeSet(g) == FreeSet(h);
    forall a | a in Blocks(h) ensures Followed(Blocks(g), g.size, g.brk, a) {
      assert a in h.list || a in h.live;
      assert Followed(Blocks(h), h.size, h.brk, a);
    }
    assert Packed(Blocks(h), h.size, h.lo, h.brk);
    assert forall a :: a in Blocks(h) ==> a in h.list || a in h.live;
  }

  /** A merge with `_base` itself, when it is alone in the ring, changes nothing. */
  lemma ReleasedAlone(h: Heap, m: nat)
    requires Linked(h) && Freeable(h, m) && |h.list| == 1
    ensures ReleaseWith(h, m, true, false) == ReleaseWith(h, m, false, false)
  {
    ReleasedSizes(h, m, true, false);
    ReleasedSizes(h, m, false, false);
  }
}
