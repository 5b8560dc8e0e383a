/** A run of the allocator as the file is written in which `free` merges a block that it does not touch. */
module HeapMisfire {
  import opened Options
  import opened Tilings
  import opened HeapModel
  import opened HeapProofs
  import opened MallocProofs

  const BASE: nat := 0xc010_1000
  const LO: nat := 0xc020_0000

  /** No call has been made yet. */
  ghost function Empty(): Heap { Heap(BASE, LO, LO, [], map[], {}, 0) }

  /** After the regions of the first call have come in. */
  ghost function OneRegion(): Heap {
    Heap(BASE, LO, LO + 1024, [BASE, LO], map[BASE := 0, LO := 1024], {}, 0)
  }

  ghost function TwoRegions(): Heap {
    Heap(BASE, LO, LO + 2048, [BASE, LO, LO + 1024], map[BASE := 0, LO := 1024, LO + 1024 := 1024], {}, 1)
  }

  /** After malloc(48). */
  ghost function First(): Heap {
    Heap(BASE, LO, LO + 2048, [BASE, LO, LO + 1024], map[BASE := 0, LO := 968, LO + 1024 := 1024, LO + 968 := 56],
      {LO + 968}, 0)
  }

  /** After malloc(0). */
  ghost function Second(): Heap {
    Heap(BASE, LO, LO + 2048, [BASE, LO, LO + 1024],
         map[BASE := 0, LO := 960, LO + 1024 := 1024, LO + 968 := 56, LO + 960 := 8], {LO + 968, LO + 960}, 0)
  }

  lemma StartedEmpty()
    ensures Ready(Empty()) && Inv(Started(Empty()))
    ensures Started(Empty()) == Heap(BASE, LO, LO, [BASE], map[BASE := 0], {}, 0)
  {
    StartedKeepsInv(Empty());
  }

  /** The ring of the static header alone, with the first region held as a live block. */
  ghost function FirstDonation(): Heap {
    Heap(BASE, LO, LO + 1024, [BASE], map[BASE := 0, LO := 1024], {LO}, 0)
  }

  ghost function SecondDonation(): Heap {
    Heap(BASE, LO, LO + 2048, [BASE, LO], map[BASE := 0, LO := 1024, LO + 1024 := 1024], {LO + 1024}, 0)
  }

  lemma Donations()
    ensures Request(56) == 1024
    ensures Extend(Heap(BASE, LO, LO, [BASE], map[BASE := 0], {}, 0), 1024) == FirstDonation()
    ensures Extend(OneRegion(), 1024) == SecondDonation()
  {
    assert {} + {LO} == {LO};
  }

  lemma FirstTests()
    ensures Freeable(FirstDonation(), LO) && Slot(FirstDonation().list, LO) == 0
    ensures !MergesUp(FirstDonation(), LO, true) && !MergesDown(FirstDonation(), LO, true)
    ensures ReleaseWith(FirstDonation(), LO, false, false) == OneRegion()
  {
    var r := ReleaseWith(FirstDonation(), LO, false, false);
    assert r.size == OneRegion().size;
    assert r.list == OneRegion().list;
    assert {LO} - {LO} == {};
  }

  lemma SecondTests()
    ensures Freeable(SecondDonation(), LO + 1024) && Slot(SecondDonation().list, LO + 1024) == 1
    ensures !MergesUp(SecondDonation(), LO + 1024, true) && !MergesDown(SecondDonation(), LO + 1024, true)
    ensures ReleaseWith(SecondDonation(), LO + 1024, false, false) == TwoRegions()
  {
    var r := ReleaseWith(SecondDonation(), LO + 1024, false, false);
    assert r.size == TwoRegions().size;
    assert r.list == TwoRegions().list;
    assert {LO + 1024} - {LO + 1024} == {};
  }

  lemma FirstGrowth()
    ensures CanGrow(Started(Empty()), 56, true) && Grown(Started(Empty()), 56, true) == OneRegion()
  {
    hide ReleaseWith, Extend, Request, MergesUp, MergesDown, Slot, GrownFrom;
    StartedEmpty();
    Donations();
    FirstTests();
  }

  lemma SecondGrowth()
    requires Inv(OneRegion())
    ensures CanGrow(OneRegion(), 56, true) && Grown(OneRegion(), 56, true) == TwoRegions()
  {
    hide ReleaseWith, Extend, Request, MergesUp, MergesDown, Slot, GrownFrom, Inv;
    Donations();
    SecondTests();
  }

  lemma Asked()
    ensures Granted(Heap(BASE, LO, LO, [BASE], map[BASE := 0], {}, 0), 56, true) && Granted(OneRegion(), 56, true)
  {
  }

  lemma FirstIsSafe(h: Heap)
    requires h == Started(Empty())
    ensures NoneFits(h, 56) && SafeSearch(h, 56, true, true, true)
    ensures CanGrow(h, 56, true) && Grown(h, 56, true) == OneRegion()
    ensures CanGrow(OneRegion(), 56, true) && Grown(OneRegion(), 56, true) == TwoRegions()
  {
    hide SoundGrowth, Extend;
    StartedEmpty();
    FirstGrowth();
    SecondGrowth();
    assert NoneFits(h, 56);
  }

  /** The search through two growths of which the first is not merged. */
  lemma SearchTwice(h: Heap, alloc: nat, g: Heap, g2: Heap)
    requires SafeSearch(h, alloc, true, true, true) && NoneFits(h, alloc) && Granted(h, alloc, true)
    requires Grown(h, alloc, true) == g && |g.list| > |h.list| && Granted(g, alloc, true) && Grown(g, alloc, true) == g2
    ensures Searched(h, alloc, true, true, true) == Search(g2, Some(g2.rover), 2)
  {
  }

  lemma FirstCut()
    ensures Fits(TwoRegions(), 56, 1) && Serve(TwoRegions(), 1, 56) == First()
  {
    assert Serve(TwoRegions(), 1, 56).size == First().size;
  }

  lemma Cuts()
    ensures Fits(TwoRegions(), 56, 1) && Serve(TwoRegions(), 1, 56) == First()
    ensures Served(TwoRegions(), 1, 56) == LO + 968
    ensures Fits(First(), 8, 1) && Serve(First(), 1, 8) == Second() && Served(First(), 1, 8) == LO + 960
  {
    FirstCut();
    assert Serve(First(), 1, 8).size == Second().size;
  }

  lemma Cutting(h: Heap, alloc: nat)
    requires Inv(h) && |h.list| > 1 && HEADER <= alloc && Fits(h, alloc, 1) && alloc + HEADER <= h.size[h.list[1]]
    ensures Inv(Serve(h, 1, alloc))
  {
    ServeKeepsTilingIff(h, 1, alloc);
  }

  lemma InOrder()
    ensures Inv(TwoRegions()) && Inv(First()) && Inv(Second())
  {
    FirstGrowth();
    SecondGrowth();
    Cuts();
    Cutting(TwoRegions(), 56);
    Cutting(First(), 8);
  }

  lemma FirstSafe()
    ensures SafeCall(Empty(), 48 + HEADER, true, true, true)
  {
    StartedEmpty();
    FirstIsSafe(Started(Empty()));
  }

  ghost function FirstCall(): Outcome {
    FirstSafe();
    Malloc(Empty(), 48 + HEADER, true, true, true)
  }

  lemma FirstCallGives()
    ensures FirstCall() == Outcome(First(), Some(LO + 968))
  {
    hide SafeGrowths, Searched, Grown, GrownFrom, Serve, Served, Inv, SoundGrowth, SafeCall;
    var h := Started(Empty());
    FirstSafe();
    FirstIsSafe(h);
    StartedEmpty();
    Asked();
    SearchTwice(h, 56, OneRegion(), TwoRegions());
    MallocServes(Empty(), 56, true, true, true, Search(TwoRegions(), Some(1), 2));
    Cuts();
  }

  lemma SecondSearch()
    ensures SafeSearch(Started(First()), 8, true, true, true)
    ensures Searched(Started(First()), 8, true, true, true) == Search(First(), Some(1), 0)
  {
    InOrder();
    Cuts();
    var h, alloc := First(), 8;
    assert Started(h) == h;
    assert FirstFit(h, alloc, 1, 1);
    FirstFitIsUnique(h, alloc, 1, 1, Found(h, alloc));
  }

  lemma SecondSafe()
    ensures SafeCall(First(), 0 + HEADER, true, true, true)
  {
    InOrder();
    Cuts();
  }

  ghost function SecondCall(): Outcome {
    SecondSafe();
    Malloc(First(), 0 + HEADER, true, true, true)
  }

  lemma SecondCallGives()
    ensures SecondCall() == Outcome(Second(), Some(LO + 960))
  {
    SecondSafe();
    SecondSearch();
    Cuts();
  }

  lemma TheTestFires()
    requires Inv(Second())
    ensures var m := LO + 960; var r := Release(Second(), m, true);
      && !Inv(r) && m in FreeSet(r) && r.live == {LO + 968} && m in r.size && r.size[m] == 8 + 1024
  {
    var m := LO + 960;
    assert Slot(Second().list, m) == 1;
    assert MergesUp(Second(), m, true) && !MergesDown(Second(), m, true);
    ReleaseKeepsTilingIff(Second(), m, true);
    assert m in Release(Second(), m, true).list;
    assert {LO + 968, LO + 960} - {m} == {LO + 968};
  }

  /**
   malloc(48), malloc(0), free of the second block: the scaled test finds 8 * 8 bytes behind that
   block the start of the second region, merges with it, and the free list overlaps the first block.
   */
  lemma FreeOverlapsLiveBlock()
    ensures FirstCall().heap == First() && FirstCall().block == Some(LO + 968)
    ensures SecondCall().heap == Second() && SecondCall().block == Some(LO + 960)
    ensures Inv(Second()) && Freeable(Second(), LO + 960)
    ensures var r := Release(Second(), LO + 960, true);
      !Inv(r) && LO + 960 in FreeSet(r) && LO + 968 in r.live && LO + 960 in r.size
        && LO + 960 + r.size[LO + 960] > LO + 968
  {
    FirstCallGives();
    SecondCallGives();
    InOrder();
    TheTestFires();
  }

  /** After malloc(48), malloc(955) splits a block of 968 bytes and leaves 5 of them, too few for a header. */
  lemma SplinterIsLeft()
    ensures Inv(First()) && SafeCall(First(), 955 + HEADER, true, true, true)
    ensures !LeavesNoSplinter(First(), 955 + HEADER) && !Inv(Malloc(First(), 955 + HEADER, true, true, true).heap)
  {
    var h, alloc := First(), 955 + HEADER;
    InOrder();
    assert Started(h) == h && Fits(h, alloc, 1);
    SplinterIsFound(h, alloc);
    MallocKeepsTilingIff(h, alloc, true, true, true);
  }

  lemma SplinterIsFound(h: Heap, alloc: nat)
    requires h == First() && Inv(h) && alloc == 955 + HEADER
    ensures !NoneFits(h, alloc) && Found(h, alloc) == 1
  {
    assert FirstFit(h, alloc, 1, 1);
    FirstFitIsUnique(h, alloc, 1, 1, Found(h, alloc));
  }
}
