module HeapProofs {
  import opened HeapModel
  import opened Tilings

  lemma RemoveAtFacts(s: seq<nat>, k: nat)
    requires Ascending(s) && k < |s|
    ensures Ascending(RemoveAt(s, k))
    ensures forall x :: x in RemoveAt(s, k) <==> x in s && x != s[k]
  {
    var r := RemoveAt(s, k);
    forall x | x in s && x != s[k] ensures x in r {
      var i :| 0 <= i < |s| && s[i] == x;
      assert r[if i < k then i else i - 1] == x;
    }
  }

  lemma InsertAtFacts(s: seq<nat>, k: nat, x: nat)
    requires Ascending(s) && k <= |s|
    requires k > 0 ==> s[k - 1] < x
    requires k < |s| ==> x < s[k]
    ensures Ascending(InsertAt(s, k, x))
    ensures forall y :: y in InsertAt(s, k, x) <==> y in s || y == x
  {
    var r := InsertAt(s, k, x);
    assert r[k] == x;
    forall y | y in s ensures y in r {
      var i :| 0 <= i < |s| && s[i] == y;
      assert r[if i < k then i else i + 1] == y;
    }
  }

  /** The ring without the successor of position i. */
  lemma JoinedFacts(s: seq<nat>, i: nat)
    requires i < |s| && |s| > 1 && Ascending(s)
    ensures var rest := RemoveAt(s, if i + 1 < |s| then i + 1 else 0); var at := Kept(|s|, i, true);
      && Ascending(rest)
      && at < |rest| && rest[at] == s[i]
      && (at + 1 < |rest| ==> i + 2 < |s| && rest[at + 1] == s[i + 2])
      && rest[0] == (if i + 1 == |s| then s[1] else s[0])
      && forall a :: a in rest <==> a in s && a != Next(s, i)
  {
    RemoveAtFacts(s, if i + 1 < |s| then i + 1 else 0);
  }

  lemma SplicedFacts(s: seq<nat>, i: nat, m: nat, joined: bool, down: bool)
    requires i < |s| && (joined ==> |s| > 1)
    requires Ascending(s) && s[i] < m && (i + 1 < |s| ==> m < s[i + 1])
    ensures var r := Spliced(s, i, m, joined, down); var at := Kept(|s|, i, joined);
      && Ascending(r)
      && at < |r| && r[at] == s[i]
      && r[0] == (if joined && i + 1 == |s| then s[1] else s[0])
      && forall a :: a in r <==> (a in s && !(joined && a == Next(s, i))) || (a == m && !down)
  {
    if joined { JoinedFacts(s, i); }
    if !down {
      var rest := if joined then RemoveAt(s, if i + 1 < |s| then i + 1 else 0) else s;
      InsertAtFacts(rest, Kept(|s|, i, joined) + 1, m);
    }
  }

  /** What the neighbours of m look like in a heap that satisfies the invariant. */
  lemma Neighbours(h: Heap, m: nat)
    requires Inv(h) && m in h.live
    ensures Freeable(h, m) && m in Blocks(h) && m !in h.list && h.base < m
    ensures var i := Slot(h.list, m);
      && h.list[i] < m
      && (i > 0 ==> h.list[i] in FreeSet(h) && h.list[i] + h.size[h.list[i]] <= m)
      && (i + 1 < |h.list| ==> h.list[i + 1] in FreeSet(h) && m + h.size[m] <= h.list[i + 1])
  {
    assert m in Blocks(h);
    forall a | a in h.list ensures a in h.size { assert a == h.base || a in Blocks(h); }
    assert m !in FreeSet(h) && m != h.base;
    SlotIsUnique(h.list, m, 0);
    var i := Slot(h.list, m);
    if i > 0 { assert h.list[0] < h.list[i]; assert h.list[i] in Blocks(h); }
    if i + 1 < |h.list| { assert h.list[0] < h.list[i + 1]; assert h.list[i + 1] in Blocks(h); }
  }

  lemma SameElements(r: seq<nat>, s: seq<nat>, n: set<nat>, m: set<nat>)
    requires forall a :: a in r <==> (a in s && a !in n) || a in m
    ensures Elements(r) == Elements(s) - n + m
  {
  }

  lemma SplicedElements(s: seq<nat>, i: nat, m: nat, joined: bool, down: bool)
    requires i < |s| && (joined ==> |s| > 1)
    requires Ascending(s) && s[i] < m && (i + 1 < |s| ==> m < s[i + 1])
    ensures Elements(Spliced(s, i, m, joined, down)) ==
      Elements(s) - (if joined then {Next(s, i)} else {}) + (if down then {} else {m})
  {
    SplicedFacts(s, i, m, joined, down);
    SameElements(Spliced(s, i, m, joined, down), s, if joined then {Next(s, i)} else {}, if down then {} else {m});
  }

  lemma WithoutBase(e: set<nat>, base: nat, n: set<nat>, m: set<nat>)
    requires base !in m
    ensures (e - n + m) - {base} == (e - {base}) - n + m
  {
  }

  lemma ReleasedList(h: Heap, m: nat, up: bool, down: bool)
    requires Linked(h) && Freeable(h, m) && m !in h.list && h.base < m
    ensures var r := ReleaseWith(h, m, up, down); var i := Slot(h.list, m);
      && Ascending(r.list) && r.rover < |r.list|
      && r.list[0] == (if up && i + 1 == |h.list| > 1 then h.list[1] else h.base)
  {
    SlotIsUnique(h.list, m, 0);
    SplicedFacts(h.list, Slot(h.list, m), m, up && |h.list| > 1, down);
  }

  lemma ReleasedSet(h: Heap, m: nat, up: bool, down: bool)
    requires Linked(h) && Freeable(h, m) && m !in h.list && h.base < m
    ensures FreeSet(ReleaseWith(h, m, up, down)) ==
      FreeSet(h) - (if up && |h.list| > 1 then {Next(h.list, Slot(h.list, m))} else {}) + (if down then {} else {m})
  {
    SlotIsUnique(h.list, m, 0);
    SplicedElements(h.list, Slot(h.list, m), m, up && |h.list| > 1, down);
    WithoutBase(
      Elements(h.list), h.base,
      if up && |h.list| > 1 then {Next(h.list, Slot(h.list, m))} else {}, if down then {} else {m});
  }

  lemma MovedBlock(free: set<nat>, live: set<nat>, m: nat, n: set<nat>, down: bool)
    requires m in live && free !! live && n <= free
    ensures var free' := free - n + (if down then {} else {m}); var live' := live - {m};
      free' !! live' && free' + live' == free + live - n - (if down then {m} else {})
  {
  }

  lemma ReleasedBlocks(h: Heap, m: nat, up: bool, down: bool)
    requires Inv(h) && m in h.live && Freeable(h, m) && !(up && Slot(h.list, m) + 1 == |h.list| > 1)
    ensures var r := ReleaseWith(h, m, up, down); var next := Next(h.list, Slot(h.list, m));
      && FreeSet(r) !! r.live
      && Blocks(r) == MergedBlocks(Blocks(h), m, next, up && |h.list| > 1, down)
  {
    Neighbours(h, m);
    ReleasedSet(h, m, up, down);
    MovedBlock(FreeSet(h), h.live, m, if up && |h.list| > 1 then {Next(h.list, Slot(h.list, m))} else {}, down);
  }

  lemma ReleasedSizes(h: Heap, m: nat, up: bool, down: bool)
    requires Linked(h) && Freeable(h, m)
    ensures var i := Slot(h.list, m);
      ReleaseWith(h, m, up, down).size == MergedSizes(h.size, h.list[i], m, Next(h.list, i), up && |h.list| > 1, down)
  {
    if |h.list| == 1 { assert h.size[Next(h.list, 0)] == 0; }
  }

  lemma ReleaseTilesIff(h: Heap, m: nat, up: bool, down: bool)
    requires Inv(h) && m in h.live && Freeable(h, m) && (down ==> Slot(h.list, m) > 0)
    requires !(up && Slot(h.list, m) + 1 == |h.list| > 1)
    ensures var r := ReleaseWith(h, m, up, down);
      Tiling(Blocks(r), r.size, r.lo, r.brk) <==> SoundMerges(h, m, up, down)
  {
    Neighbours(h, m);
    ReleasedBlocks(h, m, up, down);
    ReleasedSizes(h, m, up, down);
    var i := Slot(h.list, m);
    MergeTilesIff(Blocks(h), h.size, h.lo, h.brk, h.list[i], m, Next(h.list, i), up && |h.list| > 1, down);
  }

  lemma ReleaseIff(h: Heap, m: nat, up: bool, down: bool)
    requires Inv(h) && m in h.live && Freeable(h, m) && (down ==> Slot(h.list, m) > 0)
    ensures Inv(ReleaseWith(h, m, up, down)) <==> SoundMerges(h, m, up, down)
  {
    Neighbours(h, m);
    ReleasedList(h, m, up, down);
    if !(up && Slot(h.list, m) + 1 == |h.list| > 1) {
      ReleasedBlocks(h, m, up, down);
      ReleaseTilesIff(h, m, up, down);
    }
  }

  lemma DownNeedsBlock(h: Heap, m: nat, scaled: bool)
    requires Inv(h) && m in h.live && Freeable(h, m)
    ensures MergesDown(h, m, scaled) ==> Slot(h.list, m) > 0
  {
    assert m in Blocks(h);
    assert Reach(h.base, 0, scaled) == h.base;
  }

  /** One `free` keeps the invariant exactly when the merges it makes join blocks that touch. */
  lemma ReleaseKeepsTilingIff(h: Heap, m: nat, scaled: bool)
    requires Inv(h) && m in h.live
    ensures Freeable(h, m)
    ensures Inv(Release(h, m, scaled)) <==> SoundMerges(h, m, MergesUp(h, m, scaled), MergesDown(h, m, scaled))
  {
    Neighbours(h, m);
    var up, down := MergesUp(h, m, scaled), MergesDown(h, m, scaled);
    DownNeedsBlock(h, m, scaled);
    ReleaseIff(h, m, up, down);
  }

  /** With byte addresses the tests find exactly the neighbours that touch. */
  lemma BytewiseMergesAreExact(h: Heap, m: nat)
    requires Inv(h) && m in h.live
    ensures Freeable(h, m)
    ensures var i := Slot(h.list, m);
      && (MergesUp(h, m, false) <==> i + 1 < |h.list| && m + h.size[m] == h.list[i + 1])
      && (MergesDown(h, m, false) <==> i > 0 && h.list[i] + h.size[h.list[i]] == m)
    ensures SoundMerges(h, m, MergesUp(h, m, false), MergesDown(h, m, false))
  {
    Neighbours(h, m);
    DownNeedsBlock(h, m, false);
  }

  lemma ScaledReachMisses(a: nat, size: nat)
    requires 0 < size && a + size < WRAP
    ensures Reach(a, size, true) != a + size
  {
    var laps := (a + HEADER * size) / WRAP;
    assert Reach(a, size, true) == a + HEADER * size - laps * WRAP;
    assert 0 <= laps <= 7;
  }

  /** With scaled addresses a test that fires joins blocks that do not touch. */
  lemma ScaledMergesAreWrong(h: Heap, m: nat)
    requires Inv(h) && m in h.live
    ensures Freeable(h, m)
    ensures SoundMerges(h, m, MergesUp(h, m, true), MergesDown(h, m, true)) <==>
      (MergesUp(h, m, true) ==> |h.list| == 1) && !MergesDown(h, m, true)
  {
    Neighbours(h, m);
    var i := Slot(h.list, m);
    ScaledReachMisses(m, h.size[m]);
    if i > 0 { ScaledReachMisses(h.list[i], h.size[h.list[i]]); }
    DownNeedsBlock(h, m, true);
  }
}
