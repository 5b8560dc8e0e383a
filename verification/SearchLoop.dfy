/** The loop of `malloc` over the ring, related to the search it amounts to. */
module SearchLoop {
  import opened Options
  import opened Tilings
  import opened HeapModel
  import opened MallocProofs

  function Reply(replies: seq<bool>): bool {
    |replies| > 0 && replies[0]
  }

  function Rest(replies: seq<bool>): seq<bool> {
    if |replies| > 0 then replies[1..] else []
  }

  /** Looking on from position k, every growth that is going to happen is sound. */
  ghost predicate SafeFrom(h: Heap, k: nat, alloc: nat, replies: seq<bool>, scaled: bool)
    decreases |replies|, if k < |h.list| && h.rover < |h.list| then Steps(|h.list|, k, h.rover) else 0
  {
    k < |h.list| && h.rover < |h.list| && h.list[k] in h.size && (k == 0 ==> !Fits(h, alloc, k)) &&
    (Fits(h, alloc, k)
     || if k != h.rover then SafeFrom(h, NextIndex(|h.list|, k), alloc, replies, scaled)
        else Granted(h, alloc, Reply(replies)) ==>
          CanGrow(h, alloc, scaled) && SafeFrom(Grown(h, alloc, scaled), 0, alloc, Rest(replies), scaled))
  }

  /** The loop of `malloc` that looks at position k next, given what sbrk is going to answer. */
  ghost function Hunt(h: Heap, k: nat, alloc: nat, replies: seq<bool>, scaled: bool, asked: nat): Search
    requires SafeFrom(h, k, alloc, replies, scaled)
    decreases |replies|, Steps(|h.list|, k, h.rover)
  {
    if Fits(h, alloc, k) then Search(h, Some(k), asked)
    else if k != h.rover then Hunt(h, NextIndex(|h.list|, k), alloc, replies, scaled, asked)
    else if !Granted(h, alloc, Reply(replies)) then Search(h, None, asked + 1)
    else Hunt(Grown(h, alloc, scaled), 0, alloc, Rest(replies), scaled, asked + 1)
  }

  // ----- What a growth does to the positions

  /** Below the new rover a growth changes nothing that the search could use. */
  lemma NothingFitsBelow(h: Heap, g: Heap, alloc: nat)
    requires Inv(h) && Inv(g) && GrownFrom(h, g, Request(alloc))
    requires forall i :: 0 <= i < |h.list| - 1 ==> !Fits(h, alloc, i)
    ensures forall i :: 0 <= i < g.rover ==> !Fits(g, alloc, i)
  {
    forall i | 0 <= i < g.rover ensures !Fits(g, alloc, i) {
      assert g.list[i] == h.list[i] < h.list[|h.list| - 1];
      NextIsFree(h, i);
      assert i > 0 ==> h.list[i] in Blocks(h);
      assert h.list[i] in h.size && h.list[i] != h.brk;
      assert !Fits(h, alloc, i);
    }
  }

  /** After one growth only the rover can fit, and it does exactly when the list is as long as before. */
  lemma AfterOnce(h: Heap, alloc: nat, scaled: bool)
    requires CanGrow(h, alloc, scaled) && NoneFits(h, alloc) && Sane(alloc)
    ensures var g := Grown(h, alloc, scaled);
      && (forall i :: 0 <= i < g.rover ==> !Fits(g, alloc, i))
      && (Fits(g, alloc, g.rover) <==> |g.list| == |h.list|)
  {
    var g := Grown(h, alloc, scaled);
    NothingFitsBelow(h, g, alloc);
    assert !Fits(h, alloc, |h.list| - 1);
  }

  lemma AfterAgain(g: Heap, alloc: nat, scaled: bool)
    requires CanGrow(g, alloc, scaled) && Sane(alloc)
    requires |g.list| > 1 && g.list[|g.list| - 1] in g.size && Request(alloc) <= g.size[g.list[|g.list| - 1]]
    requires forall i :: 0 <= i < |g.list| - 1 ==> !Fits(g, alloc, i)
    ensures var g2 := Grown(g, alloc, scaled);
      && (forall i :: 0 <= i < g2.rover ==> !Fits(g2, alloc, i))
      && 0 < g2.rover && Fits(g2, alloc, g2.rover)
  {
    var g2 := Grown(g, alloc, scaled);
    NothingFitsBelow(g, g2, alloc);
    GrowthServes(g, g2, alloc);
  }

  /** After two growths the rover fits, and nothing below it does. */
  lemma AfterTwice(h: Heap, alloc: nat, scaled: bool)
    requires CanGrow(h, alloc, scaled) && NoneFits(h, alloc) && Sane(alloc)
    requires var g := Grown(h, alloc, scaled); |g.list| > |h.list| && CanGrow(g, alloc, scaled)
    ensures var g2 := Grown(Grown(h, alloc, scaled), alloc, scaled);
      && (forall i :: 0 <= i < g2.rover ==> !Fits(g2, alloc, i))
      && 0 < g2.rover && Fits(g2, alloc, g2.rover)
  {
    hide SoundGrowth, Request, Tiling;
    AfterOnce(h, alloc, scaled);
    var g := Grown(h, alloc, scaled);
    assert g.list == h.list + [h.brk] && !Fits(g, alloc, g.rover);
    AfterAgain(g, alloc, scaled);
  }

  // ----- The loop amounts to the search

  lemma InSizes(h: Heap, k: nat)
    requires Inv(h) && k < |h.list|
    ensures h.list[k] in h.size && (k == 0 ==> h.size[h.list[k]] == 0)
  {
    NextIsFree(h, k);
    assert k > 0 ==> h.list[k] in Blocks(h);
  }

  /** Passing positions that do not fit, up to one that does. */
  lemma {:induction false} HuntHits(h: Heap, k: nat, j: nat, alloc: nat, replies: seq<bool>, scaled: bool, asked: nat)
    requires Inv(h) && HEADER <= alloc && k < |h.list| && j < |h.list| && Fits(h, alloc, j)
    requires Steps(|h.list|, k, j) <= Steps(|h.list|, k, h.rover)
    requires forall i :: 0 <= i < |h.list| && Steps(|h.list|, k, i) < Steps(|h.list|, k, j) ==> !Fits(h, alloc, i)
    ensures SafeFrom(h, k, alloc, replies, scaled)
    ensures Hunt(h, k, alloc, replies, scaled, asked) == Search(h, Some(j), asked)
    decreases Steps(|h.list|, k, j)
  {
    InSizes(h, k);
    if k != j {
      StepsShift(|h.list|, k, j);
      StepsShift(|h.list|, k, h.rover);
      var n, k' := |h.list|, NextIndex(|h.list|, k);
      forall i | 0 <= i < n && Steps(n, k', i) < Steps(n, k', j) ensures !Fits(h, alloc, i) {
        if i != k { StepsShift(n, k, i); }
      }
      HuntHits(h, k', j, alloc, replies, scaled, asked);
    }
  }

  lemma StepsShift(n: nat, k: nat, j: nat)
    requires k < n && j < n && k != j
    ensures Steps(n, NextIndex(n, k), j) == Steps(n, k, j) - 1
  {
  }

  /** Passing positions that do not fit, up to the rover, where sbrk is asked. */
  lemma {:induction false} HuntMisses(h: Heap, k: nat, alloc: nat, replies: seq<bool>, scaled: bool, asked: nat)
    requires Inv(h) && k < |h.list|
    requires forall i :: 0 <= i < |h.list| && Steps(|h.list|, k, i) <= Steps(|h.list|, k, h.rover) ==>
      !Fits(h, alloc, i)
    requires Granted(h, alloc, Reply(replies)) ==>
      CanGrow(h, alloc, scaled) && SafeFrom(Grown(h, alloc, scaled), 0, alloc, Rest(replies), scaled)
    ensures SafeFrom(h, k, alloc, replies, scaled)
    ensures Hunt(h, k, alloc, replies, scaled, asked) ==
      if Granted(h, alloc, Reply(replies)) then
        Hunt(Grown(h, alloc, scaled), 0, alloc, Rest(replies), scaled, asked + 1)
      else Search(h, None, asked + 1)
    decreases Steps(|h.list|, k, h.rover)
  {
    InSizes(h, k);
    assert Steps(|h.list|, k, k) == 0;
    if k != h.rover {
      StepsShift(|h.list|, k, h.rover);
      var n, k' := |h.list|, NextIndex(|h.list|, k);
      forall i | 0 <= i < n && Steps(n, k', i) <= Steps(n, k', h.rover) ensures !Fits(h, alloc, i) {
        if i != k { StepsShift(n, k, i); }
      }
      HuntMisses(h, k', alloc, replies, scaled, asked);
    }
  }

  /** A lap from `_base` to the rover on which nothing but perhaps the rover fits. */
  lemma {:induction false} HuntLap(g: Heap, alloc: nat, replies: seq<bool>, scaled: bool, asked: nat)
    requires Inv(g) && HEADER <= alloc && 0 <= g.rover < |g.list|
    requires forall i :: 0 <= i < g.rover ==> !Fits(g, alloc, i)
    requires !Fits(g, alloc, g.rover) && Granted(g, alloc, Reply(replies)) ==>
      CanGrow(g, alloc, scaled) && SafeFrom(Grown(g, alloc, scaled), 0, alloc, Rest(replies), scaled)
    ensures SafeFrom(g, 0, alloc, replies, scaled)
    ensures Hunt(g, 0, alloc, replies, scaled, asked) ==
      if Fits(g, alloc, g.rover) then Search(g, Some(g.rover), asked)
      else if Granted(g, alloc, Reply(replies)) then
        Hunt(Grown(g, alloc, scaled), 0, alloc, Rest(replies), scaled, asked + 1)
      else Search(g, None, asked + 1)
  {
    if Fits(g, alloc, g.rover) {
      HuntHits(g, 0, g.rover, alloc, replies, scaled, asked);
    } else {
      HuntMisses(g, 0, alloc, replies, scaled, asked);
    }
  }

  lemma {:induction false} HuntAfterTwice(h: Heap, alloc: nat, replies: seq<bool>, scaled: bool, asked: nat)
    requires CanGrow(h, alloc, scaled) && NoneFits(h, alloc) && Sane(alloc)
    requires |Grown(h, alloc, scaled).list| > |h.list| && CanGrow(Grown(h, alloc, scaled), alloc, scaled)
    ensures SafeFrom(Grown(Grown(h, alloc, scaled), alloc, scaled), 0, alloc, replies, scaled)
    ensures var g2 := Grown(Grown(h, alloc, scaled), alloc, scaled);
      Hunt(g2, 0, alloc, replies, scaled, asked) == Search(g2, Some(g2.rover), asked)
  {
    AfterTwice(h, alloc, scaled);
    HuntLap(Grown(Grown(h, alloc, scaled), alloc, scaled), alloc, replies, scaled, asked);
  }

  lemma {:induction false} HuntGrowsTwice(h: Heap, alloc: nat, replies: seq<bool>, scaled: bool, asked: nat)
    requires CanGrow(h, alloc, scaled) && NoneFits(h, alloc) && Sane(alloc)
    requires |Grown(h, alloc, scaled).list| > |h.list| && CanGrow(Grown(h, alloc, scaled), alloc, scaled)
    requires Granted(Grown(h, alloc, scaled), alloc, Reply(replies))
    ensures SafeFrom(Grown(h, alloc, scaled), 0, alloc, replies, scaled)
    ensures var g2 := Grown(Grown(h, alloc, scaled), alloc, scaled);
      Hunt(Grown(h, alloc, scaled), 0, alloc, replies, scaled, asked) == Search(g2, Some(g2.rover), asked + 1)
  {
    AfterOnce(h, alloc, scaled);
    HuntAfterTwice(h, alloc, Rest(replies), scaled, asked + 1);
    HuntLap(Grown(h, alloc, scaled), alloc, replies, scaled, asked);
  }

  lemma {:induction false} HuntGrowsOnce(h: Heap, alloc: nat, replies: seq<bool>, scaled: bool, asked: nat)
    requires CanGrow(h, alloc, scaled) && NoneFits(h, alloc) && Sane(alloc)
    requires |Grown(h, alloc, scaled).list| == |h.list| || !Granted(Grown(h, alloc, scaled), alloc, Reply(replies))
    ensures SafeFrom(Grown(h, alloc, scaled), 0, alloc, replies, scaled)
    ensures var g := Grown(h, alloc, scaled);
      Hunt(g, 0, alloc, replies, scaled, asked) ==
      if |g.list| == |h.list| then Search(g, Some(g.rover), asked) else Search(g, None, asked + 1)
  {
    AfterOnce(h, alloc, scaled);
    HuntLap(Grown(h, alloc, scaled), alloc, replies, scaled, asked);
  }

  lemma {:induction false} HuntAfterOnce(h: Heap, alloc: nat, replies: seq<bool>, scaled: bool, asked: nat)
    requires SafeGrowths(h, alloc, Reply(replies), scaled) && NoneFits(h, alloc) && Sane(alloc) && asked == 1
    ensures SafeFrom(Grown(h, alloc, scaled), 0, alloc, replies, scaled)
    ensures Hunt(Grown(h, alloc, scaled), 0, alloc, replies, scaled, asked) ==
      SearchedOn(h, alloc, Reply(replies), scaled)
  {
    var g := Grown(h, alloc, scaled);
    if |g.list| > |h.list| && Granted(g, alloc, Reply(replies)) {
      HuntGrowsTwice(h, alloc, replies, scaled, asked);
    } else {
      HuntGrowsOnce(h, alloc, replies, scaled, asked);
    }
  }

  lemma {:induction false} HuntGranted(h: Heap, alloc: nat, replies: seq<bool>, scaled: bool, asked: nat)
    requires NoneFits(h, alloc) && Sane(alloc) && Granted(h, alloc, Reply(replies)) && asked == 0
    requires SafeGrowths(h, alloc, Reply(Rest(replies)), scaled)
    ensures SafeFrom(h, NextIndex(|h.list|, h.rover), alloc, replies, scaled)
    ensures Hunt(h, NextIndex(|h.list|, h.rover), alloc, replies, scaled, asked) ==
      SearchedOn(h, alloc, Reply(Rest(replies)), scaled)
  {
    HuntAfterOnce(h, alloc, Rest(replies), scaled, asked + 1);
    HuntMisses(h, NextIndex(|h.list|, h.rover), alloc, replies, scaled, asked);
  }

  lemma {:induction false} HuntCounted(h: Heap, alloc: nat, replies: seq<bool>, scaled: bool, asked: nat)
    requires SafeSearch(h, alloc, Reply(replies), Reply(Rest(replies)), scaled) && asked == 0
    ensures SafeFrom(h, NextIndex(|h.list|, h.rover), alloc, replies, scaled)
    ensures Hunt(h, NextIndex(|h.list|, h.rover), alloc, replies, scaled, asked) ==
      Searched(h, alloc, Reply(replies), Reply(Rest(replies)), scaled)
  {
    if !NoneFits(h, alloc) {
      HuntHits(h, NextIndex(|h.list|, h.rover), Found(h, alloc), alloc, replies, scaled, asked);
    } else if Granted(h, alloc, Reply(replies)) {
      HuntGranted(h, alloc, replies, scaled, asked);
    } else {
      HuntMisses(h, NextIndex(|h.list|, h.rover), alloc, replies, scaled, asked);
    }
  }

  /** The loop over the ring and the search described by `Searched` are the same. */
  lemma HuntIsSearch(h: Heap, alloc: nat, replies: seq<bool>, scaled: bool)
    requires SafeSearch(h, alloc, Reply(replies), Reply(Rest(replies)), scaled)
    ensures SafeFrom(h, NextIndex(|h.list|, h.rover), alloc, replies, scaled)
    ensures Hunt(h, NextIndex(|h.list|, h.rover), alloc, replies, scaled, 0) ==
      Searched(h, alloc, Reply(replies), Reply(Rest(replies)), scaled)
  {
    hide Hunt, SafeFrom, Searched;
    HuntCounted(h, alloc, replies, scaled, 0);
  }
}
